# twisted component lifecycle, modelled in Dafny

twisted is a GWT library that finds components in the page markup. A
component is an element carrying the class tokens `Component` and
`ComponentId-<type>`. The library asks a factory to build each one, calls
every component's `init()` once all creation requests have been answered,
and then runs the components one at a time. A component runs only when
nothing it depends on is still outstanding: no component it waits for, and
no missing value or asset in its markup. Ready listeners hear how the page
ended up.

This project models that lifecycle as a functional state machine. Every
object is an immutable record, and every Java method is a pure function
from state to state.

- **`Common`** (`common.dfy`): optional values, the exceptions a call can
  end in, and the `ArrayList` operations the source relies on.
- **`ComponentLog`** (`component_log.dfy`): the KEEP branch of the log, a
  buffer of the last 50 messages.
- **`ComponentQuery`** (`component_query.dfy`): the markup tree and the
  class-token matcher.
  - An element is identified by its path of child indices.
  - The breadth-first `query` is proved against an independent reachability
    definition.
- **`ComponentContainer`** (`component_container.dfy`): everything a
  container reads from its markup.
  - The type tag comes from the class attribute.
  - The nearest enclosing component of an element.
  - The element cache behind `getValue`/`getAsset`.
- **`AsyncTaskList`** (`async_task_list.dfy`): the pull-based task list.
  - `run()` takes a snapshot of the tasks.
  - `next()` advances one task.
  - A failure, given by `fail` or by the watchdog, sticks for the rest of
    the run.
- **`Component`** (`component.dfy`): the dependency node.
  - `dependsOn` is a list that may hold duplicates; `dependedOn` is a list
    without duplicates.
  - Requirements and release.
  - The dependency count and the dependency listing.
  - `shutdown()`.
- **`ComponentRegister`** (`component_register.dfy`): the scheduler.
  - Discovery (`parse`) and the creation requests.
  - Lookups by id and by type.
  - The init phase.
  - Picking the next component to run.
  - `complete()`/`failed()`, ready listeners, timers and removal.
  - One `Event` datatype drives it all, and `Exec` runs a sequence of
    events.
- **`Samples`** (`samples.dfy`): the sample components and the two test
  pages.

Several things the source gets from GWT or the clock are modelled
explicitly instead:

- **Timers.** Every one-millisecond GWT `Timer` the source schedules becomes
  an entry of an explicit FIFO queue. Such a timer is a factory call, a
  component run, a listener call, a task dispatch or the continuation of
  `next()`. The environment fires the earliest entry with `Tick`.
- **Environment answers.** The factory, the components' `run()` bodies, the
  listeners and the watchdog are environment. Their answers arrive as later
  events in any order, or never.
- **HashMap iteration order** is an explicit `order` argument: any listing
  of the element cache's keys.
- **Exceptions.** A Java exception is a `Step(state, Some(fault))` holding
  the state the call left behind.
- **Observation logs.** The register carries three logs the source does not
  keep: `inits`, `started` and `notices`. They record every `init()` call,
  every component run and every listener dispatch, so that properties can
  talk about them.

## Model

| member | source | states |
|---|---|---|
| Common.RemoveFirst | src/twisted/client/Component.java:85-86 | `ArrayList.remove(Object)` drops exactly one occurrence of the element when there is one (the multiset loses one copy, the length drops by one) and returns the list unchanged otherwise |
| ComponentLog.SetDebugLevel | src/twisted/client/ComponentLog.java:69-75 | the level is replaced; afterwards an empty log exists exactly when KEEP is asked for and no log existed, and in every other case the log is null |
| ComponentLog.Trace | src/twisted/client/ComponentLog.java:78-83 | outside KEEP the log is untouched; in KEEP with a null log the call dereferences null; otherwise the message becomes the last entry and the oldest entry is dropped exactly when the log already held 50 |
| ComponentLog.TraceKeepsBound | src/twisted/client/ComponentLog.java:55-82 | a kept log of at most 50 entries still holds at most 50 after a trace |
| ComponentLog.TraceAllKeepsLast | src/twisted/client/ComponentLog.java:78-82 | after any sequence of traces in KEEP mode the log is exactly the last 50 of the old entries followed by the new messages, in order |
| ComponentLog.KeepTwiceThenTraceThrows | src/twisted/client/ComponentLog.java:69-82 | asking for KEEP twice in a row drops the log, so the next trace dereferences null |
| ComponentQuery.IndexOf | src/twisted/client/impl/ComponentQuery.java:101 | `indexOf(pat, from)` is the first occurrence at or after `from`, or -1 when there is none |
| ComponentQuery.MatchesClassTarget | src/twisted/client/impl/ComponentQuery.java:96-127 | a match needs an occurrence of the class name in the attribute, and an attribute equal to the name always matches |
| ComponentQuery.MatchFromOccurs | src/twisted/client/impl/ComponentQuery.java:100-125 | the search loop resumed at an offset succeeds only if the name occurs at or after that offset |
| ComponentQuery.MatchesClassTargetIsToken | src/twisted/client/impl/ComponentQuery.java:96-127 | for a non-empty class name and a class attribute without NUL characters, the matcher succeeds exactly when the name is a whole space-delimited token of the attribute |
| ComponentQuery.MatchFromIsToken | src/twisted/client/impl/ComponentQuery.java:100-125 | the search loop resumed at any offset succeeds exactly when a whole token starts at or after that offset |
| ComponentQuery.DelimitedIsToken | src/twisted/client/impl/ComponentQuery.java:110-121 | at an occurrence of the class name, the four accepted cases (whole string, space or start before, space or end after) hold exactly when the occurrence is a whole token |
| ComponentQuery.SingleTokenMatchesItself | src/twisted/client/impl/ComponentQuery.java:96-127 | a class attribute without spaces matches a class name exactly when the two are equal |
| ComponentQuery.PrefixOccurrenceRejected | src/twisted/client/impl/ComponentQuery.java:113-123 | "Component" found only as the start of "ComponentValue" is not a match |
| ComponentQuery.SearchContinuesPastPrefix | src/twisted/client/impl/ComponentQuery.java:113-123 | after rejecting the occurrence inside "ComponentValue" the search moves on and finds the later whole token "Component" |
| ComponentQuery.NulCountsAsBoundary | src/twisted/client/impl/ComponentQuery.java:114-118 | a NUL character before the occurrence is read as the start of the string, so "\0B C" matches "B" although "B" is not a whole token there |
| ComponentQuery.MatchesIdTarget | src/twisted/client/impl/ComponentQuery.java:130-136 | an element matches an id exactly when its id is present and equal to the key; QueryFindsMatches carries this to every result of an id query |
| ComponentQuery.Bfs | src/twisted/client/impl/ComponentQuery.java:70-90 | the traversal loop returns at most one path per node of the queued subtrees |
| ComponentQuery.BfsCollectsReach | src/twisted/client/impl/ComponentQuery.java:70-90 | the traversal loop, started from any queue of nodes, collects exactly the matching nodes of their subtrees, descending through element nodes only |
| ComponentQuery.BfsByDepth | src/twisted/client/impl/ComponentQuery.java:70-90 | from a queue that spans one depth level, the matches come out with depths that never decrease and are never shallower than the queue's head |
| ComponentQuery.Query | src/twisted/client/impl/ComponentQuery.java:64-93 | the result is null exactly when the root is null, and every path it lists is a proper descendant of the root |
| ComponentQuery.QueryIsReach | src/twisted/client/impl/ComponentQuery.java:64-93 | `query` on a non-null root returns exactly the matching elements below the root, reached through elements only; every one is a proper descendant, so the root itself is never returned |
| ComponentQuery.QueryFindsMatches | src/twisted/client/impl/ComponentQuery.java:64-136 | every result of `query` is an element node of the page that passes the test of the query type: the class name is matched in its class attribute, or its id is present and equal to the key |
| ComponentQuery.ReachMatches | src/twisted/client/impl/ComponentQuery.java:70-90 | every match below a queued node sits at its path in the page as an element that passes the test |
| ComponentQuery.QueryIsBreadthFirst | src/twisted/client/impl/ComponentQuery.java:70-90 | `query` lists shallower matches before deeper ones |
| ComponentQuery.GetLength | src/twisted/client/impl/ComponentQuery.java:139-144 | `getLength` is the number of matches; it is defined only on a non-null result, since the callers dereference the result of `query` |
| ComponentQuery.GetItem | src/twisted/client/impl/ComponentQuery.java:147-152 | `getItem(i)` is the i-th match, for an index below the length |
| ComponentQuery.Contains | src/twisted/client/impl/ComponentQuery.java:155-157 | `contains(e)` holds exactly when `e` is among the matches; the result must not be null |
| ComponentQuery.AccessorsAgree | src/twisted/client/impl/ComponentQuery.java:139-157 | every index below `getLength` gives an item; `contains` holds for that item; the item is one of the matches below the root |
| ComponentQuery.NullRootQuery | src/twisted/client/impl/ComponentQuery.java:64-66 | a null root yields a null result rather than an empty list |
| ComponentContainer.Split | src/twisted/client/ComponentContainer.java:87 | `split(" ")` yields at least one piece and no piece contains a space |
| ComponentContainer.SplitIsTokens | src/twisted/client/ComponentContainer.java:87-92 | a space-free non-empty string is a piece of `split(" ")` exactly when it is a whole token in the sense of the class matcher |
| ComponentContainer.FirstWithPrefix | src/twisted/client/ComponentContainer.java:88-92 | the scan stops at the first token with the prefix: that token has it, no earlier token does, and None means no token does |
| ComponentContainer.GetComponentId | src/twisted/client/ComponentContainer.java:84-96 | a null class name gives null; otherwise the result is the suffix of the first token starting with "ComponentId-", and null means no token starts with it |
| ComponentContainer.ComponentIdIsToken | src/twisted/client/ComponentContainer.java:84-96 | the type tag found is a whole class token of the attribute |
| ComponentContainer.NoComponentIdToken | src/twisted/client/ComponentContainer.java:84-96 | a null answer means that no whole class token starts with "ComponentId-" |
| ComponentContainer.SkipToken | src/twisted/client/ComponentContainer.java:88-92 | a leading token that does not start with "ComponentId-" does not change the answer |
| ComponentContainer.LoneTag | src/twisted/client/ComponentContainer.java:89-90 | a single "ComponentId-v" token yields v |
| ComponentContainer.SampleTypeTag | test/twisted/client/ComponentContainerTests.java:50-55 | the class attribute "style1 style2 Component ComponentId-Sample" of the test's sample component has type "Sample" |
| ComponentContainer.GetType | src/twisted/client/ComponentContainer.java:72-82 | the first call reads the type tag of the root's class attribute ("" when there is none) and caches it; later calls return the cached value |
| ComponentContainer.GetTypeIsStable | src/twisted/client/ComponentContainer.java:72-82 | once asked, the type stays the same even when the markup changes |
| ComponentContainer.IsComponentRoot | src/twisted/client/ComponentContainer.java:314-323 | an element is a component root when its class attribute contains "Component" and one of its `split(" ")` pieces equals "Component"; IsComponentRootIsToken reduces this to a whole class token |
| ComponentContainer.IsComponentRootIsToken | src/twisted/client/ComponentContainer.java:313-325 | the `contains("Component")` pre-check changes nothing: an element is a component root exactly when "Component" is a whole class token |
| ComponentContainer.Top | src/twisted/client/ComponentContainer.java:312-326 | the ancestors from the parent up to the returned depth are all elements, and the one just above, if any, is not: that is where `getParentElement` returns null |
| ComponentContainer.NearestAncestor | src/twisted/client/ComponentContainer.java:310-329 | the walk up the ancestors returns the nearest proper ancestor that passes the test, with only non-passing elements in between; None means no ancestor passes before the walk reaches a non-element or the top |
| ComponentContainer.GetParentComponent | src/twisted/client/ComponentContainer.java:310-329 | `getParentComponent(e)` is the nearest proper ancestor that is a component root, reached through elements only; null means no component root lies between `e` and the first non-element ancestor or the top |
| ComponentContainer.KeepOwned | src/twisted/client/ComponentContainer.java:300-305 | the filter keeps exactly the id matches that are also type matches and whose nearest component is `root` |
| ComponentContainer.GetElementsNoCache | src/twisted/client/ComponentContainer.java:294-307 | a limit of zero or less yields nothing; any positive limit yields every element that matches both classes and whose nearest component is `root`, because `found` is never incremented |
| ComponentContainer.NoCacheIgnoresLimit | src/twisted/client/ComponentContainer.java:298-305 | any two positive limits give the same list |
| ComponentContainer.OwnedElementsAreReach | src/twisted/client/ComponentContainer.java:294-307 | with a positive limit, the owned elements are exactly the elements below `root` that carry both class tokens and whose nearest enclosing component is `root` |
| ComponentContainer.GetElements | src/twisted/client/ComponentContainer.java:278-285 | the cached list is returned unless nothing is cached under the key or the cached list is longer than `limit`; only then is the list recomputed, and it is stored under a key that leaves out `root` |
| ComponentContainer.GetElementsRepeatable | src/twisted/client/ComponentContainer.java:278-285 | asking twice with the same arguments gives the same list and leaves the container as the first call left it |
| ComponentContainer.CacheIgnoresRoot | src/twisted/client/ComponentContainer.java:278-285 | once a list is cached, a call with another root but a large enough limit returns that list, whatever lies below the new root |
| ComponentContainer.GetValues | src/twisted/client/ComponentContainer.java:261-270 | a null id gives an empty list and leaves the cache alone; otherwise the result is the inner HTML of each owned value element, in order |
| ComponentContainer.GetValue | src/twisted/client/ComponentContainer.java:252-258 | `getValue` is the first of `getValues(id, 1)`, and null exactly when that list is empty |
| ComponentContainer.GetAssets | src/twisted/client/ComponentContainer.java:133-136 | `getAssets` keeps the container's root and type; answered from the markup, it caches its answer, and every asset is an element below `root` carrying the asset class and the id class whose nearest component is `root` |
| ComponentContainer.GetAsset | src/twisted/client/ComponentContainer.java:124-130 | `getAsset` is the first of `getAssets(id, 1)`, and null exactly when that list is empty |
| ComponentContainer.GetAssetAgreesWithMarkup | src/twisted/client/ComponentContainer.java:114-136 | on the container's own root with a current cache entry, `getAsset` finds an asset exactly when the markup holds an owned one, and the entry stays current |
| ComponentContainer.GetValueAgreesWithMarkup | src/twisted/client/ComponentContainer.java:242-270 | the same for `getValue`, and the value found is the inner HTML of the first owned value element |
| ComponentContainer.ZeroLimitCachesNothingFound | src/twisted/client/ComponentContainer.java:247-285 | `getValues(id, 0)` caches an empty list, and a later `getValue(id)` returns null even when the value is in the markup |
| Component.NewComp | src/twisted/client/Component.java:324-327 | a new component has no dependencies, no waiter list, no required names and has not run |
| Component.TypeOf | src/twisted/client/ComponentContainer.java:72-82 | a component's type is the type tag of its root element, or "" when the root has none |
| Component.Active | src/twisted/client/Component.java:258-260 | `active()` reports whether `complete()` or `failed()` has run; Complete, Failed and RunEndsOnce state how it changes |
| Component.RegisterWaitIntent | src/twisted/client/Component.java:75-80 | the waiter list is allocated if needed; `waiting` is appended unless already present; nothing else of the component changes |
| Component.RegisterWaitIntentKeepsShape | src/twisted/client/Component.java:75-80 | the waiter list never holds a component twice, is never allocated empty, and is only ever extended |
| Component.ComponentReadyOn | src/twisted/client/Component.java:83-88 | `componentReady(resolved)` removes one occurrence of `resolved` from `dependsOn` when there is one, and nothing else |
| Component.RequireComponentInstance | src/twisted/client/Component.java:112-119 | a null or active target changes nothing; otherwise the target is appended to `dependsOn`, even when already there, and `self` is registered as a waiter of the target; no other component changes |
| Component.RequireValueOn | src/twisted/client/Component.java:138-142 | the name is appended to the required values and nothing else changes |
| Component.RequireAssetOn | src/twisted/client/Component.java:131-135 | the name is appended to the required assets and nothing else changes |
| Component.ReleaseAll | src/twisted/client/Component.java:150-158 | releasing along a list of waiters touches only their `dependsOn` lists and leaves every other component as it was |
| Component.ReleaseAllCounts | src/twisted/client/Component.java:150-158 | each component loses as many occurrences of the resolved component as it is listed among the waiters, as far as it has any, and keeps all its other dependencies |
| Component.NotifyWaiting | src/twisted/client/Component.java:150-158 | `notifyWaiting()` changes only the dependency lists of the waiters; every waiter list, and which components have run, stay as they were |
| Component.NotifyWaitingReleasesOnce | src/twisted/client/Component.java:150-158 | with a waiter list in shape, each waiter loses exactly one occurrence of the notifying component, and all other dependencies stay |
| Component.Present | src/twisted/client/ComponentContainer.java:114-130 | whether `getAsset(name)` or `getValue(name)` finds anything, read from the markup; GetAssetAgreesWithMarkup and GetValueAgreesWithMarkup show the cached answer agrees |
| Component.CountMissing | src/twisted/client/Component.java:168-180 | the count of absent names never exceeds the number of names, and is zero exactly when every name is present |
| Component.MissingNames | src/twisted/client/Component.java:203-218 | the listed names are exactly the required names whose value or asset is absent |
| Component.CountMissingIsListed | src/twisted/client/Component.java:168-218 | counting absent names, duplicates included, gives the length of the listing of absent names |
| Component.DependencyCount | src/twisted/client/Component.java:161-184 | while components are waited for the count is their number, duplicates included; when none are, it is the length of the `getDependencies()` listing, that is, the number of absent assets plus absent values |
| Component.Dependencies | src/twisted/client/Component.java:192-220 | the listing holds every waited-for component, every absent required asset and every absent required value, and nothing else |
| Component.CountAgreesWithDependencies | src/twisted/client/Component.java:161-220 | the count is zero exactly when the listing is empty and never exceeds its length; while components are waited for, the markup does not affect the count |
| Component.RequiredTwice | src/twisted/client/Component.java:112-119 | requiring the same component twice records it twice in `dependsOn` but registers `self` as its waiter once |
| Component.DuplicateRequireNeverReleased | src/twisted/client/Component.java:83-119 | after a double requirement, the target's one `notifyWaiting()` releases one occurrence only, so the requiring component keeps a positive dependency count |
| Component.Shutdown | src/twisted/client/Component.java:281-284 | the default `shutdown()` returns only for an allocated empty waiter list and dereferences null for an unallocated one; overrides return or throw as they are written |
| Component.DefaultShutdownNeverSucceeds | src/twisted/client/Component.java:281-284 | since a waiter list is never allocated empty, the default `shutdown()` always throws |
| Component.OperationsKeepShape | src/twisted/client/Component.java:112-158 | requiring and notifying keep every waiter list in shape |
| Component.RequireKeepsShaped | src/twisted/client/Component.java:112-119 | `requireComponentInstance` keeps every waiter list of the heap in shape |
| AsyncTaskList.New | src/twisted/client/utils/AsyncTaskList.java:44-46 | a new list has no tasks, no run, no failure, no timer and the default timeout |
| AsyncTaskList.AddTask | src/twisted/client/utils/AsyncTaskList.java:53-55 | the task is appended and a run in progress is unaffected |
| AsyncTaskList.SetTimeout | src/twisted/client/utils/AsyncTaskList.java:70-72 | only the timeout changes; it takes effect at the next `run()` |
| AsyncTaskList.OnTimeout | src/twisted/client/utils/AsyncTaskList.java:75-79 | the timer is dropped and the failure becomes the timeout, and nothing else changes |
| AsyncTaskList.RunNextTask | src/twisted/client/utils/AsyncTaskList.java:114-130 | a non-empty snapshot loses its head, which becomes the current task and is dispatched with the current failure, or with success when there is none; an empty snapshot clears the current task and the timer |
| AsyncTaskList.Run | src/twisted/client/utils/AsyncTaskList.java:83-111 | the failure is reset; the timer is scheduled only for a positive timeout; the task list is kept; the first task is dispatched with success, and the rest form the snapshot |
| AsyncTaskList.Next | src/twisted/client/utils/AsyncTaskList.java:148-155 | exactly one deferred step is posted and nothing is dispatched now |
| AsyncTaskList.Fail | src/twisted/client/utils/AsyncTaskList.java:137-140 | the failure is replaced by the given one and one deferred step is posted |
| AsyncTaskList.Tick | src/twisted/client/utils/AsyncTaskList.java:148-155 | a firing task timer hands control to the task's own code; a firing continuation of `next()` runs the next task |
| AsyncTaskList.Apply | src/twisted/client/utils/AsyncTaskList.java:53-155 | only `addTask` changes the task list, by appending its task, and only `setTimeout` changes the timeout |
| AsyncTaskList.Exec | src/twisted/client/utils/AsyncTaskList.java:53-155 | across any run of events the task list is only ever extended: the old list stays a prefix |
| AsyncTaskList.RunStartsInOrder | src/twisted/client/utils/AsyncTaskList.java:83-111 | `run()` starts an in-order walk: dispatched tasks followed by the snapshot make up the task list |
| AsyncTaskList.ApplyKeepsOrder | src/twisted/client/utils/AsyncTaskList.java:114-130 | every event other than `run()` keeps the walk in order, dispatches at most one task, and only when a timer fires |
| AsyncTaskList.ExecKeepsOrder | src/twisted/client/utils/AsyncTaskList.java:114-130 | any sequence of events without `run()` keeps the walk in order and never rewrites an earlier dispatch |
| AsyncTaskList.DispatchedInInsertionOrder | src/twisted/client/utils/AsyncTaskList.java:101-119 | after `run()`, whatever happens short of another `run()`, the tasks dispatched so far are a prefix of the task list as it was at `run()`, so tasks added later do not join the run |
| AsyncTaskList.RunIsRepeatable | src/twisted/client/utils/AsyncTaskList.java:101-108 | a second `run()` starts the same walk as the first, whatever happened in between without adding tasks |
| AsyncTaskList.TasksUnchanged | src/twisted/client/utils/AsyncTaskList.java:101-105 | only `addTask` changes the task list; running the tasks never consumes it |
| AsyncTaskList.FailureIsSticky | src/twisted/client/utils/AsyncTaskList.java:119-124 | once the run has failed, every later dispatch hands over that failure, until something restarts the run or replaces the failure |
| AsyncTaskList.FailReachesRemainingTasks | src/twisted/client/utils/AsyncTaskList.java:137-140 | `fail(t)` hands `t` to every task dispatched after it in this run |
| AsyncTaskList.TimeoutReachesRemainingTasks | src/twisted/client/utils/AsyncTaskList.java:75-79 | after the watchdog fires, every later dispatch of this run receives the timeout failure |
| AsyncTaskList.CycleStep | src/twisted/client/utils/AsyncTaskList.java:148-155 | the task's callback firing, its `next()` call and the continuation firing dispatch the next task of the snapshot with success; at the end of the snapshot they clear the current task and the timer |
| AsyncTaskList.DrainDispatchesAll | src/twisted/client/utils/AsyncTaskList.java:114-155 | when every task calls `next()` once, the rest of the snapshot is dispatched in order with success, and the list ends with no task, no timer and nothing pending |
| AsyncTaskList.RunDispatchesAllInOrder | src/twisted/client/utils/AsyncTaskList.java:83-155 | `run()` followed by one `next()` per task dispatches every task once, in insertion order, with success, and ends with no task and no timer |
| ComponentRegister.NewRegister | src/twisted/client/ComponentRegister.java:53-93 | a new register has empty caches, no requests, no listeners, no run list, nothing running, no timer, and is not failed |
| ComponentRegister.Uncached | src/twisted/client/ComponentRegister.java:109-116 | the elements kept for a request are exactly the found elements that have no cached component |
| ComponentRegister.RequestsAreUncached | src/twisted/client/ComponentRegister.java:109-137 | the request loop makes exactly one factory call per uncached element, in query order, each under a fresh request id |
| ComponentRegister.IssueRequests | src/twisted/client/ComponentRegister.java:109-137 | every new request id is recorded as outstanding, and one factory call per uncached element joins the pending timers |
| ComponentRegister.Found | src/twisted/client/ComponentRegister.java:107 | every element `parse` finds is an element below the root whose class attribute matches "Component" |
| ComponentRegister.ParseRoot | src/twisted/client/ComponentRegister.java:102-117 | `parse` on a non-null root clears `failed`, schedules the timer if there is one, and requests creation for exactly the found elements without a cached component, leaving the components and caches alone |
| ComponentRegister.Parse | src/twisted/client/ComponentRegister.java:102-117 | on a null root `parse` clears `failed` and schedules the timer, then throws when it reads the length of the null query result; otherwise it is ParseRoot and does not throw |
| ComponentRegister.NullParseThrows | src/twisted/client/ComponentRegister.java:102-108 | `parse(null)` throws after clearing `failed`, having requested nothing and touched no component or cache |
| ComponentRegister.ReparseRequestsNothing | src/twisted/client/ComponentRegister.java:102-117 | parsing again a part of the page whose components all exist issues no request, schedules no factory call, and changes nothing but `failed` and the timer |
| ComponentRegister.GetComponentById | src/twisted/client/ComponentRegister.java:140-143 | the lookup finds a component exactly when the id is cached, and then finds the cached one |
| ComponentRegister.GetComponentByType | src/twisted/client/ComponentRegister.java:146-156 | the lookup returns the first cached component of the type in iteration order, or null when no listed key holds one |
| ComponentRegister.ByTypeFoundIffCached | src/twisted/client/ComponentRegister.java:146-156 | whether a component of a type is found does not depend on the iteration order: it is found exactly when one is cached |
| ComponentRegister.ByTypeIgnoresBookkeeping | src/twisted/client/ComponentRegister.java:146-156 | `init()` bookkeeping never changes which component a type lookup finds |
| ComponentRegister.RequireGrows | src/twisted/client/Component.java:112-119 | requiring a component never removes a dependency of any component |
| ComponentRegister.RunAction | src/twisted/client/Component.java:97-142 | one `init()` statement throws exactly when it requires an unknown id, and then changes nothing; otherwise it touches only dependency bookkeeping and loses no dependency |
| ComponentRegister.RunScript | src/twisted/client/Component.java:97-142 | an `init()` body touches only dependency bookkeeping, loses no dependency, and throws only if it requires some component by id |
| ComponentRegister.Inactive | src/twisted/client/ComponentRegister.java:195-206 | the collected components are cached components that have not run |
| ComponentRegister.RunInit | src/twisted/client/ComponentRegister.java:195-206 | `runComponentInit` touches only dependency bookkeeping, and without an exception returns the inactive components in iteration order |
| ComponentRegister.InactiveOf | src/twisted/client/ComponentRegister.java:195-206 | the run list holds exactly the cached components that have not run, each once |
| ComponentRegister.RunInitFaultNeedsInactive | src/twisted/client/ComponentRegister.java:195-206 | an `init()` can only throw when some component is initialised |
| ComponentRegister.InitPhase | src/twisted/client/ComponentRegister.java:187-206 | without an exception the new run list is the inactive components, each of which gets one `init()` call; an exception leaves the old run list |
| ComponentRegister.CreationComplete | src/twisted/client/ComponentRegister.java:187-192 | nothing happens while requests are outstanding; otherwise the init phase builds the run list and the first `componentReady(null)` follows, with the caches unchanged |
| ComponentRegister.InitPhaseRunsEachOnce | src/twisted/client/ComponentRegister.java:187-206 | once no request is outstanding, the init phase calls `init()` exactly once on each inactive cached component and on nothing else, and those components form the run list |
| ComponentRegister.FirstReady | src/twisted/client/ComponentRegister.java:249-255 | the chosen entry is the first in the run list with a dependency count of zero; None means every entry waits |
| ComponentRegister.ReadyErrorOf | src/twisted/client/ComponentRegister.java:398-412 | listeners get an error exactly when creation failed or a timer is still set, creation failure taking precedence |
| ComponentRegister.InvokeReadyCallbacks | src/twisted/client/ComponentRegister.java:398-412 | every attached listener gets one deferred call, in attachment order, all with the same outcome, and the listener list is kept |
| ComponentRegister.ScheduleNext | src/twisted/client/ComponentRegister.java:249-270 | the first ready entry is started; when none is ready the listeners are called, and the timer is cancelled only for an empty run list |
| ComponentRegister.ComponentReady | src/twisted/client/ComponentRegister.java:232-271 | with no run list nothing changes; otherwise nothing is running any more, a non-null target releases its waiters and leaves the run list, and the next component is looked for |
| ComponentRegister.ReadyOutcome | src/twisted/client/ComponentRegister.java:256-269 | when no entry is ready, listeners hear creation failure if it was recorded, otherwise a timeout error exactly when a timer is set and the run list is not empty, otherwise success |
| ComponentRegister.CacheNew | src/twisted/client/ComponentRegister.java:165-169 | the new component is always cached by its element, and by id only when the element's id is non-null and non-empty |
| ComponentRegister.CrossOff | src/twisted/client/ComponentRegister.java:170-173 | the request is removed if known, unknown ids are ignored, and the step loses no dependency and starts only components with no component dependency |
| ComponentRegister.ComponentCreated | src/twisted/client/ComponentRegister.java:165-174 | the component is cached, its request is crossed off if known, and when no request is left the init phase runs |
| ComponentRegister.MarkFailed | src/twisted/client/ComponentRegister.java:177-184 | `failed` is set only when nothing before it threw |
| ComponentRegister.ComponentCreationFailed | src/twisted/client/ComponentRegister.java:177-184 | the request is crossed off if known; when none is left the init phase runs before `failed` is set |
| ComponentRegister.LastCreationFailureReportsSuccess | src/twisted/client/ComponentRegister.java:177-184 | when the last request fails and nothing is left to initialise, every listener is told success, and only afterwards is `failed` recorded |
| ComponentRegister.InitPhaseTwice | src/twisted/client/ComponentRegister.java:170-206 | a creation callback arriving after an init phase runs the init phase again over the same components |
| ComponentRegister.LateCallbackRerunsInit | src/twisted/client/ComponentRegister.java:170-206 | a late or duplicate creation callback gives every component that is still inactive a second `init()` call |
| ComponentRegister.ComponentFailed | src/twisted/client/ComponentRegister.java:215-220 | with no run list the call dereferences null; otherwise the target leaves the run list without releasing its waiters, and then the next component is looked for |
| ComponentRegister.Complete | src/twisted/client/Component.java:242-247 | the first `complete()` reports readiness to the register and then marks the component as run; afterwards the component is active and further calls change nothing |
| ComponentRegister.Failed | src/twisted/client/Component.java:250-255 | the first `failed()` reports failure to the register and then marks the component as run, unless the report throws |
| ComponentRegister.RunEndsOnce | src/twisted/client/Component.java:242-260 | after `complete()` or `failed()`, both are no-ops |
| ComponentRegister.FailureStallsDependents | src/twisted/client/ComponentRegister.java:215-220 | when a component that others wait on fails, its dependents keep it in `dependsOn` |
| ComponentRegister.ApplyKeepsStall | src/twisted/client/ComponentRegister.java:215-259 | no event releases a component waiting on one that has already run, and none starts it |
| ComponentRegister.StallIsPermanent | src/twisted/client/ComponentRegister.java:215-259 | a component waiting on one that has already run stays waiting and is never started, whatever happens afterwards |
| ComponentRegister.SetTimeout | src/twisted/client/ComponentRegister.java:294-308 | an unscheduled watchdog replaces any timer, and the timeout is set |
| ComponentRegister.SetCustomTimeout | src/twisted/client/ComponentRegister.java:316-321 | the given timer, possibly null, replaces any timer, and the timeout is set |
| ComponentRegister.WatchdogFires | src/twisted/client/ComponentRegister.java:299-305 | the watchdog records creation failure, so every listener is called with that error, then clears the timer and the timeout |
| ComponentRegister.AttachReadyListener | src/twisted/client/ComponentRegister.java:393-395 | the listener is appended and nothing else changes |
| ComponentRegister.RemoveComponent | src/twisted/client/ComponentRegister.java:363-371 | `shutdown()` runs first; if it throws, both caches stay as they were; otherwise the component's element entry and id entry are dropped |
| ComponentRegister.PurgeComponents | src/twisted/client/ComponentRegister.java:379-384 | without an exception no cached component of the type remains; the caches only shrink; and nothing else changes |
| ComponentRegister.Tick | src/twisted/client/ComponentRegister.java:274-283 | the earliest pending timer fires; a component run records the component as running |
| ComponentRegister.Apply | src/twisted/client/ComponentRegister.java:102-395 | no event changes the page, and no component disappears from the heap |
| ComponentRegister.Exec | src/twisted/client/ComponentRegister.java:102-395 | across any run of events the page stays the same and every component stays in the heap, on the element it was created for when the register starts valid |
| ComponentRegister.ApplyKeepsRoots | src/twisted/client/ComponentRegister.java:165-174 | no event drops a component or moves it to another element |
| ComponentRegister.ApplyKeepsShape | src/twisted/client/Component.java:75-80 | no event breaks the shape of a waiter list: an allocated list stays non-empty and free of duplicates |
| ComponentRegister.ExecKeepsShape | src/twisted/client/Component.java:75-80 | any run of events keeps every waiter list in shape, so the default `shutdown()` keeps refusing |
| ComponentRegister.ApplyKeepsValid | src/twisted/client/ComponentRegister.java:53-89 | every event keeps the register's references sound: every cached or listed component exists, and an element entry names the component on that element |
| ComponentRegister.ExecKeepsValid | src/twisted/client/ComponentRegister.java:53-89 | any run of events keeps the register's references sound |
| Samples.SampleFactory | test/twisted/client/sample/SampleFactory.java:10-24 | the factory builds a SampleA script or the leaf script, and nothing for other types |
| Samples.SampleFactoryAnswers | test/twisted/client/sample/SampleFactory.java:10-24 | the factory answers exactly for SampleA, SampleB and SampleC |
| Samples.LeafInit | test/twisted/client/sample/SampleB.java:19-22 | the SampleB and SampleC `init()` never throws, adds `Value1` and `Asset1` to the required names and adds no component dependency |
| Samples.FreshLeafInit | test/twisted/client/sample/SampleC.java:19-22 | on a fresh component it yields a component needing exactly `Value1` and `Asset1` |
| Samples.LeafReadyIffMarkupPresent | test/twisted/client/sample/SampleB.java:19-22 | such a component is ready exactly when its container holds both `Value1` and `Asset1` |
| Samples.MissingOne | src/twisted/client/Component.java:168-180 | a single required name counts once when absent and not at all when present |
| Samples.SampleAWithoutB | test/twisted/client/sample/SampleA.java:19-20 | SampleA's `init()` dereferences null at its first statement when no component has the id `IdSetToB`, and changes nothing |
| Samples.SampleARequires | test/twisted/client/sample/SampleA.java:20-22 | with `IdSetToB` and a `SampleC` cached and not yet run, the first statements make SampleA depend on both, in that order |
| Samples.SampleAPrefix | test/twisted/client/sample/SampleA.java:19-25 | after its two component requirements, SampleA's `init()` continues as the leaf script |
| Samples.SampleAInit | test/twisted/client/sample/SampleA.java:19-25 | SampleA's `init()` on a fresh component depends on the `IdSetToB` component and a `SampleC`, and requires `Value1` and `Asset1` |
| Samples.RequireIdStep | src/twisted/client/Component.java:97-103 | `requireComponent(id)` on a cached component that has not run appends it to `dependsOn` |
| Samples.RequireTypeStep | test/twisted/client/sample/SampleA.java:21-22 | requiring the instance found by type appends it to `dependsOn` when it has not run |
| Samples.MissingValueTimesOut | test/twisted/client/ComponentRegisterTests.java:45-70 | on the page where SampleC lacks `Value1`, once the run list is SampleA and SampleC nothing can start, and with the external timer set every listener hears that the timeout is pending |
| Samples.PresentMarkupStartsLeaf | test/twisted/client/ComponentRegisterTests.java:18-43 | on the good page, a last run-list entry whose markup is all present is the one started |

## Left out

- GWT timers carry no real time. A timer is an entry of a FIFO queue fired by `Tick`. The watchdog, the external timer, the factory, the components' `run()` bodies and the listeners are events of the environment.
- `createRequestId` builds ids from the clock and a random number. The model draws them from a counter, which keeps every id fresh.
- Logging is left out: the messages of `ComponentLog.trace` calls from the register and components, `GWT.log`, and the APPEND, ALERT and RAISE branches. So are `trace(JavaScriptObject)` and `exception`. Every caller assumes `trace` returns. It throws in KEEP mode with a null log, which asking for KEEP twice produces (ComponentLog.KeepTwiceThenTraceThrows), and the register tests do ask twice. The lines below name what a throwing trace would change.
- ComponentRegister.ComponentCreationFailed: a throwing trace at line 182 would skip `failed = true`; the model always sets it (likewise ComponentRegister.MarkFailed).
- ComponentRegister.ComponentFailed: a throwing trace at line 218 would skip `componentReady(null)`, so no next component would be looked for; ComponentRegister.Failed would then also skip `hasRun = true`.
- ComponentRegister.WatchdogFires: a throwing trace inside `componentAudit` (lines 324-351) would skip clearing the timer and the timeout.
- ComponentRegister.RunAction: the trace for an unknown id (Component.java line 100) would throw before the null dereference, and the trace for an unknown type (line 125) would make that statement throw instead of doing nothing.
- ComponentContainer.GetType: a throwing trace for a missing type tag would skip caching "".
- AsyncTaskList.OnTimeout: its trace runs after the timer and failure are set, so a throwing trace changes no field; the exception itself is not modelled.
- AsyncTaskList.RunNextTask: the task list holds tasks, never a null entry. A null entry in the source would end the run early: the task and the timer are cleared, and the rest of the snapshot is never dispatched.
- `componentAudit` only logs, and its return value is never used.
- The event listeners and the frame classes are GWT widget binding, and are left out.
- `CommonEvents` helpers, `ComponentUtils` and the servlet are left out.
- `ComponentContainer.setValue`, `injectComponentId`, `injectComponentValue` and `injectComponentAsset` mutate the DOM. The page is fixed in the model.
- `getElementById` is left out. It is an id query, which `ComponentQuery.Query` covers with `ById`.
- `parse()` without an argument is `parse(root)` on the body element.
- `getComponent(Element)` is a plain cache lookup, folded into `ComponentRegister.Uncached`.
- ComponentQuery.MatchesClassTarget: an empty class name is not modelled. Every caller in the modelled core passes a non-empty name: "Component" in `parse`, and "ComponentValue", "ComponentAsset" and "ComponentId-" followed by a name in `getElementsNoCache`. With an empty name `indexOf` succeeds at every offset, and past the end of the attribute it keeps returning the end. So the loop ends once some offset is accepted, for instance a space at either end of the attribute, and otherwise never ends.
- ComponentQuery.MatchesClassTargetIsToken: holds only for class attributes without a NUL character; NulCountsAsBoundary shows why.
- ComponentContainer.Split: keeps the trailing empty pieces that Java's `split` drops. An empty piece neither starts with "ComponentId-" nor equals "Component", so no result changes.
- ComponentRegister.Parse: a parse while creation requests are still outstanding is not modelled. It is a precondition, and the event is ignored in `Apply`.
- ComponentQuery.GetLength: the branch for a null internal list is unreachable, since `query` always builds its list; a null `query` result is what `parse(null)` dereferences, modelled in ComponentRegister.Parse.
- Component.DependencyCount: reads whether a value or asset is present from the markup, not through the container's cache. GetAssetAgreesWithMarkup and GetValueAgreesWithMarkup show that the two agree while the cache entry is current. A cache filled from another root is not modelled here.
- Component.TypeOf: reads the type tag afresh instead of through the container's cached type. The page never changes in the model, so the two agree.
- Component.ReleaseAll: skips a dangling reference. The source has none, since every reference is a live object.
- AsyncTaskList.New: the static `defaultTimeout` and `setDefaultTimeout` become a parameter of `New`.
- ComponentRegister.PurgeComponents: after a removal the remaining keys keep their relative order in `order`. A Java HashMap may reorder them, which is not modelled.
- ComponentRegister.Tick: a task callback, a factory call or a listener call runs environment code, so it is left to later events.
- ComponentRegister.Apply ignores events that cannot happen in the current state: an unknown component, no pending timer, an `order` that does not list the cache.
- Samples.SampleFactory: any other type gets no answer at all. Neither `componentCreated` nor `componentCreationFailed` follows.
