/** The register that discovers components in the markup, asks the factory
    for them, runs their init phase once all requested creations have
    answered, and then runs them one at a time in dependency order.

    Every one-millisecond GWT timer the source schedules (a factory request,
    a component run, a listener call) becomes an entry of the FIFO
    `deferred`; the environment fires the earliest with `Tick`. The factory,
    the components' `run()` bodies and the listeners are environment too:
    they answer with later events. HashMap iteration order is an explicit
    `order` argument, any listing of the element cache's keys. */
module ComponentRegister {
  import opened Common
  import opened ComponentQuery
  import opened ComponentContainer
  import opened Component

  /** A creation request id; the source makes one from the clock and a
      random number, here it is drawn from a counter. */
  type RequestId = nat

  type ListenerId = nat

  /** The two exceptions a ready listener can be failed with. */
  datatype ReadyError = CreationFailed | TimeoutPending

  /** `timer`: the watchdog made by `setTimeout(int)`, or a timer handed in
      by `setTimeout(Timer, int)`; `scheduled` once `parse` scheduled it. */
  datatype TimerKind = Watchdog | External
  datatype Timer = Timer(kind: TimerKind, scheduled: bool)

  /** One call of a ready listener: success or failure with `error`. */
  datatype Notice = Notice(listener: ListenerId, error: Option<ReadyError>)

  /** A pending one-millisecond timer. */
  datatype Deferred =
    | CreateRequest(element: Path, request: RequestId)   // factory.createComponent
    | RunComponent(target: CompRef)                       // running := target; target.run()
    | NotifyListener(notice: Notice)                      // the listener callback

  /** The fields of the register, plus three observation logs that the
      source does not keep: `inits` (every `init()` call), `started` (every
      `runComponentAsync`) and `notices` (every listener dispatch). */
  datatype Register = Register(
    doc: Node,
    heap: Heap,
    nextRef: CompRef,
    elementCache: map<Path, CompRef>,
    idCache: map<string, CompRef>,
    componentRequests: seq<RequestId>,
    nextRequest: RequestId,
    listeners: seq<ListenerId>,
    runList: Option<seq<CompRef>>,
    running: Option<CompRef>,
    timer: Option<Timer>,
    timeout: int,
    failed: bool,
    deferred: seq<Deferred>,
    inits: seq<CompRef>,
    started: seq<CompRef>,
    notices: seq<Notice>)

  /** The register after a call, and the exception the call ended in. */
  datatype Step = Step(st: Register, fault: Option<Fault>)

  /** `new ComponentRegister(factory)` over the page `doc`. */
  function NewRegister(doc: Node): (r: Register)
    ensures r.heap == map[] && r.elementCache == map[] && r.idCache == map[]
    ensures r.componentRequests == [] && r.listeners == [] && r.deferred == []
    ensures r.runList.None? && r.running.None? && r.timer.None? && !r.failed && r.timeout == 0
  {
    Register(doc, map[], 0, map[], map[], [], 0, [], None, None, None, 0, false, [], [], [], [])
  }

  /** `order` lists the keys of a map exactly once each: one HashMap
      iteration order. */
  predicate IsOrder(keys: set<Path>, order: seq<Path>)
  {
    NoDup(order) && (forall p :: p in order ==> p in keys) && (forall p :: p in keys ==> p in order)
  }

  // ---------------------------------------------------------------------
  // Discovery

  /** The matched elements with no cached component, in query order. */
  function Uncached(items: seq<Path>, cache: map<Path, CompRef>): (r: seq<Path>)
    ensures forall p :: p in r <==> p in items && p !in cache
    ensures |r| <= |items|
  {
    if items == [] then []
    else if items[0] in cache then Uncached(items[1..], cache)
    else [items[0]] + Uncached(items[1..], cache)
  }

  /** The request loop of `parse`: a factory call, under a new request id
      drawn from `next` on, for each element without a cached component. */
  function Requests(cache: map<Path, CompRef>, next: RequestId, items: seq<Path>): (r: seq<Deferred>)
    ensures forall d :: d in r ==> d.CreateRequest?
    decreases |items|
  {
    if items == [] then []
    else if items[0] in cache then Requests(cache, next, items[1..])
    else [CreateRequest(items[0], next)] + Requests(cache, next + 1, items[1..])
  }

  /** The loop issues exactly one request per uncached element, in query
      order, with consecutive ids. */
  lemma {:induction false} RequestsAreUncached(cache: map<Path, CompRef>, next: RequestId, items: seq<Path>)
    ensures var n := Uncached(items, cache);
      var r := Requests(cache, next, items);
      && |r| == |n|
      && forall k :: 0 <= k < |r| ==> r[k] == CreateRequest(n[k], next + k)
    decreases |items|
  {
    if items != [] {
      if items[0] in cache {
        RequestsAreUncached(cache, next, items[1..]);
      } else {
        RequestsAreUncached(cache, next + 1, items[1..]);
        var r := Requests(cache, next, items);
        var n := Uncached(items, cache);
        var n' := Uncached(items[1..], cache);
        assert n == [items[0]] + n';
        forall k | 1 <= k < |r| ensures r[k] == CreateRequest(n[k], next + k) {
          assert r[k] == Requests(cache, next + 1, items[1..])[k - 1];
          assert n[k] == n'[k - 1];
        }
      }
    }
  }

  /** The ids of a list of factory calls. */
  function RequestIds(calls: seq<Deferred>): (r: seq<RequestId>)
    requires forall d :: d in calls ==> d.CreateRequest?
    ensures |r| == |calls| && forall k :: 0 <= k < |r| ==> r[k] == calls[k].request
  {
    if calls == [] then [] else [calls[0].request] + RequestIds(calls[1..])
  }

  /** The elements `parse(root)` finds: elements below `root` whose class
      attribute matches "Component". */
  function Found(doc: Node, root: Path): (r: seq<Path>)
    requires At(doc, root).Some?
    ensures forall p :: p in r ==>
      && |p| > |root| && p[..|root|] == root
      && IsElementAt(doc, p) && MatchesClassTarget(At(doc, p).value.className, ComponentClass)
  {
    var r := Query(doc, Some(root), ComponentClass, ByClass).value;
    forall p | p in r
      ensures IsElementAt(doc, p) && MatchesClassTarget(At(doc, p).value.className, ComponentClass)
    {
      QueryFindsMatches(doc, root, ComponentClass, ByClass, p);
    }
    r
  }

  /** The request loop's effect on a register with no outstanding
      request: the new ids become `componentRequests` and the factory calls
      join the pending timers. */
  function IssueRequests(st: Register, items: seq<Path>): (r: Register)
    requires st.componentRequests == []
    ensures var n := Uncached(items, st.elementCache);
      && |r.componentRequests| == |n| && r.nextRequest == st.nextRequest + |n|
      && (forall k :: 0 <= k < |n| ==> r.componentRequests[k] == st.nextRequest + k)
      && |r.deferred| == |st.deferred| + |n|
      && r.deferred[..|st.deferred|] == st.deferred
      && (forall k :: 0 <= k < |n| ==> r.deferred[|st.deferred|..][k] == CreateRequest(n[k], st.nextRequest + k))
    ensures r == st.(componentRequests := r.componentRequests, nextRequest := r.nextRequest,
                     deferred := r.deferred)
  {
    var calls := Requests(st.elementCache, st.nextRequest, items);
    RequestsAreUncached(st.elementCache, st.nextRequest, items);
    var r := st.(componentRequests := RequestIds(calls),
                 nextRequest := st.nextRequest + |calls|,
                 deferred := st.deferred + calls);
    assert r.deferred[|st.deferred|..] == calls;
    assert r.deferred[..|st.deferred|] == st.deferred;
    r
  }

  /** `parse(root)` for a non-null root: clears `failed`, schedules the
      timer if there is one, and requests every found element that has no
      cached component. A parse while creation requests are still
      outstanding is not modelled. */
  function ParseRoot(st: Register, root: Path): (r: Register)
    requires st.componentRequests == []
    requires At(st.doc, root).Some?
    ensures !r.failed
    ensures r.timer == (if st.timer.Some? then Some(st.timer.value.(scheduled := true)) else None)
    ensures var n := Uncached(Found(st.doc, root), st.elementCache);
      && |r.componentRequests| == |n| && |r.deferred| == |st.deferred| + |n|
      && r.nextRequest == st.nextRequest + |n|
      && r.deferred[..|st.deferred|] == st.deferred
      && (forall k :: 0 <= k < |n| ==> r.componentRequests[k] == st.nextRequest + k)
      && (forall k :: 0 <= k < |n| ==> r.deferred[|st.deferred|..][k] == CreateRequest(n[k], st.nextRequest + k))
    ensures r == st.(failed := false, timer := r.timer, componentRequests := r.componentRequests,
                     nextRequest := r.nextRequest, deferred := r.deferred)
  {
    var s0 := st.(failed := false,
                  timer := if st.timer.Some? then Some(st.timer.value.(scheduled := true)) else None);
    var items := Found(st.doc, root);
    IssueRequestsAfter(st, s0, items);
    var r := IssueRequests(s0, items);
    assert r == s0.(componentRequests := r.componentRequests, nextRequest := r.nextRequest,
                    deferred := r.deferred);
    r
  }

  /** `parse(root)`. For a null root the query returns null and reading its
      length throws, after `failed` is cleared and the timer scheduled. */
  function Parse(st: Register, root: Option<Path>): (r: Step)
    requires st.componentRequests == []
    requires root.Some? ==> At(st.doc, root.value).Some?
    ensures !r.st.failed
    ensures r.st.timer == (if st.timer.Some? then Some(st.timer.value.(scheduled := true)) else None)
    ensures r.fault == (if root.None? then Some(NullDereference) else None)
    ensures root.None? ==> r.st == st.(failed := false, timer := r.st.timer)
    ensures root.Some? ==> r.st == ParseRoot(st, root.value)
  {
    if root.None? then
      Step(st.(failed := false,
               timer := if st.timer.Some? then Some(st.timer.value.(scheduled := true)) else None),
           Some(NullDereference))
    else Step(ParseRoot(st, root.value), None)
  }

  /** `IssueRequests` on a register that agrees with `st` on the cache and
      the request bookkeeping, described in terms of `st`. */
  lemma IssueRequestsAfter(st: Register, s0: Register, items: seq<Path>)
    requires s0.componentRequests == [] && s0.elementCache == st.elementCache
    requires s0.deferred == st.deferred && s0.nextRequest == st.nextRequest
    ensures var r := IssueRequests(s0, items);
      var n := Uncached(items, st.elementCache);
      && |r.componentRequests| == |n| && |r.deferred| == |st.deferred| + |n|
      && r.nextRequest == st.nextRequest + |n|
      && r.deferred[..|st.deferred|] == st.deferred
      && (forall k :: 0 <= k < |n| ==> r.componentRequests[k] == st.nextRequest + k)
      && (forall k :: 0 <= k < |n| ==> r.deferred[|st.deferred|..][k] == CreateRequest(n[k], st.nextRequest + k))
  {
    var r := IssueRequests(s0, items);
    var n := Uncached(items, st.elementCache);
    assert |r.componentRequests| == |n| && |r.deferred| == |st.deferred| + |n|;
    assert r.deferred[..|st.deferred|] == st.deferred;
    assert forall k :: 0 <= k < |n| ==> r.componentRequests[k] == st.nextRequest + k;
  }

  // ---------------------------------------------------------------------
  // Lookups

  /** `getComponent(id)`: the component cached under that element id. */
  function GetComponentById(st: Register, id: string): (r: Option<CompRef>)
    ensures r.Some? <==> id in st.idCache
    ensures r.Some? ==> st.idCache[id] == r.value
  {
    if id in st.idCache then Some(st.idCache[id]) else None
  }

  /** A cached component of type `t` at key `p`. */
  predicate HasTypeAt(st: Register, p: Path, t: string)
  {
    p in st.elementCache && st.elementCache[p] in st.heap &&
    TypeOf(st.doc, st.heap[st.elementCache[p]]) == t
  }

  /** `getComponentByType(t)`: the first cached component of type `t` in
      iteration order. */
  function GetComponentByType(st: Register, t: string, order: seq<Path>): (r: Option<CompRef>)
    ensures r.Some? ==> exists i :: 0 <= i < |order| && HasTypeAt(st, order[i], t) &&
                          st.elementCache[order[i]] == r.value &&
                          forall j :: 0 <= j < i ==> !HasTypeAt(st, order[j], t)
    ensures r.None? ==> forall i :: 0 <= i < |order| ==> !HasTypeAt(st, order[i], t)
  {
    if order == [] then None
    else if HasTypeAt(st, order[0], t) then Some(st.elementCache[order[0]])
    else
      var rest := GetComponentByType(st, t, order[1..]);
      if rest.Some? then
        assert forall j :: 1 <= j < |order| ==> order[j] == order[1..][j - 1];
        rest
      else rest
  }

  /** Whether a component of type `t` is found does not depend on the
      iteration order: it is found exactly when one is cached. */
  lemma ByTypeFoundIffCached(st: Register, t: string, order: seq<Path>)
    requires IsOrder(st.elementCache.Keys, order)
    ensures GetComponentByType(st, t, order).Some? <==>
      exists p :: p in st.elementCache && HasTypeAt(st, p, t)
  {
    if p :| p in st.elementCache && HasTypeAt(st, p, t) {
      var i :| 0 <= i < |order| && order[i] == p;
      assert HasTypeAt(st, order[i], t);
    }
  }

  // ---------------------------------------------------------------------
  // The init phase

  /** The register differs from `st` at most in the components' dependency
      bookkeeping: same heap keys, same `hasRun` and root everywhere. */
  predicate OnlyBookkeeping(st: Register, st': Register)
  {
    && st' == st.(heap := st'.heap)
    && st'.heap.Keys == st.heap.Keys
    && (forall x :: x in st.heap ==> st'.heap[x].hasRun == st.heap[x].hasRun)
    && (forall x :: x in st.heap ==> st'.heap[x].root == st.heap[x].root)
  }

  /** `init()` bookkeeping never changes which component a type lookup
      finds: a component's type is read from its root element. */
  lemma {:induction false} ByTypeIgnoresBookkeeping(st: Register, st': Register, t: string,
                                                   order: seq<Path>)
    requires OnlyBookkeeping(st, st')
    ensures GetComponentByType(st', t, order) == GetComponentByType(st, t, order)
    decreases |order|
  {
    if order != [] {
      assert HasTypeAt(st', order[0], t) == HasTypeAt(st, order[0], t);
      ByTypeIgnoresBookkeeping(st, st', t, order[1..]);
    }
  }

  /** Every component of `h` is still in `h'`, on the same element. */
  predicate KeepsRoots(h: Heap, h': Heap)
  {
    forall c :: c in h ==> c in h' && h'[c].root == h[c].root
  }

  /** No component loses a dependency: every count in every `dependsOn`
      list stays or grows, and no component disappears or moves to another
      element. */
  ghost predicate DependsGrow(h: Heap, h': Heap)
  {
    && KeepsRoots(h, h')
    && forall x, y :: x in h ==> Count(h[x].dependsOn, y) <= Count(h'[x].dependsOn, y)
  }

  lemma DependsGrowTrans(h1: Heap, h2: Heap, h3: Heap)
    ensures DependsGrow(h1, h2) && DependsGrow(h2, h3) ==> DependsGrow(h1, h3)
  {
    if DependsGrow(h1, h2) && DependsGrow(h2, h3) {
      forall x, y | x in h1 ensures Count(h1[x].dependsOn, y) <= Count(h3[x].dependsOn, y) {
        assert Count(h1[x].dependsOn, y) <= Count(h2[x].dependsOn, y);
      }
    }
  }

  /** `requireComponentInstance` only ever adds a dependency. */
  lemma RequireGrows(h: Heap, self: CompRef, target: Option<CompRef>)
    requires self in h
    requires target.Some? ==> target.value in h
    ensures DependsGrow(h, RequireComponentInstance(h, self, target))
  {
    var r := RequireComponentInstance(h, self, target);
    if target.Some? && !Active(h[target.value]) {
      forall y ensures Count(h[self].dependsOn, y) <= Count(r[self].dependsOn, y) {
        CountAppend(h[self].dependsOn, [target.value], y);
      }
    }
  }

  /** One statement of an `init()` body run by component `self`. */
  function RunAction(st: Register, self: CompRef, a: InitAction, order: seq<Path>): (r: Step)
    requires self in st.heap
    ensures OnlyBookkeeping(st, r.st)
    ensures r.fault.Some? <==> a.RequireId? && a.id !in st.idCache
    ensures r.fault.Some? ==> r.fault == Some(NullDereference) && r.st == st
    ensures DependsGrow(st.heap, r.st.heap)
    ensures Shaped(st.heap) ==> Shaped(r.st.heap)
  {
    var h := st.heap;
    match a
    case RequireId(id) =>
      // the source logs the unknown id, then calls active() on null
      var t := GetComponentById(st, id);
      if t.None? then Step(st, Some(NullDereference))
      else if t.value in h then
        RequireKeeps(st, self, t);
        Step(st.(heap := RequireComponentInstance(h, self, t)), None)
      else Step(st, None)
    case RequireType(typeName) =>
      var t := GetComponentByType(st, typeName, order);
      if t.Some? && t.value in h then
        RequireKeeps(st, self, t);
        Step(st.(heap := RequireComponentInstance(h, self, t)), None)
      else Step(st, None)
    case RequireValue(name) =>
      var c := RequireValueOn(h[self], name);
      MarkupRequirementKeeps(st, self, c);
      Step(st.(heap := h[self := c]), None)
    case RequireAsset(name) =>
      var c := RequireAssetOn(h[self], name);
      MarkupRequirementKeeps(st, self, c);
      Step(st.(heap := h[self := c]), None)
  }

  /** A component requirement is bookkeeping that only adds dependencies. */
  lemma RequireKeeps(st: Register, self: CompRef, t: Option<CompRef>)
    requires self in st.heap
    requires t.Some? ==> t.value in st.heap
    ensures var r := st.(heap := RequireComponentInstance(st.heap, self, t));
      OnlyBookkeeping(st, r) && DependsGrow(st.heap, r.heap) && (Shaped(st.heap) ==> Shaped(r.heap))
  {
    RequireGrows(st.heap, self, t);
    RequireKeepsShaped(st.heap, self, t);
  }

  /** A value or asset requirement is bookkeeping that leaves the
      component dependencies alone. */
  lemma MarkupRequirementKeeps(st: Register, self: CompRef, c: Comp)
    requires self in st.heap
    requires c.dependsOn == st.heap[self].dependsOn
    requires c.hasRun == st.heap[self].hasRun && c.root == st.heap[self].root
    requires c.dependedOn == st.heap[self].dependedOn
    ensures var r := st.(heap := st.heap[self := c]);
      OnlyBookkeeping(st, r) && DependsGrow(st.heap, r.heap) && (Shaped(st.heap) ==> Shaped(r.heap))
  {
  }

  /** One `init()` body: the statements of `self`'s script in order,
      stopping at the first exception, which is thrown exactly when the
      script names an unknown id. */
  function RunScript(st: Register, self: CompRef, script: seq<InitAction>, order: seq<Path>): (r: Step)
    requires self in st.heap
    ensures OnlyBookkeeping(st, r.st)
    ensures r.fault.Some? ==> exists i :: 0 <= i < |script| && script[i].RequireId?
    ensures DependsGrow(st.heap, r.st.heap)
    ensures Shaped(st.heap) ==> Shaped(r.st.heap)
    decreases |script|
  {
    if script == [] then Step(st, None)
    else
      var s := RunAction(st, self, script[0], order);
      if s.fault.Some? then s
      else
        var rest := RunScript(s.st, self, script[1..], order);
        DependsGrowTrans(st.heap, s.st.heap, rest.st.heap);
        RequireIdInTail(script);
        rest
  }

  /** A statement that does not throw hands its register on to the rest
      of the script. */
  lemma RunScriptCons(st: Register, self: CompRef, a: InitAction, rest: seq<InitAction>,
                      order: seq<Path>)
    requires self in st.heap
    ensures var s := RunAction(st, self, a, order);
      s.fault.None? ==> RunScript(st, self, [a] + rest, order) == RunScript(s.st, self, rest, order)
  {
    assert ([a] + rest)[0] == a && ([a] + rest)[1..] == rest;
  }

  /** A `RequireId` in the tail of a script is one in the script. */
  lemma RequireIdInTail(script: seq<InitAction>)
    requires script != []
    ensures (exists i :: 0 <= i < |script[1..]| && script[1..][i].RequireId?) ==>
      exists i :: 0 <= i < |script| && script[i].RequireId?
  {
    if i :| 0 <= i < |script[1..]| && script[1..][i].RequireId? {
      assert script[i + 1].RequireId?;
    }
  }

  /** The outcome of `runComponentInit`: the register, the exception (if an
      `init()` threw), and the components whose `init()` was called, in
      call order; without an exception these form the run list. */
  datatype InitOutcome = InitOutcome(st: Register, fault: Option<Fault>, list: seq<CompRef>)

  /** The components of `keys`, in that order, that are not yet active. */
  function Inactive(st: Register, keys: seq<Path>): (r: seq<CompRef>)
    ensures forall c :: c in r ==> c in st.heap && !Active(st.heap[c])
  {
    if keys == [] then []
    else
      var rest := Inactive(st, keys[1..]);
      if keys[0] in st.elementCache && st.elementCache[keys[0]] in st.heap &&
         !Active(st.heap[st.elementCache[keys[0]]])
      then [st.elementCache[keys[0]]] + rest
      else rest
  }

  /** `runComponentInit()` from the key `keys[0]` on: `init()` on each
      inactive cached component, collecting them. */
  function RunInit(st: Register, keys: seq<Path>, order: seq<Path>): (r: InitOutcome)
    ensures OnlyBookkeeping(st, r.st)
    ensures DependsGrow(st.heap, r.st.heap)
    ensures Shaped(st.heap) ==> Shaped(r.st.heap)
    ensures r.fault.None? ==> r.list == Inactive(st, keys)
    decreases |keys|
  {
    if keys == [] then InitOutcome(st, None, [])
    else
      var p := keys[0];
      if p in st.elementCache && st.elementCache[p] in st.heap &&
         !Active(st.heap[st.elementCache[p]]) then
        var c := st.elementCache[p];
        var s := RunScript(st, c, st.heap[c].script, order);
        if s.fault.Some? then InitOutcome(s.st, s.fault, [c])
        else
          var rest := RunInit(s.st, keys[1..], order);
          assert Inactive(s.st, keys[1..]) == Inactive(st, keys[1..]) by {
            InactiveSameActivity(st, s.st, keys[1..]);
          }
          DependsGrowTrans(st.heap, s.st.heap, rest.st.heap);
          InitOutcome(rest.st, rest.fault, [c] + rest.list)
      else RunInit(st, keys[1..], order)
  }

  /** `Inactive` reads only the caches and which components are active. */
  lemma {:induction false} InactiveSameActivity(st: Register, st': Register, keys: seq<Path>)
    requires st'.elementCache == st.elementCache && st'.heap.Keys == st.heap.Keys
    requires forall x :: x in st.heap ==> st'.heap[x].hasRun == st.heap[x].hasRun
    ensures Inactive(st', keys) == Inactive(st, keys)
    decreases |keys|
  {
    if keys != [] {
      InactiveSameActivity(st, st', keys[1..]);
    }
  }

  // ---------------------------------------------------------------------
  // Scheduling

  /** `list[i]` is the first run-list entry whose dependency count is
      zero. */
  predicate ReadyAt(doc: Node, h: Heap, list: seq<CompRef>, i: int)
  {
    && 0 <= i < |list| && list[i] in h && DependencyCount(doc, h[list[i]]) == 0
    && forall j :: 0 <= j < i && list[j] in h ==> DependencyCount(doc, h[list[j]]) > 0
  }

  /** The first run-list entry whose dependency count is zero. */
  function FirstReady(doc: Node, h: Heap, list: seq<CompRef>): (r: Option<CompRef>)
    ensures r.Some? ==> exists i :: ReadyAt(doc, h, list, i) && list[i] == r.value
    ensures r.None? ==> forall c :: c in list && c in h ==> DependencyCount(doc, h[c]) > 0
  {
    if list == [] then None
    else if list[0] in h && DependencyCount(doc, h[list[0]]) == 0 then
      assert ReadyAt(doc, h, list, 0);
      Some(list[0])
    else
      var rest := FirstReady(doc, h, list[1..]);
      assert forall c :: c in list ==> c == list[0] || c in list[1..];
      if rest.Some? then
        var i :| ReadyAt(doc, h, list[1..], i) && list[1..][i] == rest.value;
        assert ReadyAt(doc, h, list, i + 1);
        rest
      else rest
  }

  /** The error every ready listener receives: creation failure first, then
      a timer that is still set, otherwise none. */
  function ReadyErrorOf(st: Register): (r: Option<ReadyError>)
    ensures r.None? <==> !st.failed && st.timer.None?
    ensures st.failed ==> r == Some(CreationFailed)
  {
    if st.failed then Some(CreationFailed)
    else if st.timer.Some? then Some(TimeoutPending)
    else None
  }

  /** `invokeReadyCallbacks()`: a deferred call of every attached listener,
      in attachment order, all with the same outcome. The listener list is
      kept. */
  function InvokeReadyCallbacks(st: Register): (r: Register)
    ensures |st.notices| <= |r.notices| && r.notices[..|st.notices|] == st.notices
    ensures var ns := r.notices[|st.notices|..];
      && |ns| == |st.listeners|
      && (forall i :: 0 <= i < |ns| ==> ns[i] == Notice(st.listeners[i], ReadyErrorOf(st)))
      && r.deferred == st.deferred + seq(|ns|, i requires 0 <= i < |ns| => NotifyListener(ns[i]))
    ensures r == st.(notices := r.notices, deferred := r.deferred)
  {
    var ns := seq(|st.listeners|, i requires 0 <= i < |st.listeners| => Notice(st.listeners[i], ReadyErrorOf(st)));
    var r := st.(notices := st.notices + ns,
                 deferred := st.deferred + seq(|ns|, i requires 0 <= i < |ns| => NotifyListener(ns[i])));
    assert r.notices[|st.notices|..] == ns;
    r
  }

  /** The register's references are sound: every component was allocated,
      every cache entry and run-list entry names one, and each element entry
      names the component on that element. */
  predicate Valid(st: Register)
  {
    && (forall x :: x in st.heap ==> x < st.nextRef)
    && CacheConsistent(st)
    && (forall id :: id in st.idCache ==> st.idCache[id] in st.heap)
    && (st.runList.Some? ==> forall c :: c in st.runList.value ==> c in st.heap)
  }

  lemma RemoveFirstSubset<T>(s: seq<T>, x: T)
    ensures forall y :: y in RemoveFirst(s, x) ==> y in s
  {
    forall y | y in RemoveFirst(s, x) ensures y in s {
      assert multiset(RemoveFirst(s, x))[y] > 0;
    }
  }

  /** Every component `r` started beyond those `st` had started had no
      outstanding component dependency in `r`. */
  predicate StartsOnlyFree(st: Register, r: Register)
  {
    && |st.started| <= |r.started| && r.started[..|st.started|] == st.started
    && forall k :: |st.started| <= k < |r.started| ==>
         r.started[k] in r.heap && r.heap[r.started[k]].dependsOn == []
  }

  /** The second half of `componentReady`, on a register whose run list is
      `list`: run the first entry with no dependencies, or, when none is,
      call the listeners, cancelling the timer only if the run list is
      empty. */
  function ScheduleNext(st: Register, list: seq<CompRef>): (r: Register)
    requires st.runList == Some(list)
    ensures var next := FirstReady(st.doc, st.heap, list);
      && (next.Some? ==>
            r == st.(deferred := st.deferred + [RunComponent(next.value)],
                     started := st.started + [next.value]))
      && (next.None? ==>
            && r.timer == (if list == [] then None else st.timer)
            && r == InvokeReadyCallbacks(st.(timer := r.timer)))
    ensures r == st.(deferred := r.deferred, started := r.started, timer := r.timer, notices := r.notices)
    ensures StartsOnlyFree(st, r)
  {
    var next := FirstReady(st.doc, st.heap, list);
    if next.Some? then
      var r := st.(deferred := st.deferred + [RunComponent(next.value)], started := st.started + [next.value]);
      assert r.started[|st.started|] == next.value;
      r
    else
      InvokeReadyCallbacks(if st.timer.Some? && list == [] then st.(timer := None) else st)
  }

  /** `componentReady(target)`. Nothing at all while there is no run list.
      Otherwise nothing is running any more; a non-null target releases its
      waiters and leaves the run list; then the next component is looked
      for. */
  function ComponentReady(st: Register, target: Option<CompRef>): (r: Register)
    ensures st.runList.None? ==> r == st
    ensures st.runList.Some? ==>
      var h := if target.Some? && target.value in st.heap then NotifyWaiting(st.heap, target.value)
               else st.heap;
      var list := if target.Some? then RemoveFirst(st.runList.value, target.value)
                  else st.runList.value;
      r == ScheduleNext(st.(running := None, heap := h, runList := Some(list)), list)
    ensures r.inits == st.inits && r.elementCache == st.elementCache && r.idCache == st.idCache
    ensures r.listeners == st.listeners && r.failed == st.failed && r.nextRef == st.nextRef
    ensures r.componentRequests == st.componentRequests && r.doc == st.doc
    ensures r.heap.Keys == st.heap.Keys && KeepsRoots(st.heap, r.heap)
    ensures Shaped(st.heap) ==> Shaped(r.heap)
    ensures forall x :: x in st.heap ==> r.heap[x].hasRun == st.heap[x].hasRun
    ensures StartsOnlyFree(st, r)
    ensures Valid(st) ==> Valid(r)
  {
    if st.runList.None? then st
    else
      RemoveFirstSubset(st.runList.value, if target.Some? then target.value else 0);
      var h := if target.Some? && target.value in st.heap then NotifyWaiting(st.heap, target.value)
               else st.heap;
      var list := if target.Some? then RemoveFirst(st.runList.value, target.value)
                  else st.runList.value;
      var s1 := st.(running := None, heap := h, runList := Some(list));
      ReleaseKeepsValid(st, s1);
      var r := ScheduleNext(s1, list);
      ScheduleKeepsValid(s1, r);
      r
  }

  /** Releasing waiters and shortening the run list keep the register
      valid. */
  lemma ReleaseKeepsValid(st: Register, s1: Register)
    requires st.runList.Some? && s1.runList.Some?
    requires forall c :: c in s1.runList.value ==> c in st.runList.value
    requires s1 == st.(running := s1.running, heap := s1.heap, runList := s1.runList)
    requires s1.heap.Keys == st.heap.Keys
    requires forall x :: x in st.heap ==> s1.heap[x].root == st.heap[x].root
    ensures Valid(st) ==> Valid(s1)
  {
  }

  /** Scheduling touches nothing validity depends on. */
  lemma ScheduleKeepsValid(s1: Register, r: Register)
    requires r == s1.(deferred := r.deferred, started := r.started, timer := r.timer, notices := r.notices)
    ensures Valid(s1) ==> Valid(r)
  {
  }

  /** What every creation callback keeps: no dependency is lost, no
      component becomes inactive again or active by itself, only components
      free of component dependencies are started, and the references stay
      sound. */
  ghost predicate Advances(st: Register, r: Register)
  {
    && DependsGrow(st.heap, r.heap)
    && (forall x :: x in st.heap ==> r.heap[x].hasRun == st.heap[x].hasRun)
    && StartsOnlyFree(st, r)
    && (Valid(st) ==> Valid(r))
  }

  /** `runList = runComponentInit()`: `init()` on every inactive cached
      component in iteration order. An exception in an `init()` ends the
      phase before the run list is replaced. */
  function InitPhase(st: Register, order: seq<Path>): (r: Step)
    ensures r.st == st.(heap := r.st.heap, inits := r.st.inits, runList := r.st.runList)
    ensures r.fault.None? ==>
      var list := Inactive(st, order);
      r.st.inits == st.inits + list && r.st.runList == Some(list)
    ensures r.fault.Some? ==> r.st.runList == st.runList
    ensures DependsGrow(st.heap, r.st.heap) && r.st.heap.Keys == st.heap.Keys
    ensures forall x :: x in st.heap ==> r.st.heap[x].hasRun == st.heap[x].hasRun
    ensures forall x :: x in st.heap ==> r.st.heap[x].root == st.heap[x].root
    ensures Shaped(st.heap) ==> Shaped(r.st.heap)
    ensures Valid(st) ==> Valid(r.st)
  {
    var init := RunInit(st, order, order);
    if init.fault.Some? then Step(init.st.(inits := st.inits + init.list), init.fault)
    else Step(init.st.(runList := Some(init.list), inits := st.inits + init.list), None)
  }

  /** `componentCreationComplete()` once no request is outstanding: the
      init phase, then the first `componentReady(null)`. */
  function CreationComplete(st: Register, order: seq<Path>): (r: Step)
    ensures st.componentRequests != [] ==> r == Step(st, None)
    ensures st.componentRequests == [] && r.fault.None? ==>
      var list := Inactive(st, order);
      && r.st.inits == st.inits + list
      && r.st.runList == Some(list)
    ensures r.st.elementCache == st.elementCache && r.st.idCache == st.idCache
    ensures r.st.heap.Keys == st.heap.Keys && r.st.nextRef == st.nextRef
    ensures r.st.componentRequests == st.componentRequests && r.st.failed == st.failed
    ensures r.st.listeners == st.listeners && r.st.doc == st.doc
    ensures Advances(st, r.st)
    ensures Shaped(st.heap) ==> Shaped(r.st.heap)
  {
    if st.componentRequests != [] then Step(st, None)
    else
      var s := InitPhase(st, order);
      if s.fault.Some? then s
      else Step(ComponentReady(s.st, None), None)
  }

  // ---------------------------------------------------------------------
  // Factory answers

  /** The first half of `componentCreated`: a new component object on
      `root`, allocated by the factory, is cached by element, and by id
      when the element has a non-empty id. */
  function CacheNew(st: Register, root: Path, script: seq<InitAction>,
                    shutdown: ShutdownPolicy): (r: Register)
    requires At(st.doc, root).Some?
    ensures var c := st.nextRef;
      var id := At(st.doc, root).value.id;
      && r.heap.Keys == st.heap.Keys + {c}
      && r.heap[c] == NewComp(root, id, script, shutdown)
      && r.nextRef == c + 1
      && r.elementCache == st.elementCache[root := c]
      && (id.Some? && id.value != "" ==> r.idCache == st.idCache[id.value := c])
      && (!(id.Some? && id.value != "") ==> r.idCache == st.idCache)
      && r == st.(heap := r.heap, nextRef := c + 1, elementCache := r.elementCache, idCache := r.idCache)
    ensures st.nextRef !in st.heap ==>
      && DependsGrow(st.heap, r.heap)
      && (forall x :: x in st.heap ==> r.heap[x] == st.heap[x])
    ensures Valid(st) ==> Valid(r)
    ensures st.nextRef !in st.heap ==> (Shaped(st.heap) ==> Shaped(r.heap))
  {
    var c := st.nextRef;
    var id := At(st.doc, root).value.id;
    var r := st.(heap := st.heap[c := NewComp(root, id, script, shutdown)],
                 nextRef := c + 1,
                 elementCache := st.elementCache[root := c],
                 idCache := if id.Some? && id.value != "" then st.idCache[id.value := c] else st.idCache);
    NewKeepsValid(st, r, root);
    r
  }

  /** A new component on `root`, cached under the next reference, keeps the
      register valid. */
  lemma NewKeepsValid(st: Register, r: Register, root: Path)
    requires r.heap.Keys == st.heap.Keys + {st.nextRef} && r.nextRef == st.nextRef + 1
    requires r.heap[st.nextRef].root == root
    requires forall x :: x in st.heap && x != st.nextRef ==> r.heap[x] == st.heap[x]
    requires r.elementCache == st.elementCache[root := st.nextRef]
    requires forall id :: id in r.idCache ==>
      r.idCache[id] == st.nextRef || (id in st.idCache && r.idCache[id] == st.idCache[id])
    requires r.runList == st.runList
    ensures Valid(st) ==> Valid(r)
  {
  }

  /** `componentCreated(c, requestId)`: the component is cached, the request
      is crossed off if known, and when none is left the init phase runs. */
  function ComponentCreated(st: Register, root: Path, script: seq<InitAction>,
                            shutdown: ShutdownPolicy, request: RequestId, order: seq<Path>): (r: Step)
    requires At(st.doc, root).Some?
    ensures var c := st.nextRef;
      var id := At(st.doc, root).value.id;
      && r.st.heap.Keys == st.heap.Keys + {c}
      && r.st.nextRef == c + 1
      && r.st.elementCache == st.elementCache[root := c]
      && (id.Some? && id.value != "" ==> r.st.idCache == st.idCache[id.value := c])
      && (!(id.Some? && id.value != "") ==> r.st.idCache == st.idCache)
      && r.st.componentRequests == RemoveFirst(st.componentRequests, request)
    ensures st.nextRef !in st.heap ==> Advances(st, r.st)
    ensures Valid(st) ==> Valid(r.st)
    ensures st.nextRef !in st.heap ==> (Shaped(st.heap) ==> Shaped(r.st.heap))
  {
    var st0 := CacheNew(st, root, script, shutdown);
    var r := CrossOff(st0, request, order);
    CacheThenAdvance(st, st0, r.st);
    r
  }

  /** The second half of `componentCreated`: the request is crossed off if
      known, and when none is left the init phase runs. */
  function CrossOff(st: Register, request: RequestId, order: seq<Path>): (r: Step)
    ensures r.st.elementCache == st.elementCache && r.st.idCache == st.idCache
    ensures r.st.heap.Keys == st.heap.Keys && r.st.nextRef == st.nextRef
    ensures r.st.componentRequests == RemoveFirst(st.componentRequests, request)
    ensures Advances(st, r.st)
    ensures Shaped(st.heap) ==> Shaped(r.st.heap)
  {
    var st1 := st.(componentRequests := RemoveFirst(st.componentRequests, request));
    if st1.componentRequests == [] then
      var s := CreationComplete(st1, order);
      AdvancesAcross(st, st1, s.st, s.st);
      s
    else
      AdvancesAcross(st, st1, st1, st1);
      Step(st1, None)
  }

  /** Caching a new component and then advancing advances. */
  lemma CacheThenAdvance(st: Register, st1: Register, r: Register)
    requires st.nextRef !in st.heap ==>
      DependsGrow(st.heap, st1.heap) && forall x :: x in st.heap ==> st1.heap[x] == st.heap[x]
    requires st1.started == st.started
    requires Valid(st) ==> Valid(st1)
    requires Advances(st1, r)
    ensures st.nextRef !in st.heap ==> Advances(st, r)
    ensures Valid(st) ==> Valid(r)
  {
    DependsGrowTrans(st.heap, st1.heap, r.heap);
  }

  /** The last statement of `componentCreationFailed`: `failed := true`,
      reached only when nothing before it threw. */
  function MarkFailed(s: Step): (r: Step)
    ensures s.fault.Some? ==> r == s
    ensures s.fault.None? ==> r.fault.None? && r.st.failed
    ensures r.st == s.st.(failed := r.st.failed)
  {
    if s.fault.Some? then s else Step(s.st.(failed := true), None)
  }

  /** `componentCreationFailed(requestId)`: the request is crossed off if
      known and the init phase runs when none is left; only then is `failed`
      set, so the listeners called from that init phase do not see it. */
  function ComponentCreationFailed(st: Register, request: RequestId, order: seq<Path>): (r: Step)
    ensures r.st.componentRequests == RemoveFirst(st.componentRequests, request)
    ensures var st1 := st.(componentRequests := RemoveFirst(st.componentRequests, request));
      && (st1.componentRequests != [] ==> r == Step(st1.(failed := true), None))
      && (st1.componentRequests == [] ==> r == MarkFailed(CreationComplete(st1, order)))
    ensures Advances(st, r.st) && r.st.heap.Keys == st.heap.Keys
    ensures Shaped(st.heap) ==> Shaped(r.st.heap)
  {
    var st1 := st.(componentRequests := RemoveFirst(st.componentRequests, request));
    if st1.componentRequests == [] then
      var s := CreationComplete(st1, order);
      var r := MarkFailed(s);
      AdvancesAcross(st, st1, s.st, r.st);
      r
    else
      var r := Step(st1.(failed := true), None);
      AdvancesAcross(st, st1, st1, r.st);
      r
  }

  /** Bookkeeping before and after an advance does not change that it
      advances. */
  lemma AdvancesAcross(a: Register, b: Register, c: Register, d: Register)
    requires Untouched(a, b) && Untouched(c, d)
    requires b == c || Advances(b, c)
    ensures Advances(a, d)
  {
    UntouchedKeepsValid(a, b);
    UntouchedKeepsValid(c, d);
  }

  // ---------------------------------------------------------------------
  // Component answers

  /** `componentFailed(target)`: the target leaves the run list without
      releasing its waiters, then the next component is looked for. With no
      run list the call dereferences null. */
  function ComponentFailed(st: Register, target: CompRef): (r: Step)
    ensures st.runList.None? ==> r == Step(st, Some(NullDereference))
    ensures st.runList.Some? ==>
      && r.fault.None? && r.st.heap == st.heap
      && r.st == ComponentReady(st.(runList := Some(RemoveFirst(st.runList.value, target))), None)
    ensures StartsOnlyFree(st, r.st)
    ensures Valid(st) ==> Valid(r.st)
    ensures Shaped(st.heap) ==> Shaped(r.st.heap)
  {
    if st.runList.None? then Step(st, Some(NullDereference))
    else
      RemoveFirstSubset(st.runList.value, target); Step(ComponentReady(st.(runList := Some(RemoveFirst(st.runList.value, target))), None), None)
  }

  /** `complete()` on component `c`: the first of `complete()`/`failed()`
      reports readiness to the register and then sets `hasRun`; any later
      call does nothing. */
  function Complete(st: Register, c: CompRef): (r: Register)
    requires c in st.heap
    ensures Active(st.heap[c]) ==> r == st
    ensures !Active(st.heap[c]) ==>
      var s := ComponentReady(st, Some(c));
      r == s.(heap := s.heap[c := s.heap[c].(hasRun := true)])
    ensures c in r.heap && Active(r.heap[c])
    ensures Valid(st) ==> Valid(r)
    ensures Shaped(st.heap) ==> Shaped(r.heap)
  {
    if Active(st.heap[c]) then st
    else
      var s := ComponentReady(st, Some(c));
      s.(heap := s.heap[c := s.heap[c].(hasRun := true)])
  }

  /** `failed()` on component `c`: as `complete()`, reporting failure. If the
      register call throws, `hasRun` stays unset. */
  function Failed(st: Register, c: CompRef): (r: Step)
    requires c in st.heap
    ensures Active(st.heap[c]) ==> r == Step(st, None)
    ensures !Active(st.heap[c]) ==>
      var s := ComponentFailed(st, c);
      && (s.fault.Some? ==> r == s)
      && (s.fault.None? ==> r == Step(s.st.(heap := s.st.heap[c := s.st.heap[c].(hasRun := true)]), None))
    ensures Valid(st) ==> Valid(r.st)
    ensures Shaped(st.heap) ==> Shaped(r.st.heap)
  {
    if Active(st.heap[c]) then Step(st, None)
    else
      var s := ComponentFailed(st, c);
      if s.fault.Some? then s
      else Step(s.st.(heap := s.st.heap[c := s.st.heap[c].(hasRun := true)]), None)
  }

  // ---------------------------------------------------------------------
  // Timers, listeners, removal

  /** `setTimeout(ms)`: a new, unscheduled watchdog replaces any timer. */
  function SetTimeout(st: Register, ms: int): (r: Register)
    ensures r.timer == Some(Timer(Watchdog, false)) && r.timeout == ms
    ensures r == st.(timer := r.timer, timeout := ms)
  {
    st.(timer := Some(Timer(Watchdog, false)), timeout := ms)
  }

  /** `setTimeout(t, ms)`: the given timer (possibly null) replaces any
      timer. */
  function SetCustomTimeout(st: Register, given: bool, ms: int): (r: Register)
    ensures given ==> r.timer == Some(Timer(External, false))
    ensures !given ==> r.timer.None?
    ensures r == st.(timer := r.timer, timeout := ms)
  {
    st.(timer := if given then Some(Timer(External, false)) else None, timeout := ms)
  }

  /** The body of the watchdog: creation counts as failed, the listeners are
      called (so with `CreationFailed`), the audit is logged, and the timer
      and timeout are reset. */
  function WatchdogFires(st: Register): (r: Register)
    ensures r.failed && r.timer.None? && r.timeout == 0
    ensures |st.notices| <= |r.notices|
    ensures var ns := r.notices[|st.notices|..];
      && |ns| == |st.listeners|
      && forall i :: 0 <= i < |ns| ==> ns[i] == Notice(st.listeners[i], Some(CreationFailed))
    ensures r == st.(failed := true, timer := None, timeout := 0, notices := r.notices,
                     deferred := r.deferred)
  {
    var st1 := InvokeReadyCallbacks(st.(failed := true));
    st1.(timer := None, timeout := 0)
  }

  /** `attachReadyListener(l)`. */
  function AttachReadyListener(st: Register, l: ListenerId): (r: Register)
    ensures r.listeners == st.listeners + [l]
    ensures r == st.(listeners := r.listeners)
  {
    st.(listeners := st.listeners + [l])
  }

  /** `removeComponent(c)`: `shutdown()` first; if it throws, the exception
      propagates and both caches stay as they were. Otherwise the element
      entry and the id entry are dropped; the component object lives on. */
  function RemoveComponent(st: Register, c: CompRef): (r: Step)
    requires c in st.heap
    ensures r.fault == Shutdown(st.heap[c])
    ensures r.fault.Some? ==> r.st == st
    ensures r.fault.None? ==>
      var id := st.heap[c].elementId;
      && r.st.elementCache == st.elementCache - {st.heap[c].root}
      && (id.Some? ==> r.st.idCache == st.idCache - {id.value})
      && (id.None? ==> r.st.idCache == st.idCache)
      && r.st == st.(elementCache := r.st.elementCache, idCache := r.st.idCache)
    ensures Valid(st) ==> Valid(r.st)
  {
    var f := Shutdown(st.heap[c]);
    if f.Some? then Step(st, f)
    else
      var id := st.heap[c].elementId;
      Step(st.(elementCache := st.elementCache - {st.heap[c].root},
               idCache := if id.Some? then st.idCache - {id.value} else st.idCache), None)
  }

  /** Every cached component is in the heap and sits on the element it is
      cached under. */
  predicate CacheConsistent(st: Register)
  {
    forall p :: p in st.elementCache ==>
      st.elementCache[p] in st.heap && st.heap[st.elementCache[p]].root == p
  }

  /** `purgeComponents(t)`: `removeComponent` on the first component of type
      `t` until there is none; the first exception ends the loop. A HashMap
      keeps the relative order of its remaining keys, so each round iterates
      `order` minus the keys removed so far. */
  function PurgeComponents(st: Register, t: string, order: seq<Path>): (r: Step)
    requires CacheConsistent(st) && IsOrder(st.elementCache.Keys, order)
    ensures r.fault.None? ==> forall p :: p in r.st.elementCache ==> !HasTypeAt(r.st, p, t)
    ensures r.st == st.(elementCache := r.st.elementCache, idCache := r.st.idCache)
    ensures forall p :: p in r.st.elementCache ==> p in st.elementCache && r.st.elementCache[p] == st.elementCache[p]
    ensures forall id :: id in r.st.idCache ==> id in st.idCache && r.st.idCache[id] == st.idCache[id]
    ensures Valid(st) ==> Valid(r.st)
    decreases |order|
  {
    var found := GetComponentByType(st, t, order);
    if found.None? then
      assert forall p :: p in st.elementCache ==> !HasTypeAt(st, p, t) by {
        forall p | p in st.elementCache ensures !HasTypeAt(st, p, t) {
          var i :| 0 <= i < |order| && order[i] == p;
        }
      }
      Step(st, None)
    else
      var c := found.value;
      var s := RemoveComponent(st, c);
      if s.fault.Some? then s
      else
        var root := st.heap[c].root;
        var order' := RemoveFirst(order, root);
        assert IsOrder(s.st.elementCache.Keys, order') by {
          NoDupRemoveFirst(order, root);
        }
        PurgeComponents(s.st, t, order')
  }

  lemma NoDupRemoveFirst<T>(s: seq<T>, x: T)
    requires NoDup(s)
    ensures NoDup(RemoveFirst(s, x))
    ensures forall y :: y in RemoveFirst(s, x) <==> y in s && y != x
  {
    if x in s {
      var i := FirstIndex(s, x);
      var r := RemoveFirst(s, x);
      assert forall k :: 0 <= k < |r| ==> r[k] == (if k < i then s[k] else s[k + 1]);
      forall y ensures y in r <==> y in s && y != x {
        if y in s && y != x {
          var k :| 0 <= k < |s| && s[k] == y;
          assert k != i;
          if k < i { assert r[k] == y; } else { assert r[k - 1] == y; }
        }
      }
    }
  }

  /** The earliest pending timer fires. Factory calls and listener calls run
      the environment's code; a component run records what is running. */
  function Tick(st: Register): (r: Register)
    requires st.deferred != []
    ensures st.deferred[0].RunComponent? ==>
      r == st.(deferred := st.deferred[1..], running := Some(st.deferred[0].target))
    ensures !st.deferred[0].RunComponent? ==> r == st.(deferred := st.deferred[1..])
  {
    var st1 := st.(deferred := st.deferred[1..]);
    match st.deferred[0]
    case RunComponent(t) => st1.(running := Some(t))
    case _ => st1
  }

  // ---------------------------------------------------------------------
  // Events

  /** What can happen to a register: a call by the page, an answer of the
      factory, of a component or of a timer. */
  datatype Event =
    | ParseEv(parseRoot: Option<Path>)
    | CreatedEv(element: Path, script: seq<InitAction>, shutdown: ShutdownPolicy,
                request: RequestId, order: seq<Path>)
    | CreationFailedEv(request: RequestId, order: seq<Path>)
    | CompleteEv(c: CompRef)
    | FailedEv(c: CompRef)
    | TickEv
    | SetTimeoutEv(ms: int)
    | CustomTimeoutEv(given: bool, ms: int)
    | WatchdogEv
    | AttachEv(listener: ListenerId)
    | RemoveEv(c: CompRef)
    | PurgeEv(typeName: string, order: seq<Path>)

  /** The register after `e`. An event that cannot happen in `st` (an
      unknown component, no pending timer, an `order` that does not list the
      cache, a re-entrant parse) leaves it unchanged. */
  function Apply(st: Register, e: Event): (r: Step)
    ensures r.st.doc == st.doc
    ensures st.heap.Keys <= r.st.heap.Keys
  {
    match e
    case ParseEv(root) =>
      if st.componentRequests == [] && (root.Some? ==> At(st.doc, root.value).Some?)
      then Parse(st, root) else Step(st, None)
    case CreatedEv(root, script, shutdown, request, order) =>
      if At(st.doc, root).Some? && IsOrder(st.elementCache.Keys + {root}, order)
      then ComponentCreated(st, root, script, shutdown, request, order) else Step(st, None)
    case CreationFailedEv(request, order) =>
      if IsOrder(st.elementCache.Keys, order)
      then ComponentCreationFailed(st, request, order) else Step(st, None)
    case CompleteEv(c) =>
      if c in st.heap then Step(Complete(st, c), None) else Step(st, None)
    case FailedEv(c) =>
      if c in st.heap then Failed(st, c) else Step(st, None)
    case TickEv =>
      if st.deferred != [] then Step(Tick(st), None) else Step(st, None)
    case SetTimeoutEv(ms) => Step(SetTimeout(st, ms), None)
    case CustomTimeoutEv(given, ms) => Step(SetCustomTimeout(st, given, ms), None)
    case WatchdogEv =>
      if st.timer == Some(Timer(Watchdog, true)) then Step(WatchdogFires(st), None)
      else Step(st, None)
    case AttachEv(l) => Step(AttachReadyListener(st, l), None)
    case RemoveEv(c) =>
      if c in st.heap then RemoveComponent(st, c) else Step(st, None)
    case PurgeEv(t, order) =>
      if CacheConsistent(st) && IsOrder(st.elementCache.Keys, order)
      then PurgeComponents(st, t, order) else Step(st, None)
  }

  /** A run of events; an exception ends its call, not the page. The page
      never changes, and a component, once created, stays in the heap on the
      element it was created for. */
  function Exec(st: Register, evs: seq<Event>): (r: Register)
    ensures r.doc == st.doc
    ensures st.heap.Keys <= r.heap.Keys
    ensures Valid(st) ==> KeepsRoots(st.heap, r.heap)
    decreases |evs|
  {
    if evs == [] then st
    else
      assert Valid(st) ==> Valid(Apply(st, evs[0]).st) && KeepsRoots(st.heap, Apply(st, evs[0]).st.heap) by {
        if Valid(st) {
          ApplyKeepsValid(st, evs[0]);
          ApplyKeepsRoots(st, evs[0]);
        }
      }
      Exec(Apply(st, evs[0]).st, evs[1..])
  }

  // ---------------------------------------------------------------------
  // Properties

  /** No event moves a component to another element or drops it. */
  lemma ApplyKeepsRoots(st: Register, e: Event)
    requires Valid(st)
    ensures KeepsRoots(st.heap, Apply(st, e).st.heap)
  {
    if e.CreatedEv? || e.CreationFailedEv? {
      CreationKeepsRoots(st, e);
    } else if e.CompleteEv? || e.FailedEv? {
      ReadyKeepsRoots(st, e);
    } else if e.RemoveEv? || e.PurgeEv? {
      RemovalKeepsHeap(st, e);
    } else if e.TickEv? || e.WatchdogEv? || e.AttachEv? {
      TimerKeepsRefs(st, e);
    } else {
      SetupKeepsRefs(st, e);
    }
  }

  /** No event breaks the shape of a waiter list: allocated lists stay
      non-empty and free of duplicates. */
  lemma ApplyKeepsShape(st: Register, e: Event)
    requires Valid(st) && Shaped(st.heap)
    ensures Shaped(Apply(st, e).st.heap)
  {
    if e.CreatedEv? || e.CreationFailedEv? {
      CreationKeepsShape(st, e);
    } else if e.CompleteEv? || e.FailedEv? {
      ReadyKeepsShape(st, e);
    } else if e.RemoveEv? || e.PurgeEv? {
      RemovalKeepsHeap(st, e);
    } else if e.TickEv? || e.WatchdogEv? || e.AttachEv? {
      TimerKeepsRefs(st, e);
    } else {
      SetupKeepsRefs(st, e);
    }
  }

  lemma CreationKeepsShape(st: Register, e: Event)
    requires Valid(st) && Shaped(st.heap) && (e.CreatedEv? || e.CreationFailedEv?)
    ensures Shaped(Apply(st, e).st.heap)
  {
  }

  lemma ReadyKeepsShape(st: Register, e: Event)
    requires Shaped(st.heap) && (e.CompleteEv? || e.FailedEv?)
    ensures Shaped(Apply(st, e).st.heap)
  {
  }

  /** The waiter lists keep their shape under any run of events. */
  lemma {:induction false} ExecKeepsShape(st: Register, evs: seq<Event>)
    requires Valid(st) && Shaped(st.heap)
    ensures Shaped(Exec(st, evs).heap)
    decreases |evs|
  {
    if evs != [] {
      ApplyKeepsValid(st, evs[0]);
      ApplyKeepsShape(st, evs[0]);
      ExecKeepsShape(Apply(st, evs[0]).st, evs[1..]);
    }
  }

  lemma CreationKeepsRoots(st: Register, e: Event)
    requires Valid(st) && (e.CreatedEv? || e.CreationFailedEv?)
    ensures KeepsRoots(st.heap, Apply(st, e).st.heap)
  {
  }

  lemma ReadyKeepsRoots(st: Register, e: Event)
    requires Valid(st) && (e.CompleteEv? || e.FailedEv?)
    ensures KeepsRoots(st.heap, Apply(st, e).st.heap)
  {
    if e.c in st.heap {
      if e.CompleteEv? {
        CompleteKeepsRoots(st, e.c);
      } else {
        FailedKeepsRoots(st, e.c);
      }
    }
  }

  lemma CompleteKeepsRoots(st: Register, c: CompRef)
    requires c in st.heap
    ensures KeepsRoots(st.heap, Complete(st, c).heap)
  {
  }

  lemma FailedKeepsRoots(st: Register, c: CompRef)
    requires c in st.heap
    ensures KeepsRoots(st.heap, Failed(st, c).st.heap)
  {
  }

  /** Every event keeps the register's references sound. */
  lemma ApplyKeepsValid(st: Register, e: Event)
    requires Valid(st)
    ensures Valid(Apply(st, e).st)
  {
    if e.CreatedEv? || e.CreationFailedEv? || e.CompleteEv? || e.FailedEv? {
      CallbackKeepsValid(st, e);
    } else {
      RegisterCallKeepsValid(st, e);
    }
  }

  /** The callbacks from the factory and from components keep the register
      valid. */
  lemma CallbackKeepsValid(st: Register, e: Event)
    requires Valid(st)
    requires e.CreatedEv? || e.CreationFailedEv? || e.CompleteEv? || e.FailedEv?
    ensures Valid(Apply(st, e).st)
  {
  }

  /** The page's own calls and the timers keep the register valid. */
  lemma RegisterCallKeepsValid(st: Register, e: Event)
    requires Valid(st)
    requires !(e.CreatedEv? || e.CreationFailedEv? || e.CompleteEv? || e.FailedEv?)
    ensures Valid(Apply(st, e).st)
  {
    if e.RemoveEv? || e.PurgeEv? {
      RemovalKeepsValid(st, e);
    } else if e.TickEv? || e.WatchdogEv? || e.AttachEv? {
      TimerKeepsRefs(st, e);
      UntouchedKeepsValid(st, Apply(st, e).st);
    } else {
      SetupKeepsRefs(st, e);
      UntouchedKeepsValid(st, Apply(st, e).st);
    }
  }

  lemma TimerKeepsRefs(st: Register, e: Event)
    requires e.TickEv? || e.WatchdogEv? || e.AttachEv?
    ensures Untouched(st, Apply(st, e).st)
  {
    if e.TickEv? && st.deferred != [] {
      assert Apply(st, e).st == Tick(st);
    }
  }

  lemma SetupKeepsRefs(st: Register, e: Event)
    requires e.ParseEv? || e.SetTimeoutEv? || e.CustomTimeoutEv?
    ensures Untouched(st, Apply(st, e).st)
  {
  }

  /** Removing components drops them from the caches only. */
  lemma RemovalKeepsHeap(st: Register, e: Event)
    requires Valid(st) && (e.RemoveEv? || e.PurgeEv?)
    ensures Apply(st, e).st.heap == st.heap && Apply(st, e).st.started == st.started
  {
  }

  lemma RemovalKeepsValid(st: Register, e: Event)
    requires Valid(st) && (e.RemoveEv? || e.PurgeEv?)
    ensures Valid(Apply(st, e).st)
  {
  }

  /** `r` holds the same components, caches, run list and start log as
      `st`. */
  predicate Untouched(st: Register, r: Register)
  {
    && r.heap == st.heap && r.nextRef == st.nextRef && r.elementCache == st.elementCache
    && r.idCache == st.idCache && r.runList == st.runList && r.started == st.started
  }

  lemma UntouchedKeepsValid(st: Register, r: Register)
    requires Untouched(st, r)
    ensures Valid(st) ==> Valid(r)
  {
  }

  /** Valid registers stay valid under any run of events. */
  lemma {:induction false} ExecKeepsValid(st: Register, evs: seq<Event>)
    requires Valid(st)
    ensures Valid(Exec(st, evs))
    decreases |evs|
  {
    if evs != [] {
      ApplyKeepsValid(st, evs[0]);
      ExecKeepsValid(Apply(st, evs[0]).st, evs[1..]);
    }
  }

  /** The run list of one init phase names exactly the inactive cached
      components, each once: the cache holds one component per element, so
      walking distinct keys never meets a component twice. */
  lemma InactiveOf(st: Register, keys: seq<Path>)
    requires CacheConsistent(st) && NoDup(keys)
    requires forall p :: p in keys ==> p in st.elementCache
    ensures NoDup(Inactive(st, keys))
    ensures forall c :: c in Inactive(st, keys) <==>
      exists p :: p in keys && st.elementCache[p] == c && !Active(st.heap[c])
  {
    InactiveMembers(st, keys);
    InactiveNoDup(st, keys);
  }

  lemma {:induction false} InactiveMembers(st: Register, keys: seq<Path>)
    requires CacheConsistent(st)
    requires forall p :: p in keys ==> p in st.elementCache
    ensures forall c :: c in Inactive(st, keys) <==>
      exists p :: p in keys && st.elementCache[p] == c && !Active(st.heap[c])
    decreases |keys|
  {
    if keys != [] {
      InactiveMembers(st, keys[1..]);
      assert forall p :: p in keys <==> p == keys[0] || p in keys[1..];
    }
  }

  lemma {:induction false} InactiveNoDup(st: Register, keys: seq<Path>)
    requires CacheConsistent(st) && NoDup(keys)
    requires forall p :: p in keys ==> p in st.elementCache
    ensures NoDup(Inactive(st, keys))
    decreases |keys|
  {
    if keys != [] {
      var rest := keys[1..];
      assert NoDup(rest) by {
        forall i, j | 0 <= i < j < |rest| ensures rest[i] != rest[j] {
          assert rest[i] == keys[i + 1] && rest[j] == keys[j + 1];
        }
      }
      InactiveNoDup(st, rest);
      var c0 := st.elementCache[keys[0]];
      if !Active(st.heap[c0]) {
        InactiveMembers(st, rest);
        var r := Inactive(st, keys);
        assert r == [c0] + Inactive(st, rest);
        forall p | p in rest ensures st.elementCache[p] != c0 {
          var j :| 0 <= j < |rest| && rest[j] == p;
          assert keys[j + 1] == p;
        }
        forall i, j | 0 <= i < j < |r| ensures r[i] != r[j] {
          if i == 0 {
            assert r[j] == Inactive(st, rest)[j - 1];
          } else {
            assert r[i] == Inactive(st, rest)[i - 1] && r[j] == Inactive(st, rest)[j - 1];
          }
        }
      }
    }
  }

  /** The init phase, once no request is outstanding and no `init()`
      throws, calls `init()` exactly once on each inactive cached component
      and on nothing else, and those components form the new run list. */
  lemma InitPhaseRunsEachOnce(st: Register, order: seq<Path>)
    requires CacheConsistent(st) && IsOrder(st.elementCache.Keys, order)
    requires st.componentRequests == []
    ensures var r := CreationComplete(st, order);
      var calls := r.st.inits[|st.inits|..];
      r.fault.None? ==>
        && r.st.runList == Some(calls)
        && NoDup(calls)
        && forall c :: c in calls <==>
             exists p :: p in st.elementCache && st.elementCache[p] == c && !Active(st.heap[c])
  {
    InactiveOf(st, order);
    var r := CreationComplete(st, order);
    if r.fault.None? {
      assert r.st.inits[|st.inits|..] == Inactive(st, order);
    }
  }

  /** Two init phases in a row call `init()` on the same components. */
  lemma InitPhaseTwice(st: Register, request: RequestId, order: seq<Path>)
    requires st.componentRequests == []
    ensures var first := CreationComplete(st, order);
      var second := ComponentCreationFailed(first.st, request, order);
      first.fault.None? && second.fault.None? ==>
        second.st.inits == st.inits + Inactive(st, order) + Inactive(st, order)
  {
    var first := CreationComplete(st, order);
    var second := ComponentCreationFailed(first.st, request, order);
    if first.fault.None? && second.fault.None? {
      assert first.st.(componentRequests := RemoveFirst(first.st.componentRequests, request)) == first.st;
      var again := CreationComplete(first.st, order);
      assert second == MarkFailed(again);
      assert Inactive(first.st, order) == Inactive(st, order) by {
        InactiveSameActivity(st, first.st, order);
      }
    }
  }

  /** A creation callback that arrives after the init phase (a late answer,
      or a second answer to the same request) finds no request outstanding
      and runs the init phase again: every component still inactive gets a
      second `init()` call. */
  lemma LateCallbackRerunsInit(st: Register, request: RequestId, order: seq<Path>)
    requires CacheConsistent(st) && IsOrder(st.elementCache.Keys, order)
    requires st.componentRequests == []
    ensures var first := CreationComplete(st, order);
      var second := ComponentCreationFailed(first.st, request, order);
      first.fault.None? && second.fault.None? ==> InitCalledTwice(st, second.st.inits)
  {
    var first := CreationComplete(st, order);
    var second := ComponentCreationFailed(first.st, request, order);
    InitPhaseTwice(st, request, order);
    if first.fault.None? && second.fault.None? {
      InactiveTwice(st, order, second.st.inits);
    }
  }

  /** Every cached component of `st` that has not run appears in the
      `init()` log `inits` at least twice more than in `st`'s. */
  ghost predicate InitCalledTwice(st: Register, inits: seq<CompRef>)
  {
    forall c :: c in st.heap && !Active(st.heap[c]) &&
                (exists p :: p in st.elementCache && st.elementCache[p] == c) ==>
      Count(inits, c) >= Count(st.inits, c) + 2
  }

  /** Two runs over the inactive components count each of them twice. */
  lemma InactiveTwice(st: Register, order: seq<Path>, inits: seq<CompRef>)
    requires CacheConsistent(st) && IsOrder(st.elementCache.Keys, order)
    requires inits == st.inits + Inactive(st, order) + Inactive(st, order)
    ensures InitCalledTwice(st, inits)
  {
    var list := Inactive(st, order);
    InactiveOf(st, order);
    forall c | c in st.heap && !Active(st.heap[c]) &&
               (exists p :: p in st.elementCache && st.elementCache[p] == c)
      ensures Count(inits, c) >= Count(st.inits, c) + 2
    {
      CountTwice(st.inits, list, c);
    }
  }

  /** What the listeners hear when `componentReady` finds nothing left to
      run: creation failure if it was recorded, otherwise a timeout error
      exactly when a timer is set and the run list is not empty (an empty
      run list cancels the timer first), otherwise success. */
  lemma ReadyOutcome(st: Register, target: Option<CompRef>)
    requires st.runList.Some?
    requires var h := if target.Some? && target.value in st.heap then NotifyWaiting(st.heap, target.value)
                      else st.heap;
      var list := if target.Some? then RemoveFirst(st.runList.value, target.value)
                  else st.runList.value;
      FirstReady(st.doc, h, list).None?
    ensures var r := ComponentReady(st, target);
      var list := r.runList.value;
      var e := if st.failed then Some(CreationFailed)
               else if st.timer.Some? && list != [] then Some(TimeoutPending)
               else None;
      && |st.notices| <= |r.notices|
      && |r.notices| - |st.notices| == |st.listeners|
      && forall i :: 0 <= i < |st.listeners| ==>
           r.notices[|st.notices| + i] == Notice(st.listeners[i], e)
  {
    var h := if target.Some? && target.value in st.heap then NotifyWaiting(st.heap, target.value)
             else st.heap;
    var list := if target.Some? then RemoveFirst(st.runList.value, target.value)
                else st.runList.value;
    var st1 := st.(running := None, heap := h, runList := Some(list));
    var r := ComponentReady(st, target);
    assert r == ScheduleNext(st1, list);
    var timer := if list == [] then None else st.timer;
    assert r == InvokeReadyCallbacks(st1.(timer := timer));
    forall i | 0 <= i < |st.listeners|
      ensures r.notices[|st.notices| + i] == Notice(st.listeners[i], ReadyErrorOf(st1.(timer := timer)))
    {
      assert r.notices[|st.notices| + i] == r.notices[|st.notices|..][i];
    }
  }

  /** With every cached component active, an init phase has nothing to
      initialise. */
  lemma {:induction false} NothingInactive(st: Register, keys: seq<Path>)
    requires forall p :: p in keys && p in st.elementCache && st.elementCache[p] in st.heap ==>
      Active(st.heap[st.elementCache[p]])
    ensures Inactive(st, keys) == []
    decreases |keys|
  {
    if keys != [] {
      NothingInactive(st, keys[1..]);
    }
  }

  /** An `init()` can only throw if some component was initialised. */
  lemma {:induction false} RunInitFaultNeedsInactive(st: Register, keys: seq<Path>, order: seq<Path>)
    ensures RunInit(st, keys, order).fault.Some? ==> Inactive(st, keys) != []
    decreases |keys|
  {
    if keys != [] {
      var p := keys[0];
      if p in st.elementCache && st.elementCache[p] in st.heap &&
         !Active(st.heap[st.elementCache[p]]) {
      } else {
        RunInitFaultNeedsInactive(st, keys[1..], order);
      }
    }
  }

  /** The last creation request failing, with no component left to
      initialise, reports success to every listener: the init phase calls
      them before `failed` is set, and its empty run list cancels any timer.
      Only afterwards does the register record the failure. */
  lemma LastCreationFailureReportsSuccess(st: Register, request: RequestId, order: seq<Path>)
    requires st.componentRequests == [request] && !st.failed
    requires forall p :: p in st.elementCache && st.elementCache[p] in st.heap ==>
      Active(st.heap[st.elementCache[p]])
    ensures var r := ComponentCreationFailed(st, request, order);
      && r.fault.None? && r.st.failed
      && |r.st.notices| == |st.notices| + |st.listeners|
      && forall i :: |st.notices| <= i < |r.st.notices| ==> r.st.notices[i].error.None?
  {
    var st1 := st.(componentRequests := []);
    assert RemoveFirst(st.componentRequests, request) == [];
    NothingInactive(st1, order);
    RunInitFaultNeedsInactive(st1, order, order);
    var init := RunInit(st1, order, order);
    assert init.fault.None? ==> init.list == [];
    var s := CreationComplete(st1, order);
    if init.fault.None? {
      var st2 := init.st.(runList := Some(init.list), inits := st1.inits + init.list);
      assert s == Step(ComponentReady(st2, None), None);
      ReadyOutcome(st2, None);
    }
    var r := ComponentCreationFailed(st, request, order);
    assert r == MarkFailed(s);
  }

  /** Component `d` waits on `t`, and `t` has already run (successfully or
      not), so no later `complete()` of `t` can release `d`. */
  predicate Stalled(st: Register, d: CompRef, t: CompRef)
  {
    d in st.heap && t in st.heap && Active(st.heap[t]) && t in st.heap[d].dependsOn
  }

  /** `r` started nothing new that is `d`, and kept the earlier starts. */
  predicate NotStartedSince(st: Register, r: Register, d: CompRef)
  {
    |st.started| <= |r.started| && r.started[..|st.started|] == st.started &&
    d !in r.started[|st.started|..]
  }

  /** A step that loses no dependency and starts only dependency-free
      components keeps a stall. */
  lemma GrowthKeepsStall(st: Register, r: Register, d: CompRef, t: CompRef)
    requires Stalled(st, d, t)
    requires d in r.heap && t in r.heap && r.heap[t].hasRun
    requires Count(st.heap[d].dependsOn, t) <= Count(r.heap[d].dependsOn, t)
    requires StartsOnlyFree(st, r)
    ensures Stalled(r, d, t) && NotStartedSince(st, r, d)
  {
    CountPositive(st.heap[d].dependsOn, t);
    CountPositive(r.heap[d].dependsOn, t);
    forall k | |st.started| <= k < |r.started| ensures r.started[k] != d {
    }
    assert forall k :: 0 <= k < |r.started[|st.started|..]| ==>
      r.started[|st.started|..][k] == r.started[|st.started| + k];
  }

  lemma CompleteKeepsStall(st: Register, c: CompRef, d: CompRef, t: CompRef)
    requires Stalled(st, d, t) && c in st.heap
    ensures var r := Complete(st, c);
      Stalled(r, d, t) && NotStartedSince(st, r, d)
  {
    if !Active(st.heap[c]) {
      var s := ComponentReady(st, Some(c));
      var r := Complete(st, c);
      assert Count(s.heap[d].dependsOn, t) == Count(st.heap[d].dependsOn, t) by {
        if st.runList.Some? {
          assert s.heap == ReleaseAll(st.heap, Waiters(st.heap[c]), c);
          ReleaseAllCounts(st.heap, Waiters(st.heap[c]), c, d, t);
        }
      }
      MarkRunKeepsStarts(st, s, c);
      GrowthKeepsStall(st, r, d, t);
    } else {
      GrowthKeepsStall(st, st, d, t);
    }
  }

  lemma FailedKeepsStall(st: Register, c: CompRef, d: CompRef, t: CompRef)
    requires Stalled(st, d, t) && c in st.heap
    ensures var r := Failed(st, c).st;
      Stalled(r, d, t) && NotStartedSince(st, r, d)
  {
    var r := Failed(st, c).st;
    if !Active(st.heap[c]) && st.runList.Some? {
      var s := ComponentFailed(st, c);
      MarkRunKeepsStarts(st, s.st, c);
      assert r == s.st.(heap := s.st.heap[c := s.st.heap[c].(hasRun := true)]);
      GrowthKeepsStall(st, r, d, t);
    } else {
      GrowthKeepsStall(st, r, d, t);
    }
  }

  /** Setting `hasRun` on a component changes no dependency list and keeps
      the start log's guarantee. */
  lemma MarkRunKeepsStarts(st: Register, s: Register, c: CompRef)
    requires c in s.heap && StartsOnlyFree(st, s)
    ensures var r := s.(heap := s.heap[c := s.heap[c].(hasRun := true)]);
      && StartsOnlyFree(st, r) && r.heap.Keys == s.heap.Keys
      && (forall x :: x in s.heap ==> r.heap[x].dependsOn == s.heap[x].dependsOn)
  {
  }

  lemma CreatedKeepsStall(st: Register, e: Event, d: CompRef, t: CompRef)
    requires Valid(st) && Stalled(st, d, t) && e.CreatedEv?
    ensures var r := Apply(st, e).st;
      Stalled(r, d, t) && NotStartedSince(st, r, d)
  {
    var r := Apply(st, e).st;
    if At(st.doc, e.element).Some? && IsOrder(st.elementCache.Keys + {e.element}, e.order) {
      assert r == ComponentCreated(st, e.element, e.script, e.shutdown, e.request, e.order).st;
    }
    GrowthKeepsStall(st, r, d, t);
  }

  lemma CreationFailedKeepsStall(st: Register, e: Event, d: CompRef, t: CompRef)
    requires Valid(st) && Stalled(st, d, t) && e.CreationFailedEv?
    ensures var r := Apply(st, e).st;
      Stalled(r, d, t) && NotStartedSince(st, r, d)
  {
    var r := Apply(st, e).st;
    GrowthKeepsStall(st, r, d, t);
  }

  /** The events that leave every component's dependencies and the start
      log alone. */
  lemma FrameKeepsStall(st: Register, e: Event, d: CompRef, t: CompRef)
    requires Valid(st) && Stalled(st, d, t)
    requires !e.CreatedEv? && !e.CreationFailedEv? && !e.CompleteEv? && !e.FailedEv?
    ensures var r := Apply(st, e).st;
      Stalled(r, d, t) && NotStartedSince(st, r, d)
  {
    var r := Apply(st, e).st;
    if e.RemoveEv? || e.PurgeEv? {
      RemovalKeepsHeap(st, e);
    } else if e.TickEv? || e.WatchdogEv? || e.AttachEv? {
      TimerKeepsRefs(st, e);
    } else {
      SetupKeepsRefs(st, e);
    }
    GrowthKeepsStall(st, r, d, t);
  }

  /** No event releases a stalled component or starts it. */
  lemma ApplyKeepsStall(st: Register, e: Event, d: CompRef, t: CompRef)
    requires Valid(st) && Stalled(st, d, t)
    ensures var r := Apply(st, e).st;
      Stalled(r, d, t) && NotStartedSince(st, r, d)
  {
    if e.CreatedEv? {
      CreatedKeepsStall(st, e, d, t);
    } else if e.CreationFailedEv? {
      CreationFailedKeepsStall(st, e, d, t);
    } else if e.CompleteEv? {
      if e.c in st.heap {
        CompleteKeepsStall(st, e.c, d, t);
      } else {
        GrowthKeepsStall(st, st, d, t);
      }
    } else if e.FailedEv? {
      if e.c in st.heap {
        FailedKeepsStall(st, e.c, d, t);
      } else {
        GrowthKeepsStall(st, st, d, t);
      }
    } else {
      FrameKeepsStall(st, e, d, t);
    }
  }

  /** A component waiting on one that has already run stays waiting and is
      never started, whatever happens afterwards: `componentFailed` does not
      release dependents, and `complete()`/`failed()` take effect only once. */
  lemma {:induction false} StallIsPermanent(st: Register, evs: seq<Event>, d: CompRef, t: CompRef)
    requires Valid(st) && Stalled(st, d, t)
    ensures var r := Exec(st, evs);
      Stalled(r, d, t) && NotStartedSince(st, r, d)
    decreases |evs|
  {
    if evs != [] {
      var mid := Apply(st, evs[0]).st;
      ApplyKeepsStall(st, evs[0], d, t);
      ApplyKeepsValid(st, evs[0]);
      StallIsPermanent(mid, evs[1..], d, t);
      var r := Exec(st, evs);
      assert r == Exec(mid, evs[1..]);
      NotStartedTrans(st.started, mid.started, r.started, d);
    }
  }

  /** Two stretches of the start log without `d` make one. */
  lemma NotStartedTrans(a: seq<CompRef>, b: seq<CompRef>, c: seq<CompRef>, d: CompRef)
    requires |a| <= |b| && b[..|a|] == a && d !in b[|a|..]
    requires |b| <= |c| && c[..|b|] == b && d !in c[|b|..]
    ensures |a| <= |c| && c[..|a|] == a && d !in c[|a|..]
  {
    assert c[..|a|] == c[..|b|][..|a|];
    assert c[|a|..] == b[|a|..] + c[|b|..];
  }

  /** The run of a component `t` that `d` waits on ends in `failed()`: `d`
      is stalled from then on. */
  lemma FailureStallsDependents(st: Register, t: CompRef, d: CompRef)
    requires Valid(st) && t in st.heap && d in st.heap && st.runList.Some?
    requires t in st.heap[d].dependsOn
    ensures var r := Failed(st, t);
      r.fault.None? && Stalled(r.st, d, t)
  {
    var r := Failed(st, t);
    if !Active(st.heap[t]) {
      var s := ComponentFailed(st, t);
      assert r.st.heap[d].dependsOn == st.heap[d].dependsOn;
    }
  }

  /** `complete()` and `failed()` take effect once between them: after
      either, both are no-ops. */
  lemma RunEndsOnce(st: Register, c: CompRef)
    requires c in st.heap
    ensures var r := Complete(st, c);
      Complete(r, c) == r && Failed(r, c) == Step(r, None)
    ensures var s := Failed(st, c);
      s.fault.None? ==> c in s.st.heap && Complete(s.st, c) == s.st && Failed(s.st, c) == s
  {
  }

  /** No element that already has a component is asked for again. */
  lemma {:induction false} NothingUncached(items: seq<Path>, cache: map<Path, CompRef>)
    requires forall p :: p in items ==> p in cache
    ensures Uncached(items, cache) == []
    decreases |items|
  {
    if items != [] {
      NothingUncached(items[1..], cache);
    }
  }

  /** Parsing again a part of the page whose components all exist issues no
      creation request and schedules no factory call. */
  lemma ReparseRequestsNothing(st: Register, root: Path)
    requires st.componentRequests == []
    requires At(st.doc, root).Some?
    requires forall p :: p in Found(st.doc, root) ==> p in st.elementCache
    ensures Parse(st, Some(root)) == Step(st.(failed := false, timer := Parse(st, Some(root)).st.timer), None)
  {
    NothingUncached(Found(st.doc, root), st.elementCache);
    var r := ParseRoot(st, root);
    assert r.deferred == r.deferred[..|st.deferred|];
  }

  /** `parse(null)` throws, but only after clearing `failed` and scheduling
      the timer: nothing is requested and the caches are untouched. */
  lemma NullParseThrows(st: Register)
    requires st.componentRequests == []
    ensures Parse(st, None).fault == Some(NullDereference)
    ensures Parse(st, None).st.componentRequests == [] && Parse(st, None).st.deferred == st.deferred
    ensures Untouched(st, Parse(st, None).st)
  {
  }
}
