/** A component as a node of the dependency graph: what it waits for
    (`dependsOn`, a list that may repeat an entry), who waits for it
    (`dependedOn`, a list without repeats that only grows), the values and
    assets its markup must provide, and the one-shot `hasRun` flag.

    Components refer to each other by identity, so they live in a heap
    `map<CompRef, Comp>`; an operation of the source that touches two
    objects is a heap-to-heap function here. */
module Component {
  import opened Common
  import opened ComponentQuery
  import opened ComponentContainer

  /** Object identity of a component. */
  type CompRef = nat

  /** One call a component's `init()` makes; `init()` itself is the
      component's script. `RequireType` stands both for
      `requireComponentType(t)` and for
      `requireComponentInstance(getComponentByType(t))`, which have the same
      effect on the model. */
  datatype InitAction =
    | RequireId(id: string)
    | RequireType(typeName: string)
    | RequireValue(name: string)
    | RequireAsset(name: string)

  /** What `shutdown()` does: the default body, or an override that returns
      or throws. */
  datatype ShutdownPolicy = DefaultShutdown | CustomSucceeds | CustomThrows

  /** A component object. `root` is the root element of its container and
      `elementId` that element's `id` attribute. A null `dependsOn`,
      `requiredValues` or `requiredAssets` behaves as an empty list
      everywhere it is read, so those are plain sequences; a null
      `dependedOn` does not (the default `shutdown()` dereferences it). */
  datatype Comp = Comp(
    root: Path,
    elementId: Option<string>,
    script: seq<InitAction>,
    shutdown: ShutdownPolicy,
    dependedOn: Option<seq<CompRef>>,
    dependsOn: seq<CompRef>,
    requiredValues: seq<string>,
    requiredAssets: seq<string>,
    hasRun: bool)

  type Heap = map<CompRef, Comp>

  /** A component as its constructor leaves it. */
  function NewComp(root: Path, elementId: Option<string>, script: seq<InitAction>,
                   shutdown: ShutdownPolicy): (r: Comp)
    ensures r.dependedOn.None? && r.dependsOn == [] && !r.hasRun
    ensures r.requiredValues == [] && r.requiredAssets == []
    ensures r.root == root && r.elementId == elementId && r.script == script && r.shutdown == shutdown
  {
    Comp(root, elementId, script, shutdown, None, [], [], [], false)
  }

  /** `active()`. */
  predicate Active(c: Comp)
  {
    c.hasRun
  }

  /** The waiters of `c`, a null list read as empty. */
  function Waiters(c: Comp): seq<CompRef>
  {
    if c.dependedOn.Some? then c.dependedOn.value else []
  }

  /** `getContainer().getType()`: the type tag of the component's root
      element, "" when it has none. The container caches it, and the cached
      value never differs from a fresh one (`GetTypeIsStable`). */
  function TypeOf(doc: Node, c: Comp): (r: string)
    ensures var id := GetComponentId(Some(ClassNameAt(doc, c.root)));
      (id.Some? ==> r == id.value) && (id.None? ==> r == "")
  {
    GetType(doc, NewContainer(c.root)).0
  }

  // ---------------------------------------------------------------------
  // The wait lists

  /** `registerWaitIntent(waiting)`: allocates the waiter list if needed and
      appends `waiting` unless it is already there. */
  function RegisterWaitIntent(c: Comp, waiting: CompRef): (r: Comp)
    ensures r.dependedOn.Some? && waiting in r.dependedOn.value
    ensures waiting in Waiters(c) ==> r.dependedOn.value == Waiters(c)
    ensures waiting !in Waiters(c) ==> r.dependedOn.value == Waiters(c) + [waiting]
    ensures r.(dependedOn := c.dependedOn) == c
  {
    var list := Waiters(c);
    if waiting in list then c.(dependedOn := Some(list))
    else c.(dependedOn := Some(list + [waiting]))
  }

  /** The shape the waiter list keeps: when allocated it is non-empty and
      holds no component twice. */
  predicate WaitListShape(c: Comp)
  {
    c.dependedOn.Some? ==> |c.dependedOn.value| > 0 && NoDup(c.dependedOn.value)
  }

  /** `registerWaitIntent` never adds a waiter twice and never shrinks the
      list, so the waiter list keeps its shape. */
  lemma RegisterWaitIntentKeepsShape(c: Comp, waiting: CompRef)
    requires WaitListShape(c)
    ensures WaitListShape(RegisterWaitIntent(c, waiting))
    ensures var w := Waiters(RegisterWaitIntent(c, waiting));
      |Waiters(c)| <= |w| && w[..|Waiters(c)|] == Waiters(c)
  {
    var list := Waiters(c);
    if waiting !in list {
      var w := list + [waiting];
      assert forall i :: 0 <= i < |list| ==> w[i] == list[i];
    }
  }

  /** `componentReady(resolved)`: drops one occurrence of `resolved` from
      `dependsOn`, if there is one. */
  function ComponentReadyOn(c: Comp, resolved: CompRef): (r: Comp)
    ensures multiset(r.dependsOn) == multiset(c.dependsOn) - multiset{resolved}
    ensures resolved in c.dependsOn ==> |r.dependsOn| == |c.dependsOn| - 1
    ensures r.(dependsOn := c.dependsOn) == c
  {
    c.(dependsOn := RemoveFirst(c.dependsOn, resolved))
  }

  /** `requireComponentInstance(target)`: nothing for a null or active
      target; otherwise `target` is appended to `dependsOn` (again, if it is
      already there) and `self` registers as a waiter of `target`. */
  function RequireComponentInstance(h: Heap, self: CompRef, target: Option<CompRef>): (r: Heap)
    requires self in h
    requires target.Some? ==> target.value in h
    ensures r.Keys == h.Keys
    ensures target.None? || Active(h[target.value]) ==> r == h
    ensures target.Some? && !Active(h[target.value]) ==>
      var t := target.value;
      && r[self].dependsOn == h[self].dependsOn + [t]
      && self in Waiters(r[t])
      && r[t] == RegisterWaitIntent(h[t].(dependsOn := r[t].dependsOn), self)
      && (forall x :: x in h && x != self && x != t ==> r[x] == h[x])
      && (forall x :: x in h && x != self ==> r[x].dependsOn == h[x].dependsOn)
      && (forall x :: x in h && x != t ==> r[x].dependedOn == h[x].dependedOn)
      && (forall x :: x in h ==> r[x].hasRun == h[x].hasRun && r[x].root == h[x].root)
  {
    if target.None? || Active(h[target.value]) then h
    else
      var t := target.value;
      var h1 := h[self := h[self].(dependsOn := h[self].dependsOn + [t])];
      h1[t := RegisterWaitIntent(h1[t], self)]
  }

  /** `requireValue(name)`. */
  function RequireValueOn(c: Comp, name: string): (r: Comp)
    ensures r.requiredValues == c.requiredValues + [name]
    ensures r.(requiredValues := c.requiredValues) == c
  {
    c.(requiredValues := c.requiredValues + [name])
  }

  /** `requireAsset(name)`. */
  function RequireAssetOn(c: Comp, name: string): (r: Comp)
    ensures r.requiredAssets == c.requiredAssets + [name]
    ensures r.(requiredAssets := c.requiredAssets) == c
  {
    c.(requiredAssets := c.requiredAssets + [name])
  }

  /** The loop of `notifyWaiting()`: `componentReady(resolved)` on each
      listed dependent in turn. A reference outside the heap is skipped; in
      the source every reference is a live object. */
  function ReleaseAll(h: Heap, deps: seq<CompRef>, resolved: CompRef): (r: Heap)
    ensures r.Keys == h.Keys
    ensures forall x :: x in h ==> r[x].(dependsOn := h[x].dependsOn) == h[x]
    ensures forall x :: x in h && x !in deps ==> r[x] == h[x]
    decreases |deps|
  {
    if deps == [] then h
    else if deps[0] !in h then ReleaseAll(h, deps[1..], resolved)
    else ReleaseAll(h[deps[0] := ComponentReadyOn(h[deps[0]], resolved)], deps[1..], resolved)
  }

  /** `a - b` on naturals, floored at zero. */
  function Monus(a: nat, b: nat): nat
  {
    if a >= b then a - b else 0
  }

  /** Releasing along `deps` removes, from each component `x`, as many
      occurrences of `resolved` as `x` is listed in `deps` (as far as there
      are any), and touches no other entry of any `dependsOn`. */
  lemma {:induction false} ReleaseAllCounts(h: Heap, deps: seq<CompRef>, resolved: CompRef, x: CompRef, y: CompRef)
    requires x in h
    ensures y != resolved ==> Count(ReleaseAll(h, deps, resolved)[x].dependsOn, y) == Count(h[x].dependsOn, y)
    ensures Count(ReleaseAll(h, deps, resolved)[x].dependsOn, resolved)
         == Monus(Count(h[x].dependsOn, resolved), Count(deps, x))
    decreases |deps|
  {
    if deps != [] {
      assert deps == [deps[0]] + deps[1..];
      CountAppend([deps[0]], deps[1..], x);
      if deps[0] !in h {
        ReleaseAllCounts(h, deps[1..], resolved, x, y);
        assert Count(deps, x) == Count(deps[1..], x);
      } else {
        var d := deps[0];
        var h1 := h[d := ComponentReadyOn(h[d], resolved)];
        ReleaseAllCounts(h1, deps[1..], resolved, x, y);
        RemoveFirstCount(h[d].dependsOn, resolved, y);
        RemoveFirstCount(h[d].dependsOn, resolved, resolved);
        CountPositive(h[d].dependsOn, resolved);
      }
    }
  }

  /** `notifyWaiting()`: every waiter drops one occurrence of `self` from its
      `dependsOn`. The waiter list itself is kept (the default `shutdown()`
      reads it later). */
  function NotifyWaiting(h: Heap, self: CompRef): (r: Heap)
    requires self in h
    ensures r.Keys == h.Keys
    ensures forall x :: x in h ==> r[x].dependedOn == h[x].dependedOn
    ensures forall x :: x in h ==> r[x].hasRun == h[x].hasRun && r[x].root == h[x].root
    ensures forall x :: x in h && x !in Waiters(h[self]) ==> r[x] == h[x]
  {
    ReleaseAll(h, Waiters(h[self]), self)
  }

  /** With the waiter list in shape, `notifyWaiting()` removes exactly one
      occurrence of `self` from each waiter that still has one, and leaves
      every other dependency of every component in place. */
  lemma NotifyWaitingReleasesOnce(h: Heap, self: CompRef, x: CompRef, y: CompRef)
    requires self in h && x in h && WaitListShape(h[self])
    ensures var r := NotifyWaiting(h, self);
      && (y != self ==> Count(r[x].dependsOn, y) == Count(h[x].dependsOn, y))
      && (x in Waiters(h[self]) ==> Count(r[x].dependsOn, self) == Monus(Count(h[x].dependsOn, self), 1))
      && (x !in Waiters(h[self]) ==> Count(r[x].dependsOn, self) == Count(h[x].dependsOn, self))
  {
    var w := Waiters(h[self]);
    ReleaseAllCounts(h, w, self, x, y);
    ReleaseAllCounts(h, w, self, x, self);
    CountNoDup(w, x);
  }

  // ---------------------------------------------------------------------
  // Dependency counting

  /** Whether `getAsset(name)` (`cls == AssetClass`) or `getValue(name)`
      (`cls == ValueClass`) on the container of `root` finds anything. The
      container answers from its cache; `GetAssetAgreesWithMarkup` and
      `GetValueAgreesWithMarkup` show the cache gives the markup's answer. */
  predicate Present(doc: Node, root: Path, cls: string, name: string)
  {
    At(doc, root).Some? && GetElementsNoCache(doc, cls, IdPrefix + name, 1, root) != []
  }

  /** The counting loop of `getDependencyCount()` over one list of names:
      each absent name counts once per occurrence. */
  function CountMissing(doc: Node, root: Path, cls: string, names: seq<string>): (r: nat)
    ensures r <= |names|
    ensures r == 0 <==> forall n :: n in names ==> Present(doc, root, cls, n)
  {
    if names == [] then 0
    else (if Present(doc, root, cls, names[0]) then 0 else 1) + CountMissing(doc, root, cls, names[1..])
  }

  /** The names the listing loop of `getDependencies()` reports, in order. */
  function MissingNames(doc: Node, root: Path, cls: string, names: seq<string>): (r: seq<string>)
    ensures forall n :: n in r <==> n in names && !Present(doc, root, cls, n)
  {
    if names == [] then []
    else
      var rest := MissingNames(doc, root, cls, names[1..]);
      if Present(doc, root, cls, names[0]) then rest else [names[0]] + rest
  }

  /** Counting and listing agree. */
  lemma {:induction false} CountMissingIsListed(doc: Node, root: Path, cls: string, names: seq<string>)
    ensures CountMissing(doc, root, cls, names) == |MissingNames(doc, root, cls, names)|
    decreases |names|
  {
    if names != [] {
      CountMissingIsListed(doc, root, cls, names[1..]);
    }
  }

  /** `getDependencyCount()`: the number of components still waited for;
      only when there are none, the number of absent assets plus absent
      values, which is the length of the `getDependencies()` listing. */
  function DependencyCount(doc: Node, c: Comp): (r: nat)
    ensures |c.dependsOn| > 0 ==> r == |c.dependsOn|
    ensures c.dependsOn == [] ==> r == |Dependencies(doc, c)|
  {
    if |c.dependsOn| > 0 then |c.dependsOn|
    else
      CountMissingIsListed(doc, c.root, AssetClass, c.requiredAssets);
      CountMissingIsListed(doc, c.root, ValueClass, c.requiredValues);
      CountMissing(doc, c.root, AssetClass, c.requiredAssets) +
      CountMissing(doc, c.root, ValueClass, c.requiredValues)
  }

  /** An unresolved dependency as `getDependencies()` reports it. */
  datatype Dependency =
    | OnComponent(target: CompRef)
    | OnAsset(name: string)
    | OnValue(name: string)

  function ComponentEntries(targets: seq<CompRef>): (r: seq<Dependency>)
    ensures |r| == |targets|
    ensures forall d: Dependency :: d in r <==> d.OnComponent? && d.target in targets
  {
    if targets == [] then [] else [OnComponent(targets[0])] + ComponentEntries(targets[1..])
  }

  function AssetEntries(names: seq<string>): (r: seq<Dependency>)
    ensures |r| == |names|
    ensures forall d: Dependency :: d in r <==> d.OnAsset? && d.name in names
  {
    if names == [] then [] else [OnAsset(names[0])] + AssetEntries(names[1..])
  }

  function ValueEntries(names: seq<string>): (r: seq<Dependency>)
    ensures |r| == |names|
    ensures forall d: Dependency :: d in r <==> d.OnValue? && d.name in names
  {
    if names == [] then [] else [OnValue(names[0])] + ValueEntries(names[1..])
  }

  /** `getDependencies()`: every waited-for component, then every absent
      asset, then every absent value. */
  function Dependencies(doc: Node, c: Comp): (r: seq<Dependency>)
    ensures forall d: Dependency :: d in r <==>
      || (d.OnComponent? && d.target in c.dependsOn)
      || (d.OnAsset? && d.name in c.requiredAssets && !Present(doc, c.root, AssetClass, d.name))
      || (d.OnValue? && d.name in c.requiredValues && !Present(doc, c.root, ValueClass, d.name))
  {
    ComponentEntries(c.dependsOn)
      + AssetEntries(MissingNames(doc, c.root, AssetClass, c.requiredAssets))
      + ValueEntries(MissingNames(doc, c.root, ValueClass, c.requiredValues))
  }

  /** The count is zero exactly when nothing is listed, and never exceeds
      the listing; while components are waited for, resources are not
      counted at all, whatever the markup holds. */
  lemma CountAgreesWithDependencies(doc: Node, doc': Node, c: Comp)
    ensures DependencyCount(doc, c) == 0 <==> Dependencies(doc, c) == []
    ensures DependencyCount(doc, c) <= |Dependencies(doc, c)|
    ensures |c.dependsOn| > 0 ==> DependencyCount(doc, c) == DependencyCount(doc', c)
  {
    CountMissingIsListed(doc, c.root, AssetClass, c.requiredAssets);
    CountMissingIsListed(doc, c.root, ValueClass, c.requiredValues);
    var assets := MissingNames(doc, c.root, AssetClass, c.requiredAssets);
    var values := MissingNames(doc, c.root, ValueClass, c.requiredValues);
    assert |Dependencies(doc, c)| == |c.dependsOn| + |assets| + |values|;
  }

  /** Two `requireComponentInstance(t)` calls record `t` twice and leave
      `self` registered, once, as a waiter of `t`. */
  lemma RequiredTwice(h: Heap, self: CompRef, t: CompRef)
    requires self in h && t in h && self != t && !Active(h[t])
    requires t !in h[self].dependsOn && WaitListShape(h[t])
    ensures var h2 := RequireComponentInstance(RequireComponentInstance(h, self, Some(t)), self, Some(t));
      Count(h2[self].dependsOn, t) == 2 && self in Waiters(h2[t]) && WaitListShape(h2[t])
  {
    var h1 := RequireComponentInstance(h, self, Some(t));
    var h2 := RequireComponentInstance(h1, self, Some(t));
    assert h2[self].dependsOn == h[self].dependsOn + [t] + [t];
    CountPositive(h[self].dependsOn, t);
    CountAppend(h[self].dependsOn, [t], t);
    CountAppend(h[self].dependsOn + [t], [t], t);
    RegisterWaitIntentKeepsShape(h[t].(dependsOn := h1[t].dependsOn), self);
    RegisterWaitIntentKeepsShape(h1[t].(dependsOn := h2[t].dependsOn), self);
  }

  /** Requiring the same component twice records it twice, but its one
      `notifyWaiting()` releases only one of them: the requiring component
      keeps waiting. */
  lemma DuplicateRequireNeverReleased(doc: Node, h: Heap, self: CompRef, t: CompRef)
    requires self in h && t in h && self != t && !Active(h[t])
    requires t !in h[self].dependsOn && WaitListShape(h[t])
    ensures var h2 := RequireComponentInstance(RequireComponentInstance(h, self, Some(t)), self, Some(t));
      var h3 := NotifyWaiting(h2, t);
      && Count(h3[self].dependsOn, t) == 1
      && DependencyCount(doc, h3[self]) > 0
  {
    var h2 := RequireComponentInstance(RequireComponentInstance(h, self, Some(t)), self, Some(t));
    RequiredTwice(h, self, t);
    NotifyWaitingReleasesOnce(h2, t, self, t);
    var h3 := NotifyWaiting(h2, t);
    CountPositive(h3[self].dependsOn, t);
  }

  // ---------------------------------------------------------------------
  // Shutdown

  /** `shutdown()`: None when it returns normally. The default body throws
      while anyone is registered as a waiter and dereferences null when
      nobody ever registered. */
  function Shutdown(c: Comp): (r: Option<Fault>)
    ensures c.shutdown == DefaultShutdown ==> (r.None? <==> c.dependedOn == Some([]))
    ensures c.shutdown == DefaultShutdown && c.dependedOn.None? ==> r == Some(NullDereference)
    ensures c.shutdown == CustomSucceeds ==> r.None?
    ensures c.shutdown == CustomThrows ==> r.Some?
  {
    match c.shutdown
    case DefaultShutdown =>
      if c.dependedOn.None? then Some(NullDereference)
      else if |c.dependedOn.value| > 0 then Some(UnresolvedDependency)
      else None
    case CustomSucceeds => None
    case CustomThrows => Some(ShutdownRefused)
  }

  /** A waiter list in shape is never allocated empty, so the default
      `shutdown()` never returns normally. */
  lemma DefaultShutdownNeverSucceeds(c: Comp)
    requires WaitListShape(c) && c.shutdown == DefaultShutdown
    ensures Shutdown(c).Some?
  {
  }

  /** Every waiter list of the heap has its shape. */
  predicate Shaped(h: Heap)
  {
    forall x :: x in h ==> WaitListShape(h[x])
  }

  /** `requireComponentInstance` keeps every waiter list of the heap in shape. */
  lemma RequireKeepsShaped(h: Heap, self: CompRef, target: Option<CompRef>)
    requires self in h && (target.Some? ==> target.value in h)
    ensures Shaped(h) ==> Shaped(RequireComponentInstance(h, self, target))
  {
    if Shaped(h) {
      forall x | x in RequireComponentInstance(h, self, target)
        ensures WaitListShape(RequireComponentInstance(h, self, target)[x])
      {
        OperationsKeepShape(h, self, target, x);
      }
    }
  }

  /** Every component operation keeps the waiter lists in shape. */
  lemma OperationsKeepShape(h: Heap, self: CompRef, target: Option<CompRef>, x: CompRef)
    requires self in h && (target.Some? ==> target.value in h) && x in h
    requires forall y :: y in h ==> WaitListShape(h[y])
    ensures WaitListShape(RequireComponentInstance(h, self, target)[x])
    ensures WaitListShape(NotifyWaiting(h, self)[x])
  {
    if target.Some? && !Active(h[target.value]) && x == target.value {
      var t := target.value;
      var r := RequireComponentInstance(h, self, target);
      RegisterWaitIntentKeepsShape(h[t].(dependsOn := r[t].dependsOn), self);
    }
  }
}
