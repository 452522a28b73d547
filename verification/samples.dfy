/** The sample components of the register's test page, and what the model
    says about the two pages the tests load: one where every component
    finds its value and asset, and one where `SampleC` lacks its value. */
module Samples {
  import opened Common
  import opened ComponentQuery
  import opened ComponentContainer
  import opened Component
  import opened ComponentRegister

  /** `SampleA.init()`: a component by id, one instance by type, a value
      and an asset. */
  const SampleAScript: seq<InitAction> :=
    [RequireId("IdSetToB")] + ([RequireType("SampleC")] + LeafScript)

  /** `SampleB.init()` and `SampleC.init()`: a value and an asset. */
  const LeafScript: seq<InitAction> := [RequireValue("Value1")] + ([RequireAsset("Asset1")] + [])

  /** The sample factory: the script of the component it builds for a type
      name. Any other type gets no answer at all, neither `componentCreated`
      nor `componentCreationFailed`. */
  function SampleFactory(typeName: string): (r: Option<seq<InitAction>>)
    ensures r.Some? ==> r.value == SampleAScript || r.value == LeafScript
  {
    if typeName == "SampleA" then Some(SampleAScript)
    else if typeName == "SampleB" || typeName == "SampleC" then Some(LeafScript)
    else None
  }

  /** The factory answers exactly the three sample types. */
  lemma SampleFactoryAnswers(typeName: string)
    ensures SampleFactory(typeName).Some? <==>
      typeName == "SampleA" || typeName == "SampleB" || typeName == "SampleC"
  {
  }

  /** A leaf component whose dependencies are just a value and an asset. */
  predicate Leaf(c: Comp)
  {
    c.dependsOn == [] && c.requiredValues == ["Value1"] && c.requiredAssets == ["Asset1"]
  }

  /** `SampleB.init()` and `SampleC.init()` never throw: they add `Value1`
      to the required values and `Asset1` to the required assets, and leave
      the component dependencies alone. */
  lemma LeafInit(st: Register, self: CompRef, order: seq<Path>)
    requires self in st.heap
    ensures var r := RunScript(st, self, LeafScript, order);
      && r.fault.None? && self in r.st.heap
      && r.st.heap[self].dependsOn == st.heap[self].dependsOn
      && r.st.heap[self].requiredValues == st.heap[self].requiredValues + ["Value1"]
      && r.st.heap[self].requiredAssets == st.heap[self].requiredAssets + ["Asset1"]
  {
    var s1 := RunAction(st, self, RequireValue("Value1"), order);
    RunScriptCons(st, self, RequireValue("Value1"), [RequireAsset("Asset1")] + [], order);
    RunScriptCons(s1.st, self, RequireAsset("Asset1"), [], order);
  }

  /** On a fresh component the leaf script makes a leaf. */
  lemma FreshLeafInit(st: Register, self: CompRef, order: seq<Path>)
    requires self in st.heap
    requires st.heap[self].dependsOn == [] && st.heap[self].requiredValues == []
    requires st.heap[self].requiredAssets == []
    ensures var r := RunScript(st, self, LeafScript, order);
      r.fault.None? && self in r.st.heap && Leaf(r.st.heap[self])
  {
    LeafInit(st, self, order);
  }

  /** A leaf has nothing left to wait for exactly when its container holds
      both `Value1` and `Asset1`. */
  lemma LeafReadyIffMarkupPresent(doc: Node, c: Comp)
    requires Leaf(c)
    ensures DependencyCount(doc, c) == 0 <==>
      Present(doc, c.root, ValueClass, "Value1") && Present(doc, c.root, AssetClass, "Asset1")
  {
    MissingOne(doc, c.root, ValueClass, "Value1");
    MissingOne(doc, c.root, AssetClass, "Asset1");
  }

  /** A single required name counts as missing once or not at all. */
  lemma MissingOne(doc: Node, root: Path, cls: string, name: string)
    ensures CountMissing(doc, root, cls, [name]) == if Present(doc, root, cls, name) then 0 else 1
  {
    assert [name][1..] == [];
  }

  /** `SampleA.init()` throws at its first statement when `IdSetToB` is not
      cached, leaving the register as it was. */
  lemma SampleAWithoutB(st: Register, self: CompRef, order: seq<Path>)
    requires self in st.heap && "IdSetToB" !in st.idCache
    ensures RunScript(st, self, SampleAScript, order) == Step(st, Some(NullDereference))
  {
  }

  /** With `IdSetToB` and a `SampleC` cached and neither yet run (as in
      the init phase), `SampleA.init()` on a fresh component makes it depend on both, in that order, and on `Value1` and
      `Asset1`. */
  lemma SampleAInit(st: Register, self: CompRef, order: seq<Path>, b: CompRef, c: CompRef)
    requires self in st.heap && b in st.heap && c in st.heap && b != self && c != self
    requires !Active(st.heap[b]) && !Active(st.heap[c])
    requires st.heap[self].dependsOn == [] && st.heap[self].requiredValues == []
    requires st.heap[self].requiredAssets == []
    requires GetComponentById(st, "IdSetToB") == Some(b)
    requires GetComponentByType(st, "SampleC", order) == Some(c)
    ensures var r := RunScript(st, self, SampleAScript, order);
      && r.fault.None? && self in r.st.heap
      && r.st.heap[self].dependsOn == [b, c]
      && r.st.heap[self].requiredValues == ["Value1"]
      && r.st.heap[self].requiredAssets == ["Asset1"]
  {
    SampleAPrefix(st, self, order, b, c);
    var s1 := RunAction(st, self, RequireId("IdSetToB"), order);
    var s2 := RunAction(s1.st, self, RequireType("SampleC"), order);
    LeafInit(s2.st, self, order);
  }

  /** `SampleA.init()` is its two component requirements followed by the
      leaf script. */
  lemma SampleAPrefix(st: Register, self: CompRef, order: seq<Path>, b: CompRef, c: CompRef)
    requires self in st.heap && b in st.heap && c in st.heap && b != self && c != self
    requires !Active(st.heap[b]) && !Active(st.heap[c])
    requires st.heap[self].dependsOn == []
    requires GetComponentById(st, "IdSetToB") == Some(b)
    requires GetComponentByType(st, "SampleC", order) == Some(c)
    ensures var s1 := RunAction(st, self, RequireId("IdSetToB"), order);
      var s2 := RunAction(s1.st, self, RequireType("SampleC"), order);
      && s2.fault.None? && self in s2.st.heap
      && s2.st.heap[self].dependsOn == [b, c]
      && s2.st.heap[self].requiredValues == st.heap[self].requiredValues
      && s2.st.heap[self].requiredAssets == st.heap[self].requiredAssets
      && RunScript(st, self, SampleAScript, order) == RunScript(s2.st, self, LeafScript, order)
  {
    SampleARequires(st, self, order, b, c);
    var s1 := RunAction(st, self, RequireId("IdSetToB"), order);
    RunScriptCons(st, self, RequireId("IdSetToB"), [RequireType("SampleC")] + LeafScript, order);
    RunScriptCons(s1.st, self, RequireType("SampleC"), LeafScript, order);
  }

  /** The first two statements of `SampleA.init()`. */
  lemma SampleARequires(st: Register, self: CompRef, order: seq<Path>, b: CompRef, c: CompRef)
    requires self in st.heap && b in st.heap && c in st.heap && b != self && c != self
    requires !Active(st.heap[b]) && !Active(st.heap[c])
    requires st.heap[self].dependsOn == []
    requires GetComponentById(st, "IdSetToB") == Some(b)
    requires GetComponentByType(st, "SampleC", order) == Some(c)
    ensures var s1 := RunAction(st, self, RequireId("IdSetToB"), order);
      var s2 := RunAction(s1.st, self, RequireType("SampleC"), order);
      && s1.fault.None? && s2.fault.None? && self in s2.st.heap
      && s2.st.heap[self].dependsOn == [b, c]
      && s2.st.heap[self].requiredValues == st.heap[self].requiredValues
      && s2.st.heap[self].requiredAssets == st.heap[self].requiredAssets
  {
    RequireIdStep(st, self, "IdSetToB", b, order);
    var s1 := RunAction(st, self, RequireId("IdSetToB"), order);
    assert OnlyBookkeeping(st, s1.st);
    assert c in s1.st.heap && !Active(s1.st.heap[c]);
    ByTypeIgnoresBookkeeping(st, s1.st, "SampleC", order);
    RequireTypeStep(s1.st, self, "SampleC", c, order);
  }

  /** `requireComponent(id)` on a cached component that has not run. */
  lemma RequireIdStep(st: Register, self: CompRef, id: string, b: CompRef, order: seq<Path>)
    requires self in st.heap && b in st.heap && b != self && !Active(st.heap[b])
    requires GetComponentById(st, id) == Some(b)
    ensures var s := RunAction(st, self, RequireId(id), order);
      && s.fault.None? && self in s.st.heap
      && s.st.heap[self].dependsOn == st.heap[self].dependsOn + [b]
      && s.st.heap[self].requiredValues == st.heap[self].requiredValues
      && s.st.heap[self].requiredAssets == st.heap[self].requiredAssets
  {
  }

  /** `requireComponentInstance(getComponentByType(t))` when the lookup
      finds a component that has not run. */
  lemma RequireTypeStep(st: Register, self: CompRef, t: string, c: CompRef, order: seq<Path>)
    requires self in st.heap && c in st.heap && c != self && !Active(st.heap[c])
    requires GetComponentByType(st, t, order) == Some(c)
    ensures var s := RunAction(st, self, RequireType(t), order);
      && s.fault.None? && self in s.st.heap
      && s.st.heap[self].dependsOn == st.heap[self].dependsOn + [c]
      && s.st.heap[self].requiredValues == st.heap[self].requiredValues
      && s.st.heap[self].requiredAssets == st.heap[self].requiredAssets
  {
  }

  /** The page without `SampleC`'s value: `SampleC` is a leaf missing
      `Value1`, and `SampleA` (whose `SampleB` has completed) waits only on
      it. When the run list is down to those two, nothing can start, and
      with the external timer still set every listener hears that the
      timeout is pending. */
  lemma MissingValueTimesOut(st: Register, a: CompRef, c: CompRef)
    requires st.runList == Some([a, c]) && a in st.heap && c in st.heap
    requires st.heap[a].dependsOn == [c]
    requires Leaf(st.heap[c]) && !Present(st.doc, st.heap[c].root, ValueClass, "Value1")
    requires !st.failed && st.timer.Some?
    ensures var r := ComponentReady(st, None);
      && r.runList == Some([a, c])
      && |r.notices| == |st.notices| + |st.listeners|
      && forall i :: 0 <= i < |st.listeners| ==>
           r.notices[|st.notices| + i] == Notice(st.listeners[i], Some(TimeoutPending))
  {
    LeafReadyIffMarkupPresent(st.doc, st.heap[c]);
    assert FirstReady(st.doc, st.heap, [a, c]).None?;
    ReadyOutcome(st, None);
  }

  /** The good page: when the last of the run list is a leaf whose markup is
      all present, it is the one scheduled to run. */
  lemma PresentMarkupStartsLeaf(st: Register, c: CompRef)
    requires st.runList == Some([c]) && c in st.heap && Leaf(st.heap[c])
    requires Present(st.doc, st.heap[c].root, ValueClass, "Value1")
    requires Present(st.doc, st.heap[c].root, AssetClass, "Asset1")
    ensures var r := ComponentReady(st, None);
      && r.runList == Some([c]) && r.started == st.started + [c]
      && r.deferred == st.deferred + [RunComponent(c)]
  {
    LeafReadyIffMarkupPresent(st.doc, st.heap[c]);
    var st1 := st.(running := None, runList := Some([c]));
    assert ComponentReady(st, None) == ScheduleNext(st1, [c]);
    assert ReadyAt(st.doc, st.heap, [c], 0);
  }
}
