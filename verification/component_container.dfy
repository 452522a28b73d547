/** The string and tree helpers of a component container: the type tag in the
    class attribute, the nearest enclosing component, and the cached lookup
    of the values and assets that belong to a component. */
module ComponentContainer {
  import opened Common
  import opened ComponentQuery

  /** Class-token prefix that names a component type, value or asset. */
  const IdPrefix: string := "ComponentId-"

  /** Class token that marks a component root. */
  const ComponentClass: string := "Component"

  const ValueClass: string := "ComponentValue"
  const AssetClass: string := "ComponentAsset"

  predicate StartsWith(s: string, prefix: string)
  {
    |prefix| <= |s| && s[..|prefix|] == prefix
  }

  // ---------------------------------------------------------------------
  // Splitting the class attribute

  /** `s.split(" ")`. Java also drops trailing empty pieces; an empty piece
      neither starts with `IdPrefix` nor equals `ComponentClass`, so keeping
      them changes no result below. */
  function Split(s: string): (r: seq<string>)
    ensures |r| >= 1
    ensures forall i :: 0 <= i < |r| ==> ' ' !in r[i]
    decreases |s|
  {
    if ' ' !in s then [s]
    else
      var k := FirstIndex(s, ' ');
      [s[..k]] + Split(s[k + 1..])
  }

  /** Splitting `a + " " + b` peels off `a` when `a` has no space. */
  lemma SplitCons(a: string, b: string)
    requires ' ' !in a
    ensures Split(a + " " + b) == [a] + Split(b)
  {
    var s := a + " " + b;
    assert s[|a|] == ' ';
    assert s[..|a|] == a;
    assert FirstIndex(s, ' ') == |a|;
    assert s[|a| + 1..] == b;
  }

  /** A string without spaces has itself as its only token. */
  lemma OnlyToken(s: string, t: string)
    requires |t| > 0 && ' ' !in t && ' ' !in s
    ensures HasToken(s, t) <==> t == s
  {
    if t == s {
      assert TokenAt(s, t, 0);
    }
    if HasToken(s, t) {
      var i :| 0 <= i <= |s| && TokenAt(s, t, i);
      assert s == s[i..i + |t|];
    }
  }

  /** A token of the part after the first space is a token of the whole. */
  lemma TokenOfRest(s: string, t: string, k: nat, j: int)
    requires k < |s| && s[k] == ' '
    requires TokenAt(s[k + 1..], t, j)
    ensures TokenAt(s, t, j + k + 1)
  {
    var rest := s[k + 1..];
    assert s[j + k + 1..j + k + 1 + |t|] == rest[j..j + |t|];
    if j > 0 { assert rest[j - 1] == s[j + k]; }
    if j + |t| < |rest| { assert rest[j + |t|] == s[j + k + 1 + |t|]; }
  }

  /** A token of the whole lies before the first space, where it is the whole
      first piece, or after it. */
  lemma TokenSplitsAt(s: string, t: string, k: nat, i: int)
    requires |t| > 0 && ' ' !in t
    requires k < |s| && s[k] == ' ' && ' ' !in s[..k]
    requires TokenAt(s, t, i)
    ensures (i == 0 && t == s[..k]) || (i > k && TokenAt(s[k + 1..], t, i - k - 1))
  {
    if i <= k {
      assert i == 0;
      assert t == s[..k];
    } else {
      var rest := s[k + 1..];
      var j := i - k - 1;
      assert rest[j..j + |t|] == s[i..i + |t|];
      if j > 0 { assert rest[j - 1] == s[i - 1]; }
      if j + |t| < |rest| { assert rest[j + |t|] == s[i + |t|]; }
    }
  }

  /** The pieces of `String.split(" ")` are exactly the whole space-delimited
      tokens in the sense of the class-name matcher. */
  lemma {:induction false} SplitIsTokens(s: string, t: string)
    requires |t| > 0 && ' ' !in t
    ensures t in Split(s) <==> HasToken(s, t)
    decreases |s|
  {
    if ' ' !in s {
      OnlyToken(s, t);
    } else {
      var k := FirstIndex(s, ' ');
      SplitIsTokens(s[k + 1..], t);
      SplitStep(s, t, k);
    }
  }

  /** The step of `SplitIsTokens` past the first space. */
  lemma SplitStep(s: string, t: string, k: nat)
    requires |t| > 0 && ' ' !in t && ' ' in s && k == FirstIndex(s, ' ')
    requires t in Split(s[k + 1..]) <==> HasToken(s[k + 1..], t)
    ensures t in Split(s) <==> HasToken(s, t)
  {
    var rest := s[k + 1..];
    assert Split(s) == [s[..k]] + Split(rest);
    if t == s[..k] {
      assert TokenAt(s, t, 0);
    }
    if HasToken(rest, t) {
      var j :| 0 <= j <= |rest| && TokenAt(rest, t, j);
      TokenOfRest(s, t, k, j);
    }
    if HasToken(s, t) {
      var i :| 0 <= i <= |s| && TokenAt(s, t, i);
      TokenSplitsAt(s, t, k, i);
    }
  }

  // ---------------------------------------------------------------------
  // The type tag

  function FirstWithPrefix(tokens: seq<string>, prefix: string): (r: Option<nat>)
    ensures r.Some? ==> r.value < |tokens| && StartsWith(tokens[r.value], prefix)
    ensures r.Some? ==> forall j :: 0 <= j < r.value ==> !StartsWith(tokens[j], prefix)
    ensures r.None? ==> forall j :: 0 <= j < |tokens| ==> !StartsWith(tokens[j], prefix)
  {
    if tokens == [] then None
    else if StartsWith(tokens[0], prefix) then Some(0)
    else match FirstWithPrefix(tokens[1..], prefix)
      case None => None
      case Some(k) => Some(k + 1)
  }

  /** `t` is token `k`, and no earlier token starts with "ComponentId-". */
  predicate FirstTagAt(tokens: seq<string>, k: int, t: string)
  {
    && 0 <= k < |tokens| && tokens[k] == t
    && forall j :: 0 <= j < k ==> !StartsWith(tokens[j], IdPrefix)
  }

  /** `getComponentId(classname)`: the rest of the first token that starts with
      "ComponentId-", or None for a null class name or no such token. */
  function GetComponentId(classname: Option<string>): (r: Option<string>)
    ensures classname.None? ==> r.None?
    ensures classname.Some? && r.None? ==>
      forall j :: 0 <= j < |Split(classname.value)| ==> !StartsWith(Split(classname.value)[j], IdPrefix)
    ensures classname.Some? && r.Some? ==>
      exists k :: FirstTagAt(Split(classname.value), k, IdPrefix + r.value)
  {
    if classname.None? then None
    else
      var tokens := Split(classname.value);
      match FirstWithPrefix(tokens, IdPrefix)
      case None => None
      case Some(k) =>
        assert StartsWith(tokens[k], IdPrefix);
        assert !(forall j :: 0 <= j < |tokens| ==> !StartsWith(tokens[j], IdPrefix));
        var v := tokens[k][|IdPrefix|..];
        assert tokens[k] == IdPrefix + v;
        assert FirstTagAt(tokens, k, IdPrefix + v);
        Some(v)
  }

  /** The type tag found by `GetComponentId` is a whole class token. */
  lemma ComponentIdIsToken(classname: string)
    requires GetComponentId(Some(classname)).Some?
    ensures HasToken(classname, IdPrefix + GetComponentId(Some(classname)).value)
  {
    var v := GetComponentId(Some(classname)).value;
    var tokens := Split(classname);
    var k :| 0 <= k < |tokens| && tokens[k] == IdPrefix + v;
    SplitIsTokens(classname, IdPrefix + v);
  }

  /** No class token at all starting with "ComponentId-" yields None. */
  lemma NoComponentIdToken(classname: string)
    requires GetComponentId(Some(classname)).None?
    ensures forall t :: ' ' !in t && StartsWith(t, IdPrefix) ==> !HasToken(classname, t)
  {
    forall t | ' ' !in t && StartsWith(t, IdPrefix) ensures !HasToken(classname, t) {
      SplitIsTokens(classname, t);
    }
  }

  /** A leading token that is not a type tag is skipped. */
  lemma SkipToken(a: string, b: string)
    requires ' ' !in a && !StartsWith(a, IdPrefix)
    ensures GetComponentId(Some(a + " " + b)) == GetComponentId(Some(b))
  {
    SplitCons(a, b);
    var tokens := [a] + Split(b);
    assert tokens[1..] == Split(b);
    var f := FirstWithPrefix(Split(b), IdPrefix);
    assert FirstWithPrefix(tokens, IdPrefix) == if f.None? then None else Some(f.value + 1);
    if f.Some? {
      assert tokens[f.value + 1] == Split(b)[f.value];
    }
  }

  /** A lone type-tag token yields its suffix. */
  lemma LoneTag(v: string)
    requires ' ' !in v
    ensures GetComponentId(Some(IdPrefix + v)) == Some(v)
  {
    var t := IdPrefix + v;
    assert ' ' !in IdPrefix;
    assert forall i :: 0 <= i < |t| ==> t[i] != ' ';
    assert Split(t) == [t];
    assert StartsWith(t, IdPrefix);
    assert t[|IdPrefix|..] == v;
  }

  /** The class attribute `style1 style2 Component ComponentId-Sample` of the
      sample component of the container tests, token by token. */
  const SampleClass: string :=
    "style1" + " " + ("style2" + " " + (ComponentClass + " " + (IdPrefix + "Sample")))

  /** The type tag of the sample component of the container tests. */
  lemma SampleTypeTag()
    ensures GetComponentId(Some(SampleClass)) == Some("Sample")
  {
    var last := IdPrefix + "Sample";
    var tail2 := ComponentClass + " " + last;
    var tail1 := "style2" + " " + tail2;
    LoneTag("Sample");
    assert GetComponentId(Some(last)) == Some("Sample");
    SkipToken(ComponentClass, last);
    assert GetComponentId(Some(tail2)) == Some("Sample");
    SkipToken("style2", tail2);
    assert GetComponentId(Some(tail1)) == Some("Sample");
    SkipToken("style1", tail1);
  }

  // ---------------------------------------------------------------------
  // Container state and getType

  /** A component container: its root element and its two caches. */
  datatype Container = Container(root: Path, typeCache: Option<string>,
                                 elements: map<string, seq<Path>>)

  function NewContainer(root: Path): Container
  {
    Container(root, None, map[])
  }

  function ClassNameAt(doc: Node, p: Path): string
  {
    if At(doc, p).Some? then At(doc, p).value.className else ""
  }

  /** `getType()`: the type tag of the root's class attribute, "" when it has
      none; the first answer is cached and returned from then on. */
  function GetType(doc: Node, c: Container): (r: (string, Container))
    ensures r.1 == c.(typeCache := Some(r.0))
    ensures c.typeCache.Some? ==> r.0 == c.typeCache.value
    ensures c.typeCache.None? ==>
      var id := GetComponentId(Some(ClassNameAt(doc, c.root)));
      r.0 == (if id.Some? then id.value else "")
  {
    if c.typeCache.Some? then (c.typeCache.value, c)
    else
      var id := GetComponentId(Some(ClassNameAt(doc, c.root)));
      var t := if id.Some? then id.value else "";
      (t, c.(typeCache := Some(t)))
  }

  /** Once asked, the type never changes, even if the markup changes. */
  lemma GetTypeIsStable(doc: Node, doc': Node, c: Container)
    ensures var (t, c') := GetType(doc, c);
      GetType(doc', c') == (t, c')
  {
  }

  // ---------------------------------------------------------------------
  // The nearest enclosing component

  predicate IsComponentRoot(doc: Node, p: Path)
  {
    var cn := ClassNameAt(doc, p);
    && (exists i :: 0 <= i <= |cn| && OccursAt(cn, ComponentClass, i))
    && ComponentClass in Split(cn)
  }

  /** The `contains("Component")` pre-check never changes the outcome: a root
      is exactly an element with a whole "Component" class token. */
  lemma IsComponentRootIsToken(doc: Node, p: Path)
    ensures IsComponentRoot(doc, p) <==> HasToken(ClassNameAt(doc, p), ComponentClass)
  {
    SplitIsTokens(ClassNameAt(doc, p), ComponentClass);
  }

  /** How far up from `e[..k]` the ancestors stay elements: every ancestor
      `e[..j]` with `Top(..) <= j < k` is an element, and the one just above,
      if any, is not. */
  function Top(isElement: Path -> bool, e: Path, k: nat): (m: nat)
    requires k <= |e|
    ensures m <= k && (forall j :: m <= j < k ==> isElement(e[..j]))
    ensures m > 0 ==> !isElement(e[..m - 1])
  {
    if k == 0 || !isElement(e[..k - 1]) then k else Top(isElement, e, k - 1)
  }

  /** The ancestors `e[..k-1]`, `e[..k-2]`, ..., in that order, stopping at
      the first that passes `isRoot`, or with None at the first that is not
      an element (`getParentElement` returns null for a non-element parent). */
  function NearestAncestor(isRoot: Path -> bool, isElement: Path -> bool, e: Path, k: nat)
    : (r: Option<Path>)
    requires k <= |e|
    ensures r.Some? ==> && |r.value| < k && r.value == e[..|r.value|]
                        && isElement(r.value) && isRoot(r.value)
    ensures r.Some? ==> forall j :: |r.value| < j < k ==> isElement(e[..j]) && !isRoot(e[..j])
    ensures r.None? ==> forall j :: Top(isElement, e, k) <= j < k ==> !isRoot(e[..j])
  {
    if k == 0 || !isElement(e[..k - 1]) then None
    else if isRoot(e[..k - 1]) then Some(e[..k - 1])
    else NearestAncestor(isRoot, isElement, e, k - 1)
  }

  /** `getParentComponent(e)`: the nearest proper ancestor carrying the
      "Component" class token, or None; the walk ends without a result at the
      first ancestor that is not an element. */
  function GetParentComponent(doc: Node, e: Path): (r: Option<Path>)
    ensures r.Some? ==> && |r.value| < |e| && r.value == e[..|r.value|]
                        && IsElementAt(doc, r.value) && IsComponentRoot(doc, r.value)
    ensures r.Some? ==> forall j :: |r.value| < j < |e| ==>
      IsElementAt(doc, e[..j]) && !IsComponentRoot(doc, e[..j])
    ensures r.None? ==> forall j :: Top(p => IsElementAt(doc, p), e, |e|) <= j < |e| ==>
      !IsComponentRoot(doc, e[..j])
  {
    NearestAncestor(p => IsComponentRoot(doc, p), p => IsElementAt(doc, p), e, |e|)
  }

  // ---------------------------------------------------------------------
  // Owned elements

  /** The filter loop of `getElementsNoCache` once the loop guard is open. */
  function KeepOwned(doc: Node, ids: seq<Path>, types: seq<Path>, root: Path): (r: seq<Path>)
    ensures forall e :: e in r <==> e in ids && e in types && GetParentComponent(doc, e) == Some(root)
    ensures |r| <= |ids|
  {
    if ids == [] then []
    else
      var rest := KeepOwned(doc, ids[1..], types, root);
      if ids[0] in types && GetParentComponent(doc, ids[0]) == Some(root) then [ids[0]] + rest
      else rest
  }

  /** `getElementsNoCache(type, id, limit, root)`. The counter the loop guard
      compares with `limit` is never incremented, so a positive limit lets
      every match through and a limit of zero or less lets none through. */
  function GetElementsNoCache(doc: Node, typeClass: string, idClass: string, limit: int,
                              root: Path): (r: seq<Path>)
    requires At(doc, root).Some?
    ensures limit <= 0 ==> r == []
    ensures limit > 0 ==> forall e :: e in r <==>
      && e in Query(doc, Some(root), idClass, ByClass).value
      && e in Query(doc, Some(root), typeClass, ByClass).value
      && GetParentComponent(doc, e) == Some(root)
  {
    var ids := Query(doc, Some(root), idClass, ByClass).value;
    var types := Query(doc, Some(root), typeClass, ByClass).value;
    if limit <= 0 then [] else KeepOwned(doc, ids, types, root)
  }

  /** Any two positive limits give the same list: `limit` caps nothing. */
  lemma NoCacheIgnoresLimit(doc: Node, typeClass: string, idClass: string, l1: int, l2: int,
                            root: Path)
    requires At(doc, root).Some? && l1 > 0 && l2 > 0
    ensures GetElementsNoCache(doc, typeClass, idClass, l1, root)
         == GetElementsNoCache(doc, typeClass, idClass, l2, root)
  {
  }

  /** With a positive limit, the owned elements are exactly the elements below
      `root` that carry both class tokens (reached through elements only) and
      whose nearest enclosing component is `root`. */
  lemma OwnedElementsAreReach(doc: Node, typeClass: string, idClass: string, limit: int,
                              root: Path, e: Path)
    requires At(doc, root).Some? && limit > 0
    ensures var kids := ChildItems(root, At(doc, root).value.children);
      e in GetElementsNoCache(doc, typeClass, idClass, limit, root) <==>
        && e in ReachAll(kids, idClass, ByClass)
        && e in ReachAll(kids, typeClass, ByClass)
        && GetParentComponent(doc, e) == Some(root)
  {
    QueryIsReach(doc, root, idClass, ByClass);
    QueryIsReach(doc, root, typeClass, ByClass);
    var ids := Query(doc, Some(root), idClass, ByClass).value;
    var types := Query(doc, Some(root), typeClass, ByClass).value;
    assert e in ids <==> e in (set p | p in ids);
    assert e in types <==> e in (set p | p in types);
  }

  /** The cache key of `getElements`. */
  function CacheKey(typeClass: string, idClass: string): string
  {
    typeClass + "-" + idClass
  }

  /** `getElements(type, id, limit, root)`: the cached list unless nothing is
      cached under the key or the cached list is longer than `limit`, in
      which case the list is recomputed and cached. The key leaves out `root`. */
  function GetElements(doc: Node, c: Container, typeClass: string, idClass: string,
                       limit: int, root: Path): (r: (seq<Path>, Container))
    requires At(doc, root).Some?
    ensures var key := CacheKey(typeClass, idClass);
      && r.1.root == c.root && r.1.typeCache == c.typeCache
      && r.1.elements == c.elements[key := r.0]
      && (key in c.elements && |c.elements[key]| <= limit ==> r.0 == c.elements[key])
      && (key !in c.elements || |c.elements[key]| > limit ==>
            r.0 == GetElementsNoCache(doc, typeClass, idClass, limit, root))
  {
    var key := CacheKey(typeClass, idClass);
    if key !in c.elements || |c.elements[key]| > limit then
      var r := GetElementsNoCache(doc, typeClass, idClass, limit, root);
      (r, c.(elements := c.elements[key := r]))
    else
      (c.elements[key], c.(elements := c.elements[key := c.elements[key]]))
  }

  /** Asking twice in a row with the same arguments gives the same list and
      leaves the container as the first call left it. */
  lemma GetElementsRepeatable(doc: Node, c: Container, typeClass: string, idClass: string,
                              limit: int, root: Path)
    requires At(doc, root).Some?
    ensures var (r1, c1) := GetElements(doc, c, typeClass, idClass, limit, root);
      GetElements(doc, c1, typeClass, idClass, limit, root) == (r1, c1)
  {
    var key := CacheKey(typeClass, idClass);
    var (r1, c1) := GetElements(doc, c, typeClass, idClass, limit, root);
    var (r2, c2) := GetElements(doc, c1, typeClass, idClass, limit, root);
    assert r2 == r1;
    assert c1.elements[key := r1] == c1.elements;
  }

  /** Once a list is cached under a key, a call with a different root but a
      large enough limit returns that list, whatever lies below the new root. */
  lemma CacheIgnoresRoot(doc: Node, c: Container, typeClass: string, idClass: string,
                         limit: int, root1: Path, root2: Path)
    requires At(doc, root1).Some? && At(doc, root2).Some? && limit >= 0
    ensures var (r1, c1) := GetElements(doc, c, typeClass, idClass, limit, root1);
      |r1| <= limit ==> GetElements(doc, c1, typeClass, idClass, limit, root2).0 == r1
  {
  }

  // ---------------------------------------------------------------------
  // Values and assets

  function InnerHtmlAt(doc: Node, p: Path): string
  {
    if At(doc, p).Some? then At(doc, p).value.innerHtml else ""
  }

  /** `getValues(id, limit, root)`: the inner HTML of the owned value elements;
      empty for a null id. */
  function GetValues(doc: Node, c: Container, id: Option<string>, limit: int,
                     root: Path): (r: (seq<string>, Container))
    requires At(doc, root).Some?
    ensures id.None? ==> r == ([], c)
    ensures id.Some? ==>
      var (els, c') := GetElements(doc, c, ValueClass, IdPrefix + id.value, limit, root);
      && r.1 == c'
      && |r.0| == |els|
      && forall i :: 0 <= i < |els| ==> r.0[i] == InnerHtmlAt(doc, els[i])
  {
    if id.None? then ([], c)
    else
      var (els, c') := GetElements(doc, c, ValueClass, IdPrefix + id.value, limit, root);
      (seq(|els|, i requires 0 <= i < |els| => InnerHtmlAt(doc, els[i])), c')
  }

  /** `getValue(id, root)`: the first of `getValues(id, 1, root)`, None when
      there is none. */
  function GetValue(doc: Node, c: Container, id: Option<string>, root: Path)
    : (r: (Option<string>, Container))
    requires At(doc, root).Some?
    ensures var (vals, c') := GetValues(doc, c, id, 1, root);
      && r.1 == c'
      && (vals == [] <==> r.0.None?)
      && (vals != [] ==> r.0 == Some(vals[0]))
  {
    var (vals, c') := GetValues(doc, c, id, 1, root);
    (if |vals| > 0 then Some(vals[0]) else None, c')
  }

  /** `getAssets(id, limit, root)`: the owned asset elements. Answered from
      the markup, every asset is an element below `root` that carries both the
      asset class and the id class and belongs to `root`'s component. */
  function GetAssets(doc: Node, c: Container, id: string, limit: int, root: Path)
    : (r: (seq<Path>, Container))
    requires At(doc, root).Some?
    ensures r.1.root == c.root && r.1.typeCache == c.typeCache
    ensures CacheKey(AssetClass, IdPrefix + id) !in c.elements ==>
      && r.1.elements == c.elements[CacheKey(AssetClass, IdPrefix + id) := r.0]
      && forall e :: e in r.0 ==>
           && |e| > |root| && e[..|root|] == root
           && IsElementAt(doc, e)
           && MatchesClassTarget(At(doc, e).value.className, AssetClass)
           && MatchesClassTarget(At(doc, e).value.className, IdPrefix + id)
           && GetParentComponent(doc, e) == Some(root)
  {
    var r := GetElements(doc, c, AssetClass, IdPrefix + id, limit, root);
    forall e | e in r.0 && CacheKey(AssetClass, IdPrefix + id) !in c.elements
      ensures IsElementAt(doc, e)
      ensures MatchesClassTarget(At(doc, e).value.className, AssetClass)
      ensures MatchesClassTarget(At(doc, e).value.className, IdPrefix + id)
    {
      QueryFindsMatches(doc, root, AssetClass, ByClass, e);
      QueryFindsMatches(doc, root, IdPrefix + id, ByClass, e);
    }
    r
  }

  /** `getAsset(id, root)`: the first of `getAssets(id, 1, root)`, None when
      there is none. */
  function GetAsset(doc: Node, c: Container, id: string, root: Path)
    : (r: (Option<Path>, Container))
    requires At(doc, root).Some?
    ensures var (els, c') := GetAssets(doc, c, id, 1, root);
      && r.1 == c'
      && (els == [] <==> r.0.None?)
      && (els != [] ==> r.0 == Some(els[0]))
  {
    var (els, c') := GetAssets(doc, c, id, 1, root);
    (if |els| > 0 then Some(els[0]) else None, c')
  }

  /** The cache holds, under the key of (`typeClass`, `idClass`), nothing or
      the uncached answer for the container's own root. */
  predicate EntryCurrent(doc: Node, c: Container, typeClass: string, idClass: string)
    requires At(doc, c.root).Some?
  {
    var key := CacheKey(typeClass, idClass);
    key in c.elements ==> c.elements[key] == GetElementsNoCache(doc, typeClass, idClass, 1, c.root)
  }

  /** On the container's own root and with a current cache entry, `getAsset`
      answers as the uncached lookup does, and the entry stays current; so
      "the asset is present" is a property of the markup alone. */
  lemma GetAssetAgreesWithMarkup(doc: Node, c: Container, id: string)
    requires At(doc, c.root).Some?
    requires EntryCurrent(doc, c, AssetClass, IdPrefix + id)
    ensures var owned := GetElementsNoCache(doc, AssetClass, IdPrefix + id, 1, c.root);
      var (a, c') := GetAsset(doc, c, id, c.root);
      && (a.Some? <==> owned != [])
      && EntryCurrent(doc, c', AssetClass, IdPrefix + id)
  {
  }

  /** The same for `getValue`. */
  lemma GetValueAgreesWithMarkup(doc: Node, c: Container, id: string)
    requires At(doc, c.root).Some?
    requires EntryCurrent(doc, c, ValueClass, IdPrefix + id)
    ensures var owned := GetElementsNoCache(doc, ValueClass, IdPrefix + id, 1, c.root);
      var (v, c') := GetValue(doc, c, Some(id), c.root);
      && (v.Some? <==> owned != [])
      && (v.Some? ==> v.value == InnerHtmlAt(doc, owned[0]))
      && EntryCurrent(doc, c', ValueClass, IdPrefix + id)
  {
  }

  /** A `getValues(id, 0)` call caches an empty list, and the next `getValue`
      returns that cached emptiness even when the value is in the markup. */
  lemma ZeroLimitCachesNothingFound(doc: Node, c: Container, id: string)
    requires At(doc, c.root).Some?
    ensures var (_, c1) := GetValues(doc, c, Some(id), 0, c.root);
      GetValue(doc, c1, Some(id), c.root).0 == None
  {
  }
}
