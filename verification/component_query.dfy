/** The markup tree and the breadth-first class/id query over it.

    The tree is an immutable datatype. An element's identity is its path of
    child indices from the document root, so two different nodes never share
    an identity and the parent of `p` is `p[..|p| - 1]`. */
module ComponentQuery {
  import opened Common

  datatype NodeKind = ElementNode | OtherNode

  /** A DOM node. `className` and `innerHtml` are what GWT reports for an
      element; non-element nodes (text, comments) carry empty strings. */
  datatype Node = Node(kind: NodeKind, id: Option<string>, className: string,
                       innerHtml: string, children: seq<Node>)

  type Path = seq<nat>

  /** The node reached from `n` by following the child indices of `p`. */
  function At(n: Node, p: Path): Option<Node>
    decreases |p|
  {
    if p == [] then Some(n)
    else if p[0] < |n.children| then At(n.children[p[0]], p[1..])
    else None
  }

  predicate IsElementAt(doc: Node, p: Path)
  {
    At(doc, p).Some? && At(doc, p).value.kind == ElementNode
  }

  // ---------------------------------------------------------------------
  // Class-token matching

  /** The character the source uses for "before the start" / "after the end". */
  const Nul: char := '\0'

  /** `pat` occurs in `s` starting at index `i`. */
  predicate OccursAt(s: string, pat: string, i: int)
  {
    0 <= i && i + |pat| <= |s| && s[i..i + |pat|] == pat
  }

  /** `t` occurs at `i` as a whole space-delimited token of `s`. */
  predicate TokenAt(s: string, t: string, i: int)
  {
    && OccursAt(s, t, i)
    && (i == 0 || s[i - 1] == ' ')
    && (i + |t| == |s| || s[i + |t|] == ' ')
  }

  /** `t` is one of the space-delimited tokens of `s`. */
  predicate HasToken(s: string, t: string)
  {
    exists i :: 0 <= i <= |s| && TokenAt(s, t, i)
  }

  /** `String.indexOf(pat, from)` for a non-empty pattern: the first occurrence
      at or after `from`, or -1. */
  function IndexOf(s: string, pat: string, from: nat): (r: int)
    requires |pat| > 0
    ensures r == -1 || (from <= r && OccursAt(s, pat, r))
    ensures forall i :: from <= i && (r == -1 || i < r) ==> !OccursAt(s, pat, i)
    decreases |s| - from
  {
    if from + |pat| > |s| then -1
    else if s[from..from + |pat|] == pat then from
    else IndexOf(s, pat, from + 1)
  }

  /** The search loop of `matchesClassTarget`, resumed at `offset`. */
  function MatchFrom(raw: string, classname: string, offset: nat): bool
    requires |classname| > 0
    decreases |raw| + 1 - offset
  {
    var o := IndexOf(raw, classname, offset);
    if o == -1 then false
    else if |raw| == |classname| then true
    else if Delimited(raw, classname, o) then true
    else MatchFrom(raw, classname, o + 1)
  }

  /** The three accepted neighbourhoods of the occurrence at `o`: a space on
      both sides, the start of the string and a space, a space and the end of
      the string. The source reads a missing neighbour as NUL. */
  predicate Delimited(raw: string, classname: string, o: nat)
  {
    var pre := if o == 0 || o > |raw| then Nul else raw[o - 1];
    var post := if o + |classname| >= |raw| then Nul else raw[o + |classname|];
    || (pre == ' ' && post == ' ')
    || (pre == Nul && post == ' ')
    || (pre == ' ' && post == Nul)
  }

  /** `matchesClassTarget(n, classname)` on the element's class attribute. A
      match needs an occurrence of the name, and a class attribute that is
      exactly the name always matches. Every caller in the modelled core
      passes a non-empty class name. An empty one is not modelled: the
      source's search then ends only if some offset is accepted. */
  function MatchesClassTarget(raw: string, classname: string): (r: bool)
    requires |classname| > 0
    ensures r ==> exists i :: OccursAt(raw, classname, i)
    ensures raw == classname ==> r
  {
    if MatchFrom(raw, classname, 0) then MatchFromOccurs(raw, classname, 0); true
    else false
  }

  /** A successful search from `offset` found an occurrence at or after it. */
  lemma {:induction false} MatchFromOccurs(raw: string, classname: string, offset: nat)
    requires |classname| > 0 && MatchFrom(raw, classname, offset)
    ensures exists i :: offset <= i && OccursAt(raw, classname, i)
    decreases |raw| + 1 - offset
  {
    var o := IndexOf(raw, classname, offset);
    if |raw| != |classname| && !Delimited(raw, classname, o) {
      MatchFromOccurs(raw, classname, o + 1);
    }
  }

  /** Some whole token `classname` starts at or after `offset`. */
  ghost predicate TokenFrom(raw: string, classname: string, offset: nat)
  {
    exists i :: offset <= i && TokenAt(raw, classname, i)
  }

  lemma {:induction false} MatchFromIsToken(raw: string, classname: string, offset: nat)
    requires |classname| > 0 && Nul !in raw
    ensures MatchFrom(raw, classname, offset) <==> TokenFrom(raw, classname, offset)
    decreases |raw| + 1 - offset
  {
    var o := IndexOf(raw, classname, offset);
    if o == -1 {
      NoOccurrenceNoToken(raw, classname, offset);
    } else if TokenAt(raw, classname, o) {
      MatchFromStep(raw, classname, offset);
    } else {
      MatchFromIsToken(raw, classname, o + 1);
      SkipOccurrence(raw, classname, offset);
    }
  }

  lemma NoOccurrenceNoToken(raw: string, classname: string, offset: nat)
    requires |classname| > 0 && IndexOf(raw, classname, offset) == -1
    ensures !MatchFrom(raw, classname, offset) && !TokenFrom(raw, classname, offset)
  {
    forall i | offset <= i ensures !TokenAt(raw, classname, i) {
      assert !OccursAt(raw, classname, i);
    }
  }

  /** Past an occurrence that is not a whole token, the search and the
      tokens from `offset` on are those after it. */
  lemma SkipOccurrence(raw: string, classname: string, offset: nat)
    requires |classname| > 0 && Nul !in raw
    requires IndexOf(raw, classname, offset) != -1
    requires !TokenAt(raw, classname, IndexOf(raw, classname, offset))
    requires var o := IndexOf(raw, classname, offset);
      MatchFrom(raw, classname, o + 1) <==> TokenFrom(raw, classname, o + 1)
    ensures MatchFrom(raw, classname, offset) <==> TokenFrom(raw, classname, offset)
  {
    MatchFromStep(raw, classname, offset);
    var o := IndexOf(raw, classname, offset);
    forall i | offset <= i <= o ensures !TokenAt(raw, classname, i) {
      if i < o { assert !OccursAt(raw, classname, i); }
    }
  }

  /** One round of the search: the occurrence found is a whole token, or the
      search goes on past it. */
  lemma MatchFromStep(raw: string, classname: string, offset: nat)
    requires |classname| > 0 && Nul !in raw && IndexOf(raw, classname, offset) != -1
    ensures var o := IndexOf(raw, classname, offset);
      && (TokenAt(raw, classname, o) ==> MatchFrom(raw, classname, offset) && TokenFrom(raw, classname, offset))
      && (!TokenAt(raw, classname, o) ==> MatchFrom(raw, classname, offset) == MatchFrom(raw, classname, o + 1))
  {
    var o := IndexOf(raw, classname, offset);
    DelimitedIsToken(raw, classname, o);
    assert TokenAt(raw, classname, o) ==> offset <= o;
  }

  /** At an occurrence, the source's tests accept exactly a whole token. */
  lemma DelimitedIsToken(raw: string, classname: string, o: nat)
    requires |classname| > 0 && Nul !in raw && OccursAt(raw, classname, o)
    ensures (|raw| == |classname| || Delimited(raw, classname, o)) <==> TokenAt(raw, classname, o)
  {
    var n := |classname|;
    if o > 0 { assert raw[o - 1] in raw; }
    if o + n < |raw| { assert raw[o + n] in raw; }
  }

  /** For a non-empty class name and a class attribute without NUL characters,
      the source's four start/space/end cases amount to exactly "is a whole
      space-delimited token". */
  lemma MatchesClassTargetIsToken(raw: string, classname: string)
    requires |classname| > 0 && Nul !in raw
    ensures MatchesClassTarget(raw, classname) <==> HasToken(raw, classname)
  {
    MatchFromIsToken(raw, classname, 0);
  }

  /** A class attribute without spaces matches only its own whole value. */
  lemma SingleTokenMatchesItself(raw: string, classname: string)
    requires |classname| > 0 && Nul !in raw && ' ' !in raw
    ensures MatchesClassTarget(raw, classname) <==> raw == classname
  {
    MatchesClassTargetIsToken(raw, classname);
    if raw == classname {
      assert TokenAt(raw, classname, 0);
    }
    if HasToken(raw, classname) {
      var i :| 0 <= i <= |raw| && TokenAt(raw, classname, i);
      assert i == 0 && i + |classname| == |raw|;
    }
  }

  /** An occurrence that is only the prefix of a longer token does not match by
      itself. */
  lemma PrefixOccurrenceRejected()
    ensures !MatchesClassTarget("ComponentValue", "Component")
  {
    var a := "ComponentValue";
    assert ' ' !in a && Nul !in a;
    SingleTokenMatchesItself(a, "Component");
    assert |a| == 14;
  }

  /** After a prefix-only occurrence the search continues and finds the whole
      token further on. */
  lemma SearchContinuesPastPrefix()
    ensures MatchesClassTarget("ComponentValue Component", "Component")
  {
    var c := "Component";
    var b := "ComponentValue" + " " + c;
    assert b == "ComponentValue Component";
    assert Nul !in b by {
      assert Nul !in "ComponentValue" && Nul !in " " && Nul !in c;
    }
    MatchesClassTargetIsToken(b, c);
    assert b[15..24] == c;
    assert b[14] == ' ';
    assert TokenAt(b, c, 15);
  }

  /** A NUL character in the class attribute is taken for a string boundary,
      so "\0B C" matches "B" although its first token is "\0B". */
  lemma NulCountsAsBoundary()
    ensures MatchesClassTarget("\0B C", "B")
    ensures !HasToken("\0B C", "B")
  {
    var s := "\0B C";
    assert s[0..1] != "B" by { assert s[0..1][0] == Nul; }
    assert s[1..2] == "B";
    assert IndexOf(s, "B", 0) == IndexOf(s, "B", 1) == 1;
    forall i | 0 <= i <= |s| ensures !TokenAt(s, "B", i) {
      if i != 1 && i + 1 <= |s| {
        assert s[i..i + 1][0] == s[i] != 'B';
      }
    }
  }

  /** `matchesIdTarget`: the element's id is present and equal to `id`. */
  predicate MatchesIdTarget(n: Node, id: string)
  {
    n.id == Some(id)
  }

  // ---------------------------------------------------------------------
  // Breadth-first query

  datatype QueryType = ByClass | ById

  /** A queued node together with its path. */
  datatype Item = Item(path: Path, node: Node)

  function Matches(n: Node, key: string, t: QueryType): bool
  {
    match t
    case ById => MatchesIdTarget(n, key)
    case ByClass => |key| > 0 && MatchesClassTarget(n.className, key)
  }

  /** The child list of the node at `p`, as queue items. */
  function ChildItems(p: Path, kids: seq<Node>): (r: seq<Item>)
    ensures |r| == |kids|
    ensures forall i :: 0 <= i < |r| ==> r[i] == Item(p + [i], kids[i])
  {
    seq(|kids|, i requires 0 <= i < |kids| => Item(p + [i], kids[i]))
  }

  function Size(n: Node): nat
    decreases n, 1
  {
    1 + SizeOfAll(n.children)
  }

  function SizeOfAll(ns: seq<Node>): nat
    decreases ns, 0
  {
    if ns == [] then 0 else Size(ns[0]) + SizeOfAll(ns[1..])
  }

  function QueueSize(q: seq<Item>): nat
  {
    if q == [] then 0 else Size(q[0].node) + QueueSize(q[1..])
  }

  lemma {:induction false} QueueSizeAppend(a: seq<Item>, b: seq<Item>)
    ensures QueueSize(a + b) == QueueSize(a) + QueueSize(b)
  {
    if a != [] {
      assert (a + b)[0] == a[0];
      assert (a + b)[1..] == a[1..] + b;
      QueueSizeAppend(a[1..], b);
    } else {
      assert a + b == b;
    }
  }

  lemma {:induction false} QueueSizeChildren(p: Path, kids: seq<Node>)
    ensures QueueSize(ChildItems(p, kids)) == SizeOfAll(kids)
  {
    if kids != [] {
      var q := ChildItems(p, kids);
      QueueSizeShift(q[1..], kids[1..]);
    }
  }

  /** A queue whose nodes are `kids`, whatever the paths, has their total size. */
  lemma {:induction false} QueueSizeShift(q: seq<Item>, kids: seq<Node>)
    requires |q| == |kids|
    requires forall i :: 0 <= i < |q| ==> q[i].node == kids[i]
    ensures QueueSize(q) == SizeOfAll(kids)
  {
    if q != [] {
      QueueSizeShift(q[1..], kids[1..]);
    }
  }

  /** Queue after visiting the head: the rest, then the head's children when
      the head is an element (the source descends only into elements). */
  function Advance(q: seq<Item>): (r: seq<Item>)
    requires q != []
    ensures QueueSize(r) < QueueSize(q)
  {
    var x := q[0];
    if x.node.kind != ElementNode then q[1..]
    else
      var kids := ChildItems(x.path, x.node.children);
      QueueSizeAppend(q[1..], kids);
      QueueSizeChildren(x.path, x.node.children);
      q[1..] + kids
  }

  /** The loop of `query(id, root, type)` from a given queue of pending nodes. */
  function Bfs(q: seq<Item>, key: string, t: QueryType): (r: seq<Path>)
    ensures |r| <= QueueSize(q)
    decreases QueueSize(q)
  {
    if q == [] then []
    else
      var x := q[0];
      var hit := if x.node.kind == ElementNode && Matches(x.node, key, t) then [x.path] else [];
      hit + Bfs(Advance(q), key, t)
  }

  /** `query(id, root, type)`: None when the root is null, otherwise the
      matches among the root's descendants in breadth-first order. */
  function Query(doc: Node, root: Option<Path>, key: string, t: QueryType): (r: Option<seq<Path>>)
    requires root.Some? ==> At(doc, root.value).Some?
    ensures r.Some? <==> root.Some?
    ensures r.Some? ==> forall p :: p in r.value ==> |p| > |root.value| && p[..|root.value|] == root.value
  {
    if root.None? then None
    else
      var kids := ChildItems(root.value, At(doc, root.value).value.children);
      var found := Bfs(kids, key, t);
      BfsCollectsReach(kids, key, t);
      forall p | p in found
        ensures |p| > |root.value| && p[..|root.value|] == root.value
      {
        ReachAllBelow(kids, key, t, p, |root.value| + 1, root.value);
      }
      Some(found)
  }

  // ---------------------------------------------------------------------
  // Reference definition of the query result

  /** The matching nodes of the subtree of `x`, descending only through
      element nodes. */
  function Reach(x: Item, key: string, t: QueryType): set<Path>
    decreases Size(x.node), 1
  {
    if x.node.kind != ElementNode then {}
    else
      QueueSizeChildren(x.path, x.node.children);
      (if Matches(x.node, key, t) then {x.path} else {}) +
      ReachAll(ChildItems(x.path, x.node.children), key, t)
  }

  function ReachAll(q: seq<Item>, key: string, t: QueryType): set<Path>
    decreases QueueSize(q), 2
  {
    if q == [] then {} else Reach(q[0], key, t) + ReachAll(q[1..], key, t)
  }

  lemma {:induction false} ReachAllAppend(a: seq<Item>, b: seq<Item>, key: string, t: QueryType)
    ensures ReachAll(a + b, key, t) == ReachAll(a, key, t) + ReachAll(b, key, t)
    decreases |a|
  {
    if a != [] {
      assert (a + b)[0] == a[0];
      assert (a + b)[1..] == a[1..] + b;
      ReachAllAppend(a[1..], b, key, t);
    } else {
      assert a + b == b;
    }
  }

  /** Every node the breadth-first loop returns is a match below the queue,
      and every match below the queue is returned. */
  lemma {:induction false} BfsCollectsReach(q: seq<Item>, key: string, t: QueryType)
    ensures (set p | p in Bfs(q, key, t)) == ReachAll(q, key, t)
    decreases QueueSize(q)
  {
    if q != [] {
      var x := q[0];
      var hit := if x.node.kind == ElementNode && Matches(x.node, key, t) then [x.path] else [];
      var rest := Bfs(Advance(q), key, t);
      assert Bfs(q, key, t) == hit + rest;
      BfsCollectsReach(Advance(q), key, t);
      assert (set p | p in hit + rest) == (set p | p in hit) + (set p | p in rest);
      assert ReachAll(q, key, t) == Reach(x, key, t) + ReachAll(q[1..], key, t);
      if x.node.kind == ElementNode {
        var kids := ChildItems(x.path, x.node.children);
        ReachAllAppend(q[1..], kids, key, t);
        assert Reach(x, key, t) == (set p | p in hit) + ReachAll(kids, key, t);
      } else {
        assert Advance(q) == q[1..];
      }
    }
  }

  /** Every match in the subtree of `x` is `x.path` extended by some suffix. */
  lemma {:induction false} ReachBelow(x: Item, key: string, t: QueryType, p: Path)
    requires p in Reach(x, key, t)
    ensures |p| >= |x.path| && p[..|x.path|] == x.path
    decreases Size(x.node), 1
  {
    if p != x.path {
      QueueSizeChildren(x.path, x.node.children);
      ReachAllBelow(ChildItems(x.path, x.node.children), key, t, p, |x.path| + 1, x.path);
    }
  }

  lemma {:induction false} ReachAllBelow(q: seq<Item>, key: string, t: QueryType, p: Path,
                                        depth: nat, base: Path)
    requires p in ReachAll(q, key, t)
    requires forall i :: 0 <= i < |q| ==>
      |q[i].path| >= depth && |base| <= |q[i].path| && q[i].path[..|base|] == base
    ensures |p| >= depth && |p| >= |base| && p[..|base|] == base
    decreases QueueSize(q), 2
  {
    if p in Reach(q[0], key, t) {
      ReachBelow(q[0], key, t, p);
      assert p[..|q[0].path|][..|base|] == p[..|base|];
    } else {
      ReachAllBelow(q[1..], key, t, p, depth, base);
    }
  }

  /** `query` on a non-null root returns exactly the matches below the root,
      never the root itself, each one a proper descendant of the root. */
  lemma QueryIsReach(doc: Node, root: Path, key: string, t: QueryType)
    requires At(doc, root).Some?
    ensures Query(doc, Some(root), key, t).Some?
    ensures var r := Query(doc, Some(root), key, t).value;
      && (set p | p in r) == ReachAll(ChildItems(root, At(doc, root).value.children), key, t)
      && forall p :: p in r ==> |p| > |root| && p[..|root|] == root
  {
    BfsCollectsReach(ChildItems(root, At(doc, root).value.children), key, t);
  }

  /** The node of `x` is the one at `x.path` in `doc`. */
  predicate Placed(doc: Node, x: Item)
  {
    At(doc, x.path) == Some(x.node)
  }

  /** Following one more child index descends to that child. */
  lemma {:induction false} AtChild(n: Node, p: Path, i: nat)
    requires At(n, p).Some? && i < |At(n, p).value.children|
    ensures At(n, p + [i]) == Some(At(n, p).value.children[i])
    decreases |p|
  {
    if p == [] {
      assert p + [i] == [i];
      assert At(n, [i]) == At(n.children[i], []);
    } else {
      assert (p + [i])[0] == p[0];
      assert (p + [i])[1..] == p[1..] + [i];
      AtChild(n.children[p[0]], p[1..], i);
    }
  }

  /** A match below a placed item is an element of `doc` that passes the test. */
  lemma {:induction false} ReachMatches(doc: Node, x: Item, key: string, t: QueryType, p: Path)
    requires Placed(doc, x) && p in Reach(x, key, t)
    ensures IsElementAt(doc, p) && Matches(At(doc, p).value, key, t)
    decreases Size(x.node), 1
  {
    if p != x.path || !Matches(x.node, key, t) {
      var kids := ChildItems(x.path, x.node.children);
      QueueSizeChildren(x.path, x.node.children);
      forall i | 0 <= i < |kids|
        ensures Placed(doc, kids[i])
      {
        AtChild(doc, x.path, i);
      }
      ReachAllMatches(doc, kids, key, t, p);
    }
  }

  lemma {:induction false} ReachAllMatches(doc: Node, q: seq<Item>, key: string, t: QueryType, p: Path)
    requires forall i :: 0 <= i < |q| ==> Placed(doc, q[i])
    requires p in ReachAll(q, key, t)
    ensures IsElementAt(doc, p) && Matches(At(doc, p).value, key, t)
    decreases QueueSize(q), 2
  {
    if p in Reach(q[0], key, t) {
      ReachMatches(doc, q[0], key, t, p);
    } else {
      ReachAllMatches(doc, q[1..], key, t, p);
    }
  }

  /** Every result of `query` is an element of the page that passes the test
      of the query type: its class attribute holds the class name, or its id
      is present and equal to the key. */
  lemma QueryFindsMatches(doc: Node, root: Path, key: string, t: QueryType, p: Path)
    requires At(doc, root).Some?
    requires p in Query(doc, Some(root), key, t).value
    ensures IsElementAt(doc, p)
    ensures t == ById ==> MatchesIdTarget(At(doc, p).value, key) && At(doc, p).value.id == Some(key)
    ensures t == ByClass ==> |key| > 0 && MatchesClassTarget(At(doc, p).value.className, key)
  {
    var kids := ChildItems(root, At(doc, root).value.children);
    QueryIsReach(doc, root, key, t);
    forall i | 0 <= i < |kids|
      ensures Placed(doc, kids[i])
    {
      AtChild(doc, root, i);
    }
    ReachAllMatches(doc, kids, key, t, p);
  }

  /** Breadth-first: the depth of the queue never drops and spans one level. */
  predicate Layered(q: seq<Item>)
  {
    && (forall i, j :: 0 <= i < j < |q| ==> |q[i].path| <= |q[j].path|)
    && (forall i :: 0 <= i < |q| ==> |q[i].path| <= |q[0].path| + 1)
  }

  /** Visiting the head of a layered queue leaves a layered queue that starts
      no shallower than before. */
  lemma AdvanceLayered(q: seq<Item>)
    requires q != [] && Layered(q) && Advance(q) != []
    ensures Layered(Advance(q))
    ensures |Advance(q)[0].path| >= |q[0].path|
  {
    var x := q[0];
    var q' := Advance(q);
    if x.node.kind == ElementNode {
      var kids := ChildItems(x.path, x.node.children);
      assert q' == q[1..] + kids;
      forall i | 0 <= i < |q'|
        ensures i < |q| - 1 ==> q'[i] == q[i + 1]
        ensures i >= |q| - 1 ==> |q'[i].path| == |x.path| + 1
      {
        if i >= |q| - 1 { assert q'[i] == kids[i - (|q| - 1)]; }
      }
    } else {
      assert q' == q[1..];
    }
  }

  /** The depths of `r` never decrease. */
  predicate ByDepth(r: seq<Path>)
  {
    forall i, j :: 0 <= i < j < |r| ==> |r[i]| <= |r[j]|
  }

  /** Every path of `r` is at least `d` deep. */
  predicate NoShallower(r: seq<Path>, d: nat)
  {
    forall i :: 0 <= i < |r| ==> |r[i]| >= d
  }

  /** Putting at most one path of depth `d` in front of a depth-sorted list
      whose paths are all at least `d` deep keeps it depth-sorted. */
  lemma ConsByDepth(hit: seq<Path>, rest: seq<Path>, d: nat)
    requires |hit| <= 1 && forall i :: 0 <= i < |hit| ==> |hit[i]| == d
    requires ByDepth(rest) && NoShallower(rest, d)
    ensures ByDepth(hit + rest) && NoShallower(hit + rest, d)
  {
    var r := hit + rest;
    forall i | 0 <= i < |r| ensures |r[i]| >= d {
      if i >= |hit| { assert r[i] == rest[i - |hit|]; }
    }
    forall i, j | 0 <= i < j < |r| ensures |r[i]| <= |r[j]| {
      assert r[j] == rest[j - |hit|];
      if i >= |hit| { assert r[i] == rest[i - |hit|]; }
    }
  }

  /** Results come out level by level: their depths never decrease. */
  lemma {:induction false} BfsByDepth(q: seq<Item>, key: string, t: QueryType)
    requires Layered(q)
    ensures ByDepth(Bfs(q, key, t))
    ensures q != [] ==> NoShallower(Bfs(q, key, t), |q[0].path|)
    decreases QueueSize(q)
  {
    if q != [] {
      var x := q[0];
      var hit := if x.node.kind == ElementNode && Matches(x.node, key, t) then [x.path] else [];
      var q' := Advance(q);
      var rest := Bfs(q', key, t);
      assert Bfs(q, key, t) == hit + rest;
      if q' != [] {
        AdvanceLayered(q);
        BfsByDepth(q', key, t);
        assert NoShallower(rest, |x.path|);
      }
      ConsByDepth(hit, rest, |x.path|);
    }
  }

  /** `query` lists shallower matches before deeper ones. */
  lemma QueryIsBreadthFirst(doc: Node, root: Path, key: string, t: QueryType)
    requires At(doc, root).Some?
    ensures var r := Query(doc, Some(root), key, t).value;
      forall i, j :: 0 <= i < j < |r| ==> |r[i]| <= |r[j]|
  {
    var kids := ChildItems(root, At(doc, root).value.children);
    assert forall i :: 0 <= i < |kids| ==> |kids[i].path| == |root| + 1;
    assert Layered(kids);
    assert Query(doc, Some(root), key, t).value == Bfs(kids, key, t);
    BfsByDepth(kids, key, t);
  }

  // ---------------------------------------------------------------------
  // Accessors of a query result

  /** `getLength` of a query result. The source reads it straight off the
      result of `query`, so a null result is dereferenced and must not occur. */
  function GetLength(q: Option<seq<Path>>): nat
    requires q.Some?
  {
    |q.value|
  }

  /** `getItem(i)`: the i-th match. The source reads the list element, so the
      index must be in range. */
  function GetItem(q: Option<seq<Path>>, i: nat): Path
    requires q.Some? && i < |q.value|
  {
    q.value[i]
  }

  /** `contains(e)`; the source dereferences the node list, so it must exist. */
  predicate Contains(q: Option<seq<Path>>, e: Path)
    requires q.Some?
  {
    e in q.value
  }

  /** Every index below `getLength` yields a match below the root, and
      `contains` holds exactly for those items. */
  lemma AccessorsAgree(doc: Node, root: Path, key: string, t: QueryType, i: nat)
    requires At(doc, root).Some?
    requires i < GetLength(Query(doc, Some(root), key, t))
    ensures var q := Query(doc, Some(root), key, t);
      && Contains(q, GetItem(q, i))
      && GetItem(q, i) in ReachAll(ChildItems(root, At(doc, root).value.children), key, t)
  {
    QueryIsReach(doc, root, key, t);
  }

  /** A null root yields a null result (which `parse` then dereferences). */
  lemma NullRootQuery(doc: Node, key: string, t: QueryType)
    ensures Query(doc, None, key, t) == None
  {
  }
}
