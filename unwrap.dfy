/**
 * Removing highlight markers: a marker is replaced by its own children, in
 * order, at the position it occupied (`clearHighlights`).
 */
module Unwrap {
  import opened Wrappers
  import opened DomTree

  /** The page with every marker replaced by its children: what `clearHighlights` leaves. */
  function UnwrapNode(n: Node): seq<Node> {
    match n
    case Text(_) => [n]
    case Elem(k, ch) => if k.Marker? then UnwrapSeq(ch) else [Elem(k, UnwrapSeq(ch))]
  }

  function UnwrapSeq(cs: seq<Node>): seq<Node> {
    if cs == [] then [] else UnwrapNode(cs[0]) + UnwrapSeq(cs[1..])
  }

  /** The spot of a marker: the path of its parent container and its index there. */
  datatype Location = Location(parent: seq<int>, index: int)

  /** A marker sits at `loc`. */
  predicate MarkerAt(cs: seq<Node>, loc: Location) {
    IsContainer(cs, loc.parent) && 0 <= loc.index < |ChildrenAt(cs, loc.parent)|
    && IsMarker(ChildrenAt(cs, loc.parent)[loc.index])
  }

  /** The first marker in document order, if any. */
  function FirstMarker(cs: seq<Node>): (r: Option<Location>)
    ensures r.Some? ==> MarkerAt(cs, r.value)
    ensures r.None? ==> MarkerCountSeq(cs) == 0
  {
    FirstMarkerFrom(cs, 0)
  }

  /** The first marker in document order among the children `cs[i..]` and their descendants. */
  function FirstMarkerFrom(cs: seq<Node>, i: nat): (r: Option<Location>)
    requires i <= |cs|
    ensures r.Some? ==> MarkerAt(cs, r.value)
    ensures r.None? ==> MarkerCountSeq(cs[i..]) == 0
    decreases cs, |cs| - i
  {
    if i == |cs| then None
    else
      var c := cs[i];
      FirstStep(cs, i);
      if IsMarker(c) then Some(Location([], i))
      else if c.Elem? then
        match FirstMarker(c.children)
        case Some(loc) =>
          Descend(cs, i, loc.parent);
          Some(Location([i] + loc.parent, loc.index))
        case None => FirstMarkerFrom(cs, i + 1)
      else FirstMarkerFrom(cs, i + 1)
  }

  lemma FirstStep(cs: seq<Node>, i: int)
    requires 0 <= i < |cs|
    ensures MarkerCountSeq(cs[i..]) == MarkerCount(cs[i]) + MarkerCountSeq(cs[i + 1..])
  {
    assert cs[i..][1..] == cs[i + 1..];
  }

  /** Containers inside child `i` are containers of the forest, with the same children. */
  lemma Descend(cs: seq<Node>, i: int, p: seq<int>)
    requires 0 <= i < |cs| && cs[i].Elem? && IsContainer(cs[i].children, p)
    ensures IsContainer(cs, [i] + p) && ChildrenAt(cs, [i] + p) == ChildrenAt(cs[i].children, p)
  {
    assert ([i] + p)[1..] == p;
  }

  // ---------------------------------------------------------------------------
  // Properties of the unwrapped page

  lemma {:induction false} UnwrapSeqAppend(a: seq<Node>, b: seq<Node>)
    ensures UnwrapSeq(a + b) == UnwrapSeq(a) + UnwrapSeq(b)
  {
    if a == [] {
      assert a + b == b;
    } else {
      assert (a + b)[1..] == a[1..] + b;
      UnwrapSeqAppend(a[1..], b);
    }
  }

  lemma UnwrapSeqSingle(n: Node)
    ensures UnwrapSeq([n]) == UnwrapNode(n)
  {
    assert [n][1..] == [];
  }

  /** Unwrapping keeps the text. */
  lemma {:induction false} UnwrapText(cs: seq<Node>)
    ensures FlatSeq(UnwrapSeq(cs)) == FlatSeq(cs)
  {
    if cs != [] {
      UnwrapNodeText(cs[0]);
      UnwrapText(cs[1..]);
      FlatSeqAppend(UnwrapNode(cs[0]), UnwrapSeq(cs[1..]));
    }
  }

  lemma {:induction false} UnwrapNodeText(n: Node)
    ensures FlatSeq(UnwrapNode(n)) == Flat(n)
  {
    match n
    case Text(_) => FlatSeqSingle(n);
    case Elem(k, ch) =>
      UnwrapText(ch);
      if !k.Marker? {
        FlatSeqSingle(Elem(k, UnwrapSeq(ch)));
      }
  }

  /** No marker is left after unwrapping. */
  lemma {:induction false} UnwrapClean(cs: seq<Node>)
    ensures MarkerCountSeq(UnwrapSeq(cs)) == 0
  {
    if cs != [] {
      UnwrapNodeClean(cs[0]);
      UnwrapClean(cs[1..]);
      MarkerCountSeqAppend(UnwrapNode(cs[0]), UnwrapSeq(cs[1..]));
    }
  }

  lemma {:induction false} UnwrapNodeClean(n: Node)
    ensures MarkerCountSeq(UnwrapNode(n)) == 0
  {
    match n
    case Text(_) => MarkerCountSeqSingle(n);
    case Elem(k, ch) =>
      UnwrapClean(ch);
      if !k.Marker? {
        MarkerCountSeqSingle(Elem(k, UnwrapSeq(ch)));
      }
  }

  /** A page without markers is left as it is. */
  lemma {:induction false} UnwrapIdentity(cs: seq<Node>)
    requires MarkerCountSeq(cs) == 0
    ensures UnwrapSeq(cs) == cs
  {
    if cs != [] {
      UnwrapNodeIdentity(cs[0]);
      UnwrapIdentity(cs[1..]);
      assert cs == [cs[0]] + cs[1..];
    }
  }

  lemma {:induction false} UnwrapNodeIdentity(n: Node)
    requires MarkerCount(n) == 0
    ensures UnwrapNode(n) == [n]
  {
    match n
    case Text(_) =>
    case Elem(k, ch) => UnwrapIdentity(ch);
  }

  /** Unwrapping twice is unwrapping once. */
  lemma UnwrapIdempotent(cs: seq<Node>)
    ensures UnwrapSeq(UnwrapSeq(cs)) == UnwrapSeq(cs)
  {
    UnwrapClean(cs);
    UnwrapIdentity(UnwrapSeq(cs));
  }

  // ---------------------------------------------------------------------------
  // The steps of clearHighlights

  /** Changing one container's children to a list that unwraps the same leaves the
    * unwrapped page the same. */
  lemma {:induction false} UnwrapSetChildren(cs: seq<Node>, path: seq<int>, xs: seq<Node>)
    requires IsContainer(cs, path) && UnwrapSeq(xs) == UnwrapSeq(ChildrenAt(cs, path))
    ensures UnwrapSeq(SetChildrenAt(cs, path, xs)) == UnwrapSeq(cs)
  {
    if path != [] {
      var i := path[0];
      var k, ch := cs[i].kind, cs[i].children;
      var inner := if |path| == 1 then xs else SetChildrenAt(ch, path[1..], xs);
      if |path| > 1 {
        UnwrapSetChildren(ch, path[1..], xs);
      }
      assert UnwrapSeq(inner) == UnwrapSeq(ch);
      assert UnwrapNode(Elem(k, inner)) == UnwrapNode(cs[i]);
      UnwrapAround(cs, i, Elem(k, inner));
    }
  }

  /** Replacing child `i` by a node that unwraps the same. */
  lemma UnwrapAround(cs: seq<Node>, i: int, n: Node)
    requires 0 <= i < |cs| && UnwrapNode(n) == UnwrapNode(cs[i])
    ensures UnwrapSeq(cs[..i] + [n] + cs[i + 1..]) == UnwrapSeq(cs)
  {
    var x, y := cs[..i], cs[i + 1..];
    CutAround(cs, i);
    UnwrapMid(x, cs[i], y);
    UnwrapMid(x, n, y);
  }

  lemma UnwrapMid(x: seq<Node>, m: Node, y: seq<Node>)
    ensures UnwrapSeq(x + [m] + y) == UnwrapSeq(x) + UnwrapNode(m) + UnwrapSeq(y)
  {
    UnwrapSeqAppend(x + [m], y);
    UnwrapSeqAppend(x, [m]);
    UnwrapSeqSingle(m);
  }

  /** The children `kids` with the marker at `j` replaced by its own children. */
  function Spliced(kids: seq<Node>, j: int): (r: seq<Node>)
    requires 0 <= j < |kids| && IsMarker(kids[j])
    ensures |r| == |kids| - 1 + |kids[j].children|
  {
    kids[..j] + kids[j].children + kids[j + 1..]
  }

  /** Splicing a marker's children into its place unwraps the same and removes that one marker. */
  lemma SplicedFacts(kids: seq<Node>, j: int)
    requires 0 <= j < |kids| && IsMarker(kids[j])
    ensures UnwrapSeq(Spliced(kids, j)) == UnwrapSeq(kids)
    ensures MarkerCountSeq(Spliced(kids, j)) == MarkerCountSeq(kids) - 1
  {
    var x, m, y := kids[..j], kids[j], kids[j + 1..];
    CutAround(kids, j);
    assert Spliced(kids, j) == x + m.children + y;
    UnwrapMid(x, m, y);
    UnwrapSeqAppend(x + m.children, y);
    UnwrapSeqAppend(x, m.children);
    MarkerCountSeqAppend3(x, [m], y);
    MarkerCountSeqAppend3(x, m.children, y);
    MarkerCountSeqSingle(m);
  }

  /** One `insertBefore(highlight.firstChild, highlight)`: the marker at `j` hands its first
    * child to the parent just before itself. */
  function MoveFirstChildOut(kids: seq<Node>, j: int): (r: seq<Node>)
    requires 0 <= j < |kids| && IsMarker(kids[j]) && |kids[j].children| > 0
    ensures |r| == |kids| + 1 && IsMarker(r[j + 1])
    ensures r[j + 1].children == kids[j].children[1..]
  {
    var m := kids[j];
    kids[..j] + [m.children[0], Elem(m.kind, m.children[1..])] + kids[j + 1..]
  }

  /** Moving the first child out does not change what the children splice to. */
  lemma MoveOutSplices(kids: seq<Node>, j: int)
    requires 0 <= j < |kids| && IsMarker(kids[j]) && |kids[j].children| > 0
    ensures Spliced(MoveFirstChildOut(kids, j), j + 1) == Spliced(kids, j)
  {
    var r := MoveFirstChildOut(kids, j);
    var ch := kids[j].children;
    assert r[..j + 1] == kids[..j] + [ch[0]];
    assert r[j + 2..] == kids[j + 1..];
    assert ch == [ch[0]] + ch[1..];
  }

  /** Removing an empty marker is splicing it. */
  lemma RemoveEmpty(kids: seq<Node>, j: int)
    requires 0 <= j < |kids| && IsMarker(kids[j]) && |kids[j].children| == 0
    ensures kids[..j] + kids[j + 1..] == Spliced(kids, j)
  {
    assert kids[..j] + kids[j].children == kids[..j];
  }
}
