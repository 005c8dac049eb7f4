/**
 * The part of a web page's DOM that the highlighter touches: text nodes and
 * elements, some of which are highlight markers (`span.extension-highlight`).
 * The page body is a forest `seq<Node>`. A boundary point inside it is written
 * as a key `path + [offset]`: `path` gives the child indices from the body down
 * to the container and `offset` is a character offset for a text container or
 * a child index for an element container, as in the DOM.
 */
module DomTree {
  import opened Wrappers

  datatype Kind = Plain(tag: string) | Marker(color: string)

  datatype Node = Text(data: string) | Elem(kind: Kind, children: seq<Node>)

  type Key = seq<int>

  /** The three pieces of a sequence built around one element. */
  lemma Pieces<T>(x: seq<T>, m: T, y: seq<T>)
    ensures |x + [m] + y| == |x| + 1 + |y|
    ensures (x + [m] + y)[..|x|] == x && (x + [m] + y)[|x|] == m && (x + [m] + y)[|x| + 1..] == y
  {
  }

  /** A sequence is the part before element `j`, that element and the part after. */
  lemma CutAround<T>(s: seq<T>, j: int)
    requires 0 <= j < |s|
    ensures s == s[..j] + [s[j]] + s[j + 1..]
  {
  }

  predicate IsMarker(n: Node) {
    n.Elem? && n.kind.Marker?
  }

  /** The text content of a node (`textContent`). */
  function Flat(n: Node): string {
    match n
    case Text(s) => s
    case Elem(_, ch) => FlatSeq(ch)
  }

  /** The text content of a forest, in document order. */
  function FlatSeq(cs: seq<Node>): string {
    if cs == [] then "" else Flat(cs[0]) + FlatSeq(cs[1..])
  }

  lemma {:induction false} FlatSeqAppend(a: seq<Node>, b: seq<Node>)
    ensures FlatSeq(a + b) == FlatSeq(a) + FlatSeq(b)
  {
    if a != [] {
      assert (a + b)[1..] == a[1..] + b;
      FlatSeqAppend(a[1..], b);
    } else {
      assert a + b == b;
    }
  }

  lemma FlatSeqSingle(n: Node)
    ensures FlatSeq([n]) == Flat(n)
  {
    assert [n][1..] == [];
  }

  lemma FlatSeqAppend3(a: seq<Node>, b: seq<Node>, c: seq<Node>)
    ensures FlatSeq(a + b + c) == FlatSeq(a) + FlatSeq(b) + FlatSeq(c)
  {
    FlatSeqAppend(a + b, c);
    FlatSeqAppend(a, b);
  }

  /** The text of a forest around its `i`-th child. */
  lemma FlatSeqAround(cs: seq<Node>, i: int)
    requires 0 <= i < |cs|
    ensures FlatSeq(cs) == FlatSeq(cs[..i]) + Flat(cs[i]) + FlatSeq(cs[i + 1..])
  {
    var t := cs[i..];
    assert t[0] == cs[i] && t[1..] == cs[i + 1..];
    assert cs == cs[..i] + t;
    FlatSeqAppend(cs[..i], t);
  }

  /** Number of highlight markers in a node, the node itself included. */
  function MarkerCount(n: Node): nat {
    match n
    case Text(_) => 0
    case Elem(k, ch) => (if k.Marker? then 1 else 0) + MarkerCountSeq(ch)
  }

  function MarkerCountSeq(cs: seq<Node>): nat {
    if cs == [] then 0 else MarkerCount(cs[0]) + MarkerCountSeq(cs[1..])
  }

  lemma {:induction false} MarkerCountSeqAppend(a: seq<Node>, b: seq<Node>)
    ensures MarkerCountSeq(a + b) == MarkerCountSeq(a) + MarkerCountSeq(b)
  {
    if a != [] {
      assert (a + b)[1..] == a[1..] + b;
      MarkerCountSeqAppend(a[1..], b);
    } else {
      assert a + b == b;
    }
  }

  lemma MarkerCountSeqSingle(n: Node)
    ensures MarkerCountSeq([n]) == MarkerCount(n)
  {
    assert [n][1..] == [];
  }

  lemma MarkerCountSeqAppend3(a: seq<Node>, b: seq<Node>, c: seq<Node>)
    ensures MarkerCountSeq(a + b + c) == MarkerCountSeq(a) + MarkerCountSeq(b) + MarkerCountSeq(c)
  {
    MarkerCountSeqAppend(a + b, c);
    MarkerCountSeqAppend(a, b);
  }

  lemma MarkerCountSeqAround(cs: seq<Node>, i: int)
    requires 0 <= i < |cs|
    ensures MarkerCountSeq(cs) == MarkerCountSeq(cs[..i]) + MarkerCount(cs[i]) + MarkerCountSeq(cs[i + 1..])
  {
    var t := cs[i..];
    assert t[0] == cs[i] && t[1..] == cs[i + 1..];
    assert cs == cs[..i] + t;
    MarkerCountSeqAppend(cs[..i], t);
  }

  // ---------------------------------------------------------------------------
  // Boundary points

  /** `k` names a boundary point inside `n` (relative to `n`). */
  predicate ValidKey(n: Node, k: Key) {
    match n
    case Text(s) => |k| == 1 && 0 <= k[0] <= |s|
    case Elem(_, ch) => ValidKeySeq(ch, k)
  }

  /** `k` names a boundary point inside the forest `cs`: `setStart` would accept it. */
  predicate ValidKeySeq(cs: seq<Node>, k: Key) {
    |k| >= 1 && 0 <= k[0] &&
    if |k| == 1 then k[0] <= |cs| else k[0] < |cs| && ValidKey(cs[k[0]], k[1..])
  }

  /** One step down a valid key: into a text node's characters or an element's children. */
  lemma ValidKeyStep(cs: seq<Node>, k: Key)
    requires ValidKeySeq(cs, k) && |k| > 1
    ensures 0 <= k[0] < |cs|
    ensures cs[k[0]].Text? ==> |k| == 2 && 0 <= k[1] <= |cs[k[0]].data|
    ensures cs[k[0]].Elem? ==> ValidKeySeq(cs[k[0]].children, k[1..])
  {
    assert k[1..][0] == k[1];
  }

  /** Document order of boundary points: lexicographic order of their keys. */
  predicate KeyLe(a: Key, b: Key) {
    if a == [] then true
    else if b == [] then false
    else a[0] < b[0] || (a[0] == b[0] && KeyLe(a[1..], b[1..]))
  }

  /** What document order says about the first components of two keys. */
  lemma KeyLeHead(a: Key, b: Key)
    requires KeyLe(a, b) && a != [] && b != []
    ensures a[0] <= b[0]
    ensures a[0] == b[0] && |a| > 1 ==> |b| > 1 && KeyLe(a[1..], b[1..])
  {
  }

  /** `compareBoundaryPoints`: -1 when `a` comes first, 0 when equal, 1 when `b` comes first. */
  function CompareKeys(a: Key, b: Key): (r: int)
    ensures r == 0 <==> a == b
    ensures r <= 0 <==> KeyLe(a, b)
    ensures -1 <= r <= 1
  {
    if a == [] && b == [] then 0
    else if a == [] then -1
    else if b == [] then 1
    else if a[0] < b[0] then -1
    else if a[0] > b[0] then 1
    else
      var r := CompareKeys(a[1..], b[1..]);
      assert a == [a[0]] + a[1..] && b == [b[0]] + b[1..];
      r
  }

  /** Within one container, document order is the order of offsets. */
  lemma {:induction false} KeyLeSameContainer(path: seq<int>, x: int, y: int)
    requires x <= y
    ensures KeyLe(path + [x], path + [y])
  {
    if path != [] {
      assert (path + [x])[1..] == path[1..] + [x];
      assert (path + [y])[1..] == path[1..] + [y];
      KeyLeSameContainer(path[1..], x, y);
    }
  }

  lemma {:induction false} CompareKeysAntisymmetric(a: Key, b: Key)
    ensures CompareKeys(b, a) == -CompareKeys(a, b)
  {
    if a != [] && b != [] && a[0] == b[0] {
      CompareKeysAntisymmetric(a[1..], b[1..]);
    }
  }

  lemma {:induction false} KeyLeTotal(a: Key, b: Key)
    ensures KeyLe(a, b) || KeyLe(b, a)
  {
    if a != [] && b != [] && a[0] == b[0] {
      KeyLeTotal(a[1..], b[1..]);
    }
  }

  /** Number of characters of `textContent` that precede boundary point `k` of `n`. */
  function TextPos(n: Node, k: Key): (p: nat)
    requires ValidKey(n, k)
    ensures p <= |Flat(n)|
  {
    match n
    case Text(s) => k[0]
    case Elem(_, ch) => TextPosSeq(ch, k)
  }

  function TextPosSeq(cs: seq<Node>, k: Key): (p: nat)
    requires ValidKeySeq(cs, k)
    ensures p <= |FlatSeq(cs)|
  {
    var i := k[0];
    FlatSeqAppend(cs[..i], cs[i..]);
    assert cs[..i] + cs[i..] == cs;
    if |k| == 1 then |FlatSeq(cs[..i])|
    else
      assert cs[i..][1..] == cs[i + 1..];
      |FlatSeq(cs[..i])| + TextPos(cs[i], k[1..])
  }

  /** Text position of a key that goes down into child `k[0]`. */
  lemma TextPosStep(cs: seq<Node>, k: Key)
    requires ValidKeySeq(cs, k) && |k| > 1
    ensures TextPosSeq(cs, k) == |FlatSeq(cs[..k[0]])| + TextPos(cs[k[0]], k[1..])
  {
  }

  /** Replacing child `i` by `n`: the text around it is unchanged. */
  lemma FlatSeqReplace(cs: seq<Node>, i: int, n: Node)
    requires 0 <= i < |cs|
    ensures FlatSeq(cs[..i] + [n] + cs[i + 1..]) == FlatSeq(cs[..i]) + Flat(n) + FlatSeq(cs[i + 1..])
    ensures FlatSeq(cs) == FlatSeq(cs[..i]) + Flat(cs[i]) + FlatSeq(cs[i + 1..])
  {
    FlatSeqAround(cs, i);
    var r := cs[..i] + [n] + cs[i + 1..];
    FlatSeqAround(r, i);
    assert r[..i] == cs[..i] && r[i] == n && r[i + 1..] == cs[i + 1..];
  }

  /** Text position of key `[i] + k` after replacing child `i` by `n`. */
  lemma TextPosReplace(cs: seq<Node>, i: int, n: Node, k: Key)
    requires 0 <= i < |cs| && ValidKey(n, k)
    ensures ValidKeySeq(cs[..i] + [n] + cs[i + 1..], [i] + k)
    ensures TextPosSeq(cs[..i] + [n] + cs[i + 1..], [i] + k) == |FlatSeq(cs[..i])| + TextPos(n, k)
  {
    var r := cs[..i] + [n] + cs[i + 1..];
    assert r[..i] == cs[..i] && r[i] == n;
    assert ([i] + k)[1..] == k;
  }

  /** Document order never runs against text order. */
  lemma {:induction false} TextPosMonotone(cs: seq<Node>, a: Key, b: Key)
    requires ValidKeySeq(cs, a) && ValidKeySeq(cs, b) && KeyLe(a, b)
    ensures TextPosSeq(cs, a) <= TextPosSeq(cs, b)
  {
    var i, j := a[0], b[0];
    if i < j {
      FlatSeqAppend(cs[..i + 1], cs[i + 1..j]);
      assert cs[..i + 1] + cs[i + 1..j] == cs[..j];
      FlatSeqAppend(cs[..i], [cs[i]]);
      assert cs[..i] + [cs[i]] == cs[..i + 1];
      FlatSeqSingle(cs[i]);
    } else if |a| > 1 {
      assert |b| > 1 && KeyLe(a[1..], b[1..]);
      TextPosMonotoneNode(cs[i], a[1..], b[1..]);
    }
  }

  lemma {:induction false} TextPosMonotoneNode(n: Node, a: Key, b: Key)
    requires ValidKey(n, a) && ValidKey(n, b) && KeyLe(a, b)
    ensures TextPos(n, a) <= TextPos(n, b)
  {
    match n
    case Text(s) =>
      assert a[1..] == [] && b[1..] == [];
    case Elem(_, ch) => TextPosMonotone(ch, a, b);
  }

  // ---------------------------------------------------------------------------
  // Navigation by path

  /** The node at `path` (child indices from the body), if any. */
  function NodeAtSeq(cs: seq<Node>, path: seq<int>): Option<Node>
    requires |path| >= 1
  {
    var i := path[0];
    if i < 0 || i >= |cs| then None
    else if |path| == 1 then Some(cs[i])
    else match cs[i]
      case Text(_) => None
      case Elem(_, ch) => NodeAtSeq(ch, path[1..])
  }

  /** An offset within the data of the text node at `path` is a boundary point. */
  lemma {:induction false} ValidKeyInText(cs: seq<Node>, path: seq<int>, o: int)
    requires |path| >= 1 && NodeAtSeq(cs, path).Some? && NodeAtSeq(cs, path).value.Text?
    requires 0 <= o <= |NodeAtSeq(cs, path).value.data|
    ensures ValidKeySeq(cs, path + [o])
  {
    var k := path + [o];
    assert k[0] == path[0] && k[1..] == path[1..] + [o];
    if |path| > 1 {
      ValidKeyInText(cs[path[0]].children, path[1..], o);
    }
  }

  /** The container of a boundary point is the body or a node of it. */
  lemma {:induction false} ValidKeyNamesNode(cs: seq<Node>, path: seq<int>, o: int)
    requires ValidKeySeq(cs, path + [o])
    ensures path == [] || NodeAtSeq(cs, path).Some?
  {
    if |path| > 1 {
      var k := path + [o];
      assert k[0] == path[0] && k[1..] == path[1..] + [o];
      ValidKeyNamesNode(cs[path[0]].children, path[1..], o);
    }
  }

  /** `path` names a container: the body itself (`[]`) or an element. */
  predicate IsContainer(cs: seq<Node>, path: seq<int>) {
    path == [] || (NodeAtSeq(cs, path).Some? && NodeAtSeq(cs, path).value.Elem?)
  }

  /** The children of the container at `path`. */
  function ChildrenAt(cs: seq<Node>, path: seq<int>): seq<Node>
    requires IsContainer(cs, path)
  {
    if path == [] then cs else NodeAtSeq(cs, path).value.children
  }

  /** The forest with the children of the container at `path` replaced by `xs`. */
  function SetChildrenAt(cs: seq<Node>, path: seq<int>, xs: seq<Node>): (r: seq<Node>)
    requires IsContainer(cs, path)
    ensures |path| >= 1 ==> |r| == |cs|
  {
    if path == [] then xs
    else
      var i := path[0];
      match cs[i]
      case Elem(k, ch) =>
        var inner := if |path| == 1 then xs else SetChildrenAt(ch, path[1..], xs);
        cs[..i] + [Elem(k, inner)] + cs[i + 1..]
  }

  /** Replacing the children of a container below child `path[0]`. */
  lemma SetChildrenAtDeep(cs: seq<Node>, path: seq<int>, xs: seq<Node>)
    requires IsContainer(cs, path) && |path| > 1
    ensures 0 <= path[0] < |cs| && cs[path[0]].Elem? && IsContainer(cs[path[0]].children, path[1..])
    ensures SetChildrenAt(cs, path, xs)
         == cs[..path[0]] + [Elem(cs[path[0]].kind, SetChildrenAt(cs[path[0]].children, path[1..], xs))] + cs[path[0] + 1..]
  {
  }

  /** Replacing a container's children leaves it a container holding exactly those children. */
  lemma {:induction false} SetChildrenAtSpec(cs: seq<Node>, path: seq<int>, xs: seq<Node>)
    requires IsContainer(cs, path)
    ensures IsContainer(SetChildrenAt(cs, path, xs), path)
    ensures ChildrenAt(SetChildrenAt(cs, path, xs), path) == xs
  {
    if |path| > 1 {
      var i := path[0];
      SetChildrenAtSpec(cs[i].children, path[1..], xs);
    }
  }

  /** Putting back a container's own children changes nothing. */
  lemma {:induction false} SetChildrenAtSame(cs: seq<Node>, path: seq<int>)
    requires IsContainer(cs, path)
    ensures SetChildrenAt(cs, path, ChildrenAt(cs, path)) == cs
  {
    if path != [] {
      var i := path[0];
      if |path| > 1 {
        SetChildrenAtSame(cs[i].children, path[1..]);
      }
      CutAround(cs, i);
    }
  }

  /** Replacing a container's children twice keeps only the second replacement. */
  lemma {:induction false} SetChildrenAtTwice(cs: seq<Node>, path: seq<int>, xs: seq<Node>, ys: seq<Node>)
    requires IsContainer(cs, path)
    ensures var t := SetChildrenAt(cs, path, xs);
      IsContainer(t, path) && SetChildrenAt(t, path, ys) == SetChildrenAt(cs, path, ys)
  {
    SetChildrenAtSpec(cs, path, xs);
    if |path| > 1 {
      var i := path[0];
      SetChildrenAtTwice(cs[i].children, path[1..], xs, ys);
      var t := SetChildrenAt(cs, path, xs);
      assert t[..i] == cs[..i] && t[i + 1..] == cs[i + 1..];
    } else if |path| == 1 {
      var i := path[0];
      var t := SetChildrenAt(cs, path, xs);
      assert t[..i] == cs[..i] && t[i + 1..] == cs[i + 1..];
    }
  }

  /** Marker count of a forest after replacing one container's children. */
  lemma {:induction false} SetChildrenAtCount(cs: seq<Node>, path: seq<int>, xs: seq<Node>)
    requires IsContainer(cs, path)
    ensures MarkerCountSeq(SetChildrenAt(cs, path, xs)) + MarkerCountSeq(ChildrenAt(cs, path))
         == MarkerCountSeq(cs) + MarkerCountSeq(xs)
  {
    if path != [] {
      var i := path[0];
      var k, ch := cs[i].kind, cs[i].children;
      var inner := if |path| == 1 then xs else SetChildrenAt(ch, path[1..], xs);
      if |path| > 1 {
        SetChildrenAtCount(ch, path[1..], xs);
      }
      CutAround(cs, i);
      MarkerCountSeqAppend(cs[..i] + [cs[i]], cs[i + 1..]);
      MarkerCountSeqAppend(cs[..i], [cs[i]]);
      MarkerCountSeqAppend(cs[..i] + [Elem(k, inner)], cs[i + 1..]);
      MarkerCountSeqAppend(cs[..i], [Elem(k, inner)]);
      MarkerCountSeqSingle(cs[i]);
      MarkerCountSeqSingle(Elem(k, inner));
    }
  }
}
