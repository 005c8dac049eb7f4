/**
 * The DOM Range mutations the marking engine relies on, following the
 * algorithms of the DOM Standard ("extract", "insert", "surround"): partially
 * selected nodes are cloned, the part before the range stays in the tree and
 * the part inside the range moves into the fragment.
 */
module RangeOps {
  import opened Wrappers
  import opened DomTree

  // ---------------------------------------------------------------------------
  // Splitting a node at a boundary point

  /** What stays of `n` when everything after boundary `k` is taken out. */
  function Before(n: Node, k: Key): Node
    requires ValidKey(n, k)
  {
    match n
    case Text(s) => Text(s[..k[0]])
    case Elem(kd, ch) => Elem(kd, BeforeSeq(ch, k))
  }

  /** The clone of `n` holding everything after boundary `k`. */
  function After(n: Node, k: Key): Node
    requires ValidKey(n, k)
  {
    match n
    case Text(s) => Text(s[k[0]..])
    case Elem(kd, ch) => Elem(kd, AfterSeq(ch, k))
  }

  function BeforeSeq(cs: seq<Node>, k: Key): seq<Node>
    requires ValidKeySeq(cs, k)
  {
    var i := k[0];
    if |k| == 1 then cs[..i] else cs[..i] + [Before(cs[i], k[1..])]
  }

  function AfterSeq(cs: seq<Node>, k: Key): seq<Node>
    requires ValidKeySeq(cs, k)
  {
    var i := k[0];
    if |k| == 1 then cs[i..] else [After(cs[i], k[1..])] + cs[i + 1..]
  }

  /** Splitting at a boundary cuts the text exactly at that boundary's text position. */
  lemma {:induction false} SplitText(n: Node, k: Key)
    requires ValidKey(n, k)
    ensures Flat(Before(n, k)) == Flat(n)[..TextPos(n, k)]
    ensures Flat(After(n, k)) == Flat(n)[TextPos(n, k)..]
  {
    match n
    case Text(s) =>
    case Elem(kd, ch) => SplitTextSeq(ch, k);
  }

  lemma {:induction false} SplitTextSeq(cs: seq<Node>, k: Key)
    requires ValidKeySeq(cs, k)
    ensures FlatSeq(BeforeSeq(cs, k)) == FlatSeq(cs)[..TextPosSeq(cs, k)]
    ensures FlatSeq(AfterSeq(cs, k)) == FlatSeq(cs)[TextPosSeq(cs, k)..]
  {
    var i := k[0];
    if |k| == 1 {
      var pre, post := cs[..i], cs[i..];
      assert cs == pre + post;
      FlatSeqAppend(pre, post);
      CutAt(FlatSeq(cs), FlatSeq(pre), FlatSeq(post));
    } else {
      ValidKeyStep(cs, k);
      SplitText(cs[i], k[1..]);
      SplitTextDeep(cs, k);
    }
  }

  /** Splitting inside child `k[0]`, given how that child splits. */
  lemma SplitTextDeep(cs: seq<Node>, k: Key)
    requires ValidKeySeq(cs, k) && |k| > 1 && ValidKey(cs[k[0]], k[1..])
    requires Flat(Before(cs[k[0]], k[1..])) == Flat(cs[k[0]])[..TextPos(cs[k[0]], k[1..])]
    requires Flat(After(cs[k[0]], k[1..])) == Flat(cs[k[0]])[TextPos(cs[k[0]], k[1..])..]
    ensures FlatSeq(BeforeSeq(cs, k)) == FlatSeq(cs)[..TextPosSeq(cs, k)]
    ensures FlatSeq(AfterSeq(cs, k)) == FlatSeq(cs)[TextPosSeq(cs, k)..]
  {
    var i := k[0];
    var c, pre, post := cs[i], cs[..i], cs[i + 1..];
    var bc, ac := Before(c, k[1..]), After(c, k[1..]);
    FlatSeqAround(cs, i);
    TextPosStep(cs, k);
    assert BeforeSeq(cs, k) == pre + [bc];
    assert AfterSeq(cs, k) == [ac] + post;
    FlatSeqAppend(pre, [bc]);
    FlatSeqSingle(bc);
    FlatSeqAppend([ac], post);
    FlatSeqSingle(ac);
    CutMiddle(FlatSeq(pre), Flat(c), FlatSeq(post), TextPos(c, k[1..]));
  }

  lemma CutAt(w: string, x: string, y: string)
    requires w == x + y
    ensures w[..|x|] == x && w[|x|..] == y
  {
  }

  /** Cutting `pre + f + post` at position `t` of `f`. */
  lemma CutMiddle(pre: string, f: string, post: string, t: int)
    requires 0 <= t <= |f|
    ensures (pre + f + post)[..|pre| + t] == pre + f[..t]
    ensures (pre + f + post)[|pre| + t..] == f[t..] + post
  {
  }

  /** Splitting never creates markers out of nothing: each side has at most the markers
    * of the original, and together at least as many. */
  lemma {:induction false} SplitCount(n: Node, k: Key)
    requires ValidKey(n, k)
    ensures MarkerCount(Before(n, k)) <= MarkerCount(n)
    ensures MarkerCount(After(n, k)) <= MarkerCount(n)
    ensures MarkerCount(n) <= MarkerCount(Before(n, k)) + MarkerCount(After(n, k))
  {
    match n
    case Text(s) =>
    case Elem(kd, ch) => SplitCountSeq(ch, k);
  }

  lemma {:induction false} SplitCountSeq(cs: seq<Node>, k: Key)
    requires ValidKeySeq(cs, k)
    ensures MarkerCountSeq(BeforeSeq(cs, k)) <= MarkerCountSeq(cs)
    ensures MarkerCountSeq(AfterSeq(cs, k)) <= MarkerCountSeq(cs)
    ensures MarkerCountSeq(cs) <= MarkerCountSeq(BeforeSeq(cs, k)) + MarkerCountSeq(AfterSeq(cs, k))
  {
    var i := k[0];
    assert cs == cs[..i] + cs[i..];
    MarkerCountSeqAppend(cs[..i], cs[i..]);
    if |k| > 1 {
      var c := cs[i];
      assert cs[i..] == [c] + cs[i + 1..];
      MarkerCountSeqAppend([c], cs[i + 1..]);
      MarkerCountSeqSingle(c);
      SplitCount(c, k[1..]);
      var b := Before(c, k[1..]);
      var a := After(c, k[1..]);
      MarkerCountSeqAppend(cs[..i], [b]);
      MarkerCountSeqSingle(b);
      MarkerCountSeqAppend([a], cs[i + 1..]);
      MarkerCountSeqSingle(a);
    }
  }
}

module RangeExtract {
  import opened Wrappers
  import opened DomTree
  import opened RangeOps

  /** Result of `extractContents`: the tree left behind, the extracted fragment, and the
    * boundary point the (now collapsed) range sits at. */
  datatype Extraction = Extraction(rest: seq<Node>, fragment: seq<Node>, at: Key)

  /** Both boundary points lie strictly inside the same child `a[0]`. */
  predicate SameChild(a: Key, b: Key) {
    |a| > 1 && |b| > 1 && a[0] == b[0]
  }

  /** `range.extractContents()` for the range from `a` to `b` inside the forest `cs`. A
    * collapsed range extracts an empty fragment and leaves the tree as it is. */
  function ExtractSeq(cs: seq<Node>, a: Key, b: Key): (e: Extraction)
    requires ValidKeySeq(cs, a) && ValidKeySeq(cs, b) && KeyLe(a, b)
    ensures ValidKeySeq(e.rest, e.at)
    ensures a == b ==> e == Extraction(cs, [], a)
    decreases cs, 1
  {
    if a == b then
      Extraction(cs, [], a)
    else if SameChild(a, b) then
      // both ends lie inside one child: the common ancestor is further down
      ValidKeyStep(cs, a);
      if cs[a[0]].Text? then ExtractInText(cs, a, b) else ExtractInChild(cs, a, b)
    else
      ExtractAtCommon(cs, a, b)
  }

  /** Start and end in the same text node: its data loses the selected characters. */
  function ExtractInText(cs: seq<Node>, a: Key, b: Key): (e: Extraction)
    requires ValidKeySeq(cs, a) && ValidKeySeq(cs, b) && KeyLe(a, b)
    requires SameChild(a, b) && cs[a[0]].Text?
    ensures ValidKeySeq(e.rest, e.at)
  {
    ValidKeyStep(cs, a);
    ValidKeyStep(cs, b);
    KeyLeHead(a, b);
    var i, s := a[0], cs[a[0]].data;
    var rest := cs[..i] + [Text(s[..a[1]] + s[b[1]..])] + cs[i + 1..];
    assert rest[i] == Text(s[..a[1]] + s[b[1]..]);
    Extraction(rest, [Text(s[a[1]..b[1]])], a)
  }

  /** Both ends inside the same element child: extract inside it. */
  function ExtractInChild(cs: seq<Node>, a: Key, b: Key): (e: Extraction)
    requires ValidKeySeq(cs, a) && ValidKeySeq(cs, b) && KeyLe(a, b)
    requires SameChild(a, b) && cs[a[0]].Elem?
    ensures ValidKeySeq(e.rest, e.at)
    decreases cs, 0
  {
    ValidKeyStep(cs, a);
    ValidKeyStep(cs, b);
    KeyLeHead(a, b);
    var i, kd, ch := a[0], cs[a[0]].kind, cs[a[0]].children;
    var inner := ExtractSeq(ch, a[1..], b[1..]);
    var rest := cs[..i] + [Elem(kd, inner.rest)] + cs[i + 1..];
    assert rest[i] == Elem(kd, inner.rest);
    assert ([i] + inner.at)[1..] == inner.at;
    Extraction(rest, inner.fragment, [i] + inner.at)
  }

  /** `cs` is the common ancestor's child list: the first and last children may be
    * partially contained and are then split; the children between move whole. */
  function ExtractAtCommon(cs: seq<Node>, a: Key, b: Key): (e: Extraction)
    requires ValidKeySeq(cs, a) && ValidKeySeq(cs, b) && KeyLe(a, b)
    requires !SameChild(a, b)
    ensures ValidKeySeq(e.rest, e.at)
  {
    KeyLeHead(a, b);
    var left := BeforeSeq(cs, a);
    Extraction(left + AfterSeq(cs, b), HeadPiece(cs, a) + cs[FirstWhole(a)..b[0]] + TailPiece(cs, b), [|left|])
  }

  /** Index of the first child of the common ancestor that lies wholly after `a`. */
  function FirstWhole(a: Key): int
    requires |a| >= 1
  {
    if |a| == 1 then a[0] else a[0] + 1
  }

  /** The clone of a partially contained first child that goes into the fragment. */
  function HeadPiece(cs: seq<Node>, a: Key): seq<Node>
    requires ValidKeySeq(cs, a)
  {
    if |a| == 1 then [] else [After(cs[a[0]], a[1..])]
  }

  /** The clone of a partially contained last child that goes into the fragment. */
  function TailPiece(cs: seq<Node>, b: Key): seq<Node>
    requires ValidKeySeq(cs, b)
  {
    if |b| == 1 then [] else [Before(cs[b[0]], b[1..])]
  }

  /** `range.insertNode(n)` at the collapsed boundary point `at`: a text container is
    * split at the offset (`splitText`) and `n` goes between the halves. */
  function InsertSeq(cs: seq<Node>, at: Key, n: Node): seq<Node>
    requires ValidKeySeq(cs, at)
  {
    var i := at[0];
    if |at| == 1 then cs[..i] + [n] + cs[i..]
    else
      ValidKeyStep(cs, at);
      match cs[i]
      case Text(s) => cs[..i] + [Text(s[..at[1]]), n, Text(s[at[1]..])] + cs[i + 1..]
      case Elem(kd, ch) => cs[..i] + [Elem(kd, InsertSeq(ch, at[1..], n))] + cs[i + 1..]
  }

  /** The path at which `InsertSeq(cs, at, n)` puts `n`. */
  function InsertedPath(cs: seq<Node>, at: Key): (p: seq<int>)
    requires ValidKeySeq(cs, at)
    ensures |p| >= 1
  {
    var i := at[0];
    if |at| == 1 then [i]
    else
      ValidKeyStep(cs, at);
      match cs[i]
      case Text(_) => [i + 1]
      case Elem(_, ch) => [i] + InsertedPath(ch, at[1..])
  }

  lemma {:induction false} InsertedPathFinds(cs: seq<Node>, at: Key, n: Node)
    requires ValidKeySeq(cs, at)
    ensures NodeAtSeq(InsertSeq(cs, at, n), InsertedPath(cs, at)) == Some(n)
  {
    if |at| > 1 && cs[at[0]].Elem? {
      InsertedPathFinds(cs[at[0]].children, at[1..], n);
    }
  }

  /** Inserting adds the node's text at the insertion point's text position. */
  lemma {:induction false} InsertText(cs: seq<Node>, at: Key, n: Node)
    requires ValidKeySeq(cs, at)
    ensures FlatSeq(InsertSeq(cs, at, n))
         == FlatSeq(cs)[..TextPosSeq(cs, at)] + Flat(n) + FlatSeq(cs)[TextPosSeq(cs, at)..]
  {
    FlatSeqSingle(n);
    if |at| == 1 {
      InsertTextTop(cs, at, n);
    } else {
      var i := at[0];
      ValidKeyStep(cs, at);
      var mid := match cs[i]
        case Text(s) => [Text(s[..at[1]]), n, Text(s[at[1]..])]
        case Elem(kd, ch) => [Elem(kd, InsertSeq(ch, at[1..], n))];
      InsertTextChild(cs[i], at[1..], n, mid);
      InsertSeqDeep(cs, at, n, mid);
      InsertTextDeep(cs, at, n, mid);
    }
  }

  /** Inserting as a child of the container itself. */
  lemma InsertTextTop(cs: seq<Node>, at: Key, n: Node)
    requires ValidKeySeq(cs, at) && |at| == 1 && Flat(n) == FlatSeq([n])
    ensures FlatSeq(InsertSeq(cs, at, n))
         == FlatSeq(cs)[..TextPosSeq(cs, at)] + Flat(n) + FlatSeq(cs)[TextPosSeq(cs, at)..]
  {
    var i := at[0];
    var x, y := cs[..i], cs[i..];
    assert cs == x + y;
    FlatSeqAppend(x, y);
    FlatSeqAppend3(x, [n], y);
    CutAt(FlatSeq(cs), FlatSeq(x), FlatSeq(y));
  }

  /** Inserting inside child `at[0]`, given what the child becomes. */
  lemma InsertTextDeep(cs: seq<Node>, at: Key, n: Node, mid: seq<Node>)
    requires ValidKeySeq(cs, at) && |at| > 1 && ValidKey(cs[at[0]], at[1..])
    requires InsertSeq(cs, at, n) == cs[..at[0]] + mid + cs[at[0] + 1..]
    requires FlatSeq(mid) == Flat(cs[at[0]])[..TextPos(cs[at[0]], at[1..])] + Flat(n)
                             + Flat(cs[at[0]])[TextPos(cs[at[0]], at[1..])..]
    ensures FlatSeq(InsertSeq(cs, at, n))
         == FlatSeq(cs)[..TextPosSeq(cs, at)] + Flat(n) + FlatSeq(cs)[TextPosSeq(cs, at)..]
  {
    var i := at[0];
    var pre, post := cs[..i], cs[i + 1..];
    FlatSeqAround(cs, i);
    TextPosStep(cs, at);
    FlatSeqAppend3(pre, mid, post);
    SpliceText(FlatSeq(pre), Flat(cs[i]), FlatSeq(post), TextPos(cs[i], at[1..]), Flat(n));
  }

  lemma {:induction false} InsertSeqDeep(cs: seq<Node>, at: Key, n: Node, mid: seq<Node>)
    requires ValidKeySeq(cs, at) && |at| > 1 && ValidKey(cs[at[0]], at[1..])
    requires mid == match cs[at[0]]
        case Text(d) => [Text(d[..at[1]]), n, Text(d[at[1]..])]
        case Elem(kd, ch) => [Elem(kd, InsertSeq(ch, at[1..], n))]
    ensures InsertSeq(cs, at, n) == cs[..at[0]] + mid + cs[at[0] + 1..]
  {
  }

  /** Inserting into one child, seen from that child. */
  lemma {:induction false} InsertTextChild(c: Node, k: Key, n: Node, mid: seq<Node>)
    requires ValidKey(c, k)
    requires mid == match c
        case Text(s) => [Text(s[..k[0]]), n, Text(s[k[0]..])]
        case Elem(kd, ch) => [Elem(kd, InsertSeq(ch, k, n))]
    ensures FlatSeq(mid) == Flat(c)[..TextPos(c, k)] + Flat(n) + Flat(c)[TextPos(c, k)..]
  {
    match c
    case Text(s) =>
      var o := k[0];
      assert mid == [Text(s[..o])] + [n] + [Text(s[o..])];
      FlatSeqAppend3([Text(s[..o])], [n], [Text(s[o..])]);
      FlatSeqSingle(Text(s[..o]));
      FlatSeqSingle(n);
      FlatSeqSingle(Text(s[o..]));
    case Elem(kd, ch) =>
      InsertText(ch, k, n);
      FlatSeqSingle(mid[0]);
  }

  /** Text splicing arithmetic: inserting at position `|pre| + t` of `pre + f + post`. */
  lemma SpliceText(pre: string, f: string, post: string, t: nat, x: string)
    requires t <= |f|
    ensures (pre + f + post)[..|pre| + t] + x + (pre + f + post)[|pre| + t..]
         == pre + (f[..t] + x + f[t..]) + post
  {
    var w := pre + f + post;
    assert w[..|pre| + t] == pre + f[..t];
    assert w[|pre| + t..] == f[t..] + post;
  }

  /** Inserting adds exactly the node's markers. */
  lemma {:induction false} InsertCount(cs: seq<Node>, at: Key, n: Node)
    requires ValidKeySeq(cs, at)
    ensures MarkerCountSeq(InsertSeq(cs, at, n)) == MarkerCountSeq(cs) + MarkerCount(n)
  {
    var i := at[0];
    var r := InsertSeq(cs, at, n);
    MarkerCountSeqSingle(n);
    if |at| == 1 {
      assert cs == cs[..i] + cs[i..];
      MarkerCountSeqAppend(cs[..i], cs[i..]);
      MarkerCountSeqAppend3(cs[..i], [n], cs[i..]);
    } else {
      ValidKeyStep(cs, at);
      MarkerCountSeqAround(cs, i);
      match cs[i]
      case Text(s) =>
        var o := at[1];
        assert r == cs[..i] + ([Text(s[..o])] + [n] + [Text(s[o..])]) + cs[i + 1..];
        MarkerCountSeqAppend3(cs[..i], [Text(s[..o])] + [n] + [Text(s[o..])], cs[i + 1..]);
        MarkerCountSeqAppend3([Text(s[..o])], [n], [Text(s[o..])]);
        MarkerCountSeqSingle(Text(s[..o]));
        MarkerCountSeqSingle(Text(s[o..]));
      case Elem(kd, ch) =>
        var inner := InsertSeq(ch, at[1..], n);
        InsertCount(ch, at[1..], n);
        assert r == cs[..i] + [Elem(kd, inner)] + cs[i + 1..];
        MarkerCountSeqAppend3(cs[..i], [Elem(kd, inner)], cs[i + 1..]);
        MarkerCountSeqSingle(Elem(kd, inner));
    }
  }

  /** The part before `a` plus the head piece is the text up to the first whole child. */
  lemma HeadPieceText(cs: seq<Node>, a: Key)
    requires ValidKeySeq(cs, a)
    ensures 0 <= FirstWhole(a) <= |cs|
    ensures FlatSeq(BeforeSeq(cs, a)) + FlatSeq(HeadPiece(cs, a)) == FlatSeq(cs[..FirstWhole(a)])
  {
    if |a| == 1 {
      assert HeadPiece(cs, a) == [];
      assert BeforeSeq(cs, a) == cs[..a[0]];
      assert FlatSeq(HeadPiece(cs, a)) == [];
    } else {
      HeadPieceTextSplit(cs, a);
    }
  }

  lemma HeadPieceTextSplit(cs: seq<Node>, a: Key)
    requires ValidKeySeq(cs, a) && |a| > 1
    ensures FlatSeq(BeforeSeq(cs, a)) + FlatSeq(HeadPiece(cs, a)) == FlatSeq(cs[..a[0] + 1])
  {
    var i := a[0];
    var c := cs[i];
    var bc, ac := Before(c, a[1..]), After(c, a[1..]);
    SplitText(c, a[1..]);
    JoinAt(Flat(c), TextPos(c, a[1..]));
    assert BeforeSeq(cs, a) == cs[..i] + [bc];
    assert HeadPiece(cs, a) == [ac];
    FlatSeqAppend(cs[..i], [bc]);
    FlatSeqSingle(bc);
    FlatSeqSingle(ac);
    assert cs[..i + 1] == cs[..i] + [c];
    FlatSeqAppend(cs[..i], [c]);
    FlatSeqSingle(c);
    Reassociate(FlatSeq(cs[..i]), Flat(bc), Flat(ac), Flat(c));
  }

  lemma JoinAt(w: string, p: int)
    requires 0 <= p <= |w|
    ensures w[..p] + w[p..] == w
  {
  }

  lemma Reassociate(pre: string, x: string, y: string, whole: string)
    requires x + y == whole
    ensures (pre + x) + y == pre + whole
  {
  }

  /** Everything up to `b` is the children before `b[0]` plus the tail piece. */
  lemma TailPieceSplit(cs: seq<Node>, b: Key)
    requires ValidKeySeq(cs, b)
    ensures BeforeSeq(cs, b) == cs[..b[0]] + TailPiece(cs, b)
  {
  }

  /** `e` cuts the text `w` of a forest at text positions `pa <= pb`: the fragment holds
    * `w[pa..pb]`, the tree keeps the rest, and the collapsed range sits at `pa`. */
  ghost predicate CutsText(w: string, pa: int, pb: int, e: Extraction) {
    && 0 <= pa <= pb <= |w|
    && FlatSeq(e.fragment) == w[pa..pb]
    && FlatSeq(e.rest) == w[..pa] + w[pb..]
    && ValidKeySeq(e.rest, e.at)
    && TextPosSeq(e.rest, e.at) == pa
  }

  /** Text bookkeeping of `extractContents`: the fragment holds exactly the range's text, the
    * tree keeps the rest, and the collapsed range sits where the range began. */
  lemma {:induction false} ExtractText(cs: seq<Node>, a: Key, b: Key)
    requires ValidKeySeq(cs, a) && ValidKeySeq(cs, b) && KeyLe(a, b)
    ensures CutsText(FlatSeq(cs), TextPosSeq(cs, a), TextPosSeq(cs, b), ExtractSeq(cs, a, b))
    decreases cs
  {
    TextPosMonotone(cs, a, b);
    if a == b {
      var w := FlatSeq(cs);
      assert w == w[..TextPosSeq(cs, a)] + w[TextPosSeq(cs, a)..];
    } else if SameChild(a, b) {
      ValidKeyStep(cs, a);
      ValidKeyStep(cs, b);
      KeyLeHead(a, b);
      if cs[a[0]].Text? {
        ExtractTextInText(cs, a, b);
      } else {
        ExtractText(cs[a[0]].children, a[1..], b[1..]);
        ExtractTextInChild(cs, a, b);
      }
    } else {
      ExtractTextAtCommon(cs, a, b);
    }
  }

  lemma ExtractTextInText(cs: seq<Node>, a: Key, b: Key)
    requires ValidKeySeq(cs, a) && ValidKeySeq(cs, b) && KeyLe(a, b)
    requires SameChild(a, b) && cs[a[0]].Text?
    ensures CutsText(FlatSeq(cs), TextPosSeq(cs, a), TextPosSeq(cs, b), ExtractInText(cs, a, b))
  {
    ValidKeyStep(cs, a);
    ValidKeyStep(cs, b);
    KeyLeHead(a, b);
    assert a == [a[0], a[1]] && b == [a[0], b[1]];
    CutsInText(cs, a[0], a[1], b[1]);
  }

  /** The extraction of characters `o1..o2` of the text child `i`, written out. */
  lemma CutsInText(cs: seq<Node>, i: int, o1: int, o2: int)
    requires 0 <= i < |cs| && cs[i].Text? && 0 <= o1 <= o2 <= |cs[i].data|
    ensures var s := cs[i].data;
      CutsText(FlatSeq(cs), TextPosSeq(cs, [i, o1]), TextPosSeq(cs, [i, o2]),
        Extraction(cs[..i] + [Text(s[..o1] + s[o2..])] + cs[i + 1..], [Text(s[o1..o2])], [i, o1]))
  {
    var s := cs[i].data;
    var t := Text(s[..o1] + s[o2..]);
    FlatSeqSingle(Text(s[o1..o2]));
    FlatSeqReplace(cs, i, t);
    TextPosStep(cs, [i, o1]);
    TextPosStep(cs, [i, o2]);
    assert [i, o1] == [i] + [o1];
    TextPosReplace(cs, i, t, [o1]);
    CutsNested(FlatSeq(cs), FlatSeq(cs[..i]), s, FlatSeq(cs[i + 1..]), TextPosSeq(cs, [i, o1]), TextPosSeq(cs, [i, o2]),
      o1, o2, FlatSeq([Text(s[o1..o2])]), Flat(t), FlatSeq(cs[..i] + [t] + cs[i + 1..]));
  }

  /** String arithmetic for cutting `pre + f + post` at two positions inside `f`. */
  lemma Cut3(pre: string, f: string, post: string, x: int, y: int)
    requires 0 <= x <= y <= |f|
    ensures (pre + f + post)[..|pre| + x] == pre + f[..x]
    ensures (pre + f + post)[|pre| + y..] == f[y..] + post
    ensures (pre + f + post)[|pre| + x..|pre| + y] == f[x..y]
    ensures (pre + f + post)[..|pre| + x] + (pre + f + post)[|pre| + y..] == pre + (f[..x] + f[y..]) + post
  {
    var w := pre + f + post;
    assert w[..|pre| + x] == pre + f[..x];
    assert w[|pre| + y..] == f[y..] + post;
  }

  lemma ExtractTextInChild(cs: seq<Node>, a: Key, b: Key)
    requires ValidKeySeq(cs, a) && ValidKeySeq(cs, b) && KeyLe(a, b)
    requires SameChild(a, b) && cs[a[0]].Elem?
    requires ValidKeySeq(cs[a[0]].children, a[1..]) && ValidKeySeq(cs[a[0]].children, b[1..])
    requires KeyLe(a[1..], b[1..])
    requires var ch := cs[a[0]].children;
      CutsText(FlatSeq(ch), TextPosSeq(ch, a[1..]), TextPosSeq(ch, b[1..]), ExtractSeq(ch, a[1..], b[1..]))
    ensures CutsText(FlatSeq(cs), TextPosSeq(cs, a), TextPosSeq(cs, b), ExtractInChild(cs, a, b))
  {
    var i := a[0];
    var inner := ExtractSeq(cs[i].children, a[1..], b[1..]);
    assert ExtractInChild(cs, a, b)
        == Extraction(cs[..i] + [Elem(cs[i].kind, inner.rest)] + cs[i + 1..], inner.fragment, [i] + inner.at);
    CutsInChild(cs, a, b, inner);
  }

  /** Extracting inside element child `a[0]`, lifted from the extraction `inner` of its children. */
  lemma CutsInChild(cs: seq<Node>, a: Key, b: Key, inner: Extraction)
    requires ValidKeySeq(cs, a) && ValidKeySeq(cs, b) && SameChild(a, b) && cs[a[0]].Elem?
    requires ValidKeySeq(cs[a[0]].children, a[1..]) && ValidKeySeq(cs[a[0]].children, b[1..])
    requires var ch := cs[a[0]].children;
      CutsText(FlatSeq(ch), TextPosSeq(ch, a[1..]), TextPosSeq(ch, b[1..]), inner)
    ensures var i := a[0];
      CutsText(FlatSeq(cs), TextPosSeq(cs, a), TextPosSeq(cs, b),
        Extraction(cs[..i] + [Elem(cs[i].kind, inner.rest)] + cs[i + 1..], inner.fragment, [i] + inner.at))
  {
    var i := a[0];
    var ch := cs[i].children;
    var n := Elem(cs[i].kind, inner.rest);
    FlatSeqReplace(cs, i, n);
    TextPosStep(cs, a);
    TextPosStep(cs, b);
    TextPosReplace(cs, i, n, inner.at);
    var pre, f, post := FlatSeq(cs[..i]), FlatSeq(ch), FlatSeq(cs[i + 1..]);
    var qa, qb := TextPosSeq(ch, a[1..]), TextPosSeq(ch, b[1..]);
    assert Flat(n) == FlatSeq(inner.rest);
    CutsNested(FlatSeq(cs), pre, f, post, TextPosSeq(cs, a), TextPosSeq(cs, b), qa, qb,
      FlatSeq(inner.fragment), FlatSeq(inner.rest), FlatSeq(cs[..i] + [n] + cs[i + 1..]));
  }

  /** Cutting inside the middle part `f` of `w == pre + f + post`. */
  lemma CutsNested(w: string, pre: string, f: string, post: string, pa: int, pb: int, qa: int, qb: int,
                   frag: string, kept: string, rest: string)
    requires w == pre + f + post && pa == |pre| + qa && pb == |pre| + qb
    requires 0 <= qa <= qb <= |f| && frag == f[qa..qb] && kept == f[..qa] + f[qb..]
    requires rest == pre + kept + post
    ensures 0 <= pa <= pb <= |w|
    ensures frag == w[pa..pb]
    ensures rest == w[..pa] + w[pb..]
  {
    Cut3(pre, f, post, qa, qb);
  }

  lemma ExtractTextAtCommon(cs: seq<Node>, a: Key, b: Key)
    requires ValidKeySeq(cs, a) && ValidKeySeq(cs, b) && KeyLe(a, b)
    requires !SameChild(a, b)
    requires TextPosSeq(cs, a) <= TextPosSeq(cs, b)
    ensures CutsText(FlatSeq(cs), TextPosSeq(cs, a), TextPosSeq(cs, b), ExtractAtCommon(cs, a, b))
  {
    AtCommonFragment(cs, a, b);
    AtCommonRest(cs, a, b);
  }

  /** The fragment of `ExtractAtCommon` holds the text between the two positions. */
  lemma AtCommonFragment(cs: seq<Node>, a: Key, b: Key)
    requires ValidKeySeq(cs, a) && ValidKeySeq(cs, b) && KeyLe(a, b)
    requires !SameChild(a, b)
    requires TextPosSeq(cs, a) <= TextPosSeq(cs, b)
    ensures FlatSeq(ExtractAtCommon(cs, a, b).fragment) == FlatSeq(cs)[TextPosSeq(cs, a)..TextPosSeq(cs, b)]
  {
    var w := FlatSeq(cs);
    var pa, pb := TextPosSeq(cs, a), TextPosSeq(cs, b);
    SplitTextSeq(cs, a);
    SplitTextSeq(cs, b);
    UpToEnd(cs, a, b);
    assert w[..pb] == w[..pa] + FlatSeq(ExtractAtCommon(cs, a, b).fragment);
    assert w[pa..pb] == w[..pb][pa..];
  }

  /** Everything up to `b` is everything up to `a` followed by the fragment. */
  lemma UpToEnd(cs: seq<Node>, a: Key, b: Key)
    requires ValidKeySeq(cs, a) && ValidKeySeq(cs, b) && KeyLe(a, b)
    requires !SameChild(a, b)
    ensures FlatSeq(BeforeSeq(cs, b)) == FlatSeq(BeforeSeq(cs, a)) + FlatSeq(ExtractAtCommon(cs, a, b).fragment)
  {
    KeyLeHead(a, b);
    var first := FirstWhole(a);
    var head, mid, tail := HeadPiece(cs, a), cs[first..b[0]], TailPiece(cs, b);
    assert ExtractAtCommon(cs, a, b).fragment == head + mid + tail;
    UpToEndParts(cs, b, first);
    HeadPieceText(cs, a);
    FlatSeqAppend3(head, mid, tail);
    Regroup(FlatSeq(BeforeSeq(cs, b)), FlatSeq(cs[..first]), FlatSeq(BeforeSeq(cs, a)),
      FlatSeq(head), FlatSeq(mid), FlatSeq(tail), FlatSeq(head + mid + tail));
  }

  lemma Regroup(whole: string, upto: string, x: string, h: string, m: string, t: string, frag: string)
    requires whole == upto + m + t && upto == x + h && frag == h + m + t
    ensures whole == x + frag
  {
  }

  /** Text up to `b`, cut at the child index `first`. */
  lemma UpToEndParts(cs: seq<Node>, b: Key, first: int)
    requires ValidKeySeq(cs, b) && 0 <= first <= b[0]
    ensures FlatSeq(BeforeSeq(cs, b)) == FlatSeq(cs[..first]) + FlatSeq(cs[first..b[0]]) + FlatSeq(TailPiece(cs, b))
  {
    var j := b[0];
    TailPieceSplit(cs, b);
    FlatSeqAppend(cs[..j], TailPiece(cs, b));
    assert cs[..j] == cs[..first] + cs[first..j];
    FlatSeqAppend(cs[..first], cs[first..j]);
  }

  /** The tree left by `ExtractAtCommon` keeps the text outside the range, and the
    * collapsed point sits at the range's start position. */
  lemma AtCommonRest(cs: seq<Node>, a: Key, b: Key)
    requires ValidKeySeq(cs, a) && ValidKeySeq(cs, b) && KeyLe(a, b)
    requires !SameChild(a, b)
    ensures var e := ExtractAtCommon(cs, a, b);
      && FlatSeq(e.rest) == FlatSeq(cs)[..TextPosSeq(cs, a)] + FlatSeq(cs)[TextPosSeq(cs, b)..]
      && TextPosSeq(e.rest, e.at) == TextPosSeq(cs, a)
  {
    var e := ExtractAtCommon(cs, a, b);
    var left, right := BeforeSeq(cs, a), AfterSeq(cs, b);
    assert e.rest == left + right;
    SplitTextSeq(cs, a);
    SplitTextSeq(cs, b);
    FlatSeqAppend(left, right);
    assert e.rest[..|left|] == left;
  }

  // ---------------------------------------------------------------------------
  // Marker bookkeeping of extraction

  /** Extraction loses no marker and at most doubles them: a partially selected marker
    * is cloned, so one half stays in the tree and the other moves into the fragment. */
  lemma {:induction false} ExtractCount(cs: seq<Node>, a: Key, b: Key)
    requires ValidKeySeq(cs, a) && ValidKeySeq(cs, b) && KeyLe(a, b)
    ensures var e := ExtractSeq(cs, a, b);
      MarkerCountSeq(cs) <= MarkerCountSeq(e.rest) + MarkerCountSeq(e.fragment) <= 2 * MarkerCountSeq(cs)
    decreases cs
  {
    if a == b {
    } else if SameChild(a, b) {
      ValidKeyStep(cs, a);
      ValidKeyStep(cs, b);
      KeyLeHead(a, b);
      if cs[a[0]].Text? {
        InTextCount(cs, a, b);
      } else {
        ExtractCount(cs[a[0]].children, a[1..], b[1..]);
        InChildCount(cs, a, b);
      }
    } else {
      AtCommonCount(cs, a, b);
    }
  }

  lemma InTextCount(cs: seq<Node>, a: Key, b: Key)
    requires ValidKeySeq(cs, a) && ValidKeySeq(cs, b) && KeyLe(a, b)
    requires SameChild(a, b) && cs[a[0]].Text?
    ensures var e := ExtractInText(cs, a, b);
      MarkerCountSeq(cs) == MarkerCountSeq(e.rest) && MarkerCountSeq(e.fragment) == 0
  {
    var i, s := a[0], cs[a[0]].data;
    ValidKeyStep(cs, a);
    ValidKeyStep(cs, b);
    KeyLeHead(a, b);
    ReplaceCount(cs, i, Text(s[..a[1]] + s[b[1]..]));
    MarkerCountSeqSingle(Text(s[a[1]..b[1]]));
  }

  lemma InChildCount(cs: seq<Node>, a: Key, b: Key)
    requires ValidKeySeq(cs, a) && ValidKeySeq(cs, b) && KeyLe(a, b)
    requires SameChild(a, b) && cs[a[0]].Elem?
    requires ValidKeySeq(cs[a[0]].children, a[1..]) && ValidKeySeq(cs[a[0]].children, b[1..])
    requires KeyLe(a[1..], b[1..])
    requires var ch := cs[a[0]].children; var inner := ExtractSeq(ch, a[1..], b[1..]);
      MarkerCountSeq(ch) <= MarkerCountSeq(inner.rest) + MarkerCountSeq(inner.fragment) <= 2 * MarkerCountSeq(ch)
    ensures var e := ExtractInChild(cs, a, b);
      MarkerCountSeq(cs) <= MarkerCountSeq(e.rest) + MarkerCountSeq(e.fragment) <= 2 * MarkerCountSeq(cs)
  {
    var i := a[0];
    var inner := ExtractSeq(cs[i].children, a[1..], b[1..]);
    assert ExtractInChild(cs, a, b)
        == Extraction(cs[..i] + [Elem(cs[i].kind, inner.rest)] + cs[i + 1..], inner.fragment, [i] + inner.at);
    LiftCount(cs, i, inner.rest, inner.fragment);
  }

  /** Replacing the children of element child `i` by `rest`, with `frag` taken out beside. */
  lemma LiftCount(cs: seq<Node>, i: int, rest: seq<Node>, frag: seq<Node>)
    requires 0 <= i < |cs| && cs[i].Elem?
    requires var m := MarkerCountSeq(cs[i].children);
      m <= MarkerCountSeq(rest) + MarkerCountSeq(frag) <= 2 * m
    ensures var r := cs[..i] + [Elem(cs[i].kind, rest)] + cs[i + 1..];
      MarkerCountSeq(cs) <= MarkerCountSeq(r) + MarkerCountSeq(frag) <= 2 * MarkerCountSeq(cs)
  {
    var n := Elem(cs[i].kind, rest);
    ReplaceCount(cs, i, n);
    var own := if cs[i].kind.Marker? then 1 else 0;
    assert MarkerCount(cs[i]) == own + MarkerCountSeq(cs[i].children);
    assert MarkerCount(n) == own + MarkerCountSeq(rest);
  }

  /** Markers after replacing child `i` by `n`. */
  lemma ReplaceCount(cs: seq<Node>, i: int, n: Node)
    requires 0 <= i < |cs|
    ensures MarkerCount(cs[i]) <= MarkerCountSeq(cs)
    ensures MarkerCountSeq(cs[..i] + [n] + cs[i + 1..]) == MarkerCountSeq(cs) - MarkerCount(cs[i]) + MarkerCount(n)
  {
    MarkerCountSeqAround(cs, i);
    MarkerCountSeqAppend3(cs[..i], [n], cs[i + 1..]);
    MarkerCountSeqSingle(n);
  }

  lemma AtCommonCount(cs: seq<Node>, a: Key, b: Key)
    requires ValidKeySeq(cs, a) && ValidKeySeq(cs, b) && KeyLe(a, b)
    requires !SameChild(a, b)
    ensures var e := ExtractAtCommon(cs, a, b);
      MarkerCountSeq(cs) <= MarkerCountSeq(e.rest) + MarkerCountSeq(e.fragment) <= 2 * MarkerCountSeq(cs)
  {
    KeyLeHead(a, b);
    var first, j := FirstWhole(a), b[0];
    var left, right := BeforeSeq(cs, a), AfterSeq(cs, b);
    var head, mid, tail := HeadPiece(cs, a), cs[first..j], TailPiece(cs, b);
    MarkerCountSeqAppend(left, right);
    MarkerCountSeqAppend3(head, mid, tail);
    HeadCount(cs, a);
    TailCount(cs, b);
    CountCut3(cs, first, j);
  }

  /** Markers of a forest cut at two child indices. */
  lemma CountCut3(cs: seq<Node>, x: int, y: int)
    requires 0 <= x <= y <= |cs|
    ensures MarkerCountSeq(cs) == MarkerCountSeq(cs[..x]) + MarkerCountSeq(cs[x..y]) + MarkerCountSeq(cs[y..])
  {
    assert cs == cs[..x] + cs[x..y] + cs[y..];
    MarkerCountSeqAppend3(cs[..x], cs[x..y], cs[y..]);
  }

  /** Markers of the children up to the first whole one, against the tree part and the head piece. */
  lemma HeadCount(cs: seq<Node>, a: Key)
    requires ValidKeySeq(cs, a)
    ensures 0 <= FirstWhole(a) <= |cs|
    ensures var m := MarkerCountSeq(cs[..FirstWhole(a)]);
      m <= MarkerCountSeq(BeforeSeq(cs, a)) + MarkerCountSeq(HeadPiece(cs, a)) <= 2 * m
  {
    var i := a[0];
    if |a| == 1 {
      assert HeadPiece(cs, a) == [];
    } else {
      var c := cs[i];
      SplitCount(c, a[1..]);
      assert BeforeSeq(cs, a) == cs[..i] + [Before(c, a[1..])];
      MarkerCountSeqAppend(cs[..i], [Before(c, a[1..])]);
      MarkerCountSeqSingle(Before(c, a[1..]));
      MarkerCountSeqSingle(After(c, a[1..]));
      assert cs[..i + 1] == cs[..i] + [c];
      MarkerCountSeqAppend(cs[..i], [c]);
      MarkerCountSeqSingle(c);
    }
  }

  /** Markers of the children from `b[0]` on, against the tree part and the tail piece. */
  lemma TailCount(cs: seq<Node>, b: Key)
    requires ValidKeySeq(cs, b)
    ensures var m := MarkerCountSeq(cs[b[0]..]);
      m <= MarkerCountSeq(AfterSeq(cs, b)) + MarkerCountSeq(TailPiece(cs, b)) <= 2 * m
  {
    var j := b[0];
    if |b| == 1 {
      assert TailPiece(cs, b) == [];
    } else {
      var c := cs[j];
      SplitCount(c, b[1..]);
      assert AfterSeq(cs, b) == [After(c, b[1..])] + cs[j + 1..];
      MarkerCountSeqAppend([After(c, b[1..])], cs[j + 1..]);
      MarkerCountSeqSingle(After(c, b[1..]));
      MarkerCountSeqSingle(Before(c, b[1..]));
      assert cs[j..] == [c] + cs[j + 1..];
      MarkerCountSeqAppend([c], cs[j + 1..]);
      MarkerCountSeqSingle(c);
    }
  }
}
