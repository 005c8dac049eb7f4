/**
 * Wrapping a range in a highlight marker, the two ways `highlightSelection`
 * tries: `range.surroundContents(span)`, and when that throws, extracting the
 * contents, appending them to the span and inserting the span at the range.
 */
module Marking {
  import opened Wrappers
  import opened DomTree
  import opened RangeOps
  import opened RangeExtract

  /** The exception `surroundContents` raises. */
  datatype DomError = InvalidStateError

  /** The range `a..b` partially selects a node that is not a text node: an element
    * on the way from the common ancestor down to one of the boundary points. */
  predicate PartiallySelectsElement(cs: seq<Node>, a: Key, b: Key)
    requires ValidKeySeq(cs, a) && ValidKeySeq(cs, b) && KeyLe(a, b)
    decreases cs
  {
    if SameChild(a, b) then
      ValidKeyStep(cs, a);
      ValidKeyStep(cs, b);
      KeyLeHead(a, b);
      cs[a[0]].Elem? && PartiallySelectsElement(cs[a[0]].children, a[1..], b[1..])
    else
      (|a| > 1 && cs[a[0]].Elem?) || (|b| > 1 && cs[b[0]].Elem?)
  }

  /** A fresh, empty highlight span of the given colour. */
  function EmptySpan(color: string): Node {
    Elem(Marker(color), [])
  }

  /** `range.surroundContents(span)` for a fresh empty span: refuse when an element is
    * partially selected, otherwise extract the contents, insert the span at the collapsed
    * range and append the extracted contents to it. It throws exactly when an element is
    * partially selected, and otherwise builds the same tree as the fallback. */
  function SurroundContents(cs: seq<Node>, a: Key, b: Key, color: string): (r: Result<seq<Node>, DomError>)
    requires ValidKeySeq(cs, a) && ValidKeySeq(cs, b) && KeyLe(a, b)
    ensures r.Fail? <==> PartiallySelectsElement(cs, a, b)
    ensures r.Ok? ==> r.value == ExtractAndInsert(cs, a, b, color)
  {
    if PartiallySelectsElement(cs, a, b) then Fail(InvalidStateError)
    else
      var e := ExtractSeq(cs, a, b);
      var withSpan := InsertSeq(e.rest, e.at, EmptySpan(color));
      InsertedPathFinds(e.rest, e.at, EmptySpan(color));
      FillInserted(e.rest, e.at, Marker(color), e.fragment);
      Ok(SetChildrenAt(withSpan, InsertedPath(e.rest, e.at), e.fragment))
  }

  /** The fallback: `extractContents`, `span.appendChild(contents)`, `range.insertNode(span)`. */
  function ExtractAndInsert(cs: seq<Node>, a: Key, b: Key, color: string): seq<Node>
    requires ValidKeySeq(cs, a) && ValidKeySeq(cs, b) && KeyLe(a, b)
  {
    var e := ExtractSeq(cs, a, b);
    InsertSeq(e.rest, e.at, Elem(Marker(color), e.fragment))
  }

  /** Where the new marker sits after marking the range `a..b`. */
  function MarkerPath(cs: seq<Node>, a: Key, b: Key): seq<int>
    requires ValidKeySeq(cs, a) && ValidKeySeq(cs, b) && KeyLe(a, b)
  {
    var e := ExtractSeq(cs, a, b);
    InsertedPath(e.rest, e.at)
  }

  // ---------------------------------------------------------------------------
  // surroundContents and the fallback agree

  /** Inserting an empty element and then filling it is inserting the filled element. */
  lemma {:induction false} FillInserted(cs: seq<Node>, at: Key, k: Kind, xs: seq<Node>)
    requires ValidKeySeq(cs, at)
    ensures var w, p := InsertSeq(cs, at, Elem(k, [])), InsertedPath(cs, at);
      IsContainer(w, p) && SetChildrenAt(w, p, xs) == InsertSeq(cs, at, Elem(k, xs))
  {
    if |at| == 1 {
      FillAtTop(cs, at, k, xs);
    } else {
      ValidKeyStep(cs, at);
      if cs[at[0]].Text? {
        FillInText(cs, at, k, xs);
      } else {
        FillInserted(cs[at[0]].children, at[1..], k, xs);
        FillInChild(cs, at, k, xs);
      }
    }
  }

  lemma FillAtTop(cs: seq<Node>, at: Key, k: Kind, xs: seq<Node>)
    requires ValidKeySeq(cs, at) && |at| == 1
    ensures var w, p := InsertSeq(cs, at, Elem(k, [])), InsertedPath(cs, at);
      IsContainer(w, p) && SetChildrenAt(w, p, xs) == InsertSeq(cs, at, Elem(k, xs))
  {
    var i, empty := at[0], Elem(k, []);
    InsertedPathFinds(cs, at, empty);
    var w, p := InsertSeq(cs, at, empty), InsertedPath(cs, at);
    assert p == [i] && w[i] == empty;
    assert w[..i] == cs[..i] && w[i + 1..] == cs[i..];
  }

  lemma FillInText(cs: seq<Node>, at: Key, k: Kind, xs: seq<Node>)
    requires ValidKeySeq(cs, at) && |at| > 1 && cs[at[0]].Text?
    ensures var w, p := InsertSeq(cs, at, Elem(k, [])), InsertedPath(cs, at);
      IsContainer(w, p) && SetChildrenAt(w, p, xs) == InsertSeq(cs, at, Elem(k, xs))
  {
    var i, o, empty := at[0], at[1], Elem(k, []);
    var d := cs[i].data;
    InsertedPathFinds(cs, at, empty);
    var w, p := InsertSeq(cs, at, empty), InsertedPath(cs, at);
    assert p == [i + 1];
    assert w == cs[..i] + [Text(d[..o]), empty, Text(d[o..])] + cs[i + 1..];
    assert w[..i + 1] == cs[..i] + [Text(d[..o])];
    assert w[i + 2..] == [Text(d[o..])] + cs[i + 1..];
  }

  /** Inside an element child, given the same fact one level down. */
  lemma FillInChild(cs: seq<Node>, at: Key, k: Kind, xs: seq<Node>)
    requires ValidKeySeq(cs, at) && |at| > 1 && cs[at[0]].Elem? && ValidKeySeq(cs[at[0]].children, at[1..])
    requires var ch := cs[at[0]].children;
      var w, p := InsertSeq(ch, at[1..], Elem(k, [])), InsertedPath(ch, at[1..]);
      IsContainer(w, p) && SetChildrenAt(w, p, xs) == InsertSeq(ch, at[1..], Elem(k, xs))
    ensures var w, p := InsertSeq(cs, at, Elem(k, [])), InsertedPath(cs, at);
      IsContainer(w, p) && SetChildrenAt(w, p, xs) == InsertSeq(cs, at, Elem(k, xs))
  {
    var i, empty := at[0], Elem(k, []);
    var kd, ch := cs[i].kind, cs[i].children;
    var inner, q := InsertSeq(ch, at[1..], empty), InsertedPath(ch, at[1..]);
    InsertedPathFinds(cs, at, empty);
    var w, p := InsertSeq(cs, at, empty), InsertedPath(cs, at);
    assert p == [i] + q && p[0] == i && p[1..] == q;
    assert w == cs[..i] + [Elem(kd, inner)] + cs[i + 1..];
    Pieces(cs[..i], Elem(kd, inner), cs[i + 1..]);
    SetChildrenAtDeep(w, p, xs);
  }

  // ---------------------------------------------------------------------------
  // What marking does to the page

  /** String arithmetic: the cut text put back together. */
  lemma Rejoin(w: string, pa: int, pb: int, kept: string, frag: string, pos: int, r: string)
    requires 0 <= pa <= pb <= |w| && kept == w[..pa] + w[pb..] && frag == w[pa..pb] && pos == pa
    requires r == kept[..pos] + frag + kept[pos..]
    ensures r == w
  {
    assert kept[..pos] == w[..pa];
    assert kept[pos..] == w[pb..];
    assert w == w[..pa] + w[pa..pb] + w[pb..];
  }

  /** Marking leaves the page's text unchanged. */
  lemma MarkPreservesText(cs: seq<Node>, a: Key, b: Key, color: string)
    requires ValidKeySeq(cs, a) && ValidKeySeq(cs, b) && KeyLe(a, b)
    ensures FlatSeq(ExtractAndInsert(cs, a, b, color)) == FlatSeq(cs)
  {
    var e := ExtractSeq(cs, a, b);
    var span := Elem(Marker(color), e.fragment);
    ExtractText(cs, a, b);
    InsertText(e.rest, e.at, span);
    Rejoin(FlatSeq(cs), TextPosSeq(cs, a), TextPosSeq(cs, b), FlatSeq(e.rest), Flat(span),
      TextPosSeq(e.rest, e.at), FlatSeq(ExtractAndInsert(cs, a, b, color)));
  }

  /** After marking, the node at `MarkerPath` is a highlight marker of the chosen colour
    * whose text is exactly the text the range covered. */
  lemma MarkWrapsRange(cs: seq<Node>, a: Key, b: Key, color: string)
    requires ValidKeySeq(cs, a) && ValidKeySeq(cs, b) && KeyLe(a, b)
    ensures var r, p := ExtractAndInsert(cs, a, b, color), MarkerPath(cs, a, b);
      && |p| >= 1
      && NodeAtSeq(r, p).Some?
      && NodeAtSeq(r, p).value.Elem?
      && NodeAtSeq(r, p).value.kind == Marker(color)
      && 0 <= TextPosSeq(cs, a) <= TextPosSeq(cs, b) <= |FlatSeq(cs)|
      && Flat(NodeAtSeq(r, p).value) == FlatSeq(cs)[TextPosSeq(cs, a)..TextPosSeq(cs, b)]
  {
    var e := ExtractSeq(cs, a, b);
    ExtractText(cs, a, b);
    InsertedPathFinds(e.rest, e.at, Elem(Marker(color), e.fragment));
  }

  /** Marking adds one marker, plus one more for each partially selected marker, which
    * is split in two; on a page without markers it leaves exactly one. */
  lemma MarkCount(cs: seq<Node>, a: Key, b: Key, color: string)
    requires ValidKeySeq(cs, a) && ValidKeySeq(cs, b) && KeyLe(a, b)
    ensures MarkerCountSeq(cs) + 1 <= MarkerCountSeq(ExtractAndInsert(cs, a, b, color)) <= 2 * MarkerCountSeq(cs) + 1
  {
    var e := ExtractSeq(cs, a, b);
    ExtractCount(cs, a, b);
    InsertCount(e.rest, e.at, Elem(Marker(color), e.fragment));
  }
}
