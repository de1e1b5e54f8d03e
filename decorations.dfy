/**
 * The live-editor decoration builder (`HttViewPlugin`): for every visible range it scans
 * the range's text and adds, in document order, either a mask widget and a replace per
 * span (hidden mode) or three marks per span (revealed mode).
 */
module Decorations {
  import opened Wrappers
  import opened JsText
  import opened Scanner

  /** A visible range of the editor, in absolute document offsets. */
  datatype Range = Range(from: nat, to: nat)

  /** What a decoration does: a widget showing the masked text, a replace that hides the
      text it covers, or a mark that styles it with a class. */
  datatype Kind = Widget(text: JsString) | Replace | Mark(className: string)

  datatype Deco = Deco(from: nat, to: nat, kind: Kind)

  const MarkerClass: string := "cm-htt-marker"
  const InnerClass: string := "cm-htt-inner"

  /** The part of the editor view the builder reads: the document and the visible ranges. */
  datatype ViewState = ViewState(doc: JsString, visibleRanges: seq<Range>) {
    /** What the editor guarantees: every visible range lies inside the document, and the
        ranges ascend without overlapping. */
    predicate Valid() {
      && (forall i :: 0 <= i < |visibleRanges| ==> visibleRanges[i].from <= visibleRanges[i].to <= |doc|)
      && (forall i :: 0 < i < |visibleRanges| ==> visibleRanges[i - 1].to <= visibleRanges[i].from)
    }
  }

  /** What an update tells the plugin: whether the document or the viewport (which covers
      the visible ranges) changed, and the view's state afterwards. */
  datatype ViewUpdate = ViewUpdate(docChanged: bool, viewportChanged: bool, state: ViewState) {
    /** What is not reported as changed did not change. */
    predicate Follows(prev: ViewState) {
      && (!docChanged ==> state.doc == prev.doc)
      && (!viewportChanged ==> state.visibleRanges == prev.visibleRanges)
    }
  }

  /** The position of a decoration among those that start at the same offset. A widget with
      `side: -1` comes before the replace and mark decorations, which share one position. */
  function StartSide(k: Kind): int {
    if k.Widget? then -1 else 1
  }

  /** The order `RangeSetBuilder.add` insists on: by start offset, and at the same offset by
      start side. */
  predicate CanAdd(added: seq<Deco>, d: Deco) {
    added == [] ||
    var last := added[|added| - 1];
    last.from < d.from || (last.from == d.from && StartSide(last.kind) <= StartSide(d.kind))
  }

  /** The decorations of one scanned match, relative offsets shifted by the range start. */
  function MatchDecos(base: nat, m: Match, hidden: bool): seq<Deco>
    requires m.start + 4 < m.end
  {
    var mFrom := base + m.start;
    var mTo := base + m.end;
    if hidden then
      [Deco(mFrom, mFrom, Widget(Mask(m.inner))), Deco(mFrom, mTo, Replace)]
    else
      [Deco(mFrom, mFrom + 2, Mark(MarkerClass)), Deco(mFrom + 2, mTo - 2, Mark(InnerClass)),
       Deco(mTo - 2, mTo, Mark(MarkerClass))]
  }

  /** Every match is at least as long as its two delimiters and a character. */
  predicate LongEnough(ms: seq<Match>) {
    forall k :: 0 <= k < |ms| ==> ms[k].start + 4 < ms[k].end
  }

  /** The decorations of the matches of one visible range, in order. */
  function RangeDecos(base: nat, ms: seq<Match>, hidden: bool): seq<Deco>
    requires LongEnough(ms)
    decreases |ms|
  {
    if ms == [] then [] else MatchDecos(base, ms[0], hidden) + RangeDecos(base, ms[1..], hidden)
  }

  /** The text of a visible range: `doc.sliceString(from, to)`. */
  function Slice(v: ViewState, i: nat): JsString
    requires v.Valid() && i < |v.visibleRanges|
  {
    v.doc[v.visibleRanges[i].from .. v.visibleRanges[i].to]
  }

  /** The decorations of the visible ranges from the i-th on. */
  function DecosFrom(v: ViewState, i: nat, hidden: bool): seq<Deco>
    requires v.Valid() && i <= |v.visibleRanges|
    decreases |v.visibleRanges| - i
  {
    if i == |v.visibleRanges| then []
    else RangeDecos(v.visibleRanges[i].from, Scan(Slice(v, i)), hidden) + DecosFrom(v, i + 1, hidden)
  }

  /** The decorations `buildDecos(hidden)` returns for a view. */
  function Decorations(v: ViewState, hidden: bool): seq<Deco>
    requires v.Valid()
  {
    DecosFrom(v, 0, hidden)
  }

  /** Each decoration ends at or before the next one starts, and none ends before it starts. */
  predicate Sorted(ds: seq<Deco>) {
    && (forall k :: 0 <= k < |ds| ==> ds[k].from <= ds[k].to)
    && (forall k :: 0 < k < |ds| ==> ds[k - 1].to <= ds[k].from)
  }

  /** Every decoration lies inside [lo, hi]. */
  predicate Within(ds: seq<Deco>, lo: int, hi: int) {
    forall k :: 0 <= k < |ds| ==> lo <= ds[k].from && ds[k].to <= hi
  }

  /** Only widgets are zero-width: every replace and every mark covers some text. */
  predicate OnlyWidgetsEmpty(ds: seq<Deco>) {
    forall k :: 0 <= k < |ds| && ds[k].from == ds[k].to ==> ds[k].kind.Widget?
  }

  /** The decorations can be added one by one to a `RangeSetBuilder`. */
  predicate AddOrder(ds: seq<Deco>) {
    forall k :: 0 < k < |ds| ==> CanAdd(ds[..k], ds[k])
  }

  /** Matches one after the other, none overlapping the next, all inside [lo, hi]. */
  predicate Spaced(ms: seq<Match>, lo: int, hi: int) {
    && LongEnough(ms)
    && (forall k :: 0 <= k < |ms| ==> lo <= ms[k].start && ms[k].end <= hi)
    && (forall k :: 0 < k < |ms| ==> ms[k - 1].end <= ms[k].start)
  }

  /** The matches of a scanned range are spaced inside the range's text. */
  lemma ScanSpaced(t: JsString)
    ensures Spaced(Scan(t), 0, |t|)
  {
  }

  /** Hidden mode: the 2k-th decoration is the zero-width widget carrying the mask of the
      k-th match's inner part, at the match's start, and the next one is the replace over the
      whole match, delimiters included. Nothing else is emitted. */
  lemma {:induction false} HiddenLayout(base: nat, ms: seq<Match>)
    requires LongEnough(ms)
    ensures |RangeDecos(base, ms, true)| == 2 * |ms|
    ensures forall k :: 0 <= k < |ms| ==>
              && RangeDecos(base, ms, true)[2 * k] == Deco(base + ms[k].start, base + ms[k].start, Widget(Mask(ms[k].inner)))
              && RangeDecos(base, ms, true)[2 * k + 1] == Deco(base + ms[k].start, base + ms[k].end, Replace)
    decreases |ms|
  {
    if ms != [] {
      HiddenLayout(base, ms[1..]);
      var head, rest := MatchDecos(base, ms[0], true), RangeDecos(base, ms[1..], true);
      forall k | 0 < k < |ms|
        ensures (head + rest)[2 * k] == rest[2 * (k - 1)] && (head + rest)[2 * k + 1] == rest[2 * (k - 1) + 1]
      {
      }
    }
  }

  /** Revealed mode: every match gets three marks in a row, the leading delimiter
      [mFrom, mFrom + 2), the inner part [mFrom + 2, mTo - 2) and the trailing delimiter
      [mTo - 2, mTo), each with its class. Nothing else is emitted. */
  lemma {:induction false} RevealedLayout(base: nat, ms: seq<Match>)
    requires LongEnough(ms)
    ensures |RangeDecos(base, ms, false)| == 3 * |ms|
    ensures forall k :: 0 <= k < |ms| ==>
              && RangeDecos(base, ms, false)[3 * k] == Deco(base + ms[k].start, base + ms[k].start + 2, Mark(MarkerClass))
              && RangeDecos(base, ms, false)[3 * k + 1] == Deco(base + ms[k].start + 2, base + ms[k].end - 2, Mark(InnerClass))
              && RangeDecos(base, ms, false)[3 * k + 2] == Deco(base + ms[k].end - 2, base + ms[k].end, Mark(MarkerClass))
    decreases |ms|
  {
    if ms != [] {
      RevealedLayout(base, ms[1..]);
      var head, rest := MatchDecos(base, ms[0], false), RangeDecos(base, ms[1..], false);
      forall k | 0 < k < |ms|
        ensures && (head + rest)[3 * k] == rest[3 * (k - 1)]
                && (head + rest)[3 * k + 1] == rest[3 * (k - 1) + 1]
                && (head + rest)[3 * k + 2] == rest[3 * (k - 1) + 2]
      {
      }
    }
  }

  /** Two sorted runs, the first inside [lo, mid] and the second inside [mid, hi], make one
      sorted run inside [lo, hi]. */
  lemma SortedAppend(a: seq<Deco>, b: seq<Deco>, lo: int, mid: int, hi: int)
    requires Sorted(a) && Within(a, lo, mid) && OnlyWidgetsEmpty(a)
    requires Sorted(b) && Within(b, mid, hi) && OnlyWidgetsEmpty(b)
    requires lo <= mid <= hi
    ensures Sorted(a + b) && Within(a + b, lo, hi) && OnlyWidgetsEmpty(a + b)
  {
    var c := a + b;
    forall k | 0 <= k < |c|
      ensures c[k].from <= c[k].to && lo <= c[k].from && c[k].to <= hi
      ensures c[k].from == c[k].to ==> c[k].kind.Widget?
    {
      if k >= |a| { assert c[k] == b[k - |a|]; }
    }
    forall k | 0 < k < |c|
      ensures c[k - 1].to <= c[k].from
    {
      if k > |a| { assert c[k - 1] == b[k - 1 - |a|] && c[k] == b[k - |a|]; }
      else if k == |a| { assert c[k] == b[0]; }
    }
  }

  /** The decorations of spaced matches are sorted, lie inside the matches' bounds, and none
      but the widgets is empty. */
  lemma {:induction false} RangeDecosSorted(base: nat, ms: seq<Match>, hidden: bool, lo: int, hi: int)
    requires Spaced(ms, lo, hi) && 0 <= lo <= hi
    ensures Sorted(RangeDecos(base, ms, hidden))
    ensures Within(RangeDecos(base, ms, hidden), base + lo, base + hi)
    ensures OnlyWidgetsEmpty(RangeDecos(base, ms, hidden))
    decreases |ms|
  {
    if ms != [] {
      var m := ms[0];
      assert Spaced(ms[1..], m.end, hi) by {
        forall k | 0 <= k < |ms[1..]|
          ensures m.end <= ms[1..][k].start
        {
          SpacedOrdered(ms, lo, hi, 0, k + 1);
        }
      }
      RangeDecosSorted(base, ms[1..], hidden, m.end, hi);
      SortedAppend(MatchDecos(base, m, hidden), RangeDecos(base, ms[1..], hidden), base + lo, base + m.end, base + hi);
    }
  }

  /** In spaced matches a later match starts after an earlier one ends. */
  lemma {:induction false} SpacedOrdered(ms: seq<Match>, lo: int, hi: int, i: nat, j: nat)
    requires Spaced(ms, lo, hi)
    requires i < j < |ms|
    ensures ms[i].end <= ms[j].start
    decreases j
  {
    if j > i + 1 {
      SpacedOrdered(ms, lo, hi, i, j - 1);
    }
  }

  /** The decorations of the ranges from the i-th on are sorted and lie between the start of
      the i-th range and the end of the document. */
  lemma {:induction false} DecosFromSorted(v: ViewState, i: nat, hidden: bool)
    requires v.Valid() && i <= |v.visibleRanges|
    ensures Sorted(DecosFrom(v, i, hidden)) && OnlyWidgetsEmpty(DecosFrom(v, i, hidden))
    ensures Within(DecosFrom(v, i, hidden), if i < |v.visibleRanges| then v.visibleRanges[i].from else 0, |v.doc|)
    decreases |v.visibleRanges| - i
  {
    if i < |v.visibleRanges| {
      DecosFromSorted(v, i + 1, hidden);
      SortedStep(v, i, hidden);
    }
  }

  /** One visible range's decorations put before those of the later ranges. */
  lemma SortedStep(v: ViewState, i: nat, hidden: bool)
    requires v.Valid() && i < |v.visibleRanges|
    requires Sorted(DecosFrom(v, i + 1, hidden)) && OnlyWidgetsEmpty(DecosFrom(v, i + 1, hidden))
    requires Within(DecosFrom(v, i + 1, hidden),
                    if i + 1 < |v.visibleRanges| then v.visibleRanges[i + 1].from else 0, |v.doc|)
    ensures Sorted(DecosFrom(v, i, hidden)) && OnlyWidgetsEmpty(DecosFrom(v, i, hidden))
    ensures Within(DecosFrom(v, i, hidden), if i < |v.visibleRanges| then v.visibleRanges[i].from else 0, |v.doc|)
  {
    var r := v.visibleRanges[i];
    var here := RangeDecos(r.from, Scan(Slice(v, i)), hidden);
    var rest := DecosFrom(v, i + 1, hidden);
    assert DecosFrom(v, i, hidden) == here + rest;
    RestWithin(v, i, hidden);
    ScanSpaced(Slice(v, i));
    RangeDecosSorted(r.from, Scan(Slice(v, i)), hidden, 0, r.to - r.from);
    SortedAppend(here, rest, r.from, r.to, |v.doc|);
  }

  /** The decorations of the ranges after the i-th lie after the i-th range's end. */
  lemma RestWithin(v: ViewState, i: nat, hidden: bool)
    requires v.Valid() && i < |v.visibleRanges|
    requires Within(DecosFrom(v, i + 1, hidden),
                    if i + 1 < |v.visibleRanges| then v.visibleRanges[i + 1].from else 0, |v.doc|)
    ensures Within(DecosFrom(v, i + 1, hidden), v.visibleRanges[i].to, |v.doc|)
  {
    if i + 1 < |v.visibleRanges| {
      assert v.visibleRanges[i].to <= v.visibleRanges[i + 1].from;
      WithinWider(DecosFrom(v, i + 1, hidden), v.visibleRanges[i + 1].from, v.visibleRanges[i].to, |v.doc|);
    } else {
      assert DecosFrom(v, i + 1, hidden) == [];
    }
  }

  lemma WithinWider(ds: seq<Deco>, lo: int, lo': int, hi: int)
    requires Within(ds, lo, hi) && lo' <= lo
    ensures Within(ds, lo', hi)
  {
  }

  /** Every decoration of a visible range lies inside that range: a span that crosses the
      range's boundary is never decorated there. */
  lemma InsideRange(v: ViewState, i: nat, hidden: bool)
    requires v.Valid() && i < |v.visibleRanges|
    ensures Within(RangeDecos(v.visibleRanges[i].from, Scan(Slice(v, i)), hidden),
                   v.visibleRanges[i].from, v.visibleRanges[i].to)
  {
    var r := v.visibleRanges[i];
    ScanSpaced(Slice(v, i));
    RangeDecosSorted(r.from, Scan(Slice(v, i)), hidden, 0, r.to - r.from);
  }

  /** Sorted decorations in which only widgets are empty satisfy the builder's order. */
  lemma SortedAddOrder(ds: seq<Deco>)
    requires Sorted(ds) && OnlyWidgetsEmpty(ds)
    ensures AddOrder(ds)
  {
    forall k | 0 < k < |ds|
      ensures CanAdd(ds[..k], ds[k])
    {
      assert ds[..k][k - 1] == ds[k - 1];
    }
  }

  /** The decorations of a view never overlap, start offsets never decrease, and the builder
      accepts them in the order they are produced. */
  lemma DecorationsOrdered(v: ViewState, hidden: bool)
    requires v.Valid()
    ensures Sorted(Decorations(v, hidden)) && AddOrder(Decorations(v, hidden))
    ensures Within(Decorations(v, hidden), 0, |v.doc|)
  {
    DecosFromSorted(v, 0, hidden);
    SortedAddOrder(Decorations(v, hidden));
  }

  /** In revealed mode every mark covers some text, so start offsets strictly ascend. */
  lemma {:induction false} RevealedStrict(v: ViewState)
    requires v.Valid()
    ensures forall k :: 0 <= k < |Decorations(v, false)| ==> Decorations(v, false)[k].from < Decorations(v, false)[k].to
    ensures forall k :: 0 < k < |Decorations(v, false)| ==> Decorations(v, false)[k - 1].from < Decorations(v, false)[k].from
  {
    DecosFromSorted(v, 0, false);
    NoWidgets(v, 0);
  }

  /** All marks: no decoration of the list is a widget or a replace. */
  predicate AllMarks(ds: seq<Deco>) {
    forall k :: 0 <= k < |ds| ==> ds[k].kind.Mark?
  }

  lemma AllMarksAppend(a: seq<Deco>, b: seq<Deco>)
    requires AllMarks(a) && AllMarks(b)
    ensures AllMarks(a + b)
  {
    forall k | 0 <= k < |a + b|
      ensures (a + b)[k].kind.Mark?
    {
      if k >= |a| { assert (a + b)[k] == b[k - |a|]; }
    }
  }

  lemma {:induction false} RangeMarks(base: nat, ms: seq<Match>)
    requires LongEnough(ms)
    ensures AllMarks(RangeDecos(base, ms, false))
    decreases |ms|
  {
    if ms != [] {
      RangeMarks(base, ms[1..]);
      AllMarksAppend(MatchDecos(base, ms[0], false), RangeDecos(base, ms[1..], false));
    }
  }

  /** Revealed mode emits marks only. */
  lemma {:induction false} NoWidgets(v: ViewState, i: nat)
    requires v.Valid() && i <= |v.visibleRanges|
    ensures AllMarks(DecosFrom(v, i, false))
    decreases |v.visibleRanges| - i
  {
    if i < |v.visibleRanges| {
      var here := RangeDecos(v.visibleRanges[i].from, Scan(Slice(v, i)), false);
      var rest := DecosFrom(v, i + 1, false);
      assert DecosFrom(v, i, false) == here + rest;
      NoWidgets(v, i + 1);
      RangeMarks(v.visibleRanges[i].from, Scan(Slice(v, i)));
      AllMarksAppend(here, rest);
    }
  }

  /** A document that is just `&&secret&&`, all of it visible. */
  const SecretDoc: JsString := [0x26, 0x26, 0x73, 0x65, 0x63, 0x72, 0x65, 0x74, 0x26, 0x26]

  const SecretInner: JsString := [0x73, 0x65, 0x63, 0x72, 0x65, 0x74]

  lemma SecretScan()
    ensures Scan(SecretDoc) == [Match(0, 10, SecretInner)]
  {
    var t := SecretDoc;
    assert DelimAt(t, 8) && NextDelim(t, 8) == Some(8);
    assert !DelimAt(t, 7) && NextDelim(t, 7) == Some(8);
    assert !DelimAt(t, 6) && NextDelim(t, 6) == Some(8);
    assert !DelimAt(t, 5) && NextDelim(t, 5) == Some(8);
    assert !DelimAt(t, 4) && NextDelim(t, 4) == Some(8);
    assert !DelimAt(t, 3) && NextDelim(t, 3) == Some(8);
    assert DelimAt(t, 0) && t[2 .. 8] == SecretInner;
    assert FirstMatch(t, 0) == Some(Match(0, 10, SecretInner));
    assert FirstMatch(t, 10) == None;
  }

  lemma SecretMask()
    ensures Mask(SecretInner) == [Block, Block, Block, Block, Block, Block]
  {
    MaskKeepsLayout(SecretInner);
  }

  /** Hidden mode shows six blocks in a widget at offset 0 and hides all ten characters;
      revealed mode dims both delimiters and highlights the six inner characters. */
  lemma SecretExample()
    ensures Decorations(ViewState(SecretDoc, [Range(0, 10)]), true)
         == [Deco(0, 0, Widget([Block, Block, Block, Block, Block, Block])), Deco(0, 10, Replace)]
    ensures Decorations(ViewState(SecretDoc, [Range(0, 10)]), false)
         == [Deco(0, 2, Mark(MarkerClass)), Deco(2, 8, Mark(InnerClass)), Deco(8, 10, Mark(MarkerClass))]
  {
    SecretDecos(true);
    SecretDecos(false);
    SecretMask();
  }

  /** The whole-document view of `&&secret&&` gets the decorations of its one match. */
  lemma SecretDecos(hidden: bool)
    ensures Decorations(ViewState(SecretDoc, [Range(0, 10)]), hidden) == MatchDecos(0, Match(0, 10, SecretInner), hidden)
  {
    var v := ViewState(SecretDoc, [Range(0, 10)]);
    assert Slice(v, 0) == SecretDoc;
    SecretScan();
    var ms := [Match(0, 10, SecretInner)];
    assert ms[1..] == [];
    assert DecosFrom(v, 1, hidden) == [];
    assert RangeDecos(0, ms, hidden) == MatchDecos(0, ms[0], hidden) + RangeDecos(0, [], hidden);
  }

  /** One turn of `buildDecos`'s loop over the visible ranges: once the i-th range's
      decorations are added, what is left to add is the decorations of the later ranges. */
  lemma BuildStep(v: ViewState, i: nat, hidden: bool, before: seq<Deco>, after: seq<Deco>)
    requires v.Valid() && i < |v.visibleRanges|
    requires before + DecosFrom(v, i, hidden) == Decorations(v, hidden)
    requires after == before + RangeDecos(v.visibleRanges[i].from, Scan(Slice(v, i)), hidden)
    ensures after + DecosFrom(v, i + 1, hidden) == Decorations(v, hidden)
  {
    var here := RangeDecos(v.visibleRanges[i].from, Scan(Slice(v, i)), hidden);
    var rest := DecosFrom(v, i + 1, hidden);
    assert DecosFrom(v, i, hidden) == here + rest;
    AppendAssoc(before, here, rest);
  }

  // A plain sequence identity, stated once so that the loop proofs can use it on opaque
  // terms; it says nothing about the model and keeps the solver's work small.
  lemma AppendAssoc(a: seq<Deco>, b: seq<Deco>, c: seq<Deco>)
    ensures (a + b) + c == a + (b + c)
  {
  }

  /** Where the last decoration added starts, or -1 when none was. */
  function LastFrom(added: seq<Deco>): int {
    if added == [] then -1 else added[|added| - 1].from
  }

  /** CodeMirror's `RangeSetBuilder`, reduced to the rule it enforces: decorations are added
      in order of start offset and start side. */
  class RangeSetBuilder {
    var added: seq<Deco>

    constructor ()
      ensures added == []
    {
      added := [];
    }

    method Add(d: Deco)
      requires CanAdd(added, d)
      modifies this
      ensures added == old(added) + [d]
    {
      added := added + [d];
    }
  }

  /** The decorations of the matches from `last` on are those of the first of them followed
      by those of the rest. */
  lemma ScanStep(base: nat, t: JsString, last: nat, hidden: bool)
    requires last <= |t| && FirstMatch(t, last).Some?
    ensures var m := FirstMatch(t, last).value;
            m.start + 4 < m.end && m.end <= |t| &&
            RangeDecos(base, ScanFrom(t, last), hidden)
            == MatchDecos(base, m, hidden) + RangeDecos(base, ScanFrom(t, m.end), hidden)
  {
    var ms := ScanFrom(t, last);
    assert ms[1..] == ScanFrom(t, FirstMatch(t, last).value.end);
  }

  /** The editor plugin. It is built for one display mode and shares the extension's regular
      expression; its decorations always reflect the view it was last built or updated for. */
  class HttViewPlugin {
    const hidden: bool
    const regex: GlobalRegex
    var view: ViewState
    var decorations: seq<Deco>

    ghost predicate Valid()
      reads this
    {
      view.Valid() && decorations == Decorations(view, hidden)
    }

    constructor (view: ViewState, hidden: bool, regex: GlobalRegex)
      requires view.Valid()
      modifies regex
      ensures Valid()
      ensures this.view == view && this.hidden == hidden && this.regex == regex
    {
      this.view := view;
      this.hidden := hidden;
      this.regex := regex;
      new;
      decorations := BuildDecos(hidden);
    }

    /** Rebuilds the decorations, but only when the document or the viewport changed. */
    method Update(update: ViewUpdate)
      requires Valid() && update.state.Valid() && update.Follows(view)
      modifies this, regex
      ensures Valid() && view == update.state
      ensures !(update.docChanged || update.viewportChanged) ==> decorations == old(decorations)
    {
      view := update.state;
      if update.docChanged || update.viewportChanged {
        decorations := BuildDecos(hidden);
      }
    }

    /** The body of the scan loop of `buildDecos`: the decorations of one match, at absolute
        offsets, added to the builder. */
    static method AddMatch(builder: RangeSetBuilder, from: nat, m: Match, hidden: bool)
      requires m.start + 4 < m.end
      requires LastFrom(builder.added) < from + m.start
      modifies builder
      ensures builder.added == old(builder.added) + MatchDecos(from, m, hidden)
      ensures LastFrom(builder.added) < from + m.end
    {
      var mFrom := from + m.start;
      var mTo := mFrom + (m.end - m.start);
      if hidden {
        var masked := Mask(m.inner);
        builder.Add(Deco(mFrom, mFrom, Widget(masked)));
        builder.Add(Deco(mFrom, mTo, Replace));
      } else {
        builder.Add(Deco(mFrom, mFrom + 2, Mark(MarkerClass)));
        builder.Add(Deco(mFrom + 2, mTo - 2, Mark(InnerClass)));
        builder.Add(Deco(mTo - 2, mTo, Mark(MarkerClass)));
      }
    }

    /** The scan loop of `buildDecos` over one visible range: reset the shared regular
        expression, then add the decorations of every match `exec` finds in the range's text.
        The regular expression is left at `lastIndex` 0. */
    method AddRange(builder: RangeSetBuilder, from: nat, text: JsString, hidden: bool)
      requires LastFrom(builder.added) < from
      modifies builder, regex
      ensures builder.added == old(builder.added) + RangeDecos(from, Scan(text), hidden)
      ensures LastFrom(builder.added) < from + |text|
      ensures regex.lastIndex == 0
    {
      regex.lastIndex := 0;
      ghost var last: nat := 0;
      var found := regex.Exec(text);
      while found.Some?
        invariant last <= |text| && found == FirstMatch(text, last)
        invariant regex.lastIndex == (if found.Some? then found.value.end else 0)
        invariant builder.added + RangeDecos(from, ScanFrom(text, last), hidden)
                  == old(builder.added) + RangeDecos(from, Scan(text), hidden)
        invariant LastFrom(builder.added) < from + last
        decreases |text| - last
      {
        var m := found.value;
        ScanStep(from, text, last, hidden);
        ghost var before := builder.added;
        AddMatch(builder, from, m, hidden);
        AppendAssoc(before, MatchDecos(from, m, hidden), RangeDecos(from, ScanFrom(text, m.end), hidden));
        last := m.end;
        found := regex.Exec(text);
      }
    }

    /** `buildDecos(hidden)`: for each visible range, scan its text with the shared regular
        expression and add each match's decorations to a fresh builder, at absolute offsets.
        Every add meets the builder's order, so none throws. */
    method BuildDecos(hidden: bool) returns (decos: seq<Deco>)
      requires view.Valid()
      modifies regex
      ensures decos == Decorations(view, hidden)
    {
      var v := view;
      var builder := new RangeSetBuilder();
      var ranges := v.visibleRanges;
      for i := 0 to |ranges|
        invariant builder.added + DecosFrom(v, i, hidden) == Decorations(v, hidden)
        invariant i < |ranges| ==> LastFrom(builder.added) < ranges[i].from
        invariant fresh(builder)
      {
        var from, to := ranges[i].from, ranges[i].to;
        var text := v.doc[from .. to];
        assert text == Slice(v, i);
        ghost var before := builder.added;
        AddRange(builder, from, text, hidden);
        BuildStep(v, i, hidden, before, builder.added);
        assert i + 1 < |ranges| ==> to <= ranges[i + 1].from;
      }
      decos := builder.added;
    }
  }
}
