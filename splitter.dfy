/**
 * The segment splitter `replaceRangesInTextNode`: one text becomes the children of a
 * document fragment, plain text between the spans and one masked piece per span, with
 * the delimiters dropped.
 */
module Splitter {
  import opened Wrappers
  import opened JsText
  import opened Scanner

  /** A child of the fragment: a text node, or a masked `span` holding the masked inner text. */
  datatype Segment = Plain(text: JsString) | Masked(text: JsString)

  /** The fragment for t[last..] when ms are the matches still ahead: the non-empty text
      before each match, the masked inner part of the match, and the non-empty tail. */
  function SplitFrom(t: JsString, last: nat, ms: seq<Match>): seq<Segment>
    requires Chain(t, last, ms)
    decreases |ms|
  {
    if ms == [] then
      (if last < |t| then [Plain(t[last..])] else [])
    else
      Gap(t, last, ms[0].start)
      + [Masked(Mask(ms[0].inner))]
      + SplitFrom(t, ms[0].end, ms[1..])
  }

  /** The fragment `replaceRangesInTextNode` builds for a whole text. */
  function Segments(t: JsString): seq<Segment> {
    SplitFrom(t, 0, Scan(t))
  }

  /** The text a fragment shows: its children's texts, one after the other. */
  function Render(segs: seq<Segment>): JsString
    decreases |segs|
  {
    if segs == [] then [] else segs[0].text + Render(segs[1..])
  }

  /** The text t[last..] with every match `&&x&&` of ms replaced by the mask of x. */
  function Redact(t: JsString, last: nat, ms: seq<Match>): JsString
    requires Chain(t, last, ms)
    decreases |ms|
  {
    if ms == [] then t[last..]
    else t[last .. ms[0].start] + Mask(ms[0].inner) + Redact(t, ms[0].end, ms[1..])
  }

  const Delimiter: JsString := [Ampersand, Ampersand]

  /** Puts the spans back: every plain piece is kept and the k-th masked piece is replaced
      by the k-th match as it stood in the text, delimiters and inner part. */
  function Restore(segs: seq<Segment>, ms: seq<Match>): JsString
    decreases |segs|
  {
    if segs == [] then []
    else match segs[0]
      case Plain(s) => s + Restore(segs[1..], ms)
      case Masked(_) =>
        if ms == [] then Restore(segs[1..], ms)
        else Delimiter + ms[0].inner + Delimiter + Restore(segs[1..], ms[1..])
  }

  /** The texts of the masked pieces, in order. */
  function MaskedTexts(segs: seq<Segment>): seq<JsString>
    decreases |segs|
  {
    if segs == [] then []
    else (if segs[0].Masked? then [segs[0].text] else []) + MaskedTexts(segs[1..])
  }

  /** The masks of the inner parts of ms, in order. */
  function InnerMasks(ms: seq<Match>): seq<JsString>
    decreases |ms|
  {
    if ms == [] then [] else [Mask(ms[0].inner)] + InnerMasks(ms[1..])
  }

  lemma RenderAppend(a: seq<Segment>, b: seq<Segment>)
    ensures Render(a + b) == Render(a) + Render(b)
  {
    if a == [] {
      assert a + b == b;
    } else {
      assert (a + b)[0] == a[0] && (a + b)[1..] == a[1..] + b;
      RenderAppend(a[1..], b);
    }
  }

  lemma MaskedTextsAppend(a: seq<Segment>, b: seq<Segment>)
    ensures MaskedTexts(a + b) == MaskedTexts(a) + MaskedTexts(b)
  {
    if a == [] {
      assert a + b == b;
    } else {
      assert (a + b)[0] == a[0] && (a + b)[1..] == a[1..] + b;
      MaskedTextsAppend(a[1..], b);
    }
  }

  /** The piece before a match: the text between the previous end and the match, if any. */
  function Gap(t: JsString, last: nat, start: nat): seq<Segment>
    requires last <= start <= |t|
  {
    if last < start then [Plain(t[last .. start])] else []
  }

  /** One step of the split: the gap, the masked match, and the rest. */
  lemma SplitCons(t: JsString, last: nat, ms: seq<Match>)
    requires Chain(t, last, ms) && ms != []
    ensures SplitFrom(t, last, ms)
         == Gap(t, last, ms[0].start) + [Masked(Mask(ms[0].inner))] + SplitFrom(t, ms[0].end, ms[1..])
  {
  }

  /** The split of what is left of the text after `last`, one `exec` at a time. */
  lemma SplitStep(t: JsString, last: nat)
    requires last <= |t|
    ensures FirstMatch(t, last).None? ==>
              SplitFrom(t, last, ScanFrom(t, last)) == (if last < |t| then [Plain(t[last..])] else [])
    ensures FirstMatch(t, last).Some? ==>
              var m := FirstMatch(t, last).value;
              SplitFrom(t, last, ScanFrom(t, last))
              == Gap(t, last, m.start) + [Masked(Mask(m.inner))] + SplitFrom(t, m.end, ScanFrom(t, m.end))
  {
    var ms := ScanFrom(t, last);
    if FirstMatch(t, last).Some? {
      var m := FirstMatch(t, last).value;
      assert ms == [m] + ScanFrom(t, m.end);
      assert ms[0] == m && ms[1..] == ScanFrom(t, m.end);
      SplitCons(t, last, ms);
    }
  }

  /** A match, read from the text, is the delimiter, the inner part and the delimiter. */
  lemma MatchText(t: JsString, m: Match)
    requires IsMatchAt(t, m)
    ensures t[m.start .. m.end] == Delimiter + m.inner + Delimiter
  {
    assert t[m.start .. m.end] == t[m.start .. m.start + 2] + m.inner + t[m.end - 2 .. m.end];
  }

  /** What the fragment shows is the text with each `&&x&&` replaced by the mask of x. */
  lemma {:induction false} SplitRender(t: JsString, last: nat, ms: seq<Match>)
    requires Chain(t, last, ms)
    ensures Render(SplitFrom(t, last, ms)) == Redact(t, last, ms)
    decreases |ms|
  {
    if ms == [] {
      if last < |t| {
        assert Render([Plain(t[last..])]) == t[last..] + Render([]);
      }
    } else {
      var m := ms[0];
      var gap := Gap(t, last, m.start);
      var rest := SplitFrom(t, m.end, ms[1..]);
      SplitCons(t, last, ms);
      SplitRender(t, m.end, ms[1..]);
      RenderAppend(gap + [Masked(Mask(m.inner))], rest);
      RenderAppend(gap, [Masked(Mask(m.inner))]);
      assert Render([Masked(Mask(m.inner))]) == Mask(m.inner);
      assert Render(gap) == t[last .. m.start];
      assert Redact(t, last, ms) == t[last .. m.start] + Mask(m.inner) + Redact(t, m.end, ms[1..]);
    }
  }

  /** Restoring a list that starts with a plain piece keeps that piece. */
  lemma RestorePlain(x: JsString, rest: seq<Segment>, ms: seq<Match>)
    ensures Restore([Plain(x)] + rest, ms) == x + Restore(rest, ms)
  {
    assert ([Plain(x)] + rest)[1..] == rest;
  }

  /** Restoring a list that starts with a masked piece puts the first match back. */
  lemma RestoreMasked(x: JsString, rest: seq<Segment>, ms: seq<Match>)
    requires ms != []
    ensures Restore([Masked(x)] + rest, ms) == (Delimiter + ms[0].inner + Delimiter) + Restore(rest, ms[1..])
  {
    assert ([Masked(x)] + rest)[1..] == rest;
  }

  /** Splitting and then putting the spans back gives exactly the original text: nothing
      outside the spans is lost, altered or moved. */
  lemma {:induction false} SplitRestore(t: JsString, last: nat, ms: seq<Match>)
    requires Chain(t, last, ms)
    ensures Restore(SplitFrom(t, last, ms), ms) == t[last..]
    decreases |ms|
  {
    if ms == [] {
      if last < |t| {
        RestorePlain(t[last..], [], ms);
      }
    } else {
      var m := ms[0];
      var gap, masked := Gap(t, last, m.start), [Masked(Mask(m.inner))];
      var rest := SplitFrom(t, m.end, ms[1..]);
      SplitCons(t, last, ms);
      SegAssoc(gap, masked, rest);
      SplitRestore(t, m.end, ms[1..]);
      RestoreMasked(Mask(m.inner), rest, ms);
      MatchText(t, m);
      SliceThree(t, last, m.start, m.end);
      if last < m.start {
        RestorePlain(t[last .. m.start], masked + rest, ms);
      } else {
        SegEmpty(gap, masked + rest);
        TextEmpty(t[last .. m.start], t[m.start..]);
      }
    }
  }

  // Plain sequence identities, stated once so that the proofs above can use them on
  // opaque terms; they say nothing about the model and keep the solver's work small.
  lemma SegAssoc(a: seq<Segment>, b: seq<Segment>, c: seq<Segment>)
    ensures a + b + c == a + (b + c)
  {
  }

  lemma SegEmpty(a: seq<Segment>, b: seq<Segment>)
    requires a == []
    ensures a + b == b
  {
  }

  lemma TextEmpty(a: JsString, b: JsString)
    requires a == []
    ensures a + b == b
  {
  }

  lemma SliceThree(t: JsString, a: nat, b: nat, c: nat)
    requires a <= b <= c <= |t|
    ensures t[a..] == t[a .. b] + (t[b .. c] + t[c..])
    ensures t[b..] == t[b .. c] + t[c..]
  {
  }

  /** The masked pieces are, in order, the masks of the matches' inner parts: one per match. */
  lemma {:induction false} SplitMaskedTexts(t: JsString, last: nat, ms: seq<Match>)
    requires Chain(t, last, ms)
    ensures MaskedTexts(SplitFrom(t, last, ms)) == InnerMasks(ms)
    decreases |ms|
  {
    if ms == [] {
      if last < |t| {
        assert MaskedTexts([Plain(t[last..])]) == [] + MaskedTexts([]);
      }
    } else {
      var m := ms[0];
      var gap := Gap(t, last, m.start);
      SplitCons(t, last, ms);
      SplitMaskedTexts(t, m.end, ms[1..]);
      MaskedTextsAppend(gap + [Masked(Mask(m.inner))], SplitFrom(t, m.end, ms[1..]));
      MaskedTextsAppend(gap, [Masked(Mask(m.inner))]);
      assert MaskedTexts([Masked(Mask(m.inner))]) == [Mask(m.inner)] + MaskedTexts([]);
      if last < m.start {
        assert MaskedTexts(gap) == [] + MaskedTexts([]);
      }
    }
  }

  /** A text position of a slice is a text position of the whole text. */
  lemma DelimInSlice(t: JsString, a: nat, b: nat, i: int)
    requires a <= b <= |t|
    requires DelimAt(t[a..b], i)
    ensures DelimAt(t, a + i)
  {
    assert t[a..b][i] == t[a + i] && t[a..b][i + 1] == t[a + i + 1];
  }

  /** A stretch of text where the pattern cannot open, read on its own, holds no match. */
  lemma QuietSlice(t: JsString, a: nat, b: nat)
    requires a <= b <= |t|
    requires forall s :: a <= s < b ==> !Opens(t, s)
    ensures Scan(t[a..b]) == []
  {
    var g := t[a..b];
    NoMatchIff(g);
    forall s, j | DelimAt(g, s) && s + 3 <= j
      ensures !DelimAt(g, j)
    {
      if DelimAt(g, j) {
        DelimInSlice(t, a, b, s);
        DelimInSlice(t, a, b, j);
        assert Opens(t, a + s);
      }
    }
  }

  /** Every plain piece is non-empty and holds no span of its own. */
  ghost predicate PlainQuiet(segs: seq<Segment>) {
    forall k :: 0 <= k < |segs| && segs[k].Plain? ==> segs[k].text != [] && Scan(segs[k].text) == []
  }

  lemma PlainQuietAppend(a: seq<Segment>, b: seq<Segment>)
    requires PlainQuiet(a) && PlainQuiet(b)
    ensures PlainQuiet(a + b)
  {
    forall k | 0 <= k < |a + b| && (a + b)[k].Plain?
      ensures (a + b)[k].text != [] && Scan((a + b)[k].text) == []
    {
      if k >= |a| { assert (a + b)[k] == b[k - |a|]; }
    }
  }

  /** The plain pieces are exactly the stretches between the matches and after the last
      one: none is empty and none holds a span. */
  lemma {:induction false} PlainPiecesQuiet(t: JsString, last: nat)
    requires last <= |t|
    ensures PlainQuiet(SplitFrom(t, last, ScanFrom(t, last)))
    decreases |t| - last
  {
    SplitStep(t, last);
    match FirstMatch(t, last)
    case None =>
      if last < |t| {
        QuietSlice(t, last, |t|);
        assert t[last .. |t|] == t[last..];
      }
    case Some(m) =>
      PlainPiecesQuiet(t, m.end);
      var gap := Gap(t, last, m.start);
      if last < m.start {
        QuietSlice(t, last, m.start);
      }
      assert PlainQuiet(gap);
      PlainQuietAppend(gap, [Masked(Mask(m.inner))]);
      PlainQuietAppend(gap + [Masked(Mask(m.inner))], SplitFrom(t, m.end, ScanFrom(t, m.end)));
  }

  /** Every piece is shorter than n; a masked piece by at least the four delimiter characters. */
  ghost predicate PiecesWithin(segs: seq<Segment>, n: nat) {
    forall k :: 0 <= k < |segs| ==> |segs[k].text| + (if segs[k].Masked? then 4 else 0) <= n
  }

  /** No piece is longer than the text it comes from, and a masked one is at least the four
      delimiter characters shorter. */
  lemma {:induction false} PiecesShorter(t: JsString, last: nat, ms: seq<Match>)
    requires Chain(t, last, ms)
    ensures PiecesWithin(SplitFrom(t, last, ms), |t|)
    decreases |ms|
  {
    if ms != [] {
      var m := ms[0];
      var gap := Gap(t, last, m.start);
      var rest := SplitFrom(t, m.end, ms[1..]);
      SplitCons(t, last, ms);
      PiecesShorter(t, m.end, ms[1..]);
      var segs := gap + [Masked(Mask(m.inner))] + rest;
      forall k | 0 <= k < |segs|
        ensures |segs[k].text| + (if segs[k].Masked? then 4 else 0) <= |t|
      {
        if k >= |gap| + 1 { assert segs[k] == rest[k - |gap| - 1]; }
      }
    }
  }

  /** A text with a span splits into a fragment that holds a masked piece. */
  lemma SplitHasMasked(t: JsString, last: nat, ms: seq<Match>)
    requires Chain(t, last, ms)
    requires ms != []
    ensures exists k :: 0 <= k < |SplitFrom(t, last, ms)| && SplitFrom(t, last, ms)[k].Masked?
  {
    SplitCons(t, last, ms);
    var gap := Gap(t, last, ms[0].start);
    assert SplitFrom(t, last, ms)[|gap|].Masked?;
  }

  /** The loop of `replaceRangesInTextNode` after one more match: the fragment built so far
      and the split of what is left still make up the whole fragment. */
  lemma SplitAdvance(t: JsString, last: nat, frag: seq<Segment>, frag': seq<Segment>)
    requires last <= |t| && FirstMatch(t, last).Some?
    requires frag + SplitFrom(t, last, ScanFrom(t, last)) == Segments(t)
    requires frag' == frag + Gap(t, last, FirstMatch(t, last).value.start)
                           + [Masked(Mask(FirstMatch(t, last).value.inner))]
    ensures frag' + SplitFrom(t, FirstMatch(t, last).value.end, ScanFrom(t, FirstMatch(t, last).value.end))
         == Segments(t)
  {
    SplitStep(t, last);
    var m := FirstMatch(t, last).value;
    SegAssoc4(frag, Gap(t, last, m.start), [Masked(Mask(m.inner))], SplitFrom(t, m.end, ScanFrom(t, m.end)));
  }

  // A sequence identity used only to keep the solver's work small (see `SegAssoc`).
  lemma SegAssoc4(a: seq<Segment>, b: seq<Segment>, c: seq<Segment>, d: seq<Segment>)
    ensures a + b + c + d == a + (b + c + d)
  {
  }

  /** The loop of `replaceRangesInTextNode` once `exec` finds nothing more: the tail completes
      the fragment. */
  lemma SplitFinish(t: JsString, last: nat, frag: seq<Segment>)
    requires last <= |t| && FirstMatch(t, last).None?
    requires frag + SplitFrom(t, last, ScanFrom(t, last)) == Segments(t)
    ensures (if last < |t| then frag + [Plain(t[last..])] else frag) == Segments(t)
  {
    SplitStep(t, last);
  }

  /** `a&&b&&c` becomes the text `a`, a span holding one block, and the text `c`. */
  lemma SplitExample()
    ensures Segments([0x61, 0x26, 0x26, 0x62, 0x26, 0x26, 0x63]) == [Plain([0x61]), Masked([Block]), Plain([0x63])]
  {
    var t: JsString := [0x61, 0x26, 0x26, 0x62, 0x26, 0x26, 0x63];
    assert !DelimAt(t, 0) && DelimAt(t, 1) && NextDelim(t, 4) == Some(4) && t[3 .. 4] == [0x62];
    assert FirstMatch(t, 1) == Some(Match(1, 6, [0x62]));
    assert FirstMatch(t, 0) == FirstMatch(t, 1);
    assert FirstMatch(t, 6) == None;
    assert Scan(t) == [Match(1, 6, [0x62])];
    assert Mask([0x62]) == [Block];
    assert t[0 .. 1] == [0x61] && t[6..] == [0x63];
  }

  /** The body of the `exec` loop of `replaceRangesInTextNode`: the text before the match,
      when there is any, then the span holding the masked inner part. */
  method AppendMatch(frag: seq<Segment>, text: JsString, lastIndex: nat, m: Match) returns (frag': seq<Segment>)
    requires lastIndex <= m.start <= |text|
    ensures frag' == frag + Gap(text, lastIndex, m.start) + [Masked(Mask(m.inner))]
  {
    frag' := frag;
    var before := text[lastIndex .. m.start];
    if before != [] {
      frag' := frag' + [Plain(before)];
    }
    frag' := frag' + [Masked(Mask(m.inner))];
  }

  /**
   * `replaceRangesInTextNode(node, regex, maskPreservingSpaces)` without the node: the
   * children of the fragment it puts in the node's place. It drives `regex` through its
   * `exec` loop and leaves `lastIndex` at 0, as the failing last `exec` does.
   */
  method SplitText(text: JsString, regex: GlobalRegex) returns (frag: seq<Segment>)
    modifies regex
    ensures frag == Segments(text)
    ensures regex.lastIndex == 0
  {
    var lastIndex := 0;
    regex.lastIndex := 0;
    frag := [];
    var found := regex.Exec(text);
    while found.Some?
      invariant lastIndex <= |text|
      invariant found == FirstMatch(text, lastIndex)
      invariant regex.lastIndex == (if found.Some? then found.value.end else 0)
      invariant frag + SplitFrom(text, lastIndex, ScanFrom(text, lastIndex)) == Segments(text)
      decreases |text| - lastIndex
    {
      ghost var done := frag;
      frag := AppendMatch(frag, text, lastIndex, found.value);
      SplitAdvance(text, lastIndex, done, frag);
      lastIndex := found.value.end;
      found := regex.Exec(text);
    }
    SplitFinish(text, lastIndex, frag);
    var after := text[lastIndex..];
    if after != [] {
      frag := frag + [Plain(after)];
    }
  }
}
