/**
 * The span scanner: the global regular expression `/&&([\s\S]+?)&&/g` and the
 * `exec`/`lastIndex` protocol the plugin drives it with.
 */
module Scanner {
  import opened Wrappers
  import opened JsText

  /** One result of `exec`: the matched span [start, end) of the text and capture
      group 1, the inner part between the delimiters. */
  datatype Match = Match(start: nat, end: nat, inner: JsString)

  /** The delimiter `&&` stands at position i of t. */
  predicate DelimAt(t: JsString, i: int) {
    0 <= i && i + 2 <= |t| && t[i] == Ampersand && t[i + 1] == Ampersand
  }

  /** The first delimiter at or after position k: where the lazy `+?` stops. */
  function NextDelim(t: JsString, k: nat): (r: Option<nat>)
    decreases |t| - k
    ensures r.Some? ==> k <= r.value && DelimAt(t, r.value)
    ensures forall j :: k <= j && (r.None? || j < r.value) ==> !DelimAt(t, j)
  {
    if k + 2 > |t| then None
    else if DelimAt(t, k) then Some(k)
    else NextDelim(t, k + 1)
  }

  /** The pattern can match when tried at position s: a delimiter at s and another one
      that leaves at least one character (`+`) between them. */
  ghost predicate Opens(t: JsString, s: int) {
    DelimAt(t, s) && exists j :: s + 3 <= j && DelimAt(t, j)
  }

  /** m is what the pattern matches when tried at m.start: it opens there, the inner part
      is not empty and ends at the earliest delimiter that leaves it non-empty, and group 1
      is the text in between. Newlines and every other code unit may appear inside. */
  ghost predicate IsMatchAt(t: JsString, m: Match) {
    && m.start + 5 <= m.end <= |t|
    && DelimAt(t, m.start)
    && DelimAt(t, m.end - 2)
    && m.inner == t[m.start + 2 .. m.end - 2]
    && forall j :: m.start + 3 <= j < m.end - 2 ==> !DelimAt(t, j)
  }

  /** What `exec` finds when it starts searching at `from`: the leftmost position where
      the pattern matches, and there the shortest match. */
  function FirstMatch(t: JsString, from: nat): (r: Option<Match>)
    decreases |t| - from
    ensures r.Some? ==> from <= r.value.start && IsMatchAt(t, r.value)
    ensures forall s :: from <= s && (r.None? || s < r.value.start) ==> !Opens(t, s)
  {
    if from >= |t| then None
    else if DelimAt(t, from) && NextDelim(t, from + 3).Some? then
      var close := NextDelim(t, from + 3).value;
      Some(Match(from, close + 2, t[from + 2 .. close]))
    else FirstMatch(t, from + 1)
  }

  /** Two matches of the pattern that start at the same place are the same match. */
  lemma MatchAtUnique(t: JsString, a: Match, b: Match)
    requires IsMatchAt(t, a) && IsMatchAt(t, b) && a.start == b.start
    ensures a == b
  {
  }

  /** A match begins where the pattern opens. */
  lemma MatchOpens(t: JsString, m: Match)
    requires IsMatchAt(t, m)
    ensures Opens(t, m.start)
  {
    assert DelimAt(t, m.end - 2);
  }

  /** ms is a chain of matches read left to right from `last` on: each one starts at or
      after the end of the one before, as `exec` resumes at `lastIndex`. */
  ghost predicate Chain(t: JsString, last: nat, ms: seq<Match>)
    decreases |ms|
  {
    last <= |t| &&
    (ms != [] ==> last <= ms[0].start && IsMatchAt(t, ms[0]) && Chain(t, ms[0].end, ms[1..]))
  }

  /** Every position from `from` on where the pattern could open lies inside one of ms. */
  ghost predicate Covers(t: JsString, from: nat, ms: seq<Match>) {
    forall s :: from <= s && Opens(t, s) ==> exists k :: 0 <= k < |ms| && ms[k].start <= s < ms[k].end
  }

  /** The declarative meaning of a global scan from `from`: a left-to-right chain of
      matches that misses no place where the pattern could match. */
  ghost predicate IsScan(t: JsString, from: nat, ms: seq<Match>) {
    Chain(t, from, ms) && Covers(t, from, ms)
  }

  /** All matches `exec` returns when called over and over from `lastIndex = from`. */
  function ScanFrom(t: JsString, from: nat): (ms: seq<Match>)
    requires from <= |t|
    decreases |t| - from
    ensures Chain(t, from, ms)
    ensures forall k :: 0 <= k < |ms| ==> from <= ms[k].start && IsMatchAt(t, ms[k])
    ensures forall k :: 0 < k < |ms| ==> ms[k - 1].end <= ms[k].start
  {
    match FirstMatch(t, from)
    case None => []
    case Some(m) => [m] + ScanFrom(t, m.end)
  }

  /** The matches of a whole text. */
  function Scan(t: JsString): seq<Match> {
    ScanFrom(t, 0)
  }

  /** The scan is a left-to-right chain of matches (its contract) that misses nothing. */
  lemma {:induction false} ScanFromIsScan(t: JsString, from: nat)
    requires from <= |t|
    ensures IsScan(t, from, ScanFrom(t, from))
    decreases |t| - from
  {
    var ms := ScanFrom(t, from);
    match FirstMatch(t, from)
    case None =>
    case Some(m) =>
      ScanFromIsScan(t, m.end);
      CoversCons(t, from, m, ScanFrom(t, m.end));
  }

  /** A match found first from `from`, followed by a chain covering what is after it,
      covers everything from `from` on. */
  lemma CoversCons(t: JsString, from: nat, m: Match, rest: seq<Match>)
    requires FirstMatch(t, from) == Some(m)
    requires Covers(t, m.end, rest)
    ensures Covers(t, from, [m] + rest)
  {
    var ms := [m] + rest;
    forall s | from <= s && Opens(t, s)
      ensures exists k :: 0 <= k < |ms| && ms[k].start <= s < ms[k].end
    {
      if s < m.end {
        assert ms[0].start <= s < ms[0].end;
      } else {
        var k :| 0 <= k < |rest| && rest[k].start <= s < rest[k].end;
        assert ms[k + 1] == rest[k];
      }
    }
  }

  /** A left-to-right chain of matches that misses nothing is the scan: the scan is the
      only such chain, so "earliest start, then shortest match" defines it. */
  lemma {:induction false} IsScanUnique(t: JsString, from: nat, ms: seq<Match>)
    requires from <= |t|
    requires IsScan(t, from, ms)
    ensures ms == ScanFrom(t, from)
    decreases |t| - from
  {
    match FirstMatch(t, from)
    case None =>
      if ms != [] {
        MatchOpens(t, ms[0]);
        assert false;
      }
    case Some(m) =>
      HeadIsFirst(t, from, ms, m);
      CoversTail(t, ms);
      IsScanUnique(t, m.end, ms[1..]);
      assert ms == [m] + ms[1..];
  }

  /** A covering chain begins with what `exec` finds first. */
  lemma HeadIsFirst(t: JsString, from: nat, ms: seq<Match>, m: Match)
    requires IsScan(t, from, ms) && FirstMatch(t, from) == Some(m)
    ensures ms != [] && ms[0] == m
  {
    MatchOpens(t, m);
    var k :| 0 <= k < |ms| && ms[k].start <= m.start < ms[k].end;
    MatchOpens(t, ms[0]);
    assert m.start <= ms[0].start;
    if k > 0 {
      ChainOrdered(t, from, ms, 0, k);
      assert false;
    }
    MatchAtUnique(t, m, ms[0]);
  }

  /** What a covering chain leaves after its first match is covered by the rest of it. */
  lemma CoversTail(t: JsString, ms: seq<Match>)
    requires ms != [] && Chain(t, ms[0].start, ms)
    requires Covers(t, ms[0].start, ms)
    ensures Covers(t, ms[0].end, ms[1..])
  {
    var rest := ms[1..];
    forall s | ms[0].end <= s && Opens(t, s)
      ensures exists j :: 0 <= j < |rest| && rest[j].start <= s < rest[j].end
    {
      var j :| 0 <= j < |ms| && ms[j].start <= s < ms[j].end;
      assert j != 0;
      assert rest[j - 1] == ms[j];
    }
  }

  /** In a chain a later match lies wholly after an earlier one. */
  lemma {:induction false} ChainOrdered(t: JsString, last: nat, ms: seq<Match>, i: nat, j: nat)
    requires Chain(t, last, ms)
    requires i < j < |ms|
    ensures ms[i].end <= ms[j].start
    decreases j
  {
    if i == 0 {
      if j > 1 {
        ChainOrdered(t, ms[0].end, ms[1..], 0, j - 1);
        ChainStartsAfter(t, ms[0].end, ms[1..], j - 1);
      }
    } else {
      ChainOrdered(t, ms[0].end, ms[1..], i - 1, j - 1);
    }
  }

  /** Every match of a chain starts at or after where the chain starts. */
  lemma {:induction false} ChainStartsAfter(t: JsString, last: nat, ms: seq<Match>, j: nat)
    requires Chain(t, last, ms)
    requires j < |ms|
    ensures last <= ms[j].start && IsMatchAt(t, ms[j])
    decreases j
  {
    if j > 0 {
      ChainStartsAfter(t, ms[0].end, ms[1..], j - 1);
    }
  }

  /** The scan finds nothing exactly when no delimiter is followed, at least one
      character later, by another delimiter: an unterminated `&&` is left alone. */
  lemma NoMatchIff(t: JsString)
    ensures Scan(t) == [] <==> forall s, j :: DelimAt(t, s) && s + 3 <= j ==> !DelimAt(t, j)
  {
    if Scan(t) != [] {
      var m := FirstMatch(t, 0).value;
      assert DelimAt(t, m.start) && DelimAt(t, m.end - 2);
    } else {
      assert FirstMatch(t, 0).None?;
      forall s, j | DelimAt(t, s) && s + 3 <= j
        ensures !DelimAt(t, j)
      {
        assert !Opens(t, s);
      }
    }
  }

  /** `&&a&&&&b&&` holds two spans back to back: the scan resumes right where the first
      one ends. */
  lemma AdjacentSpans()
    ensures Scan([0x26, 0x26, 0x61, 0x26, 0x26, 0x26, 0x26, 0x62, 0x26, 0x26])
         == [Match(0, 5, [0x61]), Match(5, 10, [0x62])]
  {
    var t: JsString := [0x26, 0x26, 0x61, 0x26, 0x26, 0x26, 0x26, 0x62, 0x26, 0x26];
    assert DelimAt(t, 0) && NextDelim(t, 3) == Some(3) && t[2 .. 3] == [0x61];
    assert FirstMatch(t, 0) == Some(Match(0, 5, [0x61]));
    assert DelimAt(t, 5) && NextDelim(t, 8) == Some(8) && t[7 .. 8] == [0x62];
    assert FirstMatch(t, 5) == Some(Match(5, 10, [0x62]));
    assert FirstMatch(t, 10) == None;
  }

  /** In `x&&&&y&&` the span opens at the first `&&`; the closing delimiter must leave a
      character inside, so the `&&` right after the opening one becomes part of the inner
      text `&&y`. */
  lemma LazyClose()
    ensures Scan([0x78, 0x26, 0x26, 0x26, 0x26, 0x79, 0x26, 0x26])
         == [Match(1, 8, [0x26, 0x26, 0x79])]
  {
    var t: JsString := [0x78, 0x26, 0x26, 0x26, 0x26, 0x79, 0x26, 0x26];
    assert !DelimAt(t, 0) && DelimAt(t, 1);
    assert !DelimAt(t, 4) && !DelimAt(t, 5) && DelimAt(t, 6);
    assert NextDelim(t, 4) == Some(6) && t[3 .. 6] == [0x26, 0x26, 0x79];
    assert FirstMatch(t, 1) == Some(Match(1, 8, [0x26, 0x26, 0x79]));
    assert FirstMatch(t, 0) == FirstMatch(t, 1);
    assert FirstMatch(t, 8) == None;
  }

  /** A delimiter with no other one after it is left alone, whatever surrounds it. */
  lemma Unterminated(a: JsString, b: JsString)
    requires forall i :: 0 <= i < |a| ==> a[i] != Ampersand
    requires forall i :: 0 <= i < |b| ==> b[i] != Ampersand
    ensures Scan(a + [Ampersand, Ampersand] + b) == []
  {
    var t := a + [Ampersand, Ampersand] + b;
    forall i | 0 <= i < |t| && i != |a| && i != |a| + 1
      ensures t[i] != Ampersand
    {
      if i < |a| { assert t[i] == a[i]; } else { assert t[i] == b[i - |a| - 2]; }
    }
    NoMatchIff(t);
  }

  /**
   * A JavaScript regular expression object with the global flag. `exec` searches from
   * `lastIndex`, and afterwards `lastIndex` is the end of the match, or 0 when nothing
   * was found (also when `lastIndex` was past the end of the text). `test` is `exec`
   * without the result.
   */
  class GlobalRegex {
    var lastIndex: nat

    constructor ()
      ensures lastIndex == 0
    {
      lastIndex := 0;
    }

    method Exec(t: JsString) returns (m: Option<Match>)
      modifies this
      ensures m == (if old(lastIndex) <= |t| then FirstMatch(t, old(lastIndex)) else None)
      ensures lastIndex == (if m.Some? then m.value.end else 0)
    {
      if lastIndex > |t| {
        m := None;
      } else {
        m := FirstMatch(t, lastIndex);
      }
      lastIndex := if m.Some? then m.value.end else 0;
    }

    method Test(t: JsString) returns (found: bool)
      modifies this
      ensures found == (old(lastIndex) <= |t| && FirstMatch(t, old(lastIndex)).Some?)
      ensures lastIndex == (if found then FirstMatch(t, old(lastIndex)).value.end else 0)
    {
      var m := Exec(t);
      found := m.Some?;
    }
  }
}
