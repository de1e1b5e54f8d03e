/**
 * The rendered-preview tree and what the post-processor's walk (`processElement`) makes
 * of it: text nodes with spans are replaced by fragments, code-like subtrees are skipped.
 */
module Dom {
  import opened JsText
  import opened Scanner
  import opened Splitter

  /** A node of the rendered tree: a text node, an element (tag name as the DOM reports it,
      in upper case, and class name), or any other node (comment, processing instruction). */
  datatype Node =
    | Text(value: JsString)
    | Element(tag: string, className: string, children: seq<Node>)
    | Other

  /** The elements whose subtrees the walk never enters. */
  const IgnoredTags: set<string> := {"CODE", "PRE", "KBD", "SAMP"}

  /** The class of the span that holds a masked inner part. */
  const MaskedClass: string := "htt-masked"

  /** A measure of a tree: text counts by its length, so a piece cut from a text node
      is never bigger than that node. */
  function Size(n: Node): nat
    decreases n
  {
    match n
    case Text(s) => 1 + |s|
    case Element(_, _, ch) => 1 + SizeAll(ch)
    case Other => 1
  }

  function SizeAll(ns: seq<Node>): nat
    decreases ns
  {
    if ns == [] then 0 else Size(ns[0]) + SizeAll(ns[1..])
  }

  /** A child is smaller than the list of children it belongs to. */
  lemma {:induction false} ChildSize(ns: seq<Node>, k: nat)
    requires k < |ns|
    ensures Size(ns[k]) <= SizeAll(ns)
    decreases k
  {
    if k > 0 {
      assert ns[1..][k - 1] == ns[k];
      ChildSize(ns[1..], k - 1);
    }
  }

  /** The node a piece of the fragment becomes: a text node, or `<span class="htt-masked">`
      whose text is the masked inner part. */
  function PieceNode(seg: Segment): Node {
    match seg
    case Plain(s) => Text(s)
    case Masked(s) => Element("SPAN", MaskedClass, [Text(s)])
  }

  /** The nodes of a document fragment built from pieces. */
  function Fragment(segs: seq<Segment>): (ns: seq<Node>)
    decreases |segs|
    ensures |ns| == |segs|
    ensures forall k :: 0 <= k < |segs| ==> ns[k] == PieceNode(segs[k])
  {
    if segs == [] then [] else [PieceNode(segs[0])] + Fragment(segs[1..])
  }

  /** What stands in the place of n once the walk is done with it. A text node is replaced
      by its fragment when the pattern finds a span in it (the `test` the walk starts with),
      an element outside the ignored tags keeps its place and has its children walked, and
      everything else is left as it is. */
  function Process(n: Node): seq<Node>
    decreases n
  {
    match n
    case Text(s) => if Scan(s) == [] then [n] else Fragment(Segments(s))
    case Element(tag, cls, ch) => if tag in IgnoredTags then [n] else [Element(tag, cls, ProcessAll(ch))]
    case Other => [n]
  }

  /** What a list of siblings becomes: each one replaced by what it turns into. */
  function ProcessAll(ns: seq<Node>): seq<Node>
    decreases ns
  {
    if ns == [] then [] else Process(ns[0]) + ProcessAll(ns[1..])
  }

  /** A tree the walk has nothing to do in: no text node outside the ignored subtrees
      holds a span. */
  ghost predicate Quiet(n: Node)
    decreases n
  {
    match n
    case Text(s) => Scan(s) == []
    case Element(tag, _, ch) => tag in IgnoredTags || forall k :: 0 <= k < |ch| ==> Quiet(ch[k])
    case Other => true
  }

  /** The subtrees the walk must not enter, in document order. */
  function Verbatim(n: Node): seq<Node>
    decreases n
  {
    match n
    case Element(tag, _, ch) => if tag in IgnoredTags then [n] else VerbatimAll(ch)
    case _ => []
  }

  function VerbatimAll(ns: seq<Node>): seq<Node>
    decreases ns
  {
    if ns == [] then [] else Verbatim(ns[0]) + VerbatimAll(ns[1..])
  }

  /** The structure of a tree without its text and without the masked span elements
      themselves: the elements and other nodes, nested and ordered as in the tree; what a
      masked span holds is lifted into the span's place. */
  function Skeleton(n: Node): seq<Node>
    decreases n
  {
    match n
    case Text(_) => []
    case Element(tag, cls, ch) =>
      if tag == "SPAN" && cls == MaskedClass then SkeletonAll(ch) else [Element(tag, cls, SkeletonAll(ch))]
    case Other => [n]
  }

  function SkeletonAll(ns: seq<Node>): seq<Node>
    decreases ns
  {
    if ns == [] then [] else Skeleton(ns[0]) + SkeletonAll(ns[1..])
  }

  lemma ProcessAllAppend(a: seq<Node>, b: seq<Node>)
    ensures ProcessAll(a + b) == ProcessAll(a) + ProcessAll(b)
  {
    if a == [] {
      assert a + b == b;
    } else {
      assert (a + b)[0] == a[0] && (a + b)[1..] == a[1..] + b;
      ProcessAllAppend(a[1..], b);
    }
  }

  lemma VerbatimAllAppend(a: seq<Node>, b: seq<Node>)
    ensures VerbatimAll(a + b) == VerbatimAll(a) + VerbatimAll(b)
  {
    if a == [] {
      assert a + b == b;
    } else {
      assert (a + b)[0] == a[0] && (a + b)[1..] == a[1..] + b;
      VerbatimAllAppend(a[1..], b);
    }
  }

  lemma SkeletonAllAppend(a: seq<Node>, b: seq<Node>)
    ensures SkeletonAll(a + b) == SkeletonAll(a) + SkeletonAll(b)
  {
    if a == [] {
      assert a + b == b;
    } else {
      assert (a + b)[0] == a[0] && (a + b)[1..] == a[1..] + b;
      SkeletonAllAppend(a[1..], b);
    }
  }

  /** A text in which no ampersand occurs holds no span; in particular a masked text. */
  lemma NoAmpersandNoMatch(s: JsString)
    requires forall i :: 0 <= i < |s| ==> s[i] != Ampersand
    ensures Scan(s) == []
  {
    NoMatchIff(s);
  }

  /** A fragment holds neither ignored elements nor anything but text and masked spans. */
  lemma {:induction false} FragmentInert(segs: seq<Segment>)
    ensures VerbatimAll(Fragment(segs)) == [] && SkeletonAll(Fragment(segs)) == []
    decreases |segs|
  {
    if segs != [] {
      FragmentInert(segs[1..]);
      var ns := Fragment(segs);
      assert ns[0] == PieceNode(segs[0]) && ns[1..] == Fragment(segs[1..]);
      match segs[0]
      case Plain(_) =>
      case Masked(x) =>
        assert Verbatim(ns[0]) == VerbatimAll([Text(x)]) == [];
        assert Skeleton(ns[0]) == SkeletonAll([Text(x)]) == Skeleton(Text(x)) + SkeletonAll([]) == [];
    }
  }

  /** Every node of the fragment of a text with a span is quiet: its text pieces hold no
      span and its masked spans hold only the block glyph and whitespace. */
  lemma FragmentQuiet(s: JsString)
    ensures forall k :: 0 <= k < |Fragment(Segments(s))| ==> Quiet(Fragment(Segments(s))[k])
  {
    var segs := Segments(s);
    PlainPiecesQuiet(s, 0);
    forall k | 0 <= k < |segs|
      ensures Quiet(PieceNode(segs[k]))
    {
      match segs[k]
      case Plain(_) =>
      case Masked(x) =>
        SplitMaskedTexts(s, 0, Scan(s));
        MaskedIsMask(segs, Scan(s), k);
        var inner :| x == Mask(inner);
        MaskHasNoAmpersand(inner);
        NoAmpersandNoMatch(x);
        var ch := [Text(x)];
        assert forall j :: 0 <= j < |ch| ==> Quiet(ch[j]);
    }
  }

  /** A masked piece of the split holds the mask of some text. */
  lemma {:induction false} MaskedIsMask(segs: seq<Segment>, ms: seq<Match>, k: nat)
    requires MaskedTexts(segs) == InnerMasks(ms)
    requires k < |segs| && segs[k].Masked?
    ensures exists inner :: segs[k].text == Mask(inner)
    decreases |segs|
  {
    if k == 0 {
      assert MaskedTexts(segs)[0] == segs[0].text;
      assert InnerMasks(ms)[0] == Mask(ms[0].inner);
    } else if segs[0].Masked? {
      assert MaskedTexts(segs)[1..] == MaskedTexts(segs[1..]);
      assert InnerMasks(ms)[1..] == InnerMasks(ms[1..]);
      MaskedIsMask(segs[1..], ms[1..], k - 1);
    } else {
      MaskedIsMask(segs[1..], ms, k - 1);
    }
  }

  /** Each node keeps at least one node in its place. */
  lemma {:induction false} ProcessAllLonger(ns: seq<Node>)
    ensures |ProcessAll(ns)| >= |ns|
    decreases ns
  {
    if ns != [] {
      ProcessNotEmpty(ns[0]);
      ProcessAllLonger(ns[1..]);
    }
  }

  lemma ProcessNotEmpty(n: Node)
    ensures |Process(n)| >= 1
  {
    if n.Text? && Scan(n.value) != [] {
      SplitHasMasked(n.value, 0, Scan(n.value));
    }
  }

  /** A quiet node stays as it is, and so do quiet siblings. */
  lemma {:induction false} QuietFixed(n: Node)
    requires Quiet(n)
    ensures Process(n) == [n]
    decreases n
  {
    match n
    case Text(_) =>
    case Other =>
    case Element(tag, cls, ch) =>
      if tag !in IgnoredTags {
        QuietAllFixed(ch);
      }
  }

  lemma {:induction false} QuietAllFixed(ns: seq<Node>)
    requires forall k :: 0 <= k < |ns| ==> Quiet(ns[k])
    ensures ProcessAll(ns) == ns
    decreases ns
  {
    if ns != [] {
      QuietFixed(ns[0]);
      QuietAllFixed(ns[1..]);
      assert ns == [ns[0]] + ns[1..];
    }
  }

  /** A node the walk leaves in place is quiet, and so are siblings it leaves in place. */
  lemma {:induction false} FixedQuiet(n: Node)
    requires Process(n) == [n]
    ensures Quiet(n)
    decreases n
  {
    match n
    case Text(s) =>
    case Other =>
    case Element(tag, cls, ch) =>
      if tag !in IgnoredTags {
        assert Process(n)[0] == Element(tag, cls, ProcessAll(ch));
        FixedAllQuiet(ch);
      }
  }

  lemma {:induction false} FixedAllQuiet(ns: seq<Node>)
    requires ProcessAll(ns) == ns
    ensures forall k :: 0 <= k < |ns| ==> Quiet(ns[k])
    decreases ns
  {
    if ns != [] {
      var head := Process(ns[0]);
      ProcessNotEmpty(ns[0]);
      ProcessAllLonger(ns[1..]);
      assert |head| == 1;
      assert ProcessAll(ns)[0] == head[0];
      assert head == [ns[0]];
      assert ProcessAll(ns)[1..] == ProcessAll(ns[1..]);
      FixedQuiet(ns[0]);
      FixedAllQuiet(ns[1..]);
      forall k | 0 <= k < |ns|
        ensures Quiet(ns[k])
      {
        if k > 0 { assert ns[k] == ns[1..][k - 1]; }
      }
    }
  }

  /** The walk leaves a tree as it is exactly when the tree is quiet: text nodes without a
      span, and everything inside ignored elements, are untouched. */
  lemma ProcessUnchangedIff(n: Node)
    ensures Process(n) == [n] <==> Quiet(n)
  {
    if Quiet(n) { QuietFixed(n); }
    if Process(n) == [n] { FixedQuiet(n); }
  }

  /** Everything the walk produces is quiet. */
  lemma {:induction false} ProcessSettled(n: Node)
    ensures forall k :: 0 <= k < |Process(n)| ==> Quiet(Process(n)[k])
    decreases n
  {
    match n
    case Text(s) =>
      if Scan(s) != [] { FragmentQuiet(s); }
    case Other =>
    case Element(tag, cls, ch) =>
      if tag !in IgnoredTags {
        ProcessAllSettled(ch);
        var r := Element(tag, cls, ProcessAll(ch));
        assert Process(n) == [r];
        assert Quiet(r);
      }
  }

  lemma {:induction false} ProcessAllSettled(ns: seq<Node>)
    ensures forall k :: 0 <= k < |ProcessAll(ns)| ==> Quiet(ProcessAll(ns)[k])
    decreases ns
  {
    if ns != [] {
      ProcessSettled(ns[0]);
      ProcessAllSettled(ns[1..]);
      var a, b := Process(ns[0]), ProcessAll(ns[1..]);
      forall k | 0 <= k < |a + b|
        ensures Quiet((a + b)[k])
      {
        if k >= |a| { assert (a + b)[k] == b[k - |a|]; }
      }
    }
  }

  /** Walking a tree twice does no more than walking it once. */
  lemma ProcessIdempotent(n: Node)
    ensures ProcessAll(Process(n)) == Process(n)
  {
    ProcessSettled(n);
    QuietAllFixed(Process(n));
  }

  /** The ignored subtrees (code, preformatted text, keyboard input, sample output) come out
      of the walk exactly as they went in, and in the same order. */
  lemma {:induction false} VerbatimKept(n: Node)
    ensures VerbatimAll(Process(n)) == Verbatim(n)
    decreases n
  {
    match n
    case Text(s) =>
      if Scan(s) != [] { FragmentInert(Segments(s)); }
      else { assert VerbatimAll([n]) == Verbatim(n) + VerbatimAll([]); }
    case Other =>
      assert VerbatimAll([n]) == Verbatim(n) + VerbatimAll([]);
    case Element(tag, cls, ch) =>
      assert VerbatimAll(Process(n)) == Verbatim(Process(n)[0]) + VerbatimAll([]);
      if tag !in IgnoredTags {
        VerbatimAllKept(ch);
      }
  }

  lemma {:induction false} VerbatimAllKept(ns: seq<Node>)
    ensures VerbatimAll(ProcessAll(ns)) == VerbatimAll(ns)
    decreases ns
  {
    if ns != [] {
      VerbatimKept(ns[0]);
      VerbatimAllKept(ns[1..]);
      VerbatimAllAppend(Process(ns[0]), ProcessAll(ns[1..]));
    }
  }

  /** Apart from text and masked spans, the walk changes nothing: every element and every
      other node keeps its tag, class, nesting and order. */
  lemma {:induction false} SkeletonKept(n: Node)
    ensures SkeletonAll(Process(n)) == Skeleton(n)
    decreases n
  {
    match n
    case Text(s) =>
      if Scan(s) != [] { FragmentInert(Segments(s)); }
      else { assert SkeletonAll([n]) == Skeleton(n) + SkeletonAll([]); }
    case Other =>
      assert SkeletonAll([n]) == Skeleton(n) + SkeletonAll([]);
    case Element(tag, cls, ch) =>
      assert SkeletonAll(Process(n)) == Skeleton(Process(n)[0]) + SkeletonAll([]);
      if tag !in IgnoredTags {
        SkeletonAllKept(ch);
      }
  }

  lemma {:induction false} SkeletonAllKept(ns: seq<Node>)
    ensures SkeletonAll(ProcessAll(ns)) == SkeletonAll(ns)
    decreases ns
  {
    if ns != [] {
      SkeletonKept(ns[0]);
      SkeletonAllKept(ns[1..]);
      SkeletonAllAppend(Process(ns[0]), ProcessAll(ns[1..]));
    }
  }

  /** What a masked span already in the tree holds is part of the structure the walk keeps:
      an element inside it is not erased along with the span. */
  lemma MaskedSpanContents()
    ensures SkeletonAll(Process(Element("SPAN", MaskedClass, [Element("A", "", [])]))) == [Element("A", "", [])]
    ensures Skeleton(Element("SPAN", MaskedClass, [Element("A", "", [])])) == [Element("A", "", [])]
    ensures Skeleton(Element("SPAN", MaskedClass, [Element("A", "", [])])) != Skeleton(Element("SPAN", MaskedClass, []))
  {
    assert SkeletonAll([Element("A", "", [])]) == Skeleton(Element("A", "", [])) + SkeletonAll([]);
    SkeletonKept(Element("SPAN", MaskedClass, [Element("A", "", [])]));
  }

  /** Only a text node can turn into several nodes, and none of them is bigger than it. */
  lemma ProcessSmall(n: Node)
    ensures |Process(n)| > 1 ==> n.Text? && forall k :: 0 <= k < |Process(n)| ==> Size(Process(n)[k]) <= Size(n)
  {
    if n.Text? && Scan(n.value) != [] {
      var s := n.value;
      var segs := Segments(s);
      PiecesShorter(s, 0, Scan(s));
      forall k | 0 <= k < |segs|
        ensures Size(PieceNode(segs[k])) <= Size(n)
      {
        match segs[k]
        case Plain(_) =>
        case Masked(x) =>
          assert SizeAll([Text(x)]) == Size(Text(x)) + SizeAll([]);
      }
    }
  }
}
