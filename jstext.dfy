/**
 * JavaScript text as the regular expressions of the plugin see it, and the masking
 * transform `maskPreservingSpaces`.
 */
module JsText {

  /** One UTF-16 code unit. A JavaScript string is a sequence of these, and a regular
      expression without the `u` flag matches it unit by unit. */
  newtype CodeUnit = x: int | 0 <= x < 0x1_0000

  type JsString = seq<CodeUnit>

  /** '&', the character the delimiter `&&` is made of. */
  const Ampersand: CodeUnit := 0x26

  /** '▓' (U+2593), the glyph that stands for every hidden character. */
  const Block: CodeUnit := 0x2593

  /** The code units JavaScript's `\s` class matches: the WhiteSpace and LineTerminator
      code points of ECMA-262 (tab, line feed, vertical tab, form feed, carriage return,
      the space separators of Unicode category Zs, the line and paragraph separators and
      the byte order mark). */
  predicate IsWhitespace(c: CodeUnit) {
    || (0x09 <= c <= 0x0D)
    || c == 0x20 || c == 0xA0 || c == 0x1680
    || (0x2000 <= c <= 0x200A)
    || c == 0x2028 || c == 0x2029 || c == 0x202F || c == 0x205F
    || c == 0x3000 || c == 0xFEFF
  }

  /** `s.replace(/[^\s]/g, "▓")`: every code unit outside `\s` becomes the block glyph,
      whitespace is kept, scanning left to right. */
  function Mask(s: JsString): (r: JsString)
    ensures |r| == |s|
    ensures forall i :: 0 <= i < |s| && IsWhitespace(s[i]) ==> r[i] == s[i]
    ensures forall i :: 0 <= i < |s| && !IsWhitespace(s[i]) ==> r[i] == Block
  {
    if s == [] then []
    else [if IsWhitespace(s[0]) then s[0] else Block] + Mask(s[1..])
  }

  /** The masked text has whitespace exactly where the original has it, so the shape
      of the hidden text (word breaks, line breaks) stays visible. */
  lemma MaskKeepsLayout(s: JsString)
    ensures |Mask(s)| == |s|
    ensures forall i :: 0 <= i < |s| ==> (IsWhitespace(Mask(s)[i]) <==> IsWhitespace(s[i]))
  {
  }

  /** Masking an already masked text changes nothing. */
  lemma MaskIdempotent(s: JsString)
    ensures Mask(Mask(s)) == Mask(s)
  {
  }

  /** Masking works code unit by code unit, so it distributes over concatenation. */
  lemma {:induction false} MaskAppend(a: JsString, b: JsString)
    ensures Mask(a + b) == Mask(a) + Mask(b)
  {
    if a != [] {
      assert (a + b)[1..] == a[1..] + b;
      MaskAppend(a[1..], b);
    }
  }

  /** A masked text never holds an ampersand, so no delimiter can appear in it. */
  lemma MaskHasNoAmpersand(s: JsString)
    ensures forall i :: 0 <= i < |Mask(s)| ==> Mask(s)[i] != Ampersand
  {
  }

  /** `maskPreservingSpaces("a b\nc")` is `"▓ ▓\n▓"`. */
  lemma MaskExample()
    ensures Mask([0x61, 0x20, 0x62, 0x0A, 0x63]) == [Block, 0x20, Block, 0x0A, Block]
  {
  }
}
