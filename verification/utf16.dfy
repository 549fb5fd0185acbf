/** JavaScript strings as sequences of UTF-16 code units.

    The exporter's regular expressions carry no `u` flag, so they look at
    code units one at a time, not at code points; a character outside the
    Basic Multilingual Plane is two units here, as it is in JavaScript.
 */
module Utf16 {

  newtype CodeUnit = c: int | 0 <= c < 0x1_0000

  type Text = seq<CodeUnit>

  /** The code units of a string literal written in this model. Only ASCII
      literals are converted; a code point outside the Basic Multilingual
      Plane would become U+FFFD. */
  function Ascii(s: string): (r: Text)
    ensures |r| == |s|
    ensures forall i :: 0 <= i < |s| && s[i] as int < 0x1_0000 ==> r[i] as int == s[i] as int
  {
    seq(|s|, i requires 0 <= i < |s| =>
      if s[i] as int < 0x1_0000 then s[i] as int as CodeUnit else 0xFFFD)
  }

  const LineFeed: CodeUnit := 0x0A
  const CarriageReturn: CodeUnit := 0x0D
  const Space: CodeUnit := 0x20
  const DoubleQuote: CodeUnit := 0x22
  const Hyphen: CodeUnit := 0x2D
  const LeftBracket: CodeUnit := 0x5B
  const RightBracket: CodeUnit := 0x5D
  const Underscore: CodeUnit := 0x5F

  /** The class `[a-zA-Z0-9]`. */
  predicate IsAsciiAlnum(c: CodeUnit) {
    (0x30 <= c <= 0x39) || (0x41 <= c <= 0x5A) || (0x61 <= c <= 0x7A)
  }

  predicate Excludes(t: Text, c: CodeUnit) {
    forall i :: 0 <= i < |t| ==> t[i] != c
  }

  /** Index of the first `c` in `t`, or `|t|` when there is none. */
  function FirstIndexOf(t: Text, c: CodeUnit): (r: nat)
    ensures r <= |t|
    ensures r < |t| ==> t[r] == c
    ensures forall i :: 0 <= i < r ==> t[i] != c
  {
    if t == [] then 0
    else if t[0] == c then 0
    else
      1 + FirstIndexOf(t[1..], c)
  }

  /** When `a` holds no `c` and `b` starts with one, the first `c` of
      `a + b` is where `b` starts. */
  lemma {:induction false} FirstIndexOfJoin(a: Text, b: Text, c: CodeUnit)
    requires Excludes(a, c)
    requires |b| > 0 && b[0] == c
    ensures FirstIndexOf(a + b, c) == |a|
  {
    if a == [] {
      assert a + b == b;
    } else {
      assert (a + b)[0] == a[0] != c;
      assert (a + b)[1..] == a[1..] + b;
      FirstIndexOfJoin(a[1..], b, c);
    }
  }
}
