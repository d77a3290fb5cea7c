/**
 * Character classes of the JavaScript regular expressions used by the
 * extension, ASCII case mapping (String.prototype.toUpperCase and
 * toLowerCase restricted to a–z / A–Z), and two generic scans over strings.
 */
module Chars {

  /** JavaScript's `\s`: the ASCII whitespace characters U+0009..U+000D and
      U+0020, plus U+00A0, U+1680, U+2000..U+200A, U+2028, U+2029, U+202F,
      U+205F, U+3000 and U+FEFF. */
  predicate IsSpace(c: char)
  {
    var n := c as int;
    (9 <= n <= 13) || n == 32 || n == 0xA0 || n == 0x1680 || (0x2000 <= n <= 0x200A)
    || n == 0x2028 || n == 0x2029 || n == 0x202F || n == 0x205F || n == 0x3000 || n == 0xFEFF
  }

  predicate IsLower(c: char) { 'a' <= c <= 'z' }

  predicate IsUpper(c: char) { 'A' <= c <= 'Z' }

  /** The class `[a-zA-Z0-9_]`, which is also what `\w` denotes. */
  predicate IsWordChar(c: char)
  {
    IsLower(c) || IsUpper(c) || ('0' <= c <= '9') || c == '_'
  }

  function UpperChar(c: char): char
  {
    if IsLower(c) then (c as int - 32) as char else c
  }

  function LowerChar(c: char): char
  {
    if IsUpper(c) then (c as int + 32) as char else c
  }

  /** `s.toUpperCase()` on ASCII letters; every other character is kept. */
  function ToUpper(s: string): (r: string)
    ensures |r| == |s|
  {
    seq(|s|, i requires 0 <= i < |s| => UpperChar(s[i]))
  }

  /** `s.toLowerCase()` on ASCII letters; every other character is kept. */
  function ToLower(s: string): (r: string)
    ensures |r| == |s|
  {
    seq(|s|, i requires 0 <= i < |s| => LowerChar(s[i]))
  }

  /** Concatenation regrouped, for proofs that must not unfold its operands. */
  lemma AppendAssoc(x: string, y: string, z: string)
    ensures (x + y) + z == x + (y + z)
  {
  }

  /** Length of the longest prefix of `s` whose characters all satisfy `p`. */
  function RunLength(s: string, p: char -> bool): (n: nat)
    ensures n <= |s|
    ensures forall i :: 0 <= i < n ==> p(s[i])
    ensures n < |s| ==> !p(s[n])
  {
    if s != [] && p(s[0]) then 1 + RunLength(s[1..], p) else 0
  }

  /** The characters of `s` that satisfy `keep`, in order. */
  function Filter(s: string, keep: char -> bool): (r: string)
    ensures |r| <= |s|
    ensures forall i :: 0 <= i < |r| ==> keep(r[i])
  {
    if s == [] then []
    else if keep(s[0]) then [s[0]] + Filter(s[1..], keep)
    else Filter(s[1..], keep)
  }

  /** No character of `s` satisfies `p`. */
  predicate Avoids(s: string, p: char -> bool)
  {
    forall i :: 0 <= i < |s| ==> !p(s[i])
  }

  /** A run that fills `a` and is stopped by the first character of `b`. */
  lemma RunLengthAppendWhole(a: string, b: string, p: char -> bool)
    requires RunLength(a, p) == |a|
    requires b == [] || !p(b[0])
    ensures RunLength(a + b, p) == |a|
  {
    assert forall i :: 0 <= i < |a| ==> (a + b)[i] == a[i];
    assert |b| > 0 ==> (a + b)[|a|] == b[0];
  }

  /** A run that already stops inside `a`. */
  lemma RunLengthAppendInside(a: string, b: string, p: char -> bool)
    requires RunLength(a, p) < |a|
    ensures RunLength(a + b, p) == RunLength(a, p)
  {
    assert forall i :: 0 <= i < |a| ==> (a + b)[i] == a[i];
  }

  /** A run over a string all of whose characters qualify covers it. */
  lemma {:induction false} RunLengthAll(w: string, p: char -> bool)
    requires forall i :: 0 <= i < |w| ==> p(w[i])
    ensures RunLength(w, p) == |w|
  {
    if w != [] {
      assert forall i :: 0 <= i < |w[1..]| ==> w[1..][i] == w[i + 1];
      RunLengthAll(w[1..], p);
    }
  }
}
