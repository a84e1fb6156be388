/** JavaScript strings as sequences of UTF-16 code units, and the few pieces of
    ECMAScript string semantics the chat handler relies on: the white-space
    class shared by `\s` and `String.prototype.trim`, `trim` itself and
    `slice(0, n)`. */
module JsString {

  /** One UTF-16 code unit; `length` and `slice` count these. */
  newtype CodeUnit = x: int | 0 <= x < 0x1_0000

  type JsStr = seq<CodeUnit>

  const LF: CodeUnit := 0x000A
  const SP: CodeUnit := 0x0020
  const ReplacementChar: CodeUnit := 0xFFFD

  /** ECMAScript WhiteSpace (TAB, VT, FF, SP, NBSP, ZWNBSP and the other
      Unicode "Zs" code points) together with LineTerminator (LF, CR, LS, PS).
      This is the class `\s` matches and the set `trim` strips. */
  predicate IsWS(c: CodeUnit) {
    c == 0x0009 || c == 0x000B || c == 0x000C || c == 0x0020 || c == 0x00A0 || c == 0xFEFF
    || c == 0x1680 || (0x2000 <= c <= 0x200A) || c == 0x202F || c == 0x205F || c == 0x3000
    || c == 0x000A || c == 0x000D || c == 0x2028 || c == 0x2029
  }

  predicate AllWs(s: JsStr) {
    forall i :: 0 <= i < |s| ==> IsWS(s[i])
  }

  predicate NoReplacement(s: JsStr) {
    forall i :: 0 <= i < |s| ==> s[i] != ReplacementChar
  }

  function Min(a: int, b: int): int {
    if a <= b then a else b
  }

  /** The code units of a string literal of this model. Every character of
      those literals lies in the Basic Multilingual Plane and so is a single
      UTF-16 code unit; a character outside it (never used here) is mapped to
      U+FFFD. */
  function Units(s: string): (r: JsStr)
    ensures |r| == |s|
  {
    seq(|s|, i requires 0 <= i < |s| => if s[i] as int < 0x1_0000 then s[i] as int as CodeUnit else ReplacementChar)
  }

  /** `s.slice(0, n)` for a non-negative `n`: the first `n` code units, or all of
      `s` when it is shorter. */
  function Prefix(s: JsStr, n: nat): (r: JsStr)
    ensures |r| == Min(n, |s|)
    ensures r <= s
  {
    if |s| <= n then s else s[..n]
  }

  /** Length of the longest prefix of `s` made only of white space: the extent
      of a greedy `\s*` starting at the front of `s`. */
  function LeadWs(s: JsStr): (k: nat)
    ensures k <= |s|
    ensures k < |s| ==> !IsWS(s[k])
  {
    if s != [] && IsWS(s[0]) then 1 + LeadWs(s[1..]) else 0
  }

  /** Every code unit the greedy run covers is white space. */
  lemma {:induction false} LeadWsIsWs(s: JsStr)
    ensures AllWs(s[..LeadWs(s)])
  {
    if s != [] && IsWS(s[0]) {
      LeadWsIsWs(s[1..]);
      assert s[..LeadWs(s)] == [s[0]] + s[1..][..LeadWs(s[1..])];
    }
  }

  /** Length of the longest suffix of `s` made only of white space. */
  function TrailWs(s: JsStr): (k: nat)
    ensures k <= |s|
    ensures AllWs(s[|s| - k..])
    ensures k < |s| ==> !IsWS(s[|s| - k - 1])
  {
    if s != [] && IsWS(s[|s| - 1]) then 1 + TrailWs(s[..|s| - 1]) else 0
  }

  lemma AllWsAppend(a: JsStr, b: JsStr)
    requires AllWs(a) && AllWs(b)
    ensures AllWs(a + b)
  {
  }

  /** `String.prototype.trim`: what is left once white space is removed from
      both ends. */
  function Trim(s: JsStr): (r: JsStr)
    ensures r == [] <==> AllWs(s)
    ensures r != [] ==> !IsWS(r[0]) && !IsWS(r[|r| - 1])
    ensures LeadWs(s) + |r| <= |s|
    ensures r == s[LeadWs(s)..LeadWs(s) + |r|]
    ensures AllWs(s[LeadWs(s) + |r|..])
  {
    var i := LeadWs(s);
    var t := s[i..];
    var r := t[..|t| - TrailWs(t)];
    LeadWsIsWs(s);
    assert s[i + |r|..] == t[|r|..];
    assert r == [] ==> AllWs(s) by {
      if r == [] {
        assert s == s[..i] + t[|r|..];
        AllWsAppend(s[..i], t[|r|..]);
      }
    }
    assert r != [] ==> r[0] == s[i];
    r
  }

  /** A string already trimmed is left alone by `trim`. */
  lemma {:induction false} TrimIdempotent(s: JsStr)
    ensures Trim(Trim(s)) == Trim(s)
  {
    var r := Trim(s);
    if r != [] {
      assert LeadWs(r) == 0;
      assert TrailWs(r) == 0;
      assert r[0..][..|r| - 0] == r;
    }
  }
}
