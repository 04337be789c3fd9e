/**
 * Decimal text and unsigned 32-bit integers, the way Rust's standard library
 * treats them: `str::trim`, `u32::from_str` (`"...".parse::<u32>()`) and
 * `u32::to_string`. Post IDs travel as such text both in the listing
 * response and as members of the Redis sorted sets.
 */
module Decimal {
  import opened Wrappers

  const U32_LIMIT: int := 0x1_0000_0000

  /** Rust's `u32`. */
  type u32 = x: int | 0 <= x < U32_LIMIT

  // ---------------------------------------------------------------------
  // str::trim

  /** Rust's `char::is_whitespace`: the characters with the Unicode
      White_Space property. */
  const WHITESPACE: set<char> := {
    '\t', '\n', '\U{000B}', '\U{000C}', '\r', ' ', '\U{0085}', '\U{00A0}', '\U{1680}',
    '\U{2000}', '\U{2001}', '\U{2002}', '\U{2003}', '\U{2004}', '\U{2005}',
    '\U{2006}', '\U{2007}', '\U{2008}', '\U{2009}', '\U{200A}',
    '\U{2028}', '\U{2029}', '\U{202F}', '\U{205F}', '\U{3000}'
  }

  predicate IsWhitespace(c: char) {
    c in WHITESPACE
  }

  /** Visible ASCII characters (`!` to `~`) are not whitespace. */
  lemma VisibleNotWhitespace(c: char)
    requires '!' <= c <= '~'
    ensures !IsWhitespace(c)
  {
  }

  /** `str::trim_start`: drops the whitespace prefix. */
  function TrimStart(s: string): (r: string)
    ensures |r| <= |s| && r == s[|s| - |r|..]
    ensures forall i :: 0 <= i < |s| - |r| ==> IsWhitespace(s[i])
    ensures r == [] || !IsWhitespace(r[0])
  {
    if s != [] && IsWhitespace(s[0]) then
      var r := TrimStart(s[1..]);
      assert forall i :: 1 <= i < |s| ==> s[i] == s[1..][i - 1];
      r
    else s
  }

  /** `str::trim_end`: drops the whitespace suffix. */
  function TrimEnd(s: string): (r: string)
    ensures |r| <= |s| && r == s[..|r|]
    ensures forall i :: |r| <= i < |s| ==> IsWhitespace(s[i])
    ensures r == [] || !IsWhitespace(r[|r| - 1])
  {
    if s != [] && IsWhitespace(s[|s| - 1]) then
      var r := TrimEnd(s[..|s| - 1]);
      assert forall i :: 0 <= i < |s| - 1 ==> s[i] == s[..|s| - 1][i];
      r
    else s
  }

  /** `str::trim`: the longest slice of `s` that neither starts nor ends
      with whitespace, obtained by dropping only whitespace. */
  function Trim(s: string): (r: string)
    ensures var lo := |s| - |TrimStart(s)|;
      && lo + |r| <= |s| && r == s[lo..lo + |r|]
      && (forall i :: 0 <= i < lo ==> IsWhitespace(s[i]))
      && (forall i :: lo + |r| <= i < |s| ==> IsWhitespace(s[i]))
    ensures r == [] || (!IsWhitespace(r[0]) && !IsWhitespace(r[|r| - 1]))
  {
    var t := TrimStart(s);
    var r := TrimEnd(t);
    TrimSlice(s, t, r);
    r
  }

  /** Trimming the end of what is left after trimming the start: a prefix
      `r` of a suffix `t` of `s`, each cut dropping only whitespace. */
  lemma TrimSlice(s: string, t: string, r: string)
    requires |t| <= |s| && t == s[|s| - |t|..]
    requires forall i :: 0 <= i < |s| - |t| ==> IsWhitespace(s[i])
    requires t == [] || !IsWhitespace(t[0])
    requires |r| <= |t| && r == t[..|r|]
    requires forall j :: |r| <= j < |t| ==> IsWhitespace(t[j])
    requires r == [] || !IsWhitespace(r[|r| - 1])
    ensures var lo := |s| - |t|;
      && lo + |r| <= |s| && r == s[lo..lo + |r|]
      && (forall i :: 0 <= i < lo ==> IsWhitespace(s[i]))
      && (forall i :: lo + |r| <= i < |s| ==> IsWhitespace(s[i]))
    ensures r == [] || (!IsWhitespace(r[0]) && !IsWhitespace(r[|r| - 1]))
  {
    var lo := |s| - |t|;
    forall i | lo + |r| <= i < |s|
      ensures IsWhitespace(s[i])
    {
      assert s[i] == t[i - lo];
    }
    if r != [] {
      assert r[0] == t[0];
    }
  }

  /** Text that neither starts nor ends with whitespace is its own trim. */
  lemma TrimKeeps(s: string)
    requires s == [] || (!IsWhitespace(s[0]) && !IsWhitespace(s[|s| - 1]))
    ensures Trim(s) == s
  {
    assert TrimStart(s) == s;
    assert TrimEnd(s) == s;
  }

  // ---------------------------------------------------------------------
  // u32::from_str

  predicate IsDigit(c: char) {
    '0' <= c <= '9'
  }

  predicate AllDigits(s: string) {
    forall i :: 0 <= i < |s| ==> IsDigit(s[i])
  }

  function DigitValue(c: char): nat
    requires IsDigit(c)
  {
    c as int - '0' as int
  }

  function Pow10(n: nat): (r: nat)
    ensures r >= 1
  {
    if n == 0 then 1 else 10 * Pow10(n - 1)
  }

  /** The number a string of decimal digits denotes, most significant first. */
  function DigitsValue(s: string): nat
    requires AllDigits(s)
  {
    if s == [] then 0 else 10 * DigitsValue(s[..|s| - 1]) + DigitValue(s[|s| - 1])
  }

  /** The leading digit of `c :: rest` contributes `c * 10^|rest|`. */
  lemma {:induction false} DigitsValueCons(s: string)
    requires s != [] && AllDigits(s)
    ensures DigitsValue(s) == DigitValue(s[0]) * Pow10(|s| - 1) + DigitsValue(s[1..])
  {
    if |s| > 1 {
      var init, tail := s[..|s| - 1], s[1..];
      DigitsValueCons(init);
      assert init[1..] == tail[..|tail| - 1];
      assert init[0] == s[0] && tail[|tail| - 1] == s[|s| - 1];
      ShiftValue(DigitValue(s[0]), Pow10(|s| - 2), DigitsValue(init[1..]));
    } else {
      assert s[1..] == [] && s[..0] == [];
    }
  }

  lemma ShiftValue(d: nat, p: nat, x: nat)
    ensures 10 * (d * p + x) == d * (10 * p) + 10 * x
  {
  }

  /** The digit part `u32::from_str` reads: the text after at most one
      leading `+` (a `-` is an invalid digit for an unsigned type). */
  function Unsigned(s: string): string {
    if s != [] && s[0] == '+' then s[1..] else s
  }

  /** The text `u32::from_str` accepts: a non-empty run of ASCII digits
      after the optional `+`, whose value fits in 32 bits. */
  predicate IsU32Literal(s: string) {
    var ds := Unsigned(s);
    ds != [] && AllDigits(ds) && DigitsValue(ds) < U32_LIMIT
  }

  /** The digit loop of `u32::from_str_radix`: left to right,
      `acc = acc.checked_mul(10)?.checked_add(digit)?`, failing on the first
      non-digit or on overflow. */
  function Accumulate(acc: u32, ds: string): (r: Option<u32>)
    ensures r.Some? <==> AllDigits(ds) && acc * Pow10(|ds|) + DigitsValue(ds) < U32_LIMIT
    ensures r.Some? ==> r.value == acc * Pow10(|ds|) + DigitsValue(ds)
    decreases |ds|
  {
    if ds == [] then Some(acc)
    else if !IsDigit(ds[0]) then None
    else if acc * 10 >= U32_LIMIT then
      AccumulateOverflow(acc, ds);
      None
    else if acc * 10 + DigitValue(ds[0]) >= U32_LIMIT then
      AccumulateOverflow(acc, ds);
      None
    else
      var r := Accumulate(acc * 10 + DigitValue(ds[0]), ds[1..]);
      AccumulateStep(acc, ds);
      r
  }

  lemma AccumulateStep(acc: nat, ds: string)
    requires ds != [] && IsDigit(ds[0])
    ensures AllDigits(ds) <==> AllDigits(ds[1..])
    ensures AllDigits(ds) ==>
      acc * Pow10(|ds|) + DigitsValue(ds)
        == (acc * 10 + DigitValue(ds[0])) * Pow10(|ds| - 1) + DigitsValue(ds[1..])
  {
    DigitsTail(ds);
    if AllDigits(ds) {
      AccumulateShift(acc, ds);
    }
  }

  lemma AccumulateShift(acc: nat, ds: string)
    requires ds != [] && AllDigits(ds)
    ensures acc * Pow10(|ds|) + DigitsValue(ds)
      == (acc * 10 + DigitValue(ds[0])) * Pow10(|ds| - 1) + DigitsValue(ds[1..])
  {
    DigitsTail(ds);
    DigitsValueCons(ds);
    Regroup(acc, DigitValue(ds[0]), Pow10(|ds| - 1), Pow10(|ds|), DigitsValue(ds), DigitsValue(ds[1..]));
  }

  lemma DigitsTail(ds: string)
    requires ds != [] && IsDigit(ds[0])
    ensures AllDigits(ds) <==> AllDigits(ds[1..])
  {
    assert forall i :: 1 <= i < |ds| ==> ds[i] == ds[1..][i - 1];
  }

  /** Shifting the accumulator past one more digit `d` of weight `p`. */
  lemma Regroup(acc: nat, d: nat, p: nat, pw: nat, v: nat, vt: nat)
    requires pw == 10 * p && v == d * p + vt
    ensures acc * pw + v == (acc * 10 + d) * p + vt
  {
  }

  lemma MulAtLeast(x: nat, p: nat)
    requires p >= 1
    ensures x * p >= x
  {
  }

  /** Once the accumulator overflows, so does the whole literal. */
  lemma AccumulateOverflow(acc: nat, ds: string)
    requires ds != [] && IsDigit(ds[0])
    requires acc * 10 + DigitValue(ds[0]) >= U32_LIMIT
    ensures AllDigits(ds) ==> acc * Pow10(|ds|) + DigitsValue(ds) >= U32_LIMIT
  {
    if AllDigits(ds) {
      AccumulateStep(acc, ds);
      MulAtLeast(acc * 10 + DigitValue(ds[0]), Pow10(|ds| - 1));
    }
  }

  /** `s.parse::<u32>()`: `Some(n)` exactly when `s` is a `u32` literal,
      and then `n` is the number its digits denote. */
  function ParseU32(s: string): (r: Option<u32>)
    ensures r.Some? <==> IsU32Literal(s)
    ensures r.Some? ==> r.value == DigitsValue(Unsigned(s))
  {
    var ds := Unsigned(s);
    if ds == [] then None else Accumulate(0, ds)
  }

  // ---------------------------------------------------------------------
  // u32::to_string

  function DigitChar(d: nat): (c: char)
    requires d < 10
    ensures IsDigit(c) && DigitValue(c) == d
  {
    (d + '0' as int) as char
  }

  /** `n.to_string()`: decimal digits without sign or leading zeros. */
  function FormatU32(n: u32): (s: string)
    ensures s != [] && AllDigits(s) && DigitsValue(s) == n
    ensures s[0] != '0' || s == "0"
  {
    if n < 10 then [DigitChar(n)]
    else
      var init := FormatU32(n / 10);
      var s := init + [DigitChar(n % 10)];
      assert s[..|s| - 1] == init;
      s
  }

  /** Formatting then parsing gives the number back (the member that
      retirement writes parses to the retired ID). */
  lemma ParseFormat(n: u32)
    ensures ParseU32(FormatU32(n)) == Some(n)
  {
    var s := FormatU32(n);
    assert Unsigned(s) == s;
  }

  /** Parsing is not injective: leading zeros and a `+` sign are accepted,
      so distinct members of a sorted set can name the same post ID. */
  lemma SameIdDifferentText()
    ensures ParseU32("7") == ParseU32("07") == ParseU32("+7") == Some(7)
    ensures FormatU32(7) == "7"
  {
    assert DigitsValue("07") == 7 by {
      assert "07"[..1] == "0";
      assert DigitsValue("0") == 0 by { assert "0"[..0] == ""; }
    }
    assert DigitsValue("7") == 7 by { assert "7"[..0] == ""; }
    assert Unsigned("+7") == "7";
  }

  /** A literal with a non-digit, such as `12a`, does not parse. */
  lemma RejectsTrailingLetter()
    ensures ParseU32("12a") == None
  {
    assert !IsDigit("12a"[2]);
  }
}
