/** Rust's `str::parse::<u64>()`: the digits of a base-10 unsigned 64-bit number. */
module Decimal {
  import opened Wrappers

  /** The largest `u64`, 2^64 - 1. */
  const U64_MAX: nat := 0xFFFF_FFFF_FFFF_FFFF

  /** Values of Rust's `u64`. */
  type U64 = n: nat | n <= U64_MAX

  predicate IsDigit(c: char) { '0' <= c <= '9' }

  predicate AllDigits(s: string) { forall i :: 0 <= i < |s| ==> IsDigit(s[i]) }

  function DigitValue(c: char): (d: nat)
    requires IsDigit(c)
    ensures d < 10
  {
    c as int - '0' as int
  }

  /** The value of a string of decimal digits, read most significant digit first. */
  function Value(s: string): nat
    requires AllDigits(s)
  {
    if s == [] then 0 else Value(s[..|s| - 1]) * 10 + DigitValue(s[|s| - 1])
  }

  /** The digits after the sign: an unsigned type accepts one leading `+`, and no `-`. */
  function Unsigned(s: string): (ds: string)
    ensures |ds| <= |s|
  {
    if |s| > 0 && s[0] == '+' then s[1..] else s
  }

  /** What `u64::from_str` accepts: a non-empty run of ASCII digits after an
      optional `+`, whose value fits in 64 bits. */
  ghost predicate IsU64Literal(s: string)
  {
    var ds := Unsigned(s);
    |ds| > 0 && AllDigits(ds) && Value(ds) <= U64_MAX
  }

  /** The digit loop of `u64::from_str`: from position `k` on, multiply the
      accumulator by ten and add the next digit, failing on a non-digit or as
      soon as the accumulator would exceed `U64_MAX`. */
  function Accumulate(ds: string, k: nat, acc: U64): (r: Option<U64>)
    requires k <= |ds|
    ensures r.Some? ==> forall i :: k <= i < |ds| ==> IsDigit(ds[i])
    ensures r.Some? ==> acc <= r.value
    decreases |ds| - k
  {
    if k == |ds| then Some(acc)
    else if !IsDigit(ds[k]) then None
    else
      var next := acc * 10 + DigitValue(ds[k]);
      if next > U64_MAX then None else Accumulate(ds, k + 1, next)
  }

  /** `s.parse::<u64>()`, with every `ParseIntError` collapsed into `None`. */
  function ParseU64(s: string): (r: Option<U64>)
    ensures r.Some? ==> |Unsigned(s)| > 0 && AllDigits(Unsigned(s))
  {
    var ds := Unsigned(s);
    if ds == [] then None else Accumulate(ds, 0, 0)
  }

  /** A digit string's value is at least that of each of its prefixes. */
  lemma {:induction false} ValueOfPrefix(s: string, j: nat)
    requires AllDigits(s) && j <= |s|
    ensures AllDigits(s[..j]) && Value(s[..j]) <= Value(s)
    decreases |s| - j
  {
    if j < |s| {
      assert s[..|s| - 1][..j] == s[..j];
      ValueOfPrefix(s[..|s| - 1], j);
    } else {
      assert s[..j] == s;
    }
  }

  /** Extending a digit prefix by one digit multiplies by ten and adds the digit. */
  lemma ValueStep(s: string, k: nat)
    requires k < |s| && AllDigits(s[..k + 1])
    ensures AllDigits(s[..k]) && Value(s[..k + 1]) == Value(s[..k]) * 10 + DigitValue(s[k])
  {
    assert s[..k + 1][..k] == s[..k];
  }

  /** The overflow checks in the digit loop fail exactly when the final value
      would not fit in 64 bits: checking every step is the same as checking the end. */
  lemma {:induction false} AccumulateMeaning(ds: string, k: nat, acc: U64)
    requires k <= |ds| && AllDigits(ds[..k]) && acc == Value(ds[..k])
    ensures Accumulate(ds, k, acc) ==
              if AllDigits(ds) && Value(ds) <= U64_MAX then Some(Value(ds)) else None
    decreases |ds| - k
  {
    if k == |ds| {
      assert ds[..k] == ds;
    } else if !IsDigit(ds[k]) {
    } else {
      ValueStep(ds, k);
      var next := acc * 10 + DigitValue(ds[k]);
      if next > U64_MAX {
        if AllDigits(ds) { ValueOfPrefix(ds, k + 1); }
      } else {
        AccumulateMeaning(ds, k + 1, next);
      }
    }
  }

  /** `parse::<u64>` succeeds exactly on the literals it promises to accept,
      and then yields their decimal value. */
  lemma ParseU64Meaning(s: string)
    ensures ParseU64(s).Some? <==> IsU64Literal(s)
    ensures ParseU64(s).Some? ==> ParseU64(s).value == Value(Unsigned(s))
  {
    var ds := Unsigned(s);
    if ds != [] {
      assert ds[..0] == [];
      AccumulateMeaning(ds, 0, 0);
    }
  }

  function DigitChar(d: nat): (c: char)
    requires d < 10
    ensures IsDigit(c) && DigitValue(c) == d
  {
    ('0' as int + d) as char
  }

  /** The canonical decimal notation of a number, without sign or leading
      zeros: the reference notation that `parse::<u64>` inverts. */
  function Render(n: nat): (s: string)
    ensures |s| > 0 && AllDigits(s) && Value(s) == n
    ensures s[0] == '0' ==> n == 0
  {
    if n < 10 then [DigitChar(n)]
    else
      var hi := Render(n / 10);
      var s := hi + [DigitChar(n % 10)];
      assert s[..|s| - 1] == hi;
      s
  }

  /** Rendering then parsing is the identity on `u64`, with or without a `+` sign. */
  lemma ParseRender(n: U64)
    ensures ParseU64(Render(n)) == Some(n)
    ensures ParseU64(['+'] + Render(n)) == Some(n)
  {
    ParseU64Meaning(Render(n));
    ParseU64Meaning(['+'] + Render(n));
    assert Unsigned(['+'] + Render(n)) == Render(n);
  }

  /** A number past `U64_MAX` is refused in its decimal notation (`ParseU64Meaning`
      covers every other way of writing it, with `+` or leading zeros). */
  lemma ParseRejectsOverflow(n: nat)
    requires n > U64_MAX
    ensures ParseU64(Render(n)) == None
  {
    ParseU64Meaning(Render(n));
  }

  /** The empty string, a lone `+` and anything starting with `-` are refused. */
  lemma ParseRejectsSigns(s: string)
    ensures ParseU64([]) == None && ParseU64("+") == None
    ensures ParseU64(['-'] + s) == None
  {
    ParseU64Meaning(['-'] + s);
    assert Unsigned(['-'] + s) == ['-'] + s;
    assert (['-'] + s)[0] == '-';
  }
}
