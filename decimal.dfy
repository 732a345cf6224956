/** Decimal text for integers, as Go's `strconv.Itoa` writes it and
    `strconv.Atoi` reads it on a 64-bit platform. */
module Decimal {
  import opened Base

  const MinInt64: int := -0x8000_0000_0000_0000
  const MaxInt64: int := 0x7fff_ffff_ffff_ffff

  /** Go's `int` on a 64-bit platform. */
  type int64 = x: int | MinInt64 <= x <= MaxInt64

  const Minus: byte := 45  // '-'
  const Plus: byte := 43   // '+'

  /** `unicode.IsDigit(rune(b))` for a byte: only '0'..'9' are decimal
      digits in the Latin-1 range. */
  predicate IsDigit(b: byte) {
    48 <= b <= 57
  }

  predicate AllDigits(s: seq<byte>) {
    forall i :: 0 <= i < |s| ==> IsDigit(s[i])
  }

  /** The decimal digits of n, with no leading zero. */
  function Digits(n: nat): (s: seq<byte>)
    ensures |s| > 0 && AllDigits(s)
  {
    if n < 10 then [48 + n] else Digits(n / 10) + [48 + n % 10]
  }

  /** `strconv.Itoa`: an optional '-' followed by the digits of |n|. */
  function Itoa(n: int): (s: seq<byte>)
    ensures |s| > 0
    ensures n >= 0 ==> AllDigits(s)
    ensures n < 0 ==> s[0] == Minus && AllDigits(s[1..])
  {
    if n < 0 then [Minus] + Digits(-n) else Digits(n)
  }

  /** The number a string of decimal digits denotes (leading zeros allowed). */
  function Value(s: seq<byte>): nat
    requires AllDigits(s)
  {
    if |s| == 0 then 0 else Value(s[..|s| - 1]) * 10 + (s[|s| - 1] - 48)
  }

  /** `strconv.Atoi`: an optional sign, then one or more decimal digits,
      denoting a value that fits in 64 bits; anything else is an error. */
  function Atoi(s: seq<byte>): (r: Result<int>)
    ensures r.Ok? ==> MinInt64 <= r.value <= MaxInt64
    ensures |s| == 0 ==> r == Err(InvalidNumber)
    ensures r.Ok? && IsDigit(s[0]) ==> r.value >= 0
  {
    if |s| == 0 then Err(InvalidNumber)
    else
      var body := if s[0] == Minus || s[0] == Plus then s[1..] else s;
      if |body| == 0 || !AllDigits(body) then Err(InvalidNumber)
      else
        var v: int := if s[0] == Minus then -(Value(body) as int) else Value(body);
        if MinInt64 <= v <= MaxInt64 then Ok(v) else Err(InvalidNumber)
  }

  /** The digits of n denote n. */
  lemma {:induction false} ValueOfDigits(n: nat)
    ensures Value(Digits(n)) == n
  {
    if n >= 10 {
      var d := Digits(n);
      assert d[..|d| - 1] == Digits(n / 10);
      ValueOfDigits(n / 10);
    }
  }

  /** What `strconv.Itoa` writes, `strconv.Atoi` reads back, for every
      64-bit integer. */
  lemma AtoiItoa(n: int64)
    ensures Atoi(Itoa(n)) == Ok(n)
  {
    var s, m := Itoa(n), n as int;
    if m < 0 {
      var body := Digits(-m);
      assert s[1..] == body;
      ValueOfDigits(-m);
      assert s[0] == Minus && |body| > 0 && AllDigits(body);
    } else {
      ValueOfDigits(n);
      assert s == Digits(n) && !(s[0] == Minus || s[0] == Plus);
    }
  }
}
