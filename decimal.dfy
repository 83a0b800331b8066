/**
 * Base-10 integers as Go's `strconv` reads them (`ParseUint(s, 10, 64)`
 * and `Atoi` on a 64-bit platform) and as `%d` writes them.
 */
module Decimal {
  import opened Wrappers

  /** 2^64: every uint64 is below it. */
  const Uint64Limit: nat := 0x1_0000_0000_0000_0000
  /** 2^63: a 64-bit int lies in [-2^63, 2^63). */
  const Int64Bound: nat := 0x8000_0000_0000_0000

  /** `strconv.ErrSyntax` and `strconv.ErrRange`. */
  datatype NumError = ErrSyntax | ErrRange

  predicate IsDigit(c: char) {
    '0' <= c <= '9'
  }

  predicate AllDigits(s: string) {
    forall i :: 0 <= i < |s| ==> IsDigit(s[i])
  }

  function DigitValue(c: char): (d: nat)
    requires IsDigit(c)
    ensures d < 10
  {
    (c as int) - ('0' as int)
  }

  function DigitChar(d: nat): (c: char)
    requires d < 10
    ensures IsDigit(c) && DigitValue(c) == d
  {
    ('0' as int + d) as char
  }

  /** The value of the digits `s` read left to right onto `acc`. */
  function Accumulate(s: string, acc: nat): (v: nat)
    requires AllDigits(s)
    ensures v >= acc
    ensures s != [] ==> v >= acc * 10 + DigitValue(s[0])
  {
    if s == [] then acc else Accumulate(s[1..], acc * 10 + DigitValue(s[0]))
  }

  /** The number a string of decimal digits denotes. */
  function Value(s: string): nat
    requires AllDigits(s)
  {
    Accumulate(s, 0)
  }

  /** `%d` of a non-negative integer: its digits, with no leading zero. */
  function Show(n: nat): (s: string)
    ensures s != [] && AllDigits(s)
    ensures |s| > 1 ==> s[0] != '0'
  {
    (if n < 10 then "" else Show(n / 10)) + [DigitChar(n % 10)]
  }

  lemma {:induction false} AccumulateSnoc(s: string, c: char, acc: nat)
    requires AllDigits(s) && IsDigit(c)
    ensures AllDigits(s + [c])
    ensures Accumulate(s + [c], acc) == Accumulate(s, acc) * 10 + DigitValue(c)
    decreases |s|
  {
    if s == [] {
      assert s + [c] == [c];
    } else {
      assert (s + [c])[1..] == s[1..] + [c];
      AccumulateSnoc(s[1..], c, acc * 10 + DigitValue(s[0]));
    }
  }

  /** Reading back what `%d` wrote gives the number. */
  lemma {:induction false} ValueOfShow(n: nat)
    ensures Value(Show(n)) == n
  {
    if n < 10 {
      var c := DigitChar(n);
      assert Show(n) == [c];
      assert [c][1..] == [];
      assert Accumulate([c], 0) == Accumulate([], DigitValue(c));
    } else {
      ValueOfShow(n / 10);
      AccumulateSnoc(Show(n / 10), DigitChar(n % 10), 0);
    }
  }

  /** The digit loop of `strconv.ParseUint`: stops at the first non-digit or on overflow. */
  function ParseDigits(s: string, acc: nat): (r: Result<nat, NumError>)
    requires acc < Uint64Limit
    ensures !AllDigits(s) ==> r.Err?
    ensures AllDigits(s) ==> r == if Accumulate(s, acc) < Uint64Limit then Ok(Accumulate(s, acc)) else Err(ErrRange)
  {
    if s == [] then Ok(acc)
    else if !IsDigit(s[0]) then Err(ErrSyntax)
    else if acc * 10 + DigitValue(s[0]) >= Uint64Limit then Err(ErrRange)
    else ParseDigits(s[1..], acc * 10 + DigitValue(s[0]))
  }

  /** `strconv.ParseUint(s, 10, 64)`: no sign, no underscore, at least one digit. */
  function ParseUint(s: string): (r: Result<nat, NumError>)
    ensures r.Ok? <==> s != [] && AllDigits(s) && Value(s) < Uint64Limit
    ensures r.Ok? ==> r.value == Value(s) && r.value < Uint64Limit
  {
    if s == [] then Err(ErrSyntax) else ParseDigits(s, 0)
  }

  /** `strconv.Atoi` on a 64-bit platform: an optional sign, then `ParseUint` within int64. */
  function Atoi(s: string): (r: Result<int, NumError>)
    ensures r.Ok? ==> -(Int64Bound as int) <= r.value < Int64Bound
    ensures s != [] && IsDigit(s[0]) ==> (r.Ok? <==> ParseUint(s).Ok? && ParseUint(s).value < Int64Bound)
    ensures s != [] && IsDigit(s[0]) && r.Ok? ==> r.value == Value(s)
    ensures s == [] ==> r == Err(ErrSyntax)
    ensures s != [] && s[0] == '+' ==> (r.Ok? <==> ParseUint(s[1..]).Ok? && ParseUint(s[1..]).value < Int64Bound)
    ensures s != [] && s[0] == '+' && r.Ok? ==> r.value == Value(s[1..])
    ensures s != [] && s[0] == '-' ==> (r.Ok? <==> ParseUint(s[1..]).Ok? && ParseUint(s[1..]).value <= Int64Bound)
    ensures s != [] && s[0] == '-' && r.Ok? ==> r.value == -(Value(s[1..]) as int)
    ensures s != [] && s[0] != '+' && s[0] != '-' && !IsDigit(s[0]) ==> r == Err(ErrSyntax)
  {
    if s == [] then Err(ErrSyntax)
    else
      var neg := s[0] == '-';
      var digits := if s[0] == '+' || s[0] == '-' then s[1..] else s;
      match ParseUint(digits)
      case Err(e) => Err(e)
      case Ok(u) =>
        if !neg && u >= Int64Bound then Err(ErrRange)
        else if neg && u > Int64Bound then Err(ErrRange)
        else Ok(if neg then -(u as int) else u as int)
  }

  /** `Atoi` reads back every non-negative int64 that `%d` writes. */
  lemma AtoiShow(n: nat)
    requires n < Int64Bound
    ensures Atoi(Show(n)) == Ok(n)
  {
    ValueOfShow(n);
  }
}
