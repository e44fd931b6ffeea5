/** The occurrence-count field of a text line, read the way
    Utf8Parser.TryParse(span, out int, out int) reads it with the default
    format: an optional '+' or '-', then the longest run of ASCII decimal
    digits, accumulated most significant first; it fails when no digit
    follows the sign or when the value is outside int32. */
module CountParser {
  import opened Bytes

  const Plus: byte := 43    // '+'
  const Minus: byte := 45   // '-'

  predicate IsDigit(c: byte) {
    DigitZero <= c <= DigitNine
  }

  predicate AllDigits(s: seq<byte>) {
    forall i :: 0 <= i < |s| ==> IsDigit(s[i])
  }

  /** Folds the run of digits that starts s onto acc, one digit at a time
      (acc * 10 + digit), stopping at the first byte that is not a digit. */
  function AccumulateDigits(s: seq<byte>, acc: nat): nat {
    if s == [] || !IsDigit(s[0]) then acc
    else AccumulateDigits(s[1..], 10 * acc + (s[0] - DigitZero))
  }

  function ParseCount(field: seq<byte>): (r: Option<int>)
    ensures r.Some? ==> IsInt32(r.value)
  {
    var signed := |field| > 0 && (field[0] == Plus || field[0] == Minus);
    var digits := if signed then field[1..] else field;
    if digits == [] || !IsDigit(digits[0]) then None
    else
      var magnitude := AccumulateDigits(digits, 0);
      var value: int := if signed && field[0] == Minus then -(magnitude as int) else magnitude;
      if IsInt32(value) then Some(value) else None
  }

  /** The decimal form of n, without leading zeros. */
  function DecimalString(n: nat): (s: seq<byte>)
    ensures |s| > 0 && AllDigits(s)
  {
    if n < 10 then [DigitZero + n] else DecimalString(n / 10) + [DigitZero + n % 10]
  }

  /** The fold stops where the digits stop. */
  lemma {:induction false} AccumulateStops(s: seq<byte>, rest: seq<byte>, acc: nat)
    requires AllDigits(s)
    requires rest == [] || !IsDigit(rest[0])
    ensures AccumulateDigits(s + rest, acc) == AccumulateDigits(s, acc)
  {
    if s != [] {
      assert (s + rest)[1..] == s[1..] + rest;
      AccumulateStops(s[1..], rest, 10 * acc + (s[0] - DigitZero));
    }
  }

  /** One more digit at the end multiplies what came before by ten. */
  lemma {:induction false} AccumulateLastDigit(s: seq<byte>, d: byte, acc: nat)
    requires AllDigits(s) && IsDigit(d)
    ensures AccumulateDigits(s + [d], acc) == 10 * AccumulateDigits(s, acc) + (d - DigitZero)
  {
    if s != [] {
      assert (s + [d])[1..] == s[1..] + [d];
      AccumulateLastDigit(s[1..], d, 10 * acc + (s[0] - DigitZero));
    }
  }

  lemma {:induction false} AccumulateDecimalString(n: nat)
    ensures AccumulateDigits(DecimalString(n), 0) == n
  {
    if n >= 10 {
      AccumulateDecimalString(n / 10);
      AccumulateLastDigit(DecimalString(n / 10), DigitZero + n % 10, 0);
    }
  }

  /** A count written in decimal, optionally signed and followed by padding
      that does not start with a digit, parses back to itself whenever it
      fits in an int32. */
  lemma ParseCountRoundTrip(n: int, sign: seq<byte>, padding: seq<byte>)
    requires sign == [] || sign == [Plus] || (sign == [Minus] && n <= 0)
    requires IsInt32(n) && (sign == [] || sign == [Plus] ==> n >= 0)
    requires padding == [] || !IsDigit(padding[0])
    ensures ParseCount(sign + DecimalString(if n < 0 then -n else n) + padding) == Some(n)
  {
    var m := if n < 0 then -n else n;
    var digits := DecimalString(m);
    var field := sign + digits + padding;
    AccumulateStops(digits, padding, 0);
    AccumulateDecimalString(m);
    if sign == [] {
      assert field == digits + padding;
    } else {
      assert field[0] == sign[0] && field[1..] == digits + padding;
    }
  }
}
