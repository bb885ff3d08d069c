/** The three conversions of Go's `strconv` package the daemon relies on:
  * `ParseUint(s, 10, 64)` for workspace numbers, and `Itoa`/`Atoi` for the
  * argument count of the wire envelope. Strings are sequences of bytes in
  * Go; only ASCII digits and signs matter here, so a `char` stands for a byte. */
module Strconv {
  import opened Wrappers

  const MaxUint64: nat := 0xFFFF_FFFF_FFFF_FFFF
  /** 2^63: one past the largest `int` (64-bit), and the magnitude of the smallest. */
  const IntLimit: nat := 0x8000_0000_0000_0000

  /** Why a conversion failed: a character that is not a digit (or nothing to
    * convert), or a value out of range. */
  datatype NumError = SyntaxError | RangeError

  predicate IsDigit(c: char)
  {
    '0' <= c <= '9'
  }

  predicate AllDigits(s: string)
  {
    forall i :: 0 <= i < |s| ==> IsDigit(s[i])
  }

  function DigitValue(c: char): nat
    requires IsDigit(c)
  {
    (c as int) - ('0' as int)
  }

  function DigitChar(d: nat): char
    requires d < 10
  {
    (('0' as int) + d) as char
  }

  /** The number a string of decimal digits denotes. */
  function DecimalValue(s: string): nat
    requires AllDigits(s)
  {
    if s == [] then 0 else DecimalValue(s[..|s| - 1]) * 10 + DigitValue(s[|s| - 1])
  }

  /** The state of `ParseUint`'s loop over the digits: still scanning with
    * the value so far, or stopped with the value it returns and its error. */
  datatype UintScan = Scanning(n: nat) | Stopped(value: nat, err: NumError)

  /** One character of the loop: a non-digit is a syntax error (value 0); a
    * digit that would carry the value past 2^64 - 1 is a range error (value
    * 2^64 - 1). Go tests the overflow in two steps, before and after adding
    * the digit; together they say exactly this. */
  function ScanStep(st: UintScan, c: char): UintScan
  {
    match st
    case Stopped(_, _) => st
    case Scanning(n) =>
      if !IsDigit(c) then Stopped(0, SyntaxError)
      else if n * 10 + DigitValue(c) > MaxUint64 then Stopped(MaxUint64, RangeError)
      else Scanning(n * 10 + DigitValue(c))
  }

  /** The loop run over the whole string, first character first. */
  function Scan(s: string): UintScan
  {
    if s == [] then Scanning(0) else ScanStep(Scan(s[..|s| - 1]), s[|s| - 1])
  }

  /** `strconv.ParseUint(s, 10, 64)`: the value and the error, if any. The
    * empty string is a syntax error. */
  function ParseUint(s: string): (r: (nat, Option<NumError>))
    ensures r.0 <= MaxUint64
    ensures r.1 == Some(SyntaxError) ==> r.0 == 0
    ensures r.1 == Some(RangeError) ==> r.0 == MaxUint64
  {
    if s == [] then (0, Some(SyntaxError))
    else
      match Scan(s)
      case Scanning(n) => ScanBound(s); (n, None)
      case Stopped(v, e) => ScanBound(s); (v, Some(e))
  }

  /** `strconv.Itoa` on a non-negative number: its decimal digits, without
    * leading zeros. */
  function Itoa(n: nat): string
  {
    if n < 10 then [DigitChar(n)] else Itoa(n / 10) + [DigitChar(n % 10)]
  }

  /** `strconv.Atoi` on a 64-bit platform: an optional sign, then decimal
    * digits whose value fits in an `int`. */
  function Atoi(s: string): Result<int, NumError>
  {
    if s == [] then Err(SyntaxError)
    else
      var negative := s[0] == '-';
      var digits := if s[0] == '-' || s[0] == '+' then s[1..] else s;
      var (u, err) := ParseUint(digits);
      if err.Some? then Err(err.value)
      else if !negative && u >= IntLimit then Err(RangeError)
      else if negative && u > IntLimit then Err(RangeError)
      else Ok(if negative then -(u as int) else u as int)
  }

  /** The loop never yields more than 2^64 - 1, and it stops with 0 on a
    * syntax error and with 2^64 - 1 on a range error. */
  lemma {:induction false} ScanBound(s: string)
    ensures Scan(s).Scanning? ==> Scan(s).n <= MaxUint64
    ensures Scan(s).Stopped? ==> Scan(s).value <= MaxUint64
    ensures Scan(s).Stopped? ==> Scan(s).value == if Scan(s).err == SyntaxError then 0 else MaxUint64
  {
    if s != [] {
      ScanBound(s[..|s| - 1]);
    }
  }

  /** The loop is still scanning exactly when every character so far is a
    * digit and their value fits in 64 bits; its value is then theirs. */
  lemma {:induction false} ScanAccepts(s: string)
    ensures Scan(s).Scanning? <==> AllDigits(s) && DecimalValue(s) <= MaxUint64
    ensures Scan(s).Scanning? ==> Scan(s).n == DecimalValue(s)
  {
    if s != [] {
      var p := s[..|s| - 1];
      var c := s[|s| - 1];
      ScanAccepts(p);
      assert AllDigits(s) ==> AllDigits(p);
      assert AllDigits(p) && IsDigit(c) ==> AllDigits(s) by {
        if AllDigits(p) && IsDigit(c) {
          forall i | 0 <= i < |s| ensures IsDigit(s[i]) {
            if i < |p| {
              assert s[i] == p[i];
            }
          }
        }
      }
    }
  }

  /** `ParseUint` succeeds exactly on a non-empty string of digits whose
    * value fits in 64 bits, and gives that value. */
  lemma ParseUintAccepts(s: string)
    ensures ParseUint(s).1 == None <==> s != [] && AllDigits(s) && DecimalValue(s) <= MaxUint64
    ensures ParseUint(s).1 == None ==> ParseUint(s).0 == DecimalValue(s)
  {
    ScanAccepts(s);
  }

  /** `Itoa` writes digits whose value is the number, with no leading zero. */
  lemma {:induction false} ItoaDigits(n: nat)
    ensures |Itoa(n)| >= 1 && AllDigits(Itoa(n))
    ensures DecimalValue(Itoa(n)) == n
    ensures Itoa(n)[0] == '0' ==> n == 0
  {
    if n >= 10 {
      ItoaDigits(n / 10);
      var s := Itoa(n);
      assert s[..|s| - 1] == Itoa(n / 10);
      assert AllDigits(s) by {
        forall i | 0 <= i < |s| ensures IsDigit(s[i]) {
          if i < |s| - 1 {
            assert s[i] == Itoa(n / 10)[i];
          }
        }
      }
    }
  }

  /** `ParseUint` reads back what `Itoa` writes, for every 64-bit value. */
  lemma ParseUintItoa(n: nat)
    requires n <= MaxUint64
    ensures ParseUint(Itoa(n)) == (n, None)
  {
    ItoaDigits(n);
    ParseUintAccepts(Itoa(n));
  }

  /** `Atoi` reads back what `Itoa` writes, for every non-negative `int`. */
  lemma AtoiItoa(n: nat)
    requires n < IntLimit
    ensures Atoi(Itoa(n)) == Ok(n)
  {
    ItoaDigits(n);
    ParseUintItoa(n);
  }

  /** A leading minus sign negates what follows; so `Atoi` can give a negative count. */
  lemma AtoiNegative(n: nat)
    requires 0 < n <= IntLimit
    ensures Atoi(['-'] + Itoa(n)) == Ok(-(n as int))
  {
    ItoaDigits(n);
    ParseUintItoa(n);
    assert (['-'] + Itoa(n))[1..] == Itoa(n);
  }
}
