/** Go's `strconv.Atoi` on a 64-bit platform, as the page parser uses it for `parent`. */
module GoStrconv {
  import opened GoTime

  const MaxInt64: int := 0x7FFF_FFFF_FFFF_FFFF
  const MinInt64: int := -0x8000_0000_0000_0000
  const MaxUint64: int := 0xFFFF_FFFF_FFFF_FFFF

  /** The outcome of Go's unsigned decimal scan (`ParseUint` with base 10). */
  datatype Scan = SyntaxError | RangeError | Value(n: nat)

  /** Scans `s` left to right from the accumulated value `n`: a non-digit is a syntax
      error, and a value beyond 64 bits is a range error as soon as it happens (later
      characters are then never looked at). */
  function ScanDigits(s: string, n: nat): (r: Scan)
    requires n <= MaxUint64
    ensures r.Value? ==> r.n <= MaxUint64
  {
    if s == [] then Value(n)
    else if !IsDigit(s[0]) then SyntaxError
    else if n * 10 + DigitValue(s[0]) > MaxUint64 then RangeError
    else ScanDigits(s[1..], n * 10 + DigitValue(s[0]))
  }

  /** The decimal value of the digits `s` read after the already accumulated `n`, with
      no bound. */
  function DecimalFrom(s: string, n: nat): nat
    requires forall k :: 0 <= k < |s| ==> IsDigit(s[k])
  {
    if s == [] then n else DecimalFrom(s[1..], n * 10 + DigitValue(s[0]))
  }

  /** `strconv.Atoi(s)` as the parser keeps it, discarding the error: an optional sign
      and at least one decimal digit give the value, clamped to the int64 range when it
      overflows; anything else gives 0. */
  function Atoi(s: string): (r: int)
    ensures MinInt64 <= r <= MaxInt64
  {
    var neg := |s| > 0 && s[0] == '-';
    var digits := Magnitude(s);
    if digits == [] then 0
    else
      match ScanDigits(digits, 0)
      case SyntaxError => 0
      case RangeError => if neg then MinInt64 else MaxInt64
      case Value(n) =>
        if neg then (if n > -MinInt64 then MinInt64 else -(n as int))
        else (if n > MaxInt64 then MaxInt64 else n)
  }

  /** The characters after an optional leading sign. */
  function Magnitude(s: string): (m: string)
    ensures |s| > 0 && (s[0] == '-' || s[0] == '+') ==> m == s[1..]
    ensures !(|s| > 0 && (s[0] == '-' || s[0] == '+')) ==> m == s
  {
    if |s| > 0 && (s[0] == '-' || s[0] == '+') then s[1..] else s
  }

  /** Position `k` of `s` holds the first non-digit, and the digits before it are
      read without leaving 64 bits: the scan stops there with a syntax error. */
  predicate SyntaxErrorAt(s: string, k: int) {
    0 <= k < |s| && !IsDigit(s[k]) && (forall j :: 0 <= j < k ==> IsDigit(s[j]))
    && DecimalFrom(s[..k], 0) <= MaxUint64
  }

  /** A non-digit reached before the value overflows is a syntax error, however far
      into the text it is. */
  lemma {:induction false} ScanDigitsSyntaxError(s: string, n: nat, k: nat)
    requires n <= MaxUint64
    requires k < |s| && !IsDigit(s[k]) && forall j :: 0 <= j < k ==> IsDigit(s[j])
    requires DecimalFrom(s[..k], n) <= MaxUint64
    ensures ScanDigits(s, n) == SyntaxError
    decreases k
  {
    if k > 0 {
      var m := n * 10 + DigitValue(s[0]);
      assert s[..k][1..] == s[1..][..k - 1];
      DecimalFromGrows(s[1..][..k - 1], m);
      ScanDigitsSyntaxError(s[1..], m, k - 1);
    }
  }

  /** A value with no digit after its sign, or with a non-digit met before the value
      overflows, is read as 0. */
  lemma AtoiSyntaxError(s: string, k: int)
    requires Magnitude(s) == [] || SyntaxErrorAt(Magnitude(s), k)
    ensures Atoi(s) == 0
  {
    if Magnitude(s) != [] {
      ScanDigitsSyntaxError(Magnitude(s), 0, k);
    }
  }

  /** Scanning digits whose value fits in 64 bits yields that value. */
  lemma {:induction false} ScanDigitsValue(s: string, n: nat)
    requires n <= MaxUint64
    requires forall k :: 0 <= k < |s| ==> IsDigit(s[k])
    requires DecimalFrom(s, n) <= MaxUint64
    ensures ScanDigits(s, n) == Value(DecimalFrom(s, n))
    decreases |s|
  {
    if s != [] {
      var m := n * 10 + DigitValue(s[0]);
      DecimalFromGrows(s[1..], m);
      ScanDigitsValue(s[1..], m);
    }
  }

  lemma {:induction false} DecimalFromGrows(s: string, n: nat)
    requires forall k :: 0 <= k < |s| ==> IsDigit(s[k])
    ensures DecimalFrom(s, n) >= n
    decreases |s|
  {
    if s != [] { DecimalFromGrows(s[1..], n * 10 + DigitValue(s[0])); }
  }

  /** One more digit on the right multiplies by ten and adds it. */
  lemma {:induction false} DecimalFromSnoc(s: string, c: char, n: nat)
    requires forall k :: 0 <= k < |s| ==> IsDigit(s[k])
    requires IsDigit(c)
    ensures DecimalFrom(s + [c], n) == DecimalFrom(s, n) * 10 + DigitValue(c)
    decreases |s|
  {
    if s == [] {
      assert ([] + [c])[1..] == [];
    } else {
      assert (s + [c])[1..] == s[1..] + [c];
      DecimalFromSnoc(s[1..], c, n * 10 + DigitValue(s[0]));
    }
  }

  /** Go's `strconv.Itoa` for a natural number: its decimal digits, no leading zero. */
  function NatDigits(n: nat): (r: string)
    ensures |r| >= 1 && forall k :: 0 <= k < |r| ==> IsDigit(r[k])
  {
    if n < 10 then [('0' as int + n) as char]
    else NatDigits(n / 10) + [('0' as int + n % 10) as char]
  }

  /** `strconv.Itoa`. */
  function Itoa(n: int): string {
    if n < 0 then "-" + NatDigits(-n) else NatDigits(n)
  }

  lemma {:induction false} DecimalValueOfDigits(n: nat)
    ensures DecimalFrom(NatDigits(n), 0) == n
  {
    if n >= 10 {
      DecimalValueOfDigits(n / 10);
      DecimalFromSnoc(NatDigits(n / 10), ('0' as int + n % 10) as char, 0);
    }
  }

  /** `Atoi` reads back what `Itoa` writes, for every int64: so a page's `parent` sent
      as `strconv.Itoa(page.ParentId)` is the number the parser stored. */
  lemma AtoiItoa(n: int)
    requires MinInt64 <= n <= MaxInt64
    ensures Atoi(Itoa(n)) == n
  {
    var m: nat := if n < 0 then -n else n;
    var d := NatDigits(m);
    DecimalValueOfDigits(m);
    ScanDigitsValue(d, 0);
    if n < 0 {
      var s := "-" + d;
      assert s[0] == '-' && s[1..] == d;
    }
  }
}
