/** Models of two of the three `strconv` functions the monitor calls, `ParseUint(s, 10, 64)`
    with its error ignored and `Atoi`, together with the decimal rendering they invert.
    The third, `ParseFloat`, is stood in for by the digit reader `ParseDigits` where the
    status parser uses it; its use on `/proc/uptime` is not modelled. */
module GoStrconv {
  import opened Wrappers

  const MaxUint64: int := 0xFFFF_FFFF_FFFF_FFFF
  const MinInt64: int := -0x8000_0000_0000_0000
  const MaxInt64: int := 0x7FFF_FFFF_FFFF_FFFF

  /** Go's `uint64`. */
  type Uint64 = x: int | 0 <= x <= 0xFFFF_FFFF_FFFF_FFFF

  predicate IsDigit(c: char) {
    '0' <= c <= '9'
  }

  predicate AllDigits(s: seq<char>) {
    forall i :: 0 <= i < |s| ==> IsDigit(s[i])
  }

  function DigitValue(c: char): nat
    requires IsDigit(c)
  {
    (c as int) - ('0' as int)
  }

  /** The value of a string of decimal digits, without any bound. */
  function DecimalValue(s: seq<char>): nat
    requires AllDigits(s)
  {
    if s == [] then 0 else 10 * DecimalValue(s[..|s| - 1]) + DigitValue(s[|s| - 1])
  }

  /** The digit loop of `ParseUint` in base 10: `acc` is the value read so far. It stops at
      the first non-digit with 0, or at the first digit that takes the value past the
      `uint64` range with the maximum `uint64` (Go's range error). */
  function ScanUint(s: seq<char>, i: nat, acc: Uint64): Uint64
    requires i <= |s|
    decreases |s| - i
  {
    if i == |s| then acc
    else if !IsDigit(s[i]) then 0
    else if acc * 10 + DigitValue(s[i]) > MaxUint64 then MaxUint64
    else ScanUint(s, i + 1, acc * 10 + DigitValue(s[i]))
  }

  /** `strconv.ParseUint(s, 10, 64)` with the error dropped, as `v, _ := ...` does:
      a syntax error gives 0, a range error the maximum `uint64`. */
  function ParseUint(s: seq<char>): (r: Uint64)
    ensures r != 0 && r != MaxUint64 ==> s != [] && AllDigits(s) && r == DecimalValue(s)
    ensures s != [] && !IsDigit(s[0]) ==> r == 0
  {
    if s == [] then 0
    else
      assert s[..0] == [];
      ScanValue(s, 0);
      ScanUint(s, 0, 0)
  }

  /** A scan that ends neither in the syntax error nor in the range error has read the
      whole text as digits. */
  lemma {:induction false} ScanValue(s: seq<char>, i: nat)
    requires i <= |s| && AllDigits(s[..i]) && DecimalValue(s[..i]) <= MaxUint64
    ensures var r := ScanUint(s, i, DecimalValue(s[..i]));
      r != 0 && r != MaxUint64 ==> AllDigits(s) && r == DecimalValue(s)
    decreases |s| - i
  {
    if i == |s| {
      assert s[..i] == s;
    } else if IsDigit(s[i]) {
      assert AllDigits(s[..i + 1]) by {
        assert forall j :: 0 <= j < i ==> s[..i + 1][j] == s[..i][j];
      }
      DecimalValueStep(s, i);
      if DecimalValue(s[..i + 1]) <= MaxUint64 {
        ScanValue(s, i + 1);
      }
    }
  }

  lemma {:induction false} DecimalPrefixAtMost(s: seq<char>, j: nat)
    requires AllDigits(s) && j <= |s|
    ensures DecimalValue(s[..j]) <= DecimalValue(s)
    decreases |s|
  {
    if j < |s| {
      var t := s[..|s| - 1];
      assert s[..j] == t[..j];
      DecimalPrefixAtMost(t, j);
    } else {
      assert s[..j] == s;
    }
  }

  lemma DecimalValueStep(s: seq<char>, i: nat)
    requires i < |s| && AllDigits(s[..i + 1])
    ensures DecimalValue(s[..i + 1]) == 10 * DecimalValue(s[..i]) + DigitValue(s[i])
  {
    assert s[..i + 1][..i] == s[..i];
  }

  lemma {:induction false} ScanAllDigits(s: seq<char>, i: nat)
    requires AllDigits(s) && i <= |s| && DecimalValue(s[..i]) <= MaxUint64
    ensures ScanUint(s, i, DecimalValue(s[..i]))
            == if DecimalValue(s) <= MaxUint64 then DecimalValue(s) else MaxUint64
    decreases |s| - i
  {
    if i == |s| {
      assert s[..i] == s;
    } else {
      DecimalValueStep(s, i);
      if DecimalValue(s[..i + 1]) > MaxUint64 {
        DecimalPrefixAtMost(s, i + 1);
      } else {
        ScanAllDigits(s, i + 1);
      }
    }
  }

  lemma {:induction false} ScanUpToNonDigit(s: seq<char>, i: nat, k: nat)
    requires i <= k < |s| && AllDigits(s[..k]) && !IsDigit(s[k])
    requires DecimalValue(s[..k]) <= MaxUint64 && DecimalValue(s[..k][..i]) <= MaxUint64
    ensures ScanUint(s, i, DecimalValue(s[..k][..i])) == 0
    decreases k - i
  {
    assert s[..k][..i] == s[..i];
    if i < k {
      DecimalValueStep(s, i);
      assert s[..k][..i + 1] == s[..i + 1];
      DecimalPrefixAtMost(s[..k], i + 1);
      ScanUpToNonDigit(s, i + 1, k);
    }
  }

  lemma {:induction false} ScanUpToOverflow(s: seq<char>, i: nat, k: nat)
    requires i < k <= |s| && AllDigits(s[..k]) && DecimalValue(s[..k]) > MaxUint64
    requires DecimalValue(s[..k][..i]) <= MaxUint64
    ensures ScanUint(s, i, DecimalValue(s[..k][..i])) == MaxUint64
    decreases k - i
  {
    assert s[..k][..i] == s[..i];
    assert s[..k][..i + 1] == s[..i + 1];
    assert s[..k][..k] == s[..k];
    assert IsDigit(s[..k][i]);
    DecimalValueStep(s, i);
    if DecimalValue(s[..i + 1]) <= MaxUint64 {
      ScanUpToOverflow(s, i + 1, k);
    }
  }

  /** Once the digits read so far exceed the `uint64` range, the parse is the maximum
      `uint64`, whatever characters follow: Go reports the range error at that digit. */
  lemma ParseUintOverflowFirst(s: seq<char>, k: nat)
    requires k <= |s| && AllDigits(s[..k]) && DecimalValue(s[..k]) > MaxUint64
    ensures ParseUint(s) == MaxUint64
  {
    assert s[..k][..0] == [];
    ScanUpToOverflow(s, 0, k);
  }

  /** A non-empty run of digits parses to its value, saturated at the maximum `uint64`. */
  lemma ParseUintOfDigits(s: seq<char>)
    requires s != [] && AllDigits(s)
    ensures ParseUint(s) == if DecimalValue(s) <= MaxUint64 then DecimalValue(s) else MaxUint64
  {
    assert s[..0] == [];
    ScanAllDigits(s, 0);
  }

  /** A non-digit reached before the value overflows makes the whole text parse to 0. */
  lemma ParseUintSyntaxError(s: seq<char>, k: nat)
    requires k < |s| && AllDigits(s[..k]) && !IsDigit(s[k])
    requires DecimalValue(s[..k]) <= MaxUint64
    ensures ParseUint(s) == 0
  {
    assert s[..k][..0] == [];
    ScanUpToNonDigit(s, 0, k);
    assert s[..0] == [];
  }

  function DigitChar(d: nat): (c: char)
    requires d < 10
    ensures IsDigit(c) && DigitValue(c) == d
  {
    (('0' as int) + d) as char
  }

  /** The decimal rendering of `n`, as `strconv.FormatUint(n, 10)` and `%d` print it. */
  function FormatUint(n: nat): (s: seq<char>)
    ensures s != [] && AllDigits(s) && DecimalValue(s) == n
  {
    if n < 10 then [DigitChar(n)]
    else
      var s := FormatUint(n / 10) + [DigitChar(n % 10)];
      assert s[..|s| - 1] == FormatUint(n / 10);
      s
  }

  /** Parsing the rendering of a `uint64` gives it back. */
  lemma ParseUintOfFormat(n: Uint64)
    ensures ParseUint(FormatUint(n)) == n
  {
    ParseUintOfDigits(FormatUint(n));
  }

  /** The value of a non-empty run of decimal digits, or None when `s` is empty or holds
      anything but digits. */
  function ParseDigits(s: seq<char>): Option<nat> {
    if s == [] || !IsDigit(s[|s| - 1]) then None
    else if |s| == 1 then Some(DigitValue(s[0]))
    else
      match ParseDigits(s[..|s| - 1])
      case None => None
      case Some(v) => Some(10 * v + DigitValue(s[|s| - 1]))
  }

  /** ParseDigits accepts exactly the non-empty runs of digits, with their decimal value. */
  lemma {:induction false} ParseDigitsSpec(s: seq<char>)
    ensures ParseDigits(s).Some? <==> s != [] && AllDigits(s)
    ensures ParseDigits(s).Some? ==> ParseDigits(s).value == DecimalValue(s)
  {
    if |s| > 1 {
      var init := s[..|s| - 1];
      ParseDigitsSpec(init);
      if AllDigits(s) {
        assert AllDigits(init);
      } else if IsDigit(s[|s| - 1]) {
        var i :| 0 <= i < |s| && !IsDigit(s[i]);
        assert init[i] == s[i];
      }
    } else if |s| == 1 {
      assert s[..0] == [];
    }
  }

  /** `strconv.Atoi` on a 64-bit platform: an optional `+` or `-`, then one or more decimal
      digits, whose signed value must lie in the `int64` range; anything else is an error. */
  function Atoi(s: seq<char>): (r: Option<int>)
    ensures r.Some? ==> MinInt64 <= r.value <= MaxInt64
  {
    if s == [] then None
    else
      var digits := if s[0] == '-' || s[0] == '+' then s[1..] else s;
      match ParseDigits(digits)
      case None => None
      case Some(d) =>
        var v: int := if s[0] == '-' then -(d as int) else d;
        if MinInt64 <= v <= MaxInt64 then Some(v) else None
  }

  /** Atoi accepts exactly an optional sign followed by digits whose signed value fits
      in an `int64`. */
  lemma AtoiSpec(s: seq<char>)
    ensures Atoi(s).Some? <==>
      var digits := if s != [] && (s[0] == '-' || s[0] == '+') then s[1..] else s;
      && digits != [] && AllDigits(digits)
      && MinInt64 <= (if s[0] == '-' then -(DecimalValue(digits) as int) else DecimalValue(digits)) <= MaxInt64
    ensures Atoi(s).Some? ==>
      var digits := if s[0] == '-' || s[0] == '+' then s[1..] else s;
      Atoi(s).value == if s[0] == '-' then -(DecimalValue(digits) as int) else DecimalValue(digits)
  {
    if s != [] {
      ParseDigitsSpec(if s[0] == '-' || s[0] == '+' then s[1..] else s);
    }
  }

  /** The decimal rendering of a signed integer, as `strconv.Itoa` and `%d` print it. */
  function FormatInt(n: int): (s: seq<char>)
    ensures s != [] && IsDigit(s[|s| - 1]) && (IsDigit(s[0]) || s[0] == '-')
  {
    if n < 0 then ['-'] + FormatUint(-n) else FormatUint(n)
  }

  /** Parsing the rendering of an `int64` gives it back. */
  lemma AtoiOfFormat(n: int)
    requires MinInt64 <= n <= MaxInt64
    ensures Atoi(FormatInt(n)) == Some(n)
  {
    var s := FormatInt(n);
    var digits := FormatUint(if n < 0 then -n else n);
    if n < 0 {
      assert s[1..] == digits;
    }
    ParseDigitsSpec(digits);
  }

  /** `Atoi` accepts no white space or other stray character anywhere in its input. */
  lemma AtoiRejectsStray(s: seq<char>, i: nat)
    requires i < |s| && !IsDigit(s[i]) && (i > 0 || (s[0] != '-' && s[0] != '+'))
    ensures Atoi(s) == None
  {
    var digits := if s[0] == '-' || s[0] == '+' then s[1..] else s;
    if s[0] == '-' || s[0] == '+' {
      assert digits[i - 1] == s[i];
    }
    ParseDigitsSpec(digits);
  }
}
