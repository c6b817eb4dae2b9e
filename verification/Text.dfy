/** String primitives used by the statistics text format: the searches and cuts of std::string
    (with size_t arithmetic) and the number printers and readers of the C library. */
module Text {

  datatype Option<+T> = None | Some(value: T) {
    predicate IsFailure() { None? }

    function PropagateFailure<U>(): Option<U>
      requires None?
    {
      None
    }

    function Extract(): T
      requires Some?
    {
      value
    }
  }

  /** std::string::npos, and size_t arithmetic, which wraps. */
  const NPOS: nat := 0xFFFF_FFFF_FFFF_FFFF

  function SizeT(x: int): (r: nat)
    ensures r <= NPOS
    ensures 0 <= x <= NPOS ==> r == x
  {
    x % (NPOS + 1)
  }

  /** Index of the first occurrence of c, or |s|. */
  function IndexOf(s: string, c: char): (r: nat)
    ensures r <= |s|
    ensures r < |s| ==> s[r] == c
    ensures c !in s[..r]
    ensures r == |s| <==> c !in s
  {
    if s == [] then 0
    else if s[0] == c then 0
    else
      var i := IndexOf(s[1..], c);
      assert s[..i + 1] == [s[0]] + s[1..][..i];
      assert s == [s[0]] + s[1..];
      i + 1
  }

  /** std::string::find of a one-character pattern. */
  function Find(s: string, c: char): (r: nat)
  {
    var i := IndexOf(s, c);
    if i == |s| then NPOS else i
  }

  /** std::string::substr; None is the out_of_range exception. */
  function Substr(s: string, pos: nat, len: nat): Option<string> {
    if pos > |s| then None
    else Some(s[pos..if pos + len < |s| then pos + len else |s|])
  }

  function Count(s: string, c: char): nat {
    if s == [] then 0 else (if s[0] == c then 1 else 0) + Count(s[1..], c)
  }

  /** The parts, separated by sep. */
  function Join(parts: seq<string>, sep: char): string {
    if |parts| == 0 then []
    else if |parts| == 1 then parts[0]
    else Join(parts[..|parts| - 1], sep) + [sep] + parts[|parts| - 1]
  }

  // -------- the order of strings --------

  /** std::string::compare: below zero, zero or above zero. */
  function Compare(a: string, b: string): (c: int) {
    if a == [] && b == [] then 0
    else if a == [] then -1
    else if b == [] then 1
    else if a[0] < b[0] then -1
    else if a[0] > b[0] then 1
    else Compare(a[1..], b[1..])
  }

  lemma {:induction false} CompareIsOrder(a: string, b: string)
    ensures Compare(a, b) == -Compare(b, a) && (Compare(a, b) == 0 <==> a == b)
    decreases |a|
  {
    if a != [] && b != [] && a[0] == b[0] {
      CompareIsOrder(a[1..], b[1..]);
      assert a == [a[0]] + a[1..] && b == [b[0]] + b[1..];
    }
  }

  lemma {:induction false} CompareIsTransitive(a: string, b: string, c: string)
    requires Compare(a, b) < 0 && Compare(b, c) < 0
    ensures Compare(a, c) < 0
    decreases |a|
  {
    if a != [] && b != [] && c != [] && a[0] == b[0] == c[0] {
      CompareIsTransitive(a[1..], b[1..], c[1..]);
    }
  }

  /** At the first place where the two differ, the first string ends or has the smaller character. */
  ghost predicate SmallerAt(a: string, b: string, k: nat) {
    k <= |a| && k < |b| && a[..k] == b[..k] && (k == |a| || a[k] < b[k])
  }

  lemma SmallerInRest(a: string, b: string, k: nat)
    requires SmallerAt(a, b, k)
    ensures k > 0 ==> a[0] == b[0] && SmallerAt(a[1..], b[1..], k - 1)
  {
    if k > 0 {
      assert a[0] == a[..k][0] && b[0] == b[..k][0];
      assert a[1..][..k - 1] == a[..k][1..] && b[1..][..k - 1] == b[..k][1..];
    }
  }

  lemma {:induction false} CompareIff(a: string, b: string)
    ensures Compare(a, b) < 0 <==> exists k: nat :: SmallerAt(a, b, k)
    decreases |a|
  {
    if a == [] || b == [] || a[0] != b[0] {
      if Compare(a, b) < 0 { assert SmallerAt(a, b, 0); }
      forall k: nat | SmallerAt(a, b, k) ensures k == 0 { SmallerInRest(a, b, k); }
    } else {
      var c, d := a[1..], b[1..];
      CompareIff(c, d);
      if Compare(c, d) < 0 {
        var k: nat :| SmallerAt(c, d, k);
        assert a[..k + 1] == [a[0]] + c[..k] && b[..k + 1] == [b[0]] + d[..k];
        assert SmallerAt(a, b, k + 1);
      }
      forall k: nat | SmallerAt(a, b, k) ensures k > 0 && SmallerAt(c, d, k - 1) { SmallerInRest(a, b, k); }
    }
  }

  /** The order in which a map goes through its keys. */
  predicate Before(a: string, b: string) { Compare(a, b) < 0 }

  ghost predicate IsFirst(keys: set<string>, k: string) {
    k in keys && forall j :: j in keys && j != k ==> Before(k, j)
  }

  /** The key that comes first. */
  method First(keys: set<string>) returns (k: string)
    requires keys != {}
    ensures IsFirst(keys, k)
  {
    hide Compare;
    k :| k in keys;
    var rest := keys - {k};
    while rest != {}
      invariant rest <= keys && k in keys && k !in rest
      invariant forall j :: j in keys && j !in rest && j != k ==> Before(k, j)
      decreases rest
    {
      var j :| j in rest;
      CompareIsOrder(j, k);
      if Before(j, k) {
        forall i | i in keys && i !in rest && i != k ensures Before(j, i) { CompareIsTransitive(j, k, i); }
        k := j;
      }
      rest := rest - {j};
    }
  }

  // -------- decimal numbers --------

  predicate IsDigit(c: char) { '0' <= c <= '9' }

  function Digit(d: nat): (c: char)
    requires d < 10
    ensures IsDigit(c) && c as int - '0' as int == d
  {
    ('0' as int + d) as char
  }

  /** Decimal digits of n, without leading zeros. */
  function Dec(n: nat): (s: string)
    ensures |s| > 0 && forall c :: c in s ==> IsDigit(c)
  {
    if n < 10 then [Digit(n)] else Dec(n / 10) + [Digit(n % 10)]
  }

  /** The k low decimal digits of n. */
  function FixedDigits(n: nat, k: nat): (s: string)
    ensures |s| == k && forall c :: c in s ==> IsDigit(c)
  {
    if k == 0 then [] else FixedDigits(n / 10, k - 1) + [Digit(n % 10)]
  }

  function DigitValue(c: char): (d: nat)
    requires IsDigit(c)
  {
    c as int - '0' as int
  }

  function Value(s: string): nat
    requires forall c :: c in s ==> IsDigit(c)
  {
    if s == [] then 0 else 10 * Value(s[..|s| - 1]) + DigitValue(s[|s| - 1])
  }

  /** Longest prefix of digits. */
  function Digits(s: string): (d: string)
    ensures d <= s && forall c :: c in d ==> IsDigit(c)
    ensures |d| == |s| || !IsDigit(s[|d|])
  {
    if s == [] || !IsDigit(s[0]) then [] else [s[0]] + Digits(s[1..])
  }

  function Abs(n: int): nat { if n < 0 then -n else n }

  /** sprintf "%i". */
  function PrintInt(n: int): (s: string)
    ensures |s| > 0 && forall c :: c in s ==> IsDigit(c) || c == '-'
  {
    if n < 0 then "-" + Dec(-n) else Dec(n)
  }

  /** atoi, for text without leading blanks. */
  function Atoi(s: string): int {
    if s != [] && s[0] == '-' then 0 - Value(Digits(s[1..]))
    else if s != [] && s[0] == '+' then Value(Digits(s[1..]))
    else Value(Digits(s))
  }

  const MICRO: nat := 1000000

  function PrintFixedAbs(m: nat): (s: string)
    ensures |s| > 0 && IsDigit(s[0])
    ensures forall c :: c in s ==> IsDigit(c) || c == '.'
  {
    Dec(m / MICRO) + "." + FixedDigits(m % MICRO, 6)
  }

  /** sprintf "%f" of the number m / 1000000. */
  function PrintFixed(m: int): (s: string)
    ensures |s| > 0 && forall c :: c in s ==> IsDigit(c) || c == '.' || c == '-'
  {
    if m < 0 then "-" + PrintFixedAbs(-m) else PrintFixedAbs(m)
  }

  function Pad6(d: string): (r: string)
    requires forall c :: c in d ==> IsDigit(c)
    ensures |r| == 6 && forall c :: c in r ==> IsDigit(c)
    decreases 6 - |d|
  {
    if |d| >= 6 then d[..6] else Pad6(d + "0")
  }

  /** The digits after the point. */
  function Fraction(s: string): (d: string)
    ensures forall c :: c in d ==> IsDigit(c)
  {
    if s != [] && s[0] == '.' then Digits(s[1..]) else []
  }

  /** atof in millionths, for decimal text without exponent; digits past the sixth are cut. */
  function AtofAbs(s: string): nat {
    var whole := Digits(s);
    Value(whole) * MICRO + Value(Pad6(Fraction(s[|whole|..])))
  }

  function Atof(s: string): int {
    if s != [] && s[0] == '-' then 0 - AtofAbs(s[1..])
    else if s != [] && s[0] == '+' then AtofAbs(s[1..])
    else AtofAbs(s)
  }

  // -------- lemmas --------

  predicate Stops(rest: string) { rest == [] || !IsDigit(rest[0]) }

  lemma {:induction false} DigitsOfPrefix(d: string, rest: string)
    requires (forall c :: c in d ==> IsDigit(c)) && Stops(rest)
    ensures Digits(d + rest) == d
  {
    if d == [] {
      assert d + rest == rest;
    } else {
      assert (d + rest)[1..] == d[1..] + rest;
      DigitsOfPrefix(d[1..], rest);
    }
  }

  lemma {:induction false} ValueOfDec(n: nat)
    ensures Value(Dec(n)) == n
  {
    if n >= 10 {
      ValueOfDec(n / 10);
      assert Dec(n)[..|Dec(n)| - 1] == Dec(n / 10);
    } else {
      assert Dec(n)[..0] == [];
    }
  }

  function Pow10(k: nat): nat { if k == 0 then 1 else 10 * Pow10(k - 1) }

  lemma {:induction false} ValueOfFixed(n: nat, k: nat)
    requires n < Pow10(k)
    ensures Value(FixedDigits(n, k)) == n
  {
    if k > 0 {
      ValueOfFixed(n / 10, k - 1);
      assert FixedDigits(n, k)[..k - 1] == FixedDigits(n / 10, k - 1);
    }
  }

  lemma SignedBody(s: string)
    ensures ("-" + s)[0] == '-' && ("-" + s)[1..] == s
  {
  }

  /** Reading back a printed integer ignores whatever follows the last digit. */
  lemma AtoiOfPrint(n: int, rest: string)
    requires Stops(rest)
    ensures Atoi(PrintInt(n) + rest) == n
  {
    hide Dec, Digits, Value;
    var d := Dec(Abs(n));
    DigitsOfPrefix(d, rest);
    ValueOfDec(Abs(n));
    if n < 0 {
      assert PrintInt(n) + rest == "-" + (d + rest);
      SignedBody(d + rest);
    } else {
      assert (d + rest)[0] == d[0];
      assert IsDigit((d + rest)[0]);
    }
  }

  lemma AtofAbsOfPrint(m: nat, rest: string)
    requires Stops(rest)
    ensures AtofAbs(PrintFixedAbs(m) + rest) == m
  {
    hide Dec, Digits, Value, FixedDigits;
    var whole, frac := Dec(m / MICRO), FixedDigits(m % MICRO, 6);
    var s := whole + "." + frac + rest;
    assert s == whole + ("." + frac + rest);
    DigitsOfPrefix(whole, "." + frac + rest);
    assert s[|whole|..] == "." + frac + rest;
    assert ("." + frac + rest)[1..] == frac + rest;
    DigitsOfPrefix(frac, rest);
    ValueOfDec(m / MICRO);
    assert Pow10(6) == MICRO by {
      assert Pow10(3) == 1000;
    }
    ValueOfFixed(m % MICRO, 6);
    assert Pad6(frac) == frac;
  }

  lemma AtofOfPrint(m: int, rest: string)
    requires Stops(rest)
    ensures Atof(PrintFixed(m) + rest) == m
  {
    hide AtofAbs, PrintFixedAbs;
    var body := PrintFixedAbs(Abs(m));
    AtofAbsOfPrint(Abs(m), rest);
    if m < 0 {
      assert PrintFixed(m) + rest == "-" + (body + rest);
      SignedBody(body + rest);
    } else {
      assert IsDigit((body + rest)[0]);
    }
  }

  lemma {:induction false} DigitsStop(s: string, rest: string)
    requires Stops(rest)
    ensures Digits(s + rest) == Digits(s)
  {
    if s == [] {
      assert s + rest == rest;
    } else {
      assert (s + rest)[1..] == s[1..] + rest && (s + rest)[0] == s[0];
      DigitsStop(s[1..], rest);
    }
  }

  lemma AtofAbsStops(s: string, rest: string)
    requires rest == [] || (!IsDigit(rest[0]) && rest[0] != '.')
    ensures AtofAbs(s + rest) == AtofAbs(s)
  {
    hide Value, Pad6, Digits;
    DigitsStop(s, rest);
    var k := |Digits(s)|;
    assert (s + rest)[k..] == s[k..] + rest;
    FractionStops(s[k..], rest);
  }

  lemma FractionStops(s: string, rest: string)
    requires rest == [] || (!IsDigit(rest[0]) && rest[0] != '.')
    ensures Fraction(s + rest) == Fraction(s)
  {
    if s == [] {
      assert s + rest == rest;
    } else {
      assert (s + rest)[1..] == s[1..] + rest;
      DigitsStop(s[1..], rest);
    }
  }

  /** Reading a number ignores what follows, if it cannot be part of the number. */
  lemma AtofStops(s: string, rest: string)
    requires s != [] && (rest == [] || (!IsDigit(rest[0]) && rest[0] != '.'))
    ensures Atof(s + rest) == Atof(s)
  {
    hide AtofAbs;
    assert (s + rest)[0] == s[0] && (s + rest)[1..] == s[1..] + rest;
    AtofAbsStops(s, rest);
    AtofAbsStops(s[1..], rest);
  }

  lemma AtofAbsOfDec(n: nat)
    ensures AtofAbs(Dec(n)) == n * MICRO
  {
    DigitsOfPrefix(Dec(n), []);
    assert Dec(n) + [] == Dec(n) && Dec(n)[|Dec(n)|..] == [];
    ValueOfDec(n);
    PadOfZeros([]);
    ValueOfZeros(Pad6([]));
  }

  /** An integer read as a number. */
  lemma AtofOfInt(n: int, rest: string)
    requires rest == [] || (!IsDigit(rest[0]) && rest[0] != '.')
    ensures Atof(PrintInt(n) + rest) == n * MICRO
  {
    hide AtofAbs, Dec;
    AtofStops(PrintInt(n), rest);
    AtofAbsOfDec(Abs(n));
    assert IsDigit(Dec(Abs(n))[0]);
    if n < 0 { SignedBody(Dec(Abs(n))); }
  }

  predicate Zeros(d: string) { forall i :: 0 <= i < |d| ==> d[i] == '0' }

  lemma {:induction false} PadOfZeros(d: string)
    requires Zeros(d) && |d| <= 6
    ensures Zeros(Pad6(d))
    decreases 6 - |d|
  {
    if |d| < 6 {
      PadOfZeros(d + "0");
      assert Pad6(d) == Pad6(d + "0");
    } else {
      assert d[..6] == d;
    }
  }

  lemma {:induction false} ValueOfZeros(d: string)
    requires Zeros(d)
    ensures Value(d) == 0
  {
    if d != [] { ValueOfZeros(d[..|d| - 1]); }
  }

  lemma {:induction false} FindPast(a: string, b: string, c: char)
    requires c !in a
    ensures IndexOf(a + b, c) == |a| + IndexOf(b, c)
  {
    if a == [] {
      assert a + b == b;
    } else {
      assert (a + b)[1..] == a[1..] + b;
      FindPast(a[1..], b, c);
    }
  }

  lemma FindAfter(a: string, c: char, b: string)
    requires c !in a
    ensures IndexOf(a + [c] + b, c) == |a|
  {
    assert a + [c] + b == a + ([c] + b);
    FindPast(a, [c] + b, c);
  }

  lemma {:induction false} CountConcat(a: string, b: string, c: char)
    ensures Count(a + b, c) == Count(a, c) + Count(b, c)
  {
    if a == [] {
      assert a + b == b;
    } else {
      assert (a + b)[1..] == a[1..] + b;
      CountConcat(a[1..], b, c);
    }
  }

  lemma {:induction false} CountNone(a: string, c: char)
    requires c !in a
    ensures Count(a, c) == 0
  {
    if a != [] { CountNone(a[1..], c); }
  }

  lemma {:induction false} JoinHead(parts: seq<string>, sep: char)
    requires |parts| >= 2
    ensures Join(parts, sep) == parts[0] + [sep] + Join(parts[1..], sep)
  {
    var n := |parts|;
    if n == 2 {
      assert parts[..1] == [parts[0]] && parts[1..] == [parts[1]];
    } else {
      JoinHead(parts[..n - 1], sep);
      assert parts[..n - 1][1..] == parts[1..][..n - 2];
      assert parts[1..][n - 2] == parts[n - 1];
    }
  }

  lemma {:induction false} JoinAvoids(parts: seq<string>, sep: char, c: char)
    requires c != sep && forall p :: p in parts ==> c !in p
    ensures c !in Join(parts, sep)
  {
    if |parts| >= 2 { JoinAvoids(parts[..|parts| - 1], sep, c); }
  }

  lemma {:induction false} JoinCount(parts: seq<string>, sep: char)
    requires |parts| >= 1 && forall p :: p in parts ==> sep !in p
    ensures Count(Join(parts, sep), sep) == |parts| - 1
  {
    var n := |parts|;
    if n == 1 {
      CountNone(parts[0], sep);
    } else {
      var front := Join(parts[..n - 1], sep);
      JoinCount(parts[..n - 1], sep);
      CountConcat(front + [sep], parts[n - 1], sep);
      CountConcat(front, [sep], sep);
      CountNone(parts[n - 1], sep);
    }
  }

  /** Everything from the k-th part on, when the text of the parts is followed by tail. */
  function Rest(parts: seq<string>, sep: char, k: nat, tail: string): string
    requires k < |parts|
  {
    Join(parts[k..], sep) + tail
  }

  lemma RestStep(parts: seq<string>, sep: char, k: nat, tail: string)
    requires k + 1 < |parts| && sep !in parts[k]
    ensures Rest(parts, sep, k, tail) == parts[k] + [sep] + Rest(parts, sep, k + 1, tail)
    ensures IndexOf(Rest(parts, sep, k, tail), sep) == |parts[k]|
    ensures Rest(parts, sep, k, tail)[|parts[k]| + 1..] == Rest(parts, sep, k + 1, tail)
  {
    JoinHead(parts[k..], sep);
    assert parts[k..][1..] == parts[k + 1..];
    var next := Rest(parts, sep, k + 1, tail);
    assert Rest(parts, sep, k, tail) == parts[k] + [sep] + next;
    FindAfter(parts[k], sep, next);
  }

  lemma RestLast(parts: seq<string>, sep: char, tail: string)
    requires |parts| > 0
    ensures Rest(parts, sep, |parts| - 1, tail) == parts[|parts| - 1] + tail
  {
    assert parts[|parts| - 1..] == [parts[|parts| - 1]];
  }

  /** A cut that starts at a field and is at least as long yields the field and part of what follows. */
  lemma CutField(s: string, pos: nat, field: string, tail: string, len: nat)
    requires pos <= |s| && s[pos..] == field + tail && |field| <= len
    ensures
      var k := if len - |field| < |tail| then len - |field| else |tail|;
      Substr(s, pos, len) == Some(field + tail[..k])
  {
    var k := if len - |field| < |tail| then len - |field| else |tail|;
    assert |s| == pos + |field| + |tail|;
    assert s[pos..pos + |field| + k] == s[pos..][..|field| + k];
    assert (field + tail)[..|field| + k] == field + tail[..k];
  }

  lemma AfterSeparator(p: string, sep: char, x: string)
    ensures (p + ([sep] + x))[|p| + 1..] == x
  {
  }
}
