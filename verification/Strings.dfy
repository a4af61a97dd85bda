/** The kernel's string conversions: printing and parsing numbers, splitting at a separator. */
module Strings {

  const TWO_TO_31: int := 0x8000_0000
  const TWO_TO_32: int := 0x1_0000_0000

  // ---------------------------------------------------------------- C strings

  /** The characters of a buffer up to the first NUL. */
  function StrOf(a: string): (s: string)
    ensures |s| <= |a| && s <= a && '\0' !in s && (|s| < |a| ==> a[|s|] == '\0')
  {
    if a == [] || a[0] == '\0' then [] else [a[0]] + StrOf(a[1..])
  }

  lemma {:induction false} StrOfIs(a: string, n: nat)
    requires n < |a| && a[n] == '\0' && forall i :: 0 <= i < n ==> a[i] != '\0'
    ensures StrOf(a) == a[..n]
  {
    if n > 0 {
      StrOfIs(a[1..], n - 1);
    }
  }

  /** strlen */
  method StrLen(str: array<char>) returns (len: nat)
    requires '\0' in str[..]
    ensures len == |StrOf(str[..])| < str.Length
  {
    len := 0;
    while str[len] != '\0'
      invariant len < str.Length && forall i :: 0 <= i < len ==> str[i] != '\0'
      decreases str.Length - len
    {
      len := len + 1;
    }
    StrOfIs(str[..], len);
  }

  // ---------------------------------------------------------------- printing

  const DIGITS: string := "0123456789ABCDEF"

  lemma {:induction false} TimesAtLeast(a: int, b: int, k: nat)
    requires a <= b
    ensures a * k <= b * k
  {
    if k > 0 {
      TimesAtLeast(a, b, k - 1);
    }
  }

  /** Dividing by a base leaves at most half. */
  lemma Halves(n: nat, base: nat)
    requires base >= 2
    ensures 0 <= n / base && 2 * (n / base) <= n
    ensures n / base == 0 <==> n < base
  {
    var q, r := n / base, n % base;
    assert n == base * q + r && 0 <= r < base;
    if q < 0 {
      TimesAtLeast(1, -q, base);
      assert false;
    }
    TimesAtLeast(2, base, q);
    if q > 0 {
      TimesAtLeast(1, q, base);
    }
  }

  /** The digits of `n`, without leading zeros. */
  function Digits(n: nat, base: nat): (s: string)
    requires 2 <= base <= 16
    ensures |s| >= 1
  {
    Halves(n, base);
    if n < base then [DIGITS[n]] else Digits(n / base, base) + [DIGITS[n % base]]
  }

  function Zeros(k: int): (s: string)
    ensures |s| == (if k > 0 then k else 0) && forall i :: 0 <= i < |s| ==> s[i] == '0'
  {
    seq(if k > 0 then k else 0, i => '0')
  }

  /** A sign if negative, zeros up to the padding, and the digits. */
  function Printed(n: int, base: nat, padding: int): string
    requires 2 <= base <= 16
  {
    if n < 0 then
      var d := Digits(-n, base);
      "-" + Zeros(padding - |d| - 1) + d
    else
      var d := Digits(n, base);
      Zeros(padding - |d|) + d
  }

  /** The first loop of int_to_str_padding. */
  method CountDigits(n: nat, base: nat) returns (count: nat)
    requires 2 <= base <= 16
    ensures count == |Digits(n, base)|
  {
    count := 1;
    Halves(n, base);
    var temp: nat := n / base;
    while temp != 0
      invariant count + (if temp == 0 then 0 else |Digits(temp, base)|) == |Digits(n, base)|
      decreases temp
    {
      Halves(temp, base);
      count := count + 1;
      temp := temp / base;
    }
  }

  lemma LastDigit(d: string, rest: nat, base: nat, i: nat)
    requires 2 <= base <= 16 && i < |d| && Digits(rest, base) == d[..|d| - i]
    ensures d[|d| - 1 - i] == DIGITS[rest % base]
    ensures rest / base >= 0
    ensures if rest / base == 0 then i + 1 == |d| else i + 1 < |d| && Digits(rest / base, base) == d[..|d| - (i + 1)]
  {
    Halves(rest, base);
    var last := d[..|d| - i];
    assert last[|last| - 1] == d[|d| - 1 - i];
    if rest >= base {
      assert Digits(rest / base, base) == last[..|last| - 1] == d[..|d| - (i + 1)];
    } else {
      assert rest % base == rest;
    }
  }

  /** The last loop: the digits from the right, up to the place before `end`. */
  method PutDigits(n: nat, buffer: array<char>, base: nat, end: nat)
    requires 2 <= base <= 16 && |Digits(n, base)| <= end <= buffer.Length
    modifies buffer
    ensures buffer[end - |Digits(n, base)|..end] == Digits(n, base)
    ensures forall k :: 0 <= k < buffer.Length && !(end - |Digits(n, base)| <= k < end) ==> buffer[k] == old(buffer[k])
  {
    hide Digits;
    var rest: nat, i := n, 0;
    ghost var d := Digits(n, base);
    while true
      invariant i < |d| && Digits(rest, base) == d[..|d| - i]
      invariant forall k :: |d| - i <= k < |d| ==> buffer[end - |d| + k] == d[k]
      invariant forall k :: 0 <= k < buffer.Length && !(end - i <= k < end) ==> buffer[k] == old(buffer[k])
      decreases rest
    {
      Halves(rest, base);
      LastDigit(d, rest, base, i);
      buffer[end - 1 - i] := DIGITS[rest % base];
      i := i + 1;
      if rest / base == 0 {
        break;
      }
      rest := rest / base;
    }
  }

  /** The padding loop: zeros from place `from` on; `nOfDigits` counts them too. */
  method PutZeros(buffer: array<char>, from: nat, nOfDigits: nat, padding: int) returns (total: nat)
    requires from + |Zeros(padding)| <= buffer.Length
    modifies buffer
    ensures total == nOfDigits + |Zeros(padding)|
    ensures forall k :: 0 <= k < buffer.Length ==>
      buffer[k] == if from <= k < from + |Zeros(padding)| then '0' else old(buffer[k])
  {
    var i, pad := from, padding;
    total := nOfDigits;
    while pad > 0
      invariant from <= i && i - from + (if pad > 0 then pad else 0) == |Zeros(padding)|
      invariant total == nOfDigits + (i - from)
      invariant forall k :: 0 <= k < buffer.Length ==> buffer[k] == if from <= k < i then '0' else old(buffer[k])
    {
      buffer[i] := '0';
      i := i + 1;
      total := total + 1;
      pad := pad - 1;
    }
  }

  /** A buffer with a sign, zeros and digits in their places holds the printed number. */
  lemma PrintedParts(s: string, n: int, base: nat, padding: int, neg: nat, total: nat)
    requires 2 <= base <= 16 && neg == if n < 0 then 1 else 0
    requires var d := Digits(if n < 0 then -n else n, base);
      var z := Zeros(padding - |d| - neg);
      && total == neg + |z| + |d| <= |s| && s[total - |d|..total] == d
      && (forall k :: neg <= k < neg + |z| ==> s[k] == '0') && (neg == 1 ==> s[0] == '-')
    ensures s[..total] == Printed(n, base, padding)
  {
    hide Digits, Zeros;
    var d := Digits(if n < 0 then -n else n, base);
    var z := Zeros(padding - |d| - neg);
    assert s[neg..neg + |z|] == z;
    assert s[..neg] == if n < 0 then "-" else "";
    assert s[..total] == s[..neg] + z + d;
  }

  lemma PrintedLength(n: int, base: nat, padding: int)
    requires 2 <= base <= 16
    ensures var neg, d := if n < 0 then 1 else 0, Digits(if n < 0 then -n else n, base);
      |Printed(n, base, padding)| == neg + |Zeros(padding - |d| - neg)| + |d|
  {
  }

  /** int_to_str_padding; INT_MIN, which has no negation, is excluded. */
  method IntToStrPadding(n: int, buffer: array<char>, base: nat, padding: int)
    requires 2 <= base <= 16 && -TWO_TO_31 < n < TWO_TO_31 && buffer.Length > |Printed(n, base, padding)|
    modifies buffer
    ensures StrOf(buffer[..]) == Printed(n, base, padding)
  {
    hide Printed, Digits, Zeros, StrOf;
    PrintedLength(n, base, padding);
    var m, neg: nat := n, 0;
    if n < 0 {
      m := -n;
      neg := 1;
    }
    var nOfDigits := CountDigits(m, base);
    if neg == 1 {
      nOfDigits := nOfDigits + 1;
      buffer[0] := '-';
    }
    var total := PutZeros(buffer, neg, nOfDigits, padding - nOfDigits);
    PutDigits(m, buffer, base, total);
    buffer[total] := '\0';
    PrintedParts(buffer[..], n, base, padding, neg, total);
    NoNul(n, base, padding);
    StrOfIs(buffer[..], total);
  }

  lemma {:induction false} DigitsAreDigits(n: nat, base: nat)
    requires 2 <= base <= 16
    ensures forall i :: 0 <= i < |Digits(n, base)| ==> Digits(n, base)[i] in DIGITS
  {
    Halves(n, base);
    if n >= base {
      DigitsAreDigits(n / base, base);
    }
  }

  lemma NoNul(n: int, base: nat, padding: int)
    requires 2 <= base <= 16
    ensures '\0' !in Printed(n, base, padding)
  {
    DigitsAreDigits(if n < 0 then -n else n, base);
  }

  /** The output is as long as the padding asks for, or as the digits (and the sign) need. */
  lemma PrintedIsPadded(n: int, base: nat, padding: int)
    requires 2 <= base <= 16
    ensures var need := |Digits(if n < 0 then -n else n, base)| + (if n < 0 then 1 else 0);
      |Printed(n, base, padding)| == if padding > need then padding else need
  {
    PrintedLength(n, base, padding);
  }

  // ---------------------------------------------------------------- parsing

  /** The number that the characters stand for, counted from '0'. */
  function Value(s: string): int {
    if s == [] then 0 else 10 * Value(s[..|s| - 1]) + (s[|s| - 1] as int - '0' as int)
  }

  lemma DigitValue(k: nat)
    requires k < 10
    ensures DIGITS[k] as int - '0' as int == k
  {
  }

  lemma {:induction false} DigitsValue(n: nat)
    ensures Value(Digits(n, 10)) == n
  {
    DigitValue(n % 10);
    if n >= 10 {
      DigitsValue(n / 10);
      assert Digits(n, 10)[..|Digits(n, 10)| - 1] == Digits(n / 10, 10);
    }
  }

  lemma {:induction false} ZerosValue(z: string, s: string)
    requires forall i :: 0 <= i < |z| ==> z[i] == '0'
    ensures Value(z + s) == Value(s)
    decreases |z| + |s|
  {
    var t := z + s;
    if s != [] {
      assert t[..|t| - 1] == z + s[..|s| - 1];
      ZerosValue(z, s[..|s| - 1]);
    } else if z != [] {
      assert t == z && z[..|z| - 1] + [] == z[..|z| - 1];
      ZerosValue(z[..|z| - 1], []);
    }
  }

  /** Parsing what was printed, with any padding, gives the number. */
  lemma PrintThenParse(n: int, padding: int)
    requires 0 <= n < TWO_TO_31
    ensures Value(Printed(n, 10, padding)) % TWO_TO_32 == n
  {
    DigitsValue(n);
    ZerosValue(Zeros(padding - |Digits(n, 10)|), Digits(n, 10));
  }

  /** What a digit stands for, in any base up to 16. */
  function DigitOf(c: char): int {
    if '0' <= c <= '9' then c as int - '0' as int else c as int - 'A' as int + 10
  }

  predicate IsDigit(c: char, base: nat) {
    ('0' <= c <= '9' || 'A' <= c <= 'F') && DigitOf(c) < base
  }

  /** The number that the digits stand for in a base, read from the left. */
  function ValueIn(s: string, base: nat): int {
    if s == [] then 0 else base * ValueIn(s[..|s| - 1], base) + DigitOf(s[|s| - 1])
  }

  /** The same with a sign. */
  function SignedIn(s: string, base: nat): int {
    if s != [] && s[0] == '-' then -ValueIn(s[1..], base) else ValueIn(s, base)
  }

  lemma DigitStandsFor(k: nat)
    requires k < 16
    ensures DigitOf(DIGITS[k]) == k && IsDigit(DIGITS[k], k + 1)
  {
  }

  /** The digits stand for the number, and the first is no zero unless the number is. */
  lemma {:induction false} DigitsStandFor(n: nat, base: nat)
    requires 2 <= base <= 16
    ensures ValueIn(Digits(n, base), base) == n
    ensures forall i :: 0 <= i < |Digits(n, base)| ==> IsDigit(Digits(n, base)[i], base)
    ensures Digits(n, base)[0] == '0' ==> n == 0 && |Digits(n, base)| == 1
  {
    Halves(n, base);
    DigitStandsFor(n % base);
    if n >= base {
      DigitsStandFor(n / base, base);
      assert Digits(n, base)[..|Digits(n, base)| - 1] == Digits(n / base, base);
    } else {
      assert n % base == n;
      assert [DIGITS[n]][..0] == [];
    }
  }

  lemma {:induction false} ZerosStandForNothing(z: string, s: string, base: nat)
    requires forall i :: 0 <= i < |z| ==> z[i] == '0'
    ensures ValueIn(z + s, base) == ValueIn(s, base)
    decreases |z| + |s|
  {
    var t := z + s;
    if s != [] {
      assert t[..|t| - 1] == z + s[..|s| - 1];
      ZerosStandForNothing(z, s[..|s| - 1], base);
    } else if z != [] {
      assert t == z && z[..|z| - 1] + [] == z[..|z| - 1];
      ZerosStandForNothing(z[..|z| - 1], [], base);
    }
  }

  /** What is printed stands for the number, in every base and with every padding, sign and letters included. */
  lemma PrintedStandsFor(n: int, base: nat, padding: int)
    requires 2 <= base <= 16
    ensures SignedIn(Printed(n, base, padding), base) == n
  {
    hide Digits, ValueIn, Zeros;
    var m := if n < 0 then -n else n;
    var d := Digits(m, base);
    DigitsStandFor(m, base);
    var z := Zeros(padding - |d| - (if n < 0 then 1 else 0));
    ZerosStandForNothing(z, d, base);
    if n < 0 {
      assert Printed(n, base, padding)[1..] == z + d;
    } else {
      assert Printed(n, base, padding) == z + d;
    }
  }

  // The parser works modulo 2^32; exact values are carried along in the proof.

  lemma WrapsSum(r: int, p: int, d: int)
    ensures (r % TWO_TO_32 + d * (p % TWO_TO_32)) % TWO_TO_32 == (r + d * p) % TWO_TO_32
  {
    var a, b := r / TWO_TO_32, p / TWO_TO_32;
    assert r + d * p == r % TWO_TO_32 + d * (p % TWO_TO_32) + TWO_TO_32 * (a + d * b) by {
      assert p == p % TWO_TO_32 + TWO_TO_32 * b;
      assert d * p == d * (p % TWO_TO_32) + TWO_TO_32 * (d * b);
    }
    ModPlusMultiple(r % TWO_TO_32 + d * (p % TWO_TO_32), a + d * b);
  }

  lemma ModPlusMultiple(x: int, k: int)
    ensures (x + TWO_TO_32 * k) % TWO_TO_32 == x % TWO_TO_32
  {
  }

  lemma OneDigitMore(r: int, p: int, v: int, d: int)
    ensures r + p * (10 * v + d) == (r + d * p) + 10 * p * v
  {
  }

  /** decimal_to_uint */
  method DecimalToUint(str: array<char>) returns (result: int)
    requires '\0' in str[..]
    ensures result == Value(StrOf(str[..])) % TWO_TO_32
  {
    hide StrOf;
    ghost var s := StrOf(str[..]);
    var len := StrLen(str);
    result := 0;
    var power := 1;
    ghost var r, p := 0, 1;
    var i := len as int - 1;
    assert s[..len] == s;
    while i >= 0
      invariant -1 <= i < len
      invariant result == r % TWO_TO_32 && power == p % TWO_TO_32
      invariant r + p * Value(s[..i + 1]) == Value(s)
    {
      var d := str[i] as int - '0' as int;
      WrapsSum(r, p, d);
      WrapsSum(0, p, 10);
      OneDigitMore(r, p, Value(s[..i]), d);
      assert s[..i + 1][..i] == s[..i] && s[i] == str[i];
      result := (result + d * power) % TWO_TO_32;
      power := power * 10 % TWO_TO_32;
      r, p := r + d * p, 10 * p;
      i := i - 1;
    }
  }

  // ---------------------------------------------------------------- splitting

  /** The substrings between the separators; there is always at least one. */
  function Split(s: string, sep: char): (p: seq<string>)
    ensures |p| >= 1
  {
    if s == [] then [[]]
    else
      var rest := Split(s[1..], sep);
      if s[0] == sep then [[]] + rest else [[s[0]] + rest[0]] + rest[1..]
  }

  /** seperate_and_take: the index-th substring, or the whole string if there is no such. */
  function Piece(s: string, sep: char, index: int): string {
    if 0 <= index < |Split(s, sep)| then Split(s, sep)[index] else s
  }

  /** Occurrences from place `from` on. */
  function Occurrences(s: string, sep: char, from: nat): (n: nat)
    decreases |s| - from
  {
    if from >= |s| then 0 else (if s[from] == sep then 1 else 0) + Occurrences(s, sep, from + 1)
  }

  /** count_substrings: one more than the separators from the second character on. */
  function CountOf(s: string, sep: char): nat { 1 + Occurrences(s, sep, 1) }

  /** The substrings with separators between them. */
  function Join(p: seq<string>, sep: char): string {
    if p == [] then [] else if |p| == 1 then p[0] else p[0] + [sep] + Join(p[1..], sep)
  }

  /** Each substring with a separator in front. */
  function Prefixed(p: seq<string>, sep: char): string {
    if p == [] then [] else [sep] + p[0] + Prefixed(p[1..], sep)
  }

  lemma {:induction false} JoinOfSplit(s: string, sep: char)
    ensures Join(Split(s, sep), sep) == s
  {
    if s != [] {
      JoinOfSplit(s[1..], sep);
      var rest, p := Split(s[1..], sep), Split(s, sep);
      if s[0] == sep {
        assert p[1..] == rest;
      } else {
        assert p[1..] == rest[1..];
      }
    }
  }

  lemma {:induction false} PrefixedIsJoin(p: seq<string>, sep: char)
    requires p != []
    ensures Prefixed(p, sep) == [sep] + Join(p, sep)
  {
    if |p| > 1 {
      PrefixedIsJoin(p[1..], sep);
    }
  }

  lemma {:induction false} SplitCounts(s: string, sep: char)
    ensures |Split(s, sep)| == 1 + Occurrences(s, sep, 0)
  {
    if s != [] {
      SplitCounts(s[1..], sep);
      OccurrencesShift(s, sep, 1);
    }
  }

  lemma {:induction false} OccurrencesShift(s: string, sep: char, from: nat)
    requires 1 <= from && s != []
    ensures Occurrences(s, sep, from) == Occurrences(s[1..], sep, from - 1)
    decreases |s| - from
  {
    if from < |s| {
      OccurrencesShift(s, sep, from + 1);
    }
  }

  /** The substrings from `from` to `to`. */
  function Pieces(s: string, sep: char, from: nat, to: nat): (p: seq<string>)
    requires from <= to
    ensures |p| == to - from && forall i :: 0 <= i < |p| ==> p[i] == Piece(s, sep, from + i)
  {
    seq(to - from, i requires 0 <= i < to - from => Piece(s, sep, from + i))
  }

  /** An index beyond the last substring, or a negative one, gives the whole string. */
  lemma PieceOutside(s: string, sep: char, index: int)
    requires index < 0 || index > Occurrences(s, sep, 0)
    ensures Piece(s, sep, index) == s
  {
    SplitCounts(s, sep);
  }

  /** A string that does not start with the separator is its counted substrings, joined. */
  lemma SplitThenJoin(s: string, sep: char)
    requires s == [] || s[0] != sep
    ensures Join(Pieces(s, sep, 0, CountOf(s, sep)), sep) == s
  {
    SplitCounts(s, sep);
    assert Pieces(s, sep, 0, CountOf(s, sep)) == Split(s, sep);
    JoinOfSplit(s, sep);
  }

  /** A string that starts with it, as a path does, is its substrings 1 to count, each with the
      separator in front. */
  lemma SplitThenPrefix(s: string, sep: char)
    requires s != [] && s[0] == sep
    ensures Prefixed(Pieces(s, sep, 1, CountOf(s, sep) + 1), sep) == s
  {
    SplitCounts(s, sep);
    var rest := Split(s[1..], sep);
    assert Split(s, sep) == [[]] + rest;
    assert Pieces(s, sep, 1, CountOf(s, sep) + 1) == rest;
    JoinOfSplit(s[1..], sep);
    PrefixedIsJoin(rest, sep);
  }

  /** No counted substring contains the separator. */
  lemma {:induction false} PiecesAreFree(s: string, sep: char, i: nat)
    requires i < |Split(s, sep)|
    ensures sep !in Split(s, sep)[i]
  {
    if s != [] {
      var rest := Split(s[1..], sep);
      if s[0] == sep {
        if i > 0 {
          PiecesAreFree(s[1..], sep, i - 1);
        }
      } else {
        PiecesAreFree(s[1..], sep, i);
      }
    }
  }

  /** The split at the first separator. */
  lemma {:induction false} SplitAtFirst(s: string, sep: char, k: nat)
    requires k <= |s| && sep !in s[..k] && (k < |s| ==> s[k] == sep)
    ensures Split(s, sep) == if k == |s| then [s] else [s[..k]] + Split(s[k + 1..], sep)
  {
    if k == 0 {
      assert s[..0] == [];
    } else {
      var t, rest := s[1..], Split(s[1..], sep);
      assert t[..k - 1] == s[..k][1..] && s[..k][0] == s[0];
      SplitAtFirst(t, sep, k - 1);
      if k < |s| {
        assert t[k - 1 + 1..] == s[k + 1..];
        assert rest[0] == t[..k - 1] && rest[1..] == Split(s[k + 1..], sep);
        assert [s[0]] + t[..k - 1] == s[..k];
      } else {
        assert [s[0]] + t == s && rest[1..] == [];
      }
    }
  }

  /** A new buffer with the characters of `str` from `start` on, `len` of them. */
  method CopyOut(str: array<char>, start: nat, len: nat) returns (buff: array<char>)
    requires start + len <= str.Length && '\0' !in str[start..start + len]
    ensures fresh(buff) && buff.Length == len + 1 && buff[len] == '\0' && StrOf(buff[..]) == str[start..start + len]
  {
    buff := new char[len + 1](_ => '\0');
    forall i | 0 <= i < len { buff[i] := str[start + i]; }
    assert buff[..len] == str[start..start + len];
    forall i | 0 <= i < len ensures buff[i] != '\0' { assert buff[i] == str[start..start + len][i]; }
    StrOfIs(buff[..], len);
  }

  /** What the scan has found at place `i`, a separator or the end: the substring from `start`. */
  lemma SplitStep(s: string, sep: char, done: seq<string>, start: nat, i: nat)
    requires start <= i <= |s| && sep !in s[start..i] && (i < |s| ==> s[i] == sep)
    requires Split(s, sep) == done + Split(s[start..], sep)
    ensures |done| < |Split(s, sep)| && Split(s, sep)[|done|] == s[start..i]
    ensures if i < |s| then Split(s, sep) == (done + [s[start..i]]) + Split(s[i + 1..], sep)
            else |Split(s, sep)| == |done| + 1
  {
    hide Split;
    var rest := s[start..];
    assert rest[..i - start] == s[start..i];
    SplitAtFirst(rest, sep, i - start);
    if i < |s| {
      assert rest[i - start + 1..] == s[i + 1..];
      assert done + ([s[start..i]] + Split(s[i + 1..], sep)) == (done + [s[start..i]]) + Split(s[i + 1..], sep);
    }
  }

  /** seperate_and_take */
  method SeperateAndTake(str: array<char>, seperator: char, index: int) returns (buff: array<char>)
    requires '\0' in str[..]
    ensures fresh(buff) && StrOf(buff[..]) == Piece(StrOf(str[..]), seperator, index)
  {
    hide Split, StrOf;
    ghost var s := StrOf(str[..]);
    var currIndex, len, start := 0, 0, 0;
    ghost var done: seq<string> := [];
    var n := StrLen(str);
    assert s == str[..n] && s[0..] == s;
    var i := 0;
    while i < n
      invariant i <= n && start <= i && len == i - start && currIndex == |done|
      invariant index < 0 || index >= currIndex
      invariant Split(s, seperator) == done + Split(s[start..], seperator)
      invariant seperator !in s[start..i]
    {
      if str[i] == seperator {
        SplitStep(s, seperator, done, start, i);
        if currIndex == index {
          assert str[start..i] == s[start..i];
          buff := CopyOut(str, start, len);
          return;
        }
        done := done + [s[start..i]];
        start := i + 1;
        len := -1;
        currIndex := currIndex + 1;
      }
      len := len + 1;
      i := i + 1;
    }
    SplitStep(s, seperator, done, start, n);
    if currIndex == index {
      assert str[start..n] == s[start..n];
      buff := CopyOut(str, start, len);
    } else {
      buff := CopyOut(str, 0, n);
    }
  }

  /** count_substrings */
  method CountSubstrings(str: array<char>, seperator: char) returns (count: nat)
    requires '\0' in str[..]
    ensures count == CountOf(StrOf(str[..]), seperator)
  {
    ghost var s := StrOf(str[..]);
    var n := StrLen(str);
    count := 1;
    var i := 1;
    while i < n
      invariant 1 <= i && (i <= n || i == 1)
      invariant count + Occurrences(s, seperator, i) == CountOf(s, seperator)
    {
      if str[i] == seperator {
        count := count + 1;
      }
      i := i + 1;
    }
  }
}
