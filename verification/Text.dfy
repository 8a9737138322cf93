/** C strings as sequences of characters: searching, and printing and scanning of decimal numbers. */
module Text {
  const ULONG_MAX: nat := 0xFFFF_FFFF_FFFF_FFFF
  const INT_MAX: nat := 0x7FFF_FFFF

  datatype Option<+T> = None | Some(value: T)

  // ---------------------------------------------------------------- searching

  ghost predicate OccursAt(s: string, pattern: string, i: int) {
    0 <= i && i + |pattern| <= |s| && s[i..i + |pattern|] == pattern
  }

  ghost predicate Occurs(s: string, pattern: string) {
    exists i :: OccursAt(s, pattern, i)
  }

  /** strstr(): the first occurrence. */
  function Find(s: string, pattern: string): (r: Option<nat>)
    ensures r.Some? ==> OccursAt(s, pattern, r.value)
    ensures r.Some? ==> forall i :: 0 <= i < r.value ==> !OccursAt(s, pattern, i)
    ensures r.None? ==> !Occurs(s, pattern)
  {
    FindFrom(s, pattern, 0)
  }

  function FindFrom(s: string, pattern: string, from: nat): (r: Option<nat>)
    requires forall i :: 0 <= i < from ==> !OccursAt(s, pattern, i)
    ensures r.Some? ==> OccursAt(s, pattern, r.value)
    ensures r.Some? ==> forall i :: 0 <= i < r.value ==> !OccursAt(s, pattern, i)
    ensures r.None? ==> !Occurs(s, pattern)
    decreases |s| - from
  {
    if from + |pattern| > |s| then None
    else if s[from..from + |pattern|] == pattern then Some(from)
    else FindFrom(s, pattern, from + 1)
  }

  /** A first occurrence determines the search result. */
  lemma FirstIsFound(s: string, pattern: string, k: nat)
    requires OccursAt(s, pattern, k)
    requires forall i :: 0 <= i < k ==> !OccursAt(s, pattern, i)
    ensures Find(s, pattern) == Some(k)
  {
    assert Occurs(s, pattern);
  }

  /** Text without the pattern's first character cannot hide an occurrence. */
  lemma FindAfter(before: string, pattern: string, after: string)
    requires pattern != "" && pattern[0] !in before
    ensures Find(before + pattern + after, pattern) == Some(|before|)
  {
    var s := before + pattern + after;
    assert s[|before|..|before| + |pattern|] == pattern;
    forall i | 0 <= i < |before| ensures !OccursAt(s, pattern, i) {
      assert s[i] == before[i];
      assert i + |pattern| <= |s| ==> s[i..i + |pattern|][0] == s[i];
    }
    FirstIsFound(s, pattern, |before|);
  }

  lemma NoChar(s: string, c: char)
    requires c !in s
    ensures Find(s, [c]) == None
  {
    forall i ensures !OccursAt(s, [c], i) {
      if 0 <= i < |s| { assert s[i..i + 1] == [s[i]]; }
    }
  }

  lemma BeforeChar(s: string, c: char, n: nat)
    requires n <= |s| && forall i :: 0 <= i < n ==> !OccursAt(s, [c], i)
    ensures c !in s[..n]
  {
    forall i | 0 <= i < n ensures s[i] != c {
      assert s[i..i + 1] == [s[i]];
      assert !OccursAt(s, [c], i);
    }
  }

  // ---------------------------------------------------------------- decimal numbers

  predicate IsDigit(c: char) { '0' <= c <= '9' }

  predicate AllDigits(s: string) { forall i :: 0 <= i < |s| ==> IsDigit(s[i]) }

  function DigitChar(d: nat): (c: char)
    requires d < 10
    ensures IsDigit(c) && c as int == '0' as int + d
  {
    '0' + d as char
  }

  /** "%u" for any natural number. */
  function Decimal(n: nat): (s: string)
    ensures |s| > 0 && AllDigits(s)
  {
    if n < 10 then [DigitChar(n)] else Decimal(n / 10) + [DigitChar(n % 10)]
  }

  function DigitsValue(s: string): nat
    requires AllDigits(s)
  {
    if s == [] then 0 else 10 * DigitsValue(s[..|s| - 1]) + (s[|s| - 1] as int - '0' as int)
  }

  lemma {:induction false} DecimalValue(n: nat)
    ensures DigitsValue(Decimal(n)) == n
  {
    if n >= 10 {
      var s := Decimal(n);
      assert s[..|s| - 1] == Decimal(n / 10);
      DecimalValue(n / 10);
    }
  }

  /** The longest prefix of digits. */
  function LeadingDigits(s: string): (r: string)
    ensures AllDigits(r) && r <= s
    ensures |r| == |s| || !IsDigit(s[|r|])
  {
    if s == [] || !IsDigit(s[0]) then [] else [s[0]] + LeadingDigits(s[1..])
  }

  lemma {:induction false} LeadingDigitsAre(digits: string, rest: string)
    requires AllDigits(digits)
    requires rest == [] || !IsDigit(rest[0])
    ensures LeadingDigits(digits + rest) == digits
  {
    if digits == [] {
      assert digits + rest == rest;
    } else {
      assert (digits + rest)[1..] == digits[1..] + rest;
      LeadingDigitsAre(digits[1..], rest);
    }
  }

  predicate IsSpace(c: char) { c == ' ' || '\t' <= c <= '\r' }

  function SkipSpace(s: string): string {
    if s != [] && IsSpace(s[0]) then SkipSpace(s[1..]) else s
  }

  /** The sign and magnitude that strtol() and strtoul() scan in base 10. */
  function ScanNumber(s: string): (r: (bool, nat)) {
    var t := SkipSpace(s);
    if t != [] && (t[0] == '-' || t[0] == '+')
    then (t[0] == '-', DigitsValue(LeadingDigits(t[1..])))
    else (false, DigitsValue(LeadingDigits(t)))
  }

  /** strtoul(): a magnitude out of range saturates, a minus sign negates modulo 2^64. */
  function Strtoul(s: string): nat {
    var (negative, magnitude) := ScanNumber(s);
    if magnitude > ULONG_MAX then ULONG_MAX
    else if negative then (ULONG_MAX + 1 - magnitude) % (ULONG_MAX + 1)
    else magnitude
  }

  /** strtol(), saturating. */
  function Strtol(s: string): int {
    var (negative, magnitude) := ScanNumber(s);
    if negative
    then (if magnitude > ULONG_MAX / 2 + 1 then -((ULONG_MAX / 2 + 1) as int) else -(magnitude as int))
    else (if magnitude > ULONG_MAX / 2 then ULONG_MAX / 2 else magnitude)
  }

  /** Scanning an unsigned digit string stops at the first character that is not a digit. */
  lemma ScanDigits(digits: string, rest: string)
    requires digits != [] && AllDigits(digits)
    requires rest == [] || !IsDigit(rest[0])
    ensures ScanNumber(digits + rest) == (false, DigitsValue(digits))
  {
    assert (digits + rest)[0] == digits[0];
    assert SkipSpace(digits + rest) == digits + rest;
    LeadingDigitsAre(digits, rest);
  }

  lemma {:induction false} SpaceIsSkipped(space: string, s: string)
    requires forall i :: 0 <= i < |space| ==> IsSpace(space[i])
    ensures SkipSpace(space + s) == SkipSpace(s)
  {
    if space == "" {
      assert space + s == s;
    } else {
      assert (space + s)[1..] == space[1..] + s;
      SpaceIsSkipped(space[1..], s);
    }
  }

  lemma SignIsScanned(sign: char, digits: string, rest: string)
    requires (sign == '+' || sign == '-') && AllDigits(digits) && (rest == [] || !IsDigit(rest[0]))
    ensures ScanNumber([sign] + (digits + rest)) == (sign == '-', DigitsValue(digits))
  {
    var s := [sign] + (digits + rest);
    assert SkipSpace(s) == s && s[1..] == digits + rest;
    LeadingDigitsAre(digits, rest);
  }

  /** White space, an optional sign and digits are scanned up to the first other character. */
  lemma NumberIsScanned(space: string, sign: string, digits: string, rest: string)
    requires forall i :: 0 <= i < |space| ==> IsSpace(space[i])
    requires sign == "" || sign == "+" || sign == "-"
    requires AllDigits(digits) && digits != "" && (rest == [] || !IsDigit(rest[0]))
    ensures ScanNumber(space + (sign + (digits + rest))) == (sign == "-", DigitsValue(digits))
  {
    SpaceIsSkipped(space, sign + (digits + rest));
    if sign == "" {
      assert sign + (digits + rest) == digits + rest;
      ScanDigits(digits, rest);
    } else {
      assert sign == [sign[0]];
      SignIsScanned(sign[0], digits, rest);
    }
  }

  /** Printing with %u or %zu and scanning with strtoul() recovers every 64-bit number. */
  lemma PrintedNumberIsScanned(n: nat, rest: string)
    requires n <= ULONG_MAX
    requires rest == [] || !IsDigit(rest[0])
    ensures Strtoul(Decimal(n) + rest) == n
  {
    ScanDigits(Decimal(n), rest);
    DecimalValue(n);
  }

  // ---------------------------------------------------------------- concatenation

  lemma ConcatAssoc<T>(a: seq<T>, b: seq<T>, c: seq<T>)
    ensures a + (b + c) == (a + b) + c
  {
  }

  function Flatten(parts: seq<string>): string {
    if parts == [] then "" else parts[0] + Flatten(parts[1..])
  }

  lemma {:induction false} FlattenConcat(a: seq<string>, b: seq<string>)
    ensures Flatten(a + b) == Flatten(a) + Flatten(b)
  {
    if a == [] {
      assert a + b == b;
    } else {
      assert (a + b)[0] == a[0] && (a + b)[1..] == a[1..] + b;
      FlattenConcat(a[1..], b);
    }
  }

  lemma FlattenSnoc(a: seq<string>, last: string)
    ensures Flatten(a + [last]) == Flatten(a) + last
  {
    FlattenConcat(a, [last]);
    assert Flatten([last]) == last + Flatten([]);
  }
}
