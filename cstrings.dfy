/**
 * The C library pieces the shell leans on, for NUL-terminated strings held as `seq<char>`:
 * reading one character (the terminator past the end), `isdigit`, `isspace` and `atoi`.
 */
module CStrings {

  /** `s[i]` of a C string: the terminating NUL once i reaches the end. */
  function CharAt(s: seq<char>, i: nat): char {
    if i < |s| then s[i] else '\0'
  }

  /** strlen: the characters before the first NUL. */
  function StrLen(s: seq<char>): (n: nat)
    ensures n <= |s| && '\0' !in s[..n]
    ensures n == |s| || s[n] == '\0'
  {
    if s == [] || s[0] == '\0' then 0 else 1 + StrLen(s[1..])
  }

  /** Without a NUL, the whole sequence is the C string. */
  lemma {:induction false} StrLenWithoutNul(s: seq<char>)
    requires '\0' !in s
    ensures StrLen(s) == |s|
  {
    if s != [] {
      assert s[0] in s;
      assert '\0' !in s[1..] by {
        forall c | c in s[1..] ensures c in s { }
      }
      StrLenWithoutNul(s[1..]);
    }
  }

  predicate IsDigit(c: char) {
    '0' <= c <= '9'
  }

  /** The C locale's white space: space, \t, \n, \v, \f, \r. */
  predicate IsSpace(c: char) {
    c == ' ' || c == '\t' || c == '\n' || c == '\U{000B}' || c == '\U{000C}' || c == '\r'
  }

  predicate AllDigits(s: seq<char>) {
    forall i :: 0 <= i < |s| ==> IsDigit(s[i])
  }

  /** The longest prefix of s made of digits. */
  function LeadingDigits(s: seq<char>): (d: seq<char>)
    ensures |d| <= |s| && d == s[..|d|] && AllDigits(d)
    ensures |d| == |s| || !IsDigit(s[|d|])
  {
    if s != [] && IsDigit(s[0]) then [s[0]] + LeadingDigits(s[1..]) else []
  }

  /** The number a string of decimal digits spells. */
  function Value(d: seq<char>): nat
    requires AllDigits(d)
  {
    if d == [] then 0 else Value(d[..|d| - 1]) * 10 + (d[|d| - 1] as int - '0' as int)
  }

  /** What is left of s after its leading white space. */
  function SkipWhite(s: seq<char>): (r: seq<char>)
    ensures |r| <= |s| && r == s[|s| - |r|..]
    ensures forall k :: 0 <= k < |s| - |r| ==> IsSpace(s[k])
    ensures r == [] || !IsSpace(r[0])
  {
    if s != [] && IsSpace(s[0]) then
      var r := SkipWhite(s[1..]);
      assert forall k :: 1 <= k < |s| - |r| ==> s[k] == s[1..][k - 1];
      r
    else s
  }

  /** A string of digits has no white space to skip and is its own leading digits. */
  lemma DigitsOnly(s: seq<char>)
    requires AllDigits(s)
    ensures SkipWhite(s) == s && LeadingDigits(s) == s
  {
    if s != [] {
      assert !IsSpace(s[0]);
      var d := LeadingDigits(s);
      assert |d| == |s|;
    }
  }

  /** atoi: skip white space, read an optional sign, then as many digits as follow.  A string
      without leading digits gives 0.  (Overflow, undefined in C, does not arise: int is
      unbounded here.) */
  function Atoi(s: seq<char>): (r: int)
    ensures var t := SkipWhite(s);
      (t == [] || !(IsDigit(t[0]) || t[0] == '-' || t[0] == '+')) ==> r == 0
    ensures r < 0 ==> SkipWhite(s) != [] && SkipWhite(s)[0] == '-'
    ensures AllDigits(s) ==> r == Value(s)
  {
    var t := SkipWhite(s);
    assert AllDigits(s) ==> t == s && LeadingDigits(s) == s by {
      if AllDigits(s) { DigitsOnly(s); }
    }
    if t != [] && t[0] == '-' then -(Value(LeadingDigits(t[1..])) as int)
    else if t != [] && t[0] == '+' then Value(LeadingDigits(t[1..]))
    else Value(LeadingDigits(t))
  }

  /** The decimal rendering of n, as printf("%d") writes it. */
  function Decimal(n: nat): (d: seq<char>)
    ensures d != [] && AllDigits(d)
  {
    if n < 10 then [('0' as int + n) as char]
    else Decimal(n / 10) + [('0' as int + n % 10) as char]
  }

  lemma {:induction false} ValueOfDecimal(n: nat)
    ensures Value(Decimal(n)) == n
  {
    var d := Decimal(n);
    if n >= 10 {
      ValueOfDecimal(n / 10);
      assert d[..|d| - 1] == Decimal(n / 10);
    }
  }

  lemma {:induction false} LeadingDigitsOf(d: seq<char>, rest: seq<char>)
    requires AllDigits(d)
    requires rest == [] || !IsDigit(rest[0])
    ensures LeadingDigits(d + rest) == d
  {
    if d != [] {
      assert (d + rest)[1..] == d[1..] + rest;
      LeadingDigitsOf(d[1..], rest);
    } else {
      assert d + rest == rest;
    }
  }

  /** atoi of a string that starts with a digit reads its leading digits. */
  lemma AtoiOfDigits(s: seq<char>)
    requires s != [] && IsDigit(s[0])
    ensures Atoi(s) == Value(LeadingDigits(s))
  {
    assert SkipWhite(s) == s by { assert !IsSpace(s[0]); }
  }

  /** atoi reads back what printf("%d") wrote, whatever non-digit text follows it. */
  lemma AtoiDecimal(n: nat, rest: seq<char>)
    requires rest == [] || !IsDigit(rest[0])
    ensures Atoi(Decimal(n) + rest) == n
  {
    var s := Decimal(n) + rest;
    assert IsDigit(s[0]);
    AtoiOfDigits(s);
    LeadingDigitsOf(Decimal(n), rest);
    ValueOfDecimal(n);
  }
}
