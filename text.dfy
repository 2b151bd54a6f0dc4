/** Strings as the app builds and reads them: decimal numbers (Long.toString, String.toIntOrNull,
    String.toLong), splitting on a literal delimiter (String.split) and String.trim. */
module Text {

  import opened Wrappers
  import opened IntMath

  // ---------------------------------------------------------------------------------------------
  // Decimal numbers

  predicate IsDigit(c: char)
  {
    '0' <= c <= '9'
  }

  predicate AllDigits(s: string)
  {
    forall i :: 0 <= i < |s| ==> IsDigit(s[i])
  }

  function DigitChar(d: int): (c: char)
    requires 0 <= d < 10
    ensures IsDigit(c)
  {
    ('0' as int + d) as char
  }

  function DigitValue(c: char): int
    requires IsDigit(c)
  {
    c as int - '0' as int
  }

  /** The decimal digits of `n`, most significant first, with no leading zero. */
  function NatToString(n: nat): (s: string)
    ensures |s| >= 1 && AllDigits(s)
    ensures |s| > 1 ==> s[0] != '0'
  {
    if n < 10 then [DigitChar(n)] else NatToString(n / 10) + [DigitChar(n % 10)]
  }

  /** Long.toString and string templates: a minus sign before the digits of a negative number. */
  function IntToString(i: int): (s: string)
    ensures |s| >= 1 && (s[0] == '-' <==> i < 0)
  {
    if i < 0 then "-" + NatToString(-i) else NatToString(i)
  }

  /** The value of a string of decimal digits, read most significant first. */
  function DigitsValue(s: string): nat
    requires AllDigits(s)
  {
    if s == [] then 0 else DigitsValue(s[..|s| - 1]) * 10 + DigitValue(s[|s| - 1])
  }

  /** A digit string is its number's value: reading the digits of `n` gives `n` back. */
  lemma {:induction false} DigitsOfNat(n: nat)
    ensures DigitsValue(NatToString(n)) == n
  {
    if n >= 10 {
      var s := NatToString(n);
      assert s[..|s| - 1] == NatToString(n / 10);
      DigitsOfNat(n / 10);
    }
  }

  /** Of two texts that start with digits and then a non-digit, the digits agree. */
  lemma DigitsBefore(a: string, b: string, r: string, s: string)
    requires AllDigits(a) && AllDigits(b) && |r| > 0 && |s| > 0 && !IsDigit(r[0]) && !IsDigit(s[0])
    requires a + r == b + s
    ensures a == b && r == s
  {
    var n := if |a| < |b| then |a| else |b|;
    assert (a + r)[n] == (b + s)[n];
    assert |a| == |b|;
    assert a == (a + r)[..|a|] && b == (b + s)[..|b|];
    assert r == (a + r)[|a|..] && s == (b + s)[|b|..];
  }

  /** A text that starts with a number and then a non-digit gives the number back. */
  lemma LeadingNumber(m1: nat, m2: nat, r1: string, r2: string)
    requires |r1| > 0 && |r2| > 0 && !IsDigit(r1[0]) && !IsDigit(r2[0])
    requires IntToString(m1) + r1 == IntToString(m2) + r2
    ensures m1 == m2 && r1 == r2
  {
    NatDigits(m1);
    NatDigits(m2);
    DigitsBefore(IntToString(m1), IntToString(m2), r1, r2);
    IntToStringInjective(m1, m2);
  }

  lemma NatDigits(n: nat)
    ensures AllDigits(IntToString(n))
  {
  }

  /** The suffix after a prefix of a concatenation. */
  lemma DropPrefix(a: string, b: string)
    ensures (a + b)[|a|..] == b
  {
  }

  /** String.toIntOrNull and String.toLong as used by the app, accepting a value in `lo..hi`: an
      optional '+' or '-', then at least one decimal digit and nothing else; leading zeros are
      allowed, and a value out of range is refused (toIntOrNull gives null, toLong throws). */
  function ParseInteger(s: string, lo: int, hi: int): (r: Option<int>)
    ensures r.Some? ==> lo <= r.value <= hi
    ensures r.Some? ==> |s| >= 1 && (r.value < 0 ==> s[0] == '-')
    ensures |s| >= 1 && !IsDigit(s[0]) && s[0] != '-' && s[0] != '+' ==> r.None?
  {
    if |s| == 0 then None
    else
      var digits := if s[0] == '-' || s[0] == '+' then s[1..] else s;
      if |digits| == 0 || !AllDigits(digits) then None
      else
        var n: int := DigitsValue(digits);
        var v := if s[0] == '-' then -n else n;
        if lo <= v <= hi then Some(v) else None
  }

  /** String.toIntOrNull. */
  function ParseInt32(s: string): (r: Option<int>)
    ensures r.Some? ==> IsInt32(r.value)
  {
    ParseInteger(s, Int32Min, Int32Max)
  }

  /** String.toLong, where a NumberFormatException is None. */
  function ParseInt64(s: string): (r: Option<int>)
    ensures r.Some? ==> IsInt64(r.value)
  {
    ParseInteger(s, Int64Min, Int64Max)
  }

  /** Parsing the printed form of a number in range gives the number back. */
  lemma {:induction false} ParseOfToString(n: int, lo: int, hi: int)
    requires lo <= n <= hi
    ensures ParseInteger(IntToString(n), lo, hi) == Some(n)
  {
    var s := IntToString(n);
    if n < 0 {
      assert s[1..] == NatToString(-n);
      DigitsOfNat(-n);
    } else {
      DigitsOfNat(n);
    }
  }

  /** Distinct numbers print differently. */
  lemma {:induction false} IntToStringInjective(a: int, b: int)
    ensures IntToString(a) == IntToString(b) <==> a == b
  {
    if IntToString(a) == IntToString(b) {
      var lo, hi := if a <= b then a else b, if a <= b then b else a;
      ParseOfToString(a, lo, hi);
      ParseOfToString(b, lo, hi);
    }
  }

  /** A leading '+' and leading zeros are accepted; a lone sign, an empty string and a stray
      letter are not. */
  lemma ParseExamples()
    ensures ParseInt32("+07") == Some(7) && ParseInt32("-0") == Some(0)
    ensures ParseInt32("") == None && ParseInt32("-") == None && ParseInt32("1a") == None
  {
    assert "+07"[1..] == "07" && "07"[..1] == "0" && "0"[..0] == "";
    assert DigitsValue("07") == 7;
    assert "1a"[1] == 'a';
  }

  // ---------------------------------------------------------------------------------------------
  // Splitting on a literal delimiter

  /** String.split(d) with a one-character literal delimiter and no limit: every part, empty
      ones included, so a string with k delimiters has k + 1 parts. */
  function Split(s: string, d: char): (parts: seq<string>)
    ensures |parts| >= 1
    ensures forall i :: 0 <= i < |parts| ==> d !in parts[i]
  {
    if s == [] then [[]]
    else
      var rest := Split(s[1..], d);
      if s[0] == d then [[]] + rest else [[s[0]] + rest[0]] + rest[1..]
  }

  /** Parts written one after the other with `d` between them (joinToString(d)). */
  function Join(parts: seq<string>, d: char): string
    requires |parts| >= 1
  {
    if |parts| == 1 then parts[0] else parts[0] + [d] + Join(parts[1..], d)
  }

  /** Joining the parts of a split gives the string back. */
  lemma {:induction false} JoinSplit(s: string, d: char)
    ensures Join(Split(s, d), d) == s
  {
    if s != [] {
      JoinSplit(s[1..], d);
      var rest := Split(s[1..], d);
      if s[0] != d && |rest| > 1 {
        assert ([[s[0]] + rest[0]] + rest[1..])[1..] == rest[1..];
      }
    }
  }

  /** A prefix free of the delimiter sticks to the first part of what follows it. */
  lemma {:induction false} SplitPrefix(a: string, rest: string, d: char)
    requires d !in a
    ensures Split(a + rest, d) == [a + Split(rest, d)[0]] + Split(rest, d)[1..]
  {
    if a != [] {
      var r := Split(rest, d);
      var s := a + rest;
      assert s[0] == a[0] && a[0] in a;
      assert s[1..] == a[1..] + rest;
      SplitPrefix(a[1..], rest, d);
      var r' := Split(s[1..], d);
      assert r' == [a[1..] + r[0]] + r[1..];
      assert r'[0] == a[1..] + r[0] && r'[1..] == r[1..];
      assert Split(s, d) == [[a[0]] + r'[0]] + r'[1..];
      assert [a[0]] + (a[1..] + r[0]) == a + r[0];
    } else {
      var r := Split(rest, d);
      assert a + rest == rest && a + r[0] == r[0] && [r[0]] + r[1..] == r;
    }
  }

  /** A split has a second part exactly when the delimiter occurs. */
  lemma {:induction false} SplitHasSecondPart(s: string, d: char)
    ensures |Split(s, d)| >= 2 <==> d in s
  {
    if s != [] {
      SplitHasSecondPart(s[1..], d);
      assert d in s <==> s[0] == d || d in s[1..];
    }
  }

  /** The first part is the text before the first delimiter; the rest is the split of what
      follows it. */
  lemma SplitAtFirst(a: string, rest: string, d: char)
    requires d !in a
    ensures Split(a + [d] + rest, d) == [a] + Split(rest, d)
  {
    var t := [d] + rest;
    assert t[0] == d && t[1..] == rest;
    SplitPrefix(a, t, d);
    assert a + [d] + rest == a + t;
    assert a + [] == a;
  }

  /** Splitting parts joined with a delimiter none of them contains gives the parts back. */
  lemma {:induction false} SplitJoin(parts: seq<string>, d: char)
    requires |parts| >= 1
    requires forall i :: 0 <= i < |parts| ==> d !in parts[i]
    ensures Split(Join(parts, d), d) == parts
  {
    if |parts| == 1 {
      SplitPrefix(parts[0], [], d);
      assert parts[0] + [] == parts[0];
    } else {
      var tail := Join(parts[1..], d);
      SplitJoin(parts[1..], d);
      var t := [d] + tail;
      assert t[0] == d && t[1..] == tail;
      var st := Split(t, d);
      assert st == [[]] + parts[1..];
      assert st[0] == [] && st[1..] == parts[1..];
      assert d !in parts[0];
      SplitPrefix(parts[0], t, d);
      assert parts[0] + [d] + tail == parts[0] + t;
      assert parts[0] + [] == parts[0];
      assert [parts[0]] + parts[1..] == parts;
    }
  }

  // ---------------------------------------------------------------------------------------------
  // Trimming

  /** Char.isWhitespace on the JVM: Character.isWhitespace or Character.isSpaceChar, that is
      the controls U+0009..U+000D and U+001C..U+001F and every space, line and paragraph
      separator of Unicode, no-break spaces included. */
  predicate IsWhitespace(c: char)
  {
    var n := c as int;
    0x09 <= n <= 0x0D || 0x1C <= n <= 0x20 || n == 0xA0 || n == 0x1680 ||
    0x2000 <= n <= 0x200A || n == 0x2028 || n == 0x2029 || n == 0x202F || n == 0x205F || n == 0x3000
  }

  /** The number of whitespace characters at the start of `s`. */
  function LeadingSpace(s: string): (k: nat)
    ensures k <= |s|
    ensures forall i :: 0 <= i < k ==> IsWhitespace(s[i])
    ensures k < |s| ==> !IsWhitespace(s[k])
  {
    if s == [] || !IsWhitespace(s[0]) then 0 else 1 + LeadingSpace(s[1..])
  }

  /** The number of whitespace characters at the end of `s`. */
  function TrailingSpace(s: string): (k: nat)
    ensures k <= |s|
    ensures forall i :: |s| - k <= i < |s| ==> IsWhitespace(s[i])
    ensures k < |s| ==> !IsWhitespace(s[|s| - k - 1])
  {
    if s == [] || !IsWhitespace(s[|s| - 1]) then 0 else 1 + TrailingSpace(s[..|s| - 1])
  }

  /** String.trim: `s` without its leading and trailing whitespace. */
  function Trim(s: string): (r: string)
    ensures r == [] <==> forall i :: 0 <= i < |s| ==> IsWhitespace(s[i])
    ensures r != [] ==> !IsWhitespace(r[0]) && !IsWhitespace(r[|r| - 1])
  {
    var t := s[LeadingSpace(s)..];
    t[..|t| - TrailingSpace(t)]
  }

  /** Trimming keeps a contiguous middle part of `s` and cuts only whitespace from it. */
  lemma TrimSlice(s: string) returns (i: nat, j: nat)
    ensures i <= j <= |s| && Trim(s) == s[i..j]
    ensures forall k :: 0 <= k < i ==> IsWhitespace(s[k])
    ensures forall k :: j <= k < |s| ==> IsWhitespace(s[k])
  {
    i := LeadingSpace(s);
    var t := s[i..];
    j := i + |t| - TrailingSpace(t);
    forall k | j <= k < |s|
      ensures IsWhitespace(s[k])
    {
      assert s[k] == t[k - i];
    }
  }

  /** Trimming twice is trimming once. */
  lemma TrimIdempotent(s: string)
    ensures Trim(Trim(s)) == Trim(s)
  {
    var r := Trim(s);
    if r != [] {
      assert LeadingSpace(r) == 0;
      assert TrailingSpace(r) == 0;
      assert r[0..] == r;
      assert r[..|r|] == r;
    }
  }
}
