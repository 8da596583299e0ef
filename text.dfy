/**
 * Character and string operations the application relies on: Python's
 * `str.strip()` and `str.lower()`, the ASCII digits read by `strptime` and
 * `int()`, and SQL's case-insensitive `ILIKE` as SQLite evaluates it
 * (`lower(x) LIKE lower(y)`, with `%` and `_` as wildcards and ASCII-only
 * case folding).
 */
module Text {
  import opened Wrappers

  /** Python's whitespace (`str.isspace`): what `strip()` removes. */
  predicate IsSpace(c: char) {
    var n := c as int;
    n == 0x20 || 0x09 <= n <= 0x0D || 0x1C <= n <= 0x1F || n == 0x85 || n == 0xA0
    || n == 0x1680 || 0x2000 <= n <= 0x200A || n == 0x2028 || n == 0x2029
    || n == 0x202F || n == 0x205F || n == 0x3000
  }

  function StripLeft(s: string): (r: string)
    ensures |r| <= |s|
    ensures r == [] || !IsSpace(r[0])
  {
    if |s| > 0 && IsSpace(s[0]) then StripLeft(s[1..]) else s
  }

  function StripRight(s: string): (r: string)
    ensures |r| <= |s| && r == s[..|r|]
    ensures |s| > 0 && !IsSpace(s[0]) ==> |r| > 0
    ensures r == [] || !IsSpace(r[|r| - 1])
  {
    if |s| > 0 && IsSpace(s[|s| - 1]) then StripRight(s[..|s| - 1]) else s
  }

  /** Python's `s.strip()`: whitespace removed from both ends. */
  function Strip(s: string): (r: string)
    ensures |r| <= |s|
    ensures r == [] || (!IsSpace(r[0]) && !IsSpace(r[|r| - 1]))
  {
    var left := StripLeft(s);
    var r := StripRight(left);
    assert r != [] ==> r[0] == left[0];
    r
  }

  /** `StripLeft` drops a run of leading whitespace and keeps the rest. */
  lemma {:induction false} StripLeftDrops(s: string)
    ensures var n := |s| - |StripLeft(s)|;
      StripLeft(s) == s[n..] && forall k :: 0 <= k < n ==> IsSpace(s[k])
    decreases |s|
  {
    if |s| > 0 && IsSpace(s[0]) {
      StripLeftDrops(s[1..]);
      var n := |s| - |StripLeft(s)|;
      assert s[1..][n - 1..] == s[n..];
      forall k | 0 < k < n ensures IsSpace(s[k]) {
        assert s[k] == s[1..][k - 1];
      }
    }
  }

  /** `StripRight` drops a run of trailing whitespace. */
  lemma {:induction false} StripRightDrops(s: string)
    ensures forall k :: |StripRight(s)| <= k < |s| ==> IsSpace(s[k])
    decreases |s|
  {
    if |s| > 0 && IsSpace(s[|s| - 1]) {
      var t := s[..|s| - 1];
      StripRightDrops(t);
      forall k | |StripRight(s)| <= k < |s| ensures IsSpace(s[k]) {
        if k < |t| {
          assert s[k] == t[k];
        }
      }
    }
  }

  /** The number of whitespace characters `strip()` removes at the front. */
  function LeadingSpaces(s: string): nat {
    |s| - |StripLeft(s)|
  }

  /**
   * `strip()` keeps the part of `s` between a run of leading and a run of
   * trailing whitespace, and that part neither starts nor ends with
   * whitespace: it is the longest such infix.
   */
  lemma StripMeaning(s: string)
    ensures var i := LeadingSpaces(s);
      && i + |Strip(s)| <= |s| && Strip(s) == s[i..i + |Strip(s)|]
      && (forall k :: 0 <= k < i ==> IsSpace(s[k]))
      && (forall k :: i + |Strip(s)| <= k < |s| ==> IsSpace(s[k]))
    ensures Strip(s) == [] || (!IsSpace(Strip(s)[0]) && !IsSpace(Strip(s)[|Strip(s)| - 1]))
  {
    var left := StripLeft(s);
    var i := |s| - |left|;
    StripLeftDrops(s);
    StripRightDrops(left);
    var r := Strip(s);
    assert r == left[..|r|];
    assert r == s[i..i + |r|];
    forall k | i + |r| <= k < |s| ensures IsSpace(s[k]) {
      assert s[k] == left[k - i];
    }
  }

  /** A string strips to nothing exactly when it is all whitespace. */
  lemma StripEmptyIffAllSpace(s: string)
    ensures Strip(s) == "" <==> forall k :: 0 <= k < |s| ==> IsSpace(s[k])
  {
    StripMeaning(s);
  }

  /** A string that starts with text does not strip to nothing. */
  lemma StripKeepsFirstText(s: string)
    requires |s| > 0 && !IsSpace(s[0])
    ensures Strip(s) != ""
  {
    assert StripLeft(s) == s;
  }

  /** A string with no whitespace at either end strips to itself. */
  lemma StripUnchanged(s: string)
    requires s == [] || (!IsSpace(s[0]) && !IsSpace(s[|s| - 1]))
    ensures Strip(s) == s
  {
    assert StripLeft(s) == s;
    assert StripRight(s) == s;
  }

  function LowerChar(c: char): char {
    if 'A' <= c <= 'Z' then (c as int + 32) as char else c
  }

  /** `str.lower()` restricted to ASCII, which is also SQLite's `lower()`. */
  function Lower(s: string): (r: string)
    ensures |r| == |s|
  {
    seq(|s|, i requires 0 <= i < |s| => LowerChar(s[i]))
  }

  /** A string without upper-case ASCII letters is its own lower case. */
  lemma LowerUnchanged(s: string)
    requires forall i :: 0 <= i < |s| ==> !('A' <= s[i] <= 'Z')
    ensures Lower(s) == s
  {
  }

  /** Python's `a.lower() == b.lower()` (ASCII folding). */
  predicate EqualsIgnoreCase(a: string, b: string) {
    Lower(a) == Lower(b)
  }

  predicate HasWildcard(p: string) {
    exists i :: 0 <= i < |p| && (p[i] == '%' || p[i] == '_')
  }

  /**
   * `value ILIKE pattern`: `%` matches any run of characters, `_` exactly one,
   * every other character itself up to ASCII case. No escape character is set.
   */
  predicate ILike(value: string, pattern: string)
    decreases |pattern| + |value|
  {
    if |pattern| == 0 then |value| == 0
    else if pattern[0] == '%' then
      ILike(value, pattern[1..]) || (|value| > 0 && ILike(value[1..], pattern))
    else
      |value| > 0 && (pattern[0] == '_' || LowerChar(pattern[0]) == LowerChar(value[0]))
      && ILike(value[1..], pattern[1..])
  }

  /** Without wildcards, ILIKE is exactly case-insensitive equality. */
  lemma {:induction false} ILikeLiteral(value: string, pattern: string)
    requires !HasWildcard(pattern)
    ensures ILike(value, pattern) <==> EqualsIgnoreCase(value, pattern)
    decreases |pattern|
  {
    if |pattern| == 0 {
    } else if |value| == 0 {
      assert Lower(value) != Lower(pattern);
    } else {
      assert !HasWildcard(pattern[1..]) by {
        forall i | 0 <= i < |pattern[1..]| ensures pattern[1..][i] != '%' && pattern[1..][i] != '_' {
          assert pattern[1..][i] == pattern[i + 1];
        }
      }
      assert pattern[0] != '%' && pattern[0] != '_' by { assert pattern[0] == pattern[0]; }
      ILikeLiteral(value[1..], pattern[1..]);
      assert Lower(value) == [LowerChar(value[0])] + Lower(value[1..]);
      assert Lower(pattern) == [LowerChar(pattern[0])] + Lower(pattern[1..]);
      if Lower(value) == Lower(pattern) {
        assert Lower(value)[0] == Lower(pattern)[0];
        assert Lower(value)[1..] == Lower(pattern)[1..];
      }
    }
  }

  /** A value always matches its own text up to case, wildcards or not. */
  lemma {:induction false} ILikeCaseVariant(value: string, pattern: string)
    requires EqualsIgnoreCase(value, pattern)
    ensures ILike(value, pattern)
    decreases |pattern|
  {
    if |pattern| > 0 {
      assert |value| == |pattern|;
      assert Lower(value)[0] == Lower(pattern)[0];
      assert Lower(value[1..]) == Lower(value)[1..] && Lower(pattern[1..]) == Lower(pattern)[1..];
      ILikeCaseVariant(value[1..], pattern[1..]);
      if pattern[0] == '%' {
        assert value[0] == '%';
        assert ILike(value[1..], pattern[1..]);
        assert ILike(value[1..], pattern);
      }
    } else {
      assert |value| == 0;
    }
  }

  /** What a wildcard makes of ILIKE: `_` matches any one-character value. */
  lemma UnderscoreMatchesAnyCharacter(c: char)
    ensures ILike([c], "_")
  {
    assert [c][1..] == [];
  }

  predicate IsDigit(c: char) {
    '0' <= c <= '9'
  }

  predicate AllDigits(s: string) {
    forall i :: 0 <= i < |s| ==> IsDigit(s[i])
  }

  /** The number an all-digit string denotes. */
  function DigitsValue(s: string): (n: nat)
    requires AllDigits(s)
  {
    if |s| == 0 then 0 else DigitsValue(s[..|s| - 1]) * 10 + (s[|s| - 1] as int - '0' as int)
  }

  function Pow10(k: nat): (p: nat)
    ensures p >= 1
  {
    if k == 0 then 1 else 10 * Pow10(k - 1)
  }

  /** `n` written in decimal with leading zeros to exactly `width` digits. */
  function PadDigits(n: nat, width: nat): (s: string)
    requires n < Pow10(width)
    ensures |s| == width && AllDigits(s)
  {
    if width == 0 then ""
    else PadDigits(n / 10, width - 1) + [('0' as int + n % 10) as char]
  }

  lemma {:induction false} PadDigitsValue(n: nat, width: nat)
    requires n < Pow10(width)
    ensures DigitsValue(PadDigits(n, width)) == n
  {
    if width > 0 {
      var s := PadDigits(n, width);
      PadDigitsValue(n / 10, width - 1);
      assert s[..|s| - 1] == PadDigits(n / 10, width - 1);
    }
  }

  /**
   * Python's `int(s)` for an already stripped string: an optional sign and
   * one or more digits.
   */
  function ParseInt(s: string): (r: Option<int>)
    ensures r.Some? <==> (|s| > 0 && (AllDigits(s) || ((s[0] == '+' || s[0] == '-') && |s| > 1 && AllDigits(s[1..]))))
    ensures r.Some? && AllDigits(s) ==> r.value == DigitsValue(s) >= 0
    ensures r.Some? && !AllDigits(s) ==> r.value == (if s[0] == '-' then -1 else 1) * DigitsValue(s[1..])
  {
    if |s| > 0 && AllDigits(s) then Some(DigitsValue(s))
    else if |s| > 1 && s[0] == '+' && AllDigits(s[1..]) then Some(DigitsValue(s[1..]))
    else if |s| > 1 && s[0] == '-' && AllDigits(s[1..]) then Some(-(DigitsValue(s[1..]) as int))
    else None
  }

  /** The fields of `s` between occurrences of `sep` (Python's `s.split(sep)`). */
  function Split(s: string, sep: char): (r: seq<string>)
    ensures |r| >= 1
    ensures forall i :: 0 <= i < |r| ==> sep !in r[i]
  {
    if sep !in s then [s]
    else
      var k := IndexOf(s, sep);
      [s[..k]] + Split(s[k + 1..], sep)
  }

  function IndexOf(s: string, c: char): (k: nat)
    requires c in s
    ensures k < |s| && s[k] == c && c !in s[..k]
  {
    if s[0] == c then 0 else 1 + IndexOf(s[1..], c)
  }

  function Join(parts: seq<string>, sep: char): string
    requires |parts| >= 1
  {
    if |parts| == 1 then parts[0] else parts[0] + [sep] + Join(parts[1..], sep)
  }

  /** A character that is neither the separator nor in any field is not in the joined string. */
  lemma {:induction false} JoinAvoids(parts: seq<string>, sep: char, c: char)
    requires |parts| >= 1 && c != sep
    requires forall i :: 0 <= i < |parts| ==> c !in parts[i]
    ensures c !in Join(parts, sep)
    decreases |parts|
  {
    if |parts| > 1 {
      JoinAvoids(parts[1..], sep, c);
    }
  }

  lemma JoinCons(a: string, t: seq<string>, sep: char)
    requires |t| >= 1
    ensures Join([a] + t, sep) == a + [sep] + Join(t, sep)
  {
    assert ([a] + t)[0] == a && ([a] + t)[1..] == t;
  }

  /** Splitting and re-joining gives back the original string. */
  lemma {:induction false} JoinSplit(s: string, sep: char)
    ensures Join(Split(s, sep), sep) == s
    decreases |s|
  {
    if sep in s {
      var k := IndexOf(s, sep);
      var a, rest := s[..k], s[k + 1..];
      assert s == a + [sep] + rest;
      SplitAtFirst(a, sep, rest);
      JoinCons(a, Split(rest, sep), sep);
      JoinSplit(rest, sep);
    }
  }

  /** Splitting a string at its first separator. */
  lemma SplitAtFirst(a: string, sep: char, rest: string)
    requires sep !in a
    ensures Split(a + [sep] + rest, sep) == [a] + Split(rest, sep)
  {
    var s := a + [sep] + rest;
    var k := IndexOf(s, sep);
    assert forall j :: 0 <= j < |a| ==> s[j] == a[j];
    assert forall j :: 0 <= j < k ==> s[..k][j] == s[j];
    assert s[|a|] == sep;
    assert k == |a|;
    assert s[..k] == a;
    assert s[k + 1..] == rest;
  }

  /** Joining separator-free fields and splitting again gives back the fields. */
  lemma {:induction false} SplitJoin(parts: seq<string>, sep: char)
    requires |parts| >= 1
    requires forall i :: 0 <= i < |parts| ==> sep !in parts[i]
    ensures Split(Join(parts, sep), sep) == parts
    decreases |parts|
  {
    if |parts| > 1 {
      var rest := Join(parts[1..], sep);
      assert Join(parts, sep) == parts[0] + [sep] + rest;
      assert sep !in parts[0];
      SplitAtFirst(parts[0], sep, rest);
      assert forall i :: 0 <= i < |parts[1..]| ==> parts[1..][i] == parts[i + 1];
      SplitJoin(parts[1..], sep);
      assert parts == [parts[0]] + parts[1..];
    } else {
      assert Join(parts, sep) == parts[0];
    }
  }
}
