/**
 * The Python `str` operations the scripts use: `strip`, ASCII `lower`/`upper`,
 * `isdigit`, `startswith`/`endswith`, substring `in`, `split`, `join`, and the
 * decimal rendering of integers by `str`/f-strings.
 */
module Text {

  /** Python's `str.isspace`: the characters `strip()` removes. */
  predicate IsSpace(c: char) {
    var n := c as int;
    (9 <= n <= 13) || (0x1c <= n <= 0x20) || n == 0x85 || n == 0xa0 || n == 0x1680
    || (0x2000 <= n <= 0x200a) || n == 0x2028 || n == 0x2029 || n == 0x202f
    || n == 0x205f || n == 0x3000
  }

  /** `s.lstrip()`: drops the leading whitespace. */
  function StripLeft(s: string): (r: string)
    ensures |r| <= |s| && r == s[|s| - |r|..]
    ensures forall k :: 0 <= k < |s| - |r| ==> IsSpace(s[k])
    ensures r == [] || !IsSpace(r[0])
    decreases |s|
  {
    if |s| > 0 && IsSpace(s[0]) then StripLeft(s[1..]) else s
  }

  /** `s.rstrip()`: drops the trailing whitespace. */
  function StripRight(s: string): (r: string)
    ensures |r| <= |s| && r == s[..|r|]
    ensures forall k :: |r| <= k < |s| ==> IsSpace(s[k])
    ensures r == [] || !IsSpace(r[|r| - 1])
    decreases |s|
  {
    if |s| > 0 && IsSpace(s[|s| - 1]) then StripRight(s[..|s| - 1]) else s
  }

  /** `s.strip()`. */
  function Strip(s: string): (r: string)
    ensures |r| <= |s|
    ensures r == [] || (!IsSpace(r[0]) && !IsSpace(r[|r| - 1]))
  {
    StripRight(StripLeft(s))
  }

  /** The stripped string sits inside the original with only whitespace around it. */
  lemma StripWithin(s: string)
    ensures exists i :: OccursAt(Strip(s), s, i)
                        && (forall k :: 0 <= k < i ==> IsSpace(s[k]))
                        && (forall k :: i + |Strip(s)| <= k < |s| ==> IsSpace(s[k]))
  {
    StripWithinAt(s);
  }

  /** The stripped string starts where the leading whitespace ends. */
  lemma StripWithinAt(s: string)
    ensures var i := |s| - |StripLeft(s)|;
            OccursAt(Strip(s), s, i)
            && (forall k :: 0 <= k < i ==> IsSpace(s[k]))
            && (forall k :: i + |Strip(s)| <= k < |s| ==> IsSpace(s[k]))
  {
    var l := StripLeft(s);
    var i := |s| - |l|;
    assert OccursAt(Strip(s), s, i);
  }

  /** No whitespace at either end: what `strip()` returns. */
  predicate Trimmed(s: string) {
    s == [] || (!IsSpace(s[0]) && !IsSpace(s[|s| - 1]))
  }

  /** `s` is `t` with only whitespace before and after it. */
  predicate Padded(t: string, s: string) {
    exists i :: 0 <= i <= |s| && OccursAt(t, s, i)
                && (forall k :: 0 <= k < i ==> IsSpace(s[k]))
                && (forall k :: i + |t| <= k < |s| ==> IsSpace(s[k]))
  }

  /** Two trimmed strings padded by the same string are the same string. */
  lemma PaddedAtUnique(s: string, t: string, i: int, u: string, j: int)
    requires Trimmed(t) && OccursAt(t, s, i)
    requires forall k :: 0 <= k < i ==> IsSpace(s[k])
    requires forall k :: i + |t| <= k < |s| ==> IsSpace(s[k])
    requires Trimmed(u) && OccursAt(u, s, j)
    requires forall k :: 0 <= k < j ==> IsSpace(s[k])
    requires forall k :: j + |u| <= k < |s| ==> IsSpace(s[k])
    ensures t == u
  {
    assert t != [] ==> s[i] == t[0] && s[i + |t| - 1] == t[|t| - 1];
    assert u != [] ==> s[j] == u[0] && s[j + |u| - 1] == u[|u| - 1];
    assert t != [] && u != [] ==> i == j && |t| == |u|;
  }

  /** The only trimmed string that `s` pads is its strip. */
  lemma StripUnique(s: string, t: string)
    requires Trimmed(t) && Padded(t, s)
    ensures Strip(s) == t
  {
    var i :| 0 <= i <= |s| && OccursAt(t, s, i) && (forall k :: 0 <= k < i ==> IsSpace(s[k]))
             && (forall k :: i + |t| <= k < |s| ==> IsSpace(s[k]));
    StripWithinAt(s);
    PaddedAtUnique(s, t, i, Strip(s), |s| - |StripLeft(s)|);
  }

  /** ASCII case folding: what `str.lower()` does on the ASCII range. */
  function LowerChar(c: char): char {
    if 'A' <= c <= 'Z' then (c as int + 32) as char else c
  }

  function UpperChar(c: char): char {
    if 'a' <= c <= 'z' then (c as int - 32) as char else c
  }

  function Lower(s: string): (r: string)
    ensures |r| == |s| && forall k :: 0 <= k < |s| ==> r[k] == LowerChar(s[k])
  {
    seq(|s|, k requires 0 <= k < |s| => LowerChar(s[k]))
  }

  function Upper(s: string): (r: string)
    ensures |r| == |s| && forall k :: 0 <= k < |s| ==> r[k] == UpperChar(s[k])
  {
    seq(|s|, k requires 0 <= k < |s| => UpperChar(s[k]))
  }

  /** `s.isdigit()` on ASCII digits: non-empty and all digits. */
  predicate IsDigits(s: string) {
    |s| > 0 && forall k :: 0 <= k < |s| ==> '0' <= s[k] <= '9'
  }

  predicate StartsWith(s: string, prefix: string) {
    |prefix| <= |s| && s[..|prefix|] == prefix
  }

  predicate EndsWith(s: string, suffix: string) {
    |suffix| <= |s| && s[|s| - |suffix|..] == suffix
  }

  /** `needle` sits in `haystack` starting at index `i`. */
  predicate OccursAt(needle: string, haystack: string, i: int) {
    0 <= i <= |haystack| - |needle| && haystack[i..i + |needle|] == needle
  }

  /** Python's `needle in haystack` on strings. */
  predicate IsSubstring(needle: string, haystack: string) {
    exists i | 0 <= i <= |haystack| - |needle| :: OccursAt(needle, haystack, i)
  }

  /** `str(n)` for a natural number. */
  function NatToString(n: nat): (r: string)
    ensures IsDigits(r)
    ensures r[0] == '0' ==> n == 0 && |r| == 1
    decreases n
  {
    if n < 10 then ["0123456789"[n]]
    else NatToString(n / 10) + ["0123456789"[n % 10]]
  }

  /** `str(i)` for an integer. */
  function IntToString(i: int): string {
    if i < 0 then "-" + NatToString(-i) else NatToString(i)
  }

  /** The integer a string of decimal digits denotes. */
  function DigitsValue(s: string): nat
    requires forall k :: 0 <= k < |s| ==> '0' <= s[k] <= '9'
    decreases |s|
  {
    if s == [] then 0
    else 10 * DigitsValue(s[..|s| - 1]) + (s[|s| - 1] as int - '0' as int)
  }

  /** Reading back the decimal rendering gives the number. */
  lemma {:induction false} NatToStringRoundTrip(n: nat)
    ensures DigitsValue(NatToString(n)) == n
    decreases n
  {
    var r := NatToString(n);
    if n >= 10 {
      NatToStringRoundTrip(n / 10);
      assert r[..|r| - 1] == NatToString(n / 10);
    }
  }

  /** Distinct naturals render differently. */
  lemma NatToStringInjective(m: nat, n: nat)
    requires NatToString(m) == NatToString(n)
    ensures m == n
  {
    NatToStringRoundTrip(m);
    NatToStringRoundTrip(n);
  }

  /** `sep.join(parts)`. */
  function Join(sep: string, parts: seq<string>): string
    decreases |parts|
  {
    if |parts| == 0 then ""
    else if |parts| == 1 then parts[0]
    else parts[0] + sep + Join(sep, parts[1..])
  }

  /** Joining one more part appends the separator and the part. */
  lemma {:induction false} JoinSnoc(sep: string, parts: seq<string>, x: string)
    requires |parts| >= 1
    ensures Join(sep, parts + [x]) == Join(sep, parts) + sep + x
    decreases |parts|
  {
    if |parts| > 1 {
      assert (parts + [x])[1..] == parts[1..] + [x];
      JoinSnoc(sep, parts[1..], x);
    }
  }

  /** `s.split(sep)` for a one-character separator. */
  function Split(s: string, sep: char): (parts: seq<string>)
    ensures |parts| >= 1
    ensures forall i :: 0 <= i < |parts| ==> sep !in parts[i]
    decreases |s|
  {
    if |s| == 0 then [""]
    else if s[0] == sep then [""] + Split(s[1..], sep)
    else
      var rest := Split(s[1..], sep);
      [[s[0]] + rest[0]] + rest[1..]
  }

  /** Joining the split pieces with the separator gives the string back. */
  lemma {:induction false} JoinSplit(s: string, sep: char)
    ensures Join([sep], Split(s, sep)) == s
    decreases |s|
  {
    if |s| > 0 {
      JoinSplit(s[1..], sep);
      var rest := Split(s[1..], sep);
      if s[0] != sep && |rest| > 1 {
        assert Join([sep], rest) == rest[0] + [sep] + Join([sep], rest[1..]);
      }
    }
  }

  /** Splitting a string free of the separator yields that string alone. */
  lemma {:induction false} SplitNoSep(s: string, sep: char)
    requires sep !in s
    ensures Split(s, sep) == [s]
    decreases |s|
  {
    if |s| > 0 {
      assert sep !in s[1..];
      SplitNoSep(s[1..], sep);
      assert [s[0]] + s[1..] == s;
    }
  }

  /** A separator-free head is glued to the first piece of what follows it. */
  lemma {:induction false} SplitPrefix(a: string, t: string, sep: char)
    requires sep !in a
    ensures Split(a + t, sep) == [a + Split(t, sep)[0]] + Split(t, sep)[1..]
    decreases |a|
  {
    if |a| > 0 {
      var st := Split(t, sep);
      assert (a + t)[1..] == a[1..] + t && (a + t)[0] == a[0] != sep;
      assert sep !in a[1..];
      SplitPrefix(a[1..], t, sep);
      var rest := Split(a[1..] + t, sep);
      assert rest == [a[1..] + st[0]] + st[1..];
      assert Split(a + t, sep) == [[a[0]] + rest[0]] + rest[1..];
      assert rest[0] == a[1..] + st[0] && rest[1..] == st[1..];
      assert [a[0]] + (a[1..] + st[0]) == a + st[0];
    } else {
      var rest := Split(t, sep);
      assert a + t == t;
      assert a + rest[0] == rest[0];
      assert [rest[0]] + rest[1..] == rest;
    }
  }

  /** Splitting the join of separator-free pieces gives the pieces back. */
  lemma {:induction false} SplitJoin(parts: seq<string>, sep: char)
    requires |parts| >= 1
    requires forall i :: 0 <= i < |parts| ==> sep !in parts[i]
    ensures Split(Join([sep], parts), sep) == parts
    decreases |parts|
  {
    if |parts| == 1 {
      SplitNoSep(parts[0], sep);
    } else {
      var tail := Join([sep], parts[1..]);
      SplitJoin(parts[1..], sep);
      assert Join([sep], parts) == parts[0] + ([sep] + tail);
      SplitPrefix(parts[0], [sep] + tail, sep);
      assert ([sep] + tail)[1..] == tail;
      assert Split([sep] + tail, sep) == [""] + parts[1..];
      assert parts[0] + "" == parts[0];
    }
  }

  /** A string splits into more than one piece exactly when it holds the separator. */
  lemma SplitMany(s: string, sep: char)
    ensures |Split(s, sep)| > 1 <==> sep in s
  {
    if sep !in s {
      SplitNoSep(s, sep);
    } else if |Split(s, sep)| == 1 {
      JoinSplit(s, sep);
    }
  }

  /** Without the separator in `a`, the first piece is `a` exactly when the string starts with `a` and the separator. */
  lemma SplitFirst(s: string, a: string, sep: char)
    requires sep !in a
    ensures |Split(s, sep)| > 1 && Split(s, sep)[0] == a <==> StartsWith(s, a + [sep])
  {
    var parts := Split(s, sep);
    if |parts| > 1 && parts[0] == a {
      JoinSplit(s, sep);
      assert Join([sep], parts) == a + [sep] + Join([sep], parts[1..]);
      assert s[..|a| + 1] == a + [sep];
    }
    if StartsWith(s, a + [sep]) {
      var t := s[|a| + 1..];
      assert s == a + ([sep] + t);
      SplitPrefix(a, [sep] + t, sep);
      assert ([sep] + t)[1..] == t;
      assert Split([sep] + t, sep) == [""] + Split(t, sep);
      assert a + "" == a;
    }
  }

  /** Of two separator-led suffixes, the longer holds the shorter's separator. */
  lemma SeparatorInLonger(s: string, sep: char, x: string, y: string)
    requires EndsWith(s, [sep] + x) && EndsWith(s, [sep] + y)
    ensures |x| < |y| ==> sep in y
  {
    if |x| < |y| {
      assert y[|y| - |x| - 1] == s[|s| - |x| - 1] == sep;
    }
  }

  /**
   * With several pieces, the last one is what follows the last separator:
   * the string ends with the separator and that piece, and no other
   * separator-free string has that place.
   */
  lemma SplitLast(s: string, sep: char, o: string)
    requires |Split(s, sep)| > 1
    ensures var parts := Split(s, sep);
            EndsWith(s, [sep] + parts[|parts| - 1])
            && (sep !in o && EndsWith(s, [sep] + o) ==> o == parts[|parts| - 1])
  {
    var parts := Split(s, sep);
    var n := |parts| - 1;
    var last := parts[n];
    JoinSplit(s, sep);
    assert parts == parts[..n] + [last];
    JoinSnoc([sep], parts[..n], last);
    assert s == Join([sep], parts[..n]) + ([sep] + last);
    assert EndsWith(s, [sep] + last);
    if sep !in o && EndsWith(s, [sep] + o) {
      SeparatorInLonger(s, sep, o, last);
      SeparatorInLonger(s, sep, last, o);
      assert |o| == |last| ==> o == s[|s| - |o|..] == last;
    }
  }

  /** Each item between single quotes, as an SQL string literal without escaping. */
  function Quoted(items: seq<string>): (r: seq<string>)
    ensures |r| == |items| && forall i :: 0 <= i < |items| ==> r[i] == "'" + items[i] + "'"
  {
    seq(|items|, i requires 0 <= i < |items| => "'" + items[i] + "'")
  }

  /** The first piece of a split is the string up to the first separator. */
  lemma SplitHead(s: string, sep: char)
    ensures var head := Split(s, sep)[0];
            |head| <= |s| && s[..|head|] == head && sep !in head
            && (|head| < |s| ==> s[|head|] == sep)
  {
    var parts := Split(s, sep);
    JoinSplit(s, sep);
    if |parts| > 1 {
      assert s == parts[0] + ([sep] + Join([sep], parts[1..]));
    }
  }

  /** Python's `<` on strings: lexicographic on character codes, a proper prefix first. */
  predicate Below(a: string, b: string)
    decreases |a|
  {
    if a == [] then b != []
    else if b == [] then false
    else if a[0] != b[0] then a[0] < b[0]
    else Below(a[1..], b[1..])
  }

  lemma {:induction false} BelowIrreflexive(a: string)
    ensures !Below(a, a)
    decreases |a|
  {
    if a != [] {
      BelowIrreflexive(a[1..]);
    }
  }

  lemma {:induction false} BelowTransitive(a: string, b: string, c: string)
    requires Below(a, b) && Below(b, c)
    ensures Below(a, c)
    decreases |a|
  {
    if a != [] && b != [] && c != [] && a[0] == b[0] && b[0] == c[0] {
      BelowTransitive(a[1..], b[1..], c[1..]);
    }
  }

  /** Any two different strings are ordered one way, and only one way. */
  lemma {:induction false} BelowTotal(a: string, b: string)
    ensures a != b ==> Below(a, b) || Below(b, a)
    ensures !(Below(a, b) && Below(b, a))
    decreases |a|
  {
    if a != [] && b != [] && a[0] == b[0] {
      BelowTotal(a[1..], b[1..]);
      if a[1..] == b[1..] {
        assert a == [a[0]] + a[1..] && b == [b[0]] + b[1..];
      }
    }
  }
}
