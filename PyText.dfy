/** Python's string operations, as the archive bot and its scripts use them,
    on Dafny strings (`seq<char>`). */
module PyText {

  function Min(a: int, b: int): int { if a <= b then a else b }

  // ---------------------------------------------------------------------------
  // Slicing and containment
  // ---------------------------------------------------------------------------

  /** `s[i:j]` for non-negative bounds: the end is clamped to `len(s)`, and a
      start at or past the clamped end gives the empty string. */
  function Slice(s: string, i: nat, j: nat): (r: string)
    ensures |r| == if Min(j, |s|) <= i then 0 else Min(j, |s|) - i
    ensures forall k :: 0 <= k < |r| ==> r[k] == s[i + k]
  {
    var hi := Min(j, |s|);
    if hi <= i then "" else s[i..hi]
  }

  predicate StartsWith(s: string, prefix: string)
  {
    |prefix| <= |s| && s[..|prefix|] == prefix
  }

  /** Python's `needle in hay` on strings: substring containment. */
  predicate Contains(hay: string, needle: string)
    decreases |hay|
  {
    StartsWith(hay, needle) || (|hay| > 0 && Contains(hay[1..], needle))
  }

  /** Containment means an occurrence at some offset. */
  lemma {:induction false} ContainsAt(hay: string, needle: string)
    ensures Contains(hay, needle) <==> exists k :: 0 <= k <= |hay| && StartsWith(hay[k..], needle)
  {
    if Contains(hay, needle) {
      if StartsWith(hay, needle) {
        assert hay[0..] == hay;
      } else {
        ContainsAt(hay[1..], needle);
        var k :| 0 <= k <= |hay[1..]| && StartsWith(hay[1..][k..], needle);
        assert hay[1..][k..] == hay[k + 1..];
      }
    }
    if exists k :: 0 <= k <= |hay| && StartsWith(hay[k..], needle) {
      var k :| 0 <= k <= |hay| && StartsWith(hay[k..], needle);
      if k == 0 {
        assert hay[0..] == hay;
      } else {
        assert hay[1..][k - 1..] == hay[k..];
        ContainsAt(hay[1..], needle);
      }
    }
  }

  /** A needle longer than the haystack is never contained in it. */
  lemma {:induction false} ContainsLonger(hay: string, needle: string)
    requires |needle| > |hay|
    ensures !Contains(hay, needle)
  {
    if |hay| > 0 {
      ContainsLonger(hay[1..], needle);
    }
  }

  /** Between strings of equal length, containment is equality. */
  lemma ContainsSameLength(hay: string, needle: string)
    requires |needle| == |hay|
    ensures Contains(hay, needle) <==> hay == needle
  {
    if |hay| > 0 {
      ContainsLonger(hay[1..], needle);
    }
  }

  // ---------------------------------------------------------------------------
  // strip
  // ---------------------------------------------------------------------------

  /** Drops every leading character that is in `cs` (`str.lstrip(cs)`): what
      remains is empty or starts outside `cs`. */
  function StripLeft(s: string, cs: set<char>): (r: string)
    ensures |r| <= |s|
    ensures r == [] || r[0] !in cs
    decreases |s|
  {
    if |s| > 0 && s[0] in cs then StripLeft(s[1..], cs) else s
  }

  /** `lstrip` keeps a suffix and everything it removes is in `cs`. */
  lemma {:induction false} StripLeftSuffix(s: string, cs: set<char>)
    ensures StripLeft(s, cs) == s[|s| - |StripLeft(s, cs)|..]
    ensures forall k :: 0 <= k < |s| - |StripLeft(s, cs)| ==> s[k] in cs
    decreases |s|
  {
    if |s| > 0 && s[0] in cs {
      StripLeftSuffix(s[1..], cs);
      assert forall k :: 1 <= k < |s| ==> s[k] == s[1..][k - 1];
    }
  }

  /** Drops every trailing character that is in `cs` (`str.rstrip(cs)`): what
      remains is empty or ends outside `cs`. */
  function StripRight(s: string, cs: set<char>): (r: string)
    ensures |r| <= |s|
    ensures r == [] || r[|r| - 1] !in cs
    decreases |s|
  {
    if |s| > 0 && s[|s| - 1] in cs then StripRight(s[..|s| - 1], cs) else s
  }

  /** `rstrip` keeps a prefix and everything it removes is in `cs`. */
  lemma {:induction false} StripRightPrefix(s: string, cs: set<char>)
    ensures StripRight(s, cs) == s[..|StripRight(s, cs)|]
    ensures forall k :: |StripRight(s, cs)| <= k < |s| ==> s[k] in cs
    decreases |s|
  {
    if |s| > 0 && s[|s| - 1] in cs {
      StripRightPrefix(s[..|s| - 1], cs);
    }
  }

  /** `str.strip(cs)`: empty or with both ends outside `cs`; a string whose
      ends are already outside `cs` is left as it is. */
  function Strip(s: string, cs: set<char>): (r: string)
    ensures r == [] || (r[0] !in cs && r[|r| - 1] !in cs)
    ensures (s == [] || (s[0] !in cs && s[|s| - 1] !in cs)) ==> r == s
  {
    var l := StripLeft(s, cs);
    StripRightPrefix(l, cs);
    var r := StripRight(l, cs);
    assert r != [] ==> r[0] == l[0];
    r
  }

  /** `r` sits at offset `i` of `s`, and every character of `s` around it is
      in `cs`. */
  predicate TrimAt(s: string, r: string, cs: set<char>, i: int)
  {
    0 <= i <= |s| - |r| && StartsWith(s[i..], r)
    && (forall k :: 0 <= k < i ==> s[k] in cs)
    && (forall k :: i + |r| <= k < |s| ==> s[k] in cs)
  }

  /** `r` is a contiguous piece of `s` and every character of `s` around it is
      in `cs`. */
  ghost predicate TrimOf(s: string, r: string, cs: set<char>)
  {
    exists i :: TrimAt(s, r, cs, i)
  }

  lemma TrimAtTrans(s: string, a: string, b: string, sa: set<char>, sb: set<char>, i: int, j: int)
    requires TrimAt(s, a, sa, i) && TrimAt(a, b, sb, j)
    ensures TrimAt(s, b, sa + sb, i + j)
  {
    forall k | 0 <= k < |a|
      ensures a[k] == s[i + k]
    {
      assert a[k] == s[i..][..|a|][k];
    }
    forall k | 0 <= k < i + j
      ensures s[k] in sa + sb
    {
      if k >= i {
        assert s[k] == a[k - i];
      }
    }
    forall k | i + j + |b| <= k < |s|
      ensures s[k] in sa + sb
    {
      if k < i + |a| {
        assert s[k] == a[k - i];
      }
    }
    assert s[i + j..][..|b|] == b by {
      forall k | 0 <= k < |b|
        ensures s[i + j..][k] == b[k]
      {
        assert b[k] == a[j..][..|b|][k] == a[j + k];
      }
    }
  }

  /** Trimming a trimmed string trims the original by both sets together. */
  lemma TrimOfTrans(s: string, a: string, b: string, sa: set<char>, sb: set<char>)
    requires TrimOf(s, a, sa) && TrimOf(a, b, sb)
    ensures TrimOf(s, b, sa + sb)
  {
    var i :| TrimAt(s, a, sa, i);
    var j :| TrimAt(a, b, sb, j);
    TrimAtTrans(s, a, b, sa, sb, i, j);
  }

  /** What `strip` keeps is a contiguous piece of the string, and everything it
      removes on either side is in `cs`. */
  lemma StripKeepsMiddle(s: string, cs: set<char>)
    ensures TrimOf(s, Strip(s, cs), cs)
  {
    var l := StripLeft(s, cs);
    StripLeftSuffix(s, cs);
    StripRightPrefix(l, cs);
    var r := Strip(s, cs);
    var i := |s| - |l|;
    assert r == l[..|r|];
    assert StartsWith(s[i..], r);
    assert forall k :: i + |r| <= k < |s| ==> s[k] == l[k - i];
    assert TrimAt(s, r, cs, i);
  }

  /** The characters for which Python's `str.isspace()` holds: what `str.strip()`
      without an argument removes. */
  const PyWhitespace: set<char> := {
    '\t', '\n', 11 as char, 12 as char, '\r',
    28 as char, 29 as char, 30 as char, 31 as char, ' ',
    0x85 as char, 0xA0 as char, 0x1680 as char,
    0x2000 as char, 0x2001 as char, 0x2002 as char, 0x2003 as char, 0x2004 as char,
    0x2005 as char, 0x2006 as char, 0x2007 as char, 0x2008 as char, 0x2009 as char,
    0x200A as char, 0x2028 as char, 0x2029 as char, 0x202F as char, 0x205F as char,
    0x3000 as char
  }

  // ---------------------------------------------------------------------------
  // lower
  // ---------------------------------------------------------------------------

  function LowerChar(c: char): char
  {
    if 'A' <= c <= 'Z' then (c as int + 32) as char else c
  }

  /** `str.lower()` on the ASCII letters. */
  function Lower(s: string): string
  {
    seq(|s|, k requires 0 <= k < |s| => LowerChar(s[k]))
  }

  // ---------------------------------------------------------------------------
  // split, join, concatenation
  // ---------------------------------------------------------------------------

  /** `s.split(sep)` for a one-character separator: never empty, and no part
      contains the separator. */
  function Split(s: string, sep: char): (parts: seq<string>)
    ensures |parts| >= 1
    ensures forall p :: p in parts ==> sep !in p
    decreases |s|
  {
    if s == [] then [""]
    else
      var rest := Split(s[1..], sep);
      if s[0] == sep then [""] + rest
      else [[s[0]] + rest[0]] + rest[1..]
  }

  /** `sep.join(parts)`. */
  function Join(parts: seq<string>, sep: char): string
    decreases |parts|
  {
    if |parts| == 0 then ""
    else if |parts| == 1 then parts[0]
    else parts[0] + [sep] + Join(parts[1..], sep)
  }

  function Last<T>(s: seq<T>): T
    requires |s| > 0
  {
    s[|s| - 1]
  }

  /** Joining the parts of a split with the same separator gives the string back. */
  lemma {:induction false} JoinSplit(s: string, sep: char)
    ensures Join(Split(s, sep), sep) == s
  {
    if s != [] {
      var rest := Split(s[1..], sep);
      JoinSplit(s[1..], sep);
      var parts := Split(s, sep);
      if s[0] == sep {
        assert parts[1..] == rest;
      } else if |rest| > 1 {
        assert parts[1..] == rest[1..];
      }
    }
  }

  /** There is more than one part exactly when `s` contains the separator. */
  lemma {:induction false} SplitCount(s: string, sep: char)
    ensures |Split(s, sep)| > 1 <==> sep in s
    decreases |s|
  {
    if s != [] {
      SplitCount(s[1..], sep);
      assert s == [s[0]] + s[1..];
    }
  }

  /** The last part of a split is a suffix of the string. */
  lemma {:induction false} SplitLastSuffix(s: string, sep: char)
    ensures var h := Last(Split(s, sep)); |h| <= |s| && s[|s| - |h|..] == h
    decreases |s|
  {
    if s != [] {
      var t := s[1..];
      SplitLastSuffix(t, sep);
      var g := Last(Split(t, sep));
      if s[0] == sep || |Split(t, sep)| > 1 {
        assert Last(Split(s, sep)) == g;
        var a, b := s[|s| - |g|..], t[|t| - |g|..];
        assert forall k :: 0 <= k < |g| ==> a[k] == b[k];
        assert a == b;
      } else {
        SplitCount(t, sep);
        SplitWithoutSep(t, sep);
        assert Last(Split(s, sep)) == [s[0]] + t == s;
      }
    }
  }

  /** Without a separator the split has one part, the whole string. */
  lemma {:induction false} SplitWithoutSep(s: string, sep: char)
    requires sep !in s
    ensures Split(s, sep) == [s]
    decreases |s|
  {
    if s != [] {
      assert sep !in s[1..];
      SplitWithoutSep(s[1..], sep);
      assert [s[0]] + s[1..] == s;
    }
  }

  /** With a separator, the last part is preceded by one. */
  lemma {:induction false} SplitLastAfterSep(s: string, sep: char)
    requires sep in s
    ensures var h := Last(Split(s, sep)); |h| < |s| && s[|s| - |h| - 1] == sep
    decreases |s|
  {
    SplitLastSuffix(s, sep);
    var t := s[1..];
    SplitLastSuffix(t, sep);
    var g := Last(Split(t, sep));
    if sep in t {
      SplitLastAfterSep(t, sep);
      SplitCount(t, sep);
      assert Last(Split(s, sep)) == g;
      assert s[|s| - |g| - 1] == t[|t| - |g| - 1];
    } else {
      assert s[0] == sep;
      SplitWithoutSep(t, sep);
      assert Last(Split(s, sep)) == t;
    }
  }

  /** `s.split(sep)[-1]` is the text after the last separator (the whole string
      when there is none), and there is more than one part exactly when `s`
      contains the separator. */
  lemma SplitLast(s: string, sep: char)
    ensures var h := Last(Split(s, sep));
      && |h| <= |s| && s[|s| - |h|..] == h
      && (sep !in s ==> h == s)
      && (sep in s ==> s[|s| - |h| - 1] == sep)
    ensures |Split(s, sep)| > 1 <==> sep in s
  {
    SplitCount(s, sep);
    SplitLastSuffix(s, sep);
    if sep in s {
      SplitLastAfterSep(s, sep);
    } else {
      SplitWithoutSep(s, sep);
    }
  }

  /** Splitting a string that starts with separator-free text `a` puts `a` in
      front of the first part of what follows it. */
  lemma {:induction false} SplitFreePrefix(a: string, rest: string, sep: char)
    requires sep !in a
    ensures Split(a + rest, sep) == [a + Split(rest, sep)[0]] + Split(rest, sep)[1..]
    decreases |a|
  {
    if a == [] {
      var parts := Split(rest, sep);
      assert a + rest == rest && a + parts[0] == parts[0];
      assert [parts[0]] + parts[1..] == parts;
    } else {
      SplitFreePrefix(a[1..], rest, sep);
      assert (a + rest)[1..] == a[1..] + rest;
      assert [a[0]] + (a[1..] + Split(rest, sep)[0]) == a + Split(rest, sep)[0];
    }
  }

  /** Splitting the join of separator-free parts gives the parts back. */
  lemma {:induction false} SplitJoin(parts: seq<string>, sep: char)
    requires |parts| >= 1
    requires forall k :: 0 <= k < |parts| ==> sep !in parts[k]
    ensures Split(Join(parts, sep), sep) == parts
    decreases |parts|
  {
    if |parts| == 1 {
      SplitFreePrefix(parts[0], "", sep);
      assert parts[0] + "" == parts[0];
    } else {
      var b := Join(parts[1..], sep);
      SplitJoin(parts[1..], sep);
      SplitFreePrefix(parts[0], [sep] + b, sep);
      assert parts[0] + [sep] + b == parts[0] + ([sep] + b);
      assert ([sep] + b)[1..] == b;
      assert parts[0] + "" == parts[0];
      assert parts == [parts[0]] + parts[1..];
    }
  }

  /** Writing the strings one after another (`file.writelines`). */
  function Concat(ss: seq<string>): string
    decreases |ss|
  {
    if ss == [] then "" else ss[0] + Concat(ss[1..])
  }

  lemma ConcatCons(first: string, rest: seq<string>)
    ensures Concat([first] + rest) == first + Concat(rest)
  {
    assert ([first] + rest)[1..] == rest;
  }

  lemma {:induction false} ConcatAppend(a: seq<string>, b: seq<string>)
    ensures Concat(a + b) == Concat(a) + Concat(b)
  {
    if a != [] {
      assert (a + b)[1..] == a[1..] + b;
      ConcatAppend(a[1..], b);
    } else {
      assert a + b == b;
    }
  }

  /** Writing a prefix of the strings writes a prefix of the text. */
  lemma ConcatPrefix(ss: seq<string>, n: nat)
    requires n <= |ss|
    ensures StartsWith(Concat(ss), Concat(ss[..n]))
  {
    assert ss == ss[..n] + ss[n..];
    ConcatAppend(ss[..n], ss[n..]);
  }
}
