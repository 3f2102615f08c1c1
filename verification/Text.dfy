/** Strings as the components use them: order, letter case, trimming, splitting and wildcards. */
module Text {

  // ---------------------------------------------------------------- order by code point

  predicate Less(a: string, b: string) {
    b != [] && (a == [] || a[0] < b[0] || (a[0] == b[0] && Less(a[1..], b[1..])))
  }

  lemma {:induction false} LessTransitive(a: string, b: string, c: string)
    requires Less(a, b) && Less(b, c)
    ensures Less(a, c)
  {
    if a != [] && a[0] == b[0] == c[0] {
      LessTransitive(a[1..], b[1..], c[1..]);
    }
  }

  lemma {:induction false} LessTotal(a: string, b: string)
    ensures Less(a, b) || a == b || Less(b, a)
  {
    if a != [] && b != [] && a[0] == b[0] {
      LessTotal(a[1..], b[1..]);
      assert a == [a[0]] + a[1..] && b == [b[0]] + b[1..];
    }
  }

  lemma {:induction false} LessAsymmetric(a: string, b: string)
    requires Less(a, b)
    ensures !Less(b, a) && a != b
  {
    if a != [] && a[0] == b[0] {
      LessAsymmetric(a[1..], b[1..]);
    }
  }

  ghost predicate Sorted(ss: seq<string>) {
    forall i, j | 0 <= i < j < |ss| :: Less(ss[i], ss[j])
  }

  /** Inserts into a sorted list without repeating an element. */
  function Insert(s: string, ss: seq<string>): seq<string> {
    if ss == [] then [s]
    else if s == ss[0] then ss
    else if Less(s, ss[0]) then [s] + ss
    else [ss[0]] + Insert(s, ss[1..])
  }

  /** Sorts and removes duplicates. */
  function Unique(ss: seq<string>): seq<string> {
    if ss == [] then [] else Insert(ss[|ss| - 1], Unique(ss[..|ss| - 1]))
  }

  lemma {:induction false} InsertSorts(s: string, ss: seq<string>)
    requires Sorted(ss)
    ensures Sorted(Insert(s, ss))
    ensures forall x :: x in Insert(s, ss) <==> x == s || x in ss
  {
    if ss != [] && s != ss[0] {
      if Less(s, ss[0]) {
        forall i | 1 <= i < |ss| ensures Less(s, ss[i]) {
          LessTransitive(s, ss[0], ss[i]);
        }
      } else {
        var rest := Insert(s, ss[1..]);
        InsertSorts(s, ss[1..]);
        LessTotal(s, ss[0]);
        forall i | 0 <= i < |rest| ensures Less(ss[0], rest[i]) {
          assert rest[i] in rest;
        }
        assert ss == [ss[0]] + ss[1..];
      }
    }
  }

  lemma {:induction false} UniqueSorts(ss: seq<string>)
    ensures Sorted(Unique(ss))
    ensures forall x :: x in Unique(ss) <==> x in ss
  {
    if ss != [] {
      var n := |ss| - 1;
      UniqueSorts(ss[..n]);
      InsertSorts(ss[n], Unique(ss[..n]));
      assert ss == ss[..n] + [ss[n]];
    }
  }

  /** A sorted list is determined by its elements. */
  lemma {:induction false} SortedIsCanonical(a: seq<string>, b: seq<string>)
    requires Sorted(a) && Sorted(b) && (forall x :: x in a <==> x in b)
    ensures a == b
  {
    if a == [] {
      EmptyOrMember(b);
    } else {
      assert a[0] in a && a[0] in b;
      assert b[0] in b && b[0] in a;
      FirstIsLeast(a, b[0]);
      FirstIsLeast(b, a[0]);
      if a[0] != b[0] {
        LessAsymmetric(a[0], b[0]);
      }
      RestWithoutFirst(a);
      RestWithoutFirst(b);
      SortedIsCanonical(a[1..], b[1..]);
      assert a == [a[0]] + a[1..] && b == [b[0]] + b[1..];
    }
  }

  lemma EmptyOrMember(ss: seq<string>)
    ensures ss == [] || exists x :: x in ss
  {
    if ss != [] {
      assert ss[0] in ss;
    }
  }

  lemma FirstIsLeast(a: seq<string>, x: string)
    requires Sorted(a) && x in a
    ensures x == a[0] || Less(a[0], x)
  {}

  lemma RestWithoutFirst(a: seq<string>)
    requires Sorted(a) && a != []
    ensures Sorted(a[1..]) && forall x :: x in a[1..] <==> x in a && x != a[0]
  {
    forall x | x in a[1..] ensures x in a && x != a[0] {
      var i :| 0 <= i < |a| - 1 && a[1..][i] == x;
      LessAsymmetric(a[0], a[i + 1]);
    }
    assert a == [a[0]] + a[1..];
  }

  lemma SameElementsSameUnique(a: seq<string>, b: seq<string>)
    requires forall x :: x in a <==> x in b
    ensures Unique(a) == Unique(b)
  {
    UniqueSorts(a);
    UniqueSorts(b);
    SortedIsCanonical(Unique(a), Unique(b));
  }

  // ---------------------------------------------------------------- letter case and white space

  function LowerChar(c: char): char {
    if 'A' <= c <= 'Z' then c - 'A' + 'a' else c
  }

  function Lower(s: string): (r: string)
    ensures |r| == |s| && forall i | 0 <= i < |s| :: r[i] == LowerChar(s[i])
  {
    seq(|s|, i requires 0 <= i < |s| => LowerChar(s[i]))
  }

  predicate IsSpace(c: char) {
    c == ' ' || '\t' <= c <= '\r' || c == '\U{A0}' || c == '\U{1680}' || '\U{2000}' <= c <= '\U{200A}'
    || c == '\U{2028}' || c == '\U{2029}' || c == '\U{202F}' || c == '\U{205F}' || c == '\U{3000}' || c == '\U{FEFF}'
  }

  /** The blanks and line ends of plain text count, letters and digits and the signs of a token do not. */
  lemma CommonSpaces(c: char)
    ensures c in " \t\n\r\U{0B}\U{0C}\U{A0}\U{FEFF}" ==> IsSpace(c)
    ensures '!' <= c <= '~' ==> !IsSpace(c)
  {}

  function TrimLeft(s: string): string {
    if s != [] && IsSpace(s[0]) then TrimLeft(s[1..]) else s
  }

  function TrimRight(s: string): string {
    if s != [] && IsSpace(s[|s| - 1]) then TrimRight(s[..|s| - 1]) else s
  }

  function Trim(s: string): string {
    TrimRight(TrimLeft(s))
  }

  // ---------------------------------------------------------------- searching and splitting

  /** The first position of `c` at or after `from`, or -1. */
  function IndexOf(s: string, c: char, from: nat): (i: int)
    ensures i == -1 ==> forall k | from <= k < |s| :: s[k] != c
    ensures i != -1 ==> from <= i < |s| && s[i] == c && forall k | from <= k < i :: s[k] != c
    decreases |s| - from
  {
    if from >= |s| then -1 else if s[from] == c then from else IndexOf(s, c, from + 1)
  }

  /** The parts between separators; there is always at least one. */
  function Split(s: string, separator: char): (parts: seq<string>)
    ensures parts != []
    decreases |s|
  {
    var i := IndexOf(s, separator, 0);
    if i == -1 then [s] else [s[..i]] + Split(s[i + 1..], separator)
  }

  function Join(parts: seq<string>, separator: char): string {
    if parts == [] then []
    else if |parts| == 1 then parts[0]
    else parts[0] + [separator] + Join(parts[1..], separator)
  }

  /** Splitting undoes joining. */
  lemma {:induction false} SplitUndoesJoin(parts: seq<string>, separator: char)
    requires parts != [] && forall part | part in parts :: separator !in part
    ensures Split(Join(parts, separator), separator) == parts
    decreases |parts|
  {
    var s, first := Join(parts, separator), parts[0];
    assert first in parts;
    if |parts| == 1 {
      assert parts == [first];
    } else {
      forall k | 0 <= k < |first| ensures s[k] != separator {
        assert s[k] == first[k] && first[k] in first;
      }
      assert s[|first|] == separator && IndexOf(s, separator, 0) == |first|;
      assert s[..|first|] == first && s[|first| + 1..] == Join(parts[1..], separator);
      forall part | part in parts[1..] ensures part in parts {}
      SplitUndoesJoin(parts[1..], separator);
      assert parts == [first] + parts[1..];
    }
  }

  predicate HasPrefix(s: string, prefix: string) {
    prefix <= s
  }

  predicate HasSuffix(s: string, suffix: string) {
    |suffix| <= |s| && s[|s| - |suffix|..] == suffix
  }

  // ---------------------------------------------------------------- wildcards

  /** '*' stands for any text and '?' for any one character. */
  predicate Glob(pattern: string, s: string)
    decreases |pattern| + |s|
  {
    if pattern == [] then s == []
    else if pattern[0] == '*' then Glob(pattern[1..], s) || (s != [] && Glob(pattern, s[1..]))
    else s != [] && (pattern[0] == '?' || pattern[0] == s[0]) && Glob(pattern[1..], s[1..])
  }

  lemma {:induction false} StarMatchesAll(s: string)
    ensures Glob("*", s)
    decreases |s|
  {
    if s != [] {
      StarMatchesAll(s[1..]);
    } else {
      assert "*"[1..] == "";
    }
  }

  /** A star stands for any number of characters, none included, and a question mark for exactly one. */
  lemma {:induction false} WildcardsMean(pattern: string, s: string)
    ensures Glob("*" + pattern, s) <==> exists k | 0 <= k <= |s| :: Glob(pattern, s[k..])
    ensures Glob("?" + pattern, s) <==> s != [] && Glob(pattern, s[1..])
    decreases |s|
  {
    assert ("*" + pattern)[1..] == pattern && ("?" + pattern)[1..] == pattern;
    if s == [] {
      assert s[0..] == s;
    } else {
      WildcardsMean(pattern, s[1..]);
      assert s[0..] == s;
      forall k | 0 <= k <= |s| - 1 ensures s[1..][k..] == s[k + 1..] {}
      if Glob("*" + pattern, s[1..]) {
        var k :| 0 <= k <= |s[1..]| && Glob(pattern, s[1..][k..]);
        assert Glob(pattern, s[k + 1..]);
      }
      if k :| 0 <= k <= |s| && Glob(pattern, s[k..]) {
        assert k > 0 ==> Glob(pattern, s[1..][k - 1..]);
      }
    }
  }

  lemma {:induction false} PlainThenStar(start: string, s: string)
    requires '*' !in start && '?' !in start
    ensures Glob(start + "*", s) <==> start <= s
    decreases |start|
  {
    if start == [] {
      StarMatchesAll(s);
      assert start + "*" == "*";
    } else {
      assert start[0] in start && (start + "*")[1..] == start[1..] + "*";
      if s != [] {
        forall c | c in start[1..] ensures c in start {}
        PlainThenStar(start[1..], s[1..]);
        assert start == [start[0]] + start[1..] && s == [s[0]] + s[1..];
      }
    }
  }

  /** Without a wildcard a pattern matches itself and nothing else. */
  lemma {:induction false} PlainPatternIsEquality(pattern: string, s: string)
    requires '*' !in pattern && '?' !in pattern
    ensures Glob(pattern, s) <==> pattern == s
    decreases |pattern|
  {
    if pattern != [] {
      assert pattern[0] in pattern;
      if s != [] {
        forall c | c in pattern[1..] ensures c in pattern {}
        PlainPatternIsEquality(pattern[1..], s[1..]);
        assert pattern == [pattern[0]] + pattern[1..] && s == [s[0]] + s[1..];
      }
    }
  }
}
