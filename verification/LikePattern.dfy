/** The LIKE patterns of the vector index, as PostgreSQL reads them (section 9.7.1 of its manual). */
module LikePattern {

  predicate IsSpecial(c: char) {
    c == '\\' || c == '%' || c == '_'
  }

  function EscapeLike(input: string): string {
    if input == [] then []
    else (if IsSpecial(input[0]) then ['\\', input[0]] else [input[0]]) + EscapeLike(input[1..])
  }

  /** The pattern of a range query. */
  function PrefixPattern(prefix: string): string {
    EscapeLike(prefix) + "%"
  }

  /** A pattern must not end in an escape character that escapes nothing. */
  predicate WellFormed(pattern: string) {
    pattern == [] ||
    (if pattern[0] == '\\' then |pattern| > 1 && WellFormed(pattern[2..]) else WellFormed(pattern[1..]))
  }

  /** '%' matches any text, '_' any one character, and a backslash makes the next character literal. */
  predicate Like(pattern: string, s: string)
    decreases |pattern| + |s|
  {
    if pattern == [] then s == []
    else if pattern[0] == '\\' then
      |pattern| > 1 && s != [] && pattern[1] == s[0] && Like(pattern[2..], s[1..])
    else if pattern[0] == '%' then Like(pattern[1..], s) || (s != [] && Like(pattern, s[1..]))
    else s != [] && (pattern[0] == '_' || pattern[0] == s[0]) && Like(pattern[1..], s[1..])
  }

  lemma {:induction false} PercentMatchesAll(s: string)
    ensures Like("%", s)
    decreases |s|
  {
    if s != [] {
      PercentMatchesAll(s[1..]);
    } else {
      assert "%"[1..] == "";
    }
  }

  /** The escaped pattern is accepted by PostgreSQL and matches exactly the ids with that prefix. */
  lemma {:induction false} PatternMatchesPrefix(prefix: string, id: string)
    ensures WellFormed(PrefixPattern(prefix))
    ensures Like(PrefixPattern(prefix), id) <==> prefix <= id
    decreases |prefix|
  {
    var pattern := PrefixPattern(prefix);
    if prefix == [] {
      assert pattern == "%" && pattern[1..] == "";
      PercentMatchesAll(id);
    } else {
      var skip := if IsSpecial(prefix[0]) then 2 else 1;
      assert pattern[skip..] == PrefixPattern(prefix[1..]);
      assert prefix == [prefix[0]] + prefix[1..];
      if id == [] {
        PatternMatchesPrefix(prefix[1..], id);
      } else {
        PatternMatchesPrefix(prefix[1..], id[1..]);
        assert id == [id[0]] + id[1..];
      }
    }
  }
}
