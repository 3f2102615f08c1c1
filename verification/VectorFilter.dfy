/** The scanner of the vector index's filter language, `key = "value" AND ...`, and its tenant scope. */
module VectorFilter {
  import Text

  datatype Condition = Condition(key: string, value: string)

  predicate IsKeyChar(c: char) {
    'A' <= c <= 'Z' || 'a' <= c <= 'z' || '0' <= c <= '9' || c == '_'
  }

  /** The columns that a filter may name; the owning organization is not one of them. */
  const FILTER_COLUMNS: set<string> := {"sourceType", "sourceId"}

  predicate IsColumn(key: string) {
    key in FILTER_COLUMNS
  }

  // ---------------------------------------------------------------- the scan as a function

  function BackOverSpaces(s: string, low: nat, end: nat): (r: nat)
    requires low <= end <= |s|
    ensures low <= r <= end
    decreases end
  {
    if end > low && Text.IsSpace(s[end - 1]) then BackOverSpaces(s, low, end - 1) else end
  }

  function BackOverKey(s: string, end: nat): (r: nat)
    requires end <= |s|
    ensures r <= end
  {
    if end > 0 && IsKeyChar(s[end - 1]) then BackOverKey(s, end - 1) else end
  }

  function OverSpaces(s: string, from: nat): (r: nat)
    requires from <= |s|
    ensures from <= r <= |s|
    ensures forall k | from <= k < r :: Text.IsSpace(s[k])
    decreases |s| - from
  {
    if from < |s| && Text.IsSpace(s[from]) then OverSpaces(s, from + 1) else from
  }

  function KeyBefore(s: string, low: nat, eq: nat): string
    requires low <= eq <= |s|
  {
    var end := BackOverSpaces(s, low, eq);
    s[BackOverKey(s, end)..end]
  }

  /** What one look at the filter finds: nothing more, an '=' to pass over, or a condition. */
  datatype Found = Nothing | PassOver(next: nat) | Pair(condition: Condition, next: nat)

  function Find(s: string, from: nat): (found: Found)
    requires from < |s|
    ensures !found.Nothing? ==> from < found.next <= |s|
  {
    var eq := Text.IndexOf(s, '=', from);
    if eq == -1 then Nothing else
    var key, v := KeyBefore(s, from, eq), OverSpaces(s, eq + 1);
    if !IsColumn(key) || v >= |s| || s[v] != '"' then PassOver(eq + 1) else
    var close := Text.IndexOf(s, '"', v + 1);
    if close == -1 then Nothing else Pair(Condition(key, s[v + 1..close]), close + 1)
  }

  function Scan(s: string, from: nat): seq<Condition>
    decreases |s| - from
  {
    if from >= |s| then [] else
    match Find(s, from)
    case Nothing => []
    case PassOver(next) => Scan(s, next)
    case Pair(c, next) => [c] + Scan(s, next)
  }

  lemma FindPair(s: string, from: nat, key: string, eq: nat, v: nat, close: nat)
    requires from <= eq < v < close < |s| && Text.IndexOf(s, '=', from) == eq
    requires KeyBefore(s, from, eq) == key && IsColumn(key)
    requires OverSpaces(s, eq + 1) == v && s[v] == '"' && Text.IndexOf(s, '"', v + 1) == close
    ensures Find(s, from) == Pair(Condition(key, s[v + 1..close]), close + 1)
  {}

  lemma FindPassOver(s: string, from: nat, eq: nat)
    requires from <= eq < |s| && Text.IndexOf(s, '=', from) == eq
    requires !IsColumn(KeyBefore(s, from, eq)) || OverSpaces(s, eq + 1) == |s| || s[OverSpaces(s, eq + 1)] != '"'
    ensures Find(s, from) == PassOver(eq + 1)
  {}

  lemma {:induction false} BackOverSpacesStops(s: string, low: nat, start: nat, end: nat)
    requires low <= start <= end <= |s| && (forall k | start <= k < end :: Text.IsSpace(s[k]))
    requires start == low || !Text.IsSpace(s[start - 1])
    ensures BackOverSpaces(s, low, end) == start
    decreases end
  {
    if start < end {
      BackOverSpacesStops(s, low, start, end - 1);
    }
  }

  lemma {:induction false} BackOverKeyStops(s: string, start: nat, end: nat)
    requires start <= end <= |s| && (forall k | start <= k < end :: IsKeyChar(s[k]))
    requires start == 0 || !IsKeyChar(s[start - 1])
    ensures BackOverKey(s, end) == start
  {
    if start < end {
      BackOverKeyStops(s, start, end - 1);
    }
  }

  lemma {:induction false} OverSpacesStops(s: string, from: nat, end: nat)
    requires from <= end <= |s| && (forall k | from <= k < end :: Text.IsSpace(s[k]))
    requires end == |s| || !Text.IsSpace(s[end])
    ensures OverSpaces(s, from) == end
    decreases end - from
  {
    if from < end {
      OverSpacesStops(s, from + 1, end);
    }
  }

  /** Nothing before this position can belong to a key that is found after it. */
  predicate StopsKeys(s: string, at: nat) {
    at == 0 || (at <= |s| && (s[at - 1] == '=' || s[at - 1] == '"'))
  }

  /**
   * The walk from an '=' back over spaces and then over a key. Its second loop is bounded by 0 only,
   * but it never goes back beyond `idx`.
   */
  method KeyBackFrom(filter: string, idx: nat, eq: nat) returns (key: string, ghost inspected: nat)
    requires idx <= eq < |filter| && StopsKeys(filter, idx)
    ensures key == KeyBefore(filter, idx, eq)
    ensures inspected <= 2 * (eq - idx) + 2
  {
    inspected := 1;
    var keyEnd := eq;
    while keyEnd > idx && Text.IsSpace(filter[keyEnd - 1])
      invariant idx <= keyEnd <= eq && inspected == eq - keyEnd + 1
      invariant forall k | keyEnd <= k < eq :: Text.IsSpace(filter[k])
    {
      keyEnd, inspected := keyEnd - 1, inspected + 1;
    }
    inspected := inspected + 1;
    var keyStart := keyEnd;
    while keyStart > 0 && IsKeyChar(filter[keyStart - 1])
      invariant idx <= keyStart <= keyEnd && inspected == eq - keyStart + 2
      invariant forall k | keyStart <= k < keyEnd :: IsKeyChar(filter[k])
    {
      keyStart, inspected := keyStart - 1, inspected + 1;
    }
    BackOverSpacesStops(filter, idx, keyEnd, eq);
    BackOverKeyStops(filter, keyStart, keyEnd);
    key := filter[keyStart..keyEnd];
    inspected := inspected + |key|;
  }

  /** The walk over the spaces that follow an '='. */
  method SkipSpaces(filter: string, from: nat) returns (v: nat, ghost inspected: nat)
    requires from <= |filter|
    ensures v == OverSpaces(filter, from) && inspected <= v - from + 1
  {
    v, inspected := from, 1;
    while v < |filter| && Text.IsSpace(filter[v])
      invariant from <= v <= |filter| && inspected == v - from + 1
      invariant forall k | from <= k < v :: Text.IsSpace(filter[k])
    {
      v, inspected := v + 1, inspected + 1;
    }
    OverSpacesStops(filter, from, v);
  }

  lemma FindUnterminated(s: string, from: nat, eq: nat, v: nat)
    requires from <= eq < v < |s| && Text.IndexOf(s, '=', from) == eq && IsColumn(KeyBefore(s, from, eq))
    requires OverSpaces(s, eq + 1) == v && s[v] == '"' && Text.IndexOf(s, '"', v + 1) == -1
    ensures Find(s, from) == Nothing
  {}

  /** After an '=' that follows an allowed key: the quoted value, if there is one. */
  method ReadValue(filter: string, idx: nat, key: string, eq: nat)
    returns (found: Found, ghost inspected: nat, ghost ahead: nat)
    requires idx <= eq < |filter| && Text.IndexOf(filter, '=', idx) == eq
    requires key == KeyBefore(filter, idx, eq) && IsColumn(key)
    ensures found == Find(filter, idx)
    ensures found.Nothing? ==> inspected <= |filter| - eq + 1
    ensures found.PassOver? ==> found.next == eq + 1 && ahead == OverSpaces(filter, eq + 1) && inspected <= ahead - eq + 1
    ensures found.Pair? ==> filter[found.next - 1] == '"' && ahead == found.next && inspected <= 2 * (found.next - eq)
  {
    var v;
    v, inspected := SkipSpaces(filter, eq + 1);
    inspected := inspected + 1;
    if v < |filter| && filter[v] == '"' {
      var close := Text.IndexOf(filter, '"', v + 1);
      if close == -1 {
        FindUnterminated(filter, idx, eq, v);
        return Nothing, inspected + (|filter| - v - 1), 0;
      }
      FindPair(filter, idx, key, eq, v, close);
      return Pair(Condition(key, filter[v + 1..close]), close + 1), inspected + (close - v) + (close - v - 1), close + 1;
    }
    FindPassOver(filter, idx, eq);
    return PassOver(eq + 1), inspected, v;
  }

  /**
   * One pass of the scanning loop. `ahead` is how far it has looked beyond the position that the next
   * pass starts from; everything up to there is white space.
   */
  method NextPair(filter: string, idx: nat) returns (found: Found, ghost inspected: nat, ghost ahead: nat)
    requires idx < |filter| && StopsKeys(filter, idx)
    ensures found == Find(filter, idx)
    ensures !found.Nothing? ==> StopsKeys(filter, found.next) && found.next <= ahead <= |filter|
    ensures !found.Nothing? ==> forall k | found.next <= k < ahead :: Text.IsSpace(filter[k])
    ensures inspected <= if found.Nothing? then 5 * (|filter| - idx) else 5 * (found.next - idx) + (ahead - found.next)
  {
    var eq := Text.IndexOf(filter, '=', idx);
    if eq == -1 {
      return Nothing, |filter| - idx, 0;
    }
    var key, walked := KeyBackFrom(filter, idx, eq);
    inspected := (eq - idx + 1) + walked;
    // Both allowed names are non-empty and start with a letter, so no further test of the key is needed.
    if IsColumn(key) {
      ghost var looked;
      found, looked, ahead := ReadValue(filter, idx, key, eq);
      inspected := inspected + looked;
    } else {
      FindPassOver(filter, idx, eq);
      found, ahead := PassOver(eq + 1), eq + 1;
    }
  }

  lemma ScanStep(s: string, from: nat)
    requires from < |s|
    ensures Scan(s, from) ==
      match Find(s, from)
      case Nothing => []
      case PassOver(next) => Scan(s, next)
      case Pair(c, next) => [c] + Scan(s, next)
  {}

  lemma ScanFound(s: string, from: nat, c: Condition, next: nat)
    requires from < |s| && Find(s, from) == Pair(c, next)
    ensures Scan(s, from) == [c] + Scan(s, next)
  {}

  /**
   * The whole scan. `inspected` counts every character that is looked at: by a search, by one of the
   * walks over spaces and key characters, and by cutting out a key or a value.
   */
  method FilterConditions(filter: string) returns (conditions: seq<Condition>, ghost inspected: nat)
    ensures conditions == Scan(filter, 0)
    ensures inspected <= 6 * |filter|
  {
    conditions, inspected := [], 0;
    var idx := 0;
    ghost var ahead := 0;
    ghost var rest := Scan(filter, 0);
    while idx < |filter|
      invariant idx <= |filter| && StopsKeys(filter, idx)
      invariant idx <= ahead <= |filter| && forall k | idx <= k < ahead :: Text.IsSpace(filter[k])
      invariant inspected <= 5 * idx + ahead
      invariant rest == Scan(filter, idx) && conditions + rest == Scan(filter, 0)
      decreases |filter| - idx
    {
      ScanStep(filter, idx);
      var found, looked, lookedTo := NextPair(filter, idx);
      inspected := inspected + looked;
      match found
      case Nothing =>
        rest := [];
        break;
      case PassOver(next) =>
        idx, ahead := next, lookedTo;
      case Pair(c, next) =>
        rest := Scan(filter, next);
        conditions := conditions + [c];
        idx, ahead := next, lookedTo;
    }
  }

  // ---------------------------------------------------------------- what it finds

  /** Every condition names an allowed column and holds a quote-free value. */
  lemma {:induction false} ScanIsSound(s: string, from: nat)
    ensures forall c | c in Scan(s, from) :: c.key in ["sourceType", "sourceId"] && '"' !in c.value
    decreases |s| - from
  {
    if from < |s| && !Find(s, from).Nothing? {
      ScanIsSound(s, Find(s, from).next);
    }
  }

  predicate Printable(c: Condition) {
    IsColumn(c.key) && '"' !in c.value
  }

  predicate AllSpaces(s: string) {
    forall i | 0 <= i < |s| :: Text.IsSpace(s[i])
  }

  /** The key as a whole word, spaces, an '=', spaces, and the value in quotes, at these positions. */
  predicate StandsAt(s: string, c: Condition, key: nat, gap: nat, eq: nat, v: nat, close: nat) {
    && key <= gap <= eq < v < close < |s|
    && (key > 0 ==> !('A' <= s[key - 1] <= 'Z' || 'a' <= s[key - 1] <= 'z' || '0' <= s[key - 1] <= '9' || s[key - 1] == '_'))
    && s[key..gap] == c.key && AllSpaces(s[gap..eq]) && s[eq] == '=' && AllSpaces(s[eq + 1..v])
    && s[v] == '"' && s[v + 1..close] == c.value && s[close] == '"'
  }

  ghost predicate Stands(s: string, c: Condition) {
    exists key, gap, eq, v, close :: StandsAt(s, c, key, gap, eq, v, close)
  }

  lemma KeyStands(s: string, from: nat, eq: nat)
    requires from <= eq < |s|
    ensures var gap := BackOverSpaces(s, from, eq);
      var key := BackOverKey(s, gap);
      && KeyBefore(s, from, eq) == s[key..gap] && AllSpaces(s[gap..eq]) && (key > 0 ==> !IsKeyChar(s[key - 1]))
  {
    BackOverSpacesAreSpaces(s, from, eq);
    BackOverWholeKey(s, BackOverSpaces(s, from, eq));
  }

  lemma FoundAt(s: string, from: nat)
    requires from < |s| && Find(s, from).Pair?
    ensures var eq := Text.IndexOf(s, '=', from);
      && from <= eq < |s|
      && var v := OverSpaces(s, eq + 1);
        && v < |s| && s[v] == '"'
        && var close := Text.IndexOf(s, '"', v + 1);
          v < close < |s| && Find(s, from).condition == Condition(KeyBefore(s, from, eq), s[v + 1..close])
  {}

  lemma FoundStands(s: string, from: nat)
    requires from < |s| && Find(s, from).Pair?
    ensures Stands(s, Find(s, from).condition)
  {
    FoundAt(s, from);
    var c, eq := Find(s, from).condition, Text.IndexOf(s, '=', from);
    var gap, v := BackOverSpaces(s, from, eq), OverSpaces(s, eq + 1);
    KeyStands(s, from, eq);
    assert StandsAt(s, c, BackOverKey(s, gap), gap, eq, v, Text.IndexOf(s, '"', v + 1));
  }

  /** ... and stands in the filter as written. */
  lemma {:induction false} ScanStandsInFilter(s: string, from: nat)
    ensures forall c | c in Scan(s, from) :: Stands(s, c)
    decreases |s| - from
  {
    if from < |s| && !Find(s, from).Nothing? {
      ScanStandsInFilter(s, Find(s, from).next);
      if Find(s, from).Pair? {
        FoundStands(s, from);
      }
    }
  }

  lemma {:induction false} BackOverSpacesAreSpaces(s: string, low: nat, end: nat)
    requires low <= end <= |s|
    ensures forall k | BackOverSpaces(s, low, end) <= k < end :: Text.IsSpace(s[k])
    decreases end
  {
    if end > low && Text.IsSpace(s[end - 1]) {
      BackOverSpacesAreSpaces(s, low, end - 1);
    }
  }

  lemma {:induction false} BackOverWholeKey(s: string, end: nat)
    requires end <= |s|
    ensures var start := BackOverKey(s, end); start > 0 ==> !IsKeyChar(s[start - 1])
  {
    if end > 0 && IsKeyChar(s[end - 1]) {
      BackOverWholeKey(s, end - 1);
    }
  }

  // ---------------------------------------------------------------- scanning undoes printing

  function One(c: Condition): string {
    c.key + " = \"" + c.value + "\""
  }

  function More(cs: seq<Condition>): string {
    if cs == [] then "" else " AND " + One(cs[0]) + More(cs[1..])
  }

  function Print(cs: seq<Condition>): string {
    if cs == [] then "" else One(cs[0]) + More(cs[1..])
  }

  lemma ColumnChars(key: string)
    requires IsColumn(key)
    ensures |key| > 0 && forall i | 0 <= i < |key| :: IsKeyChar(key[i]) && !Text.IsSpace(key[i]) && key[i] != '='
  {}

  /** From this position on, the text is `rest`. */
  predicate Reads(s: string, at: nat, rest: string) {
    at + |rest| == |s| && forall k | 0 <= k < |rest| :: s[at + k] == rest[k]
  }

  /** The printed condition, read off the text position by position. */
  predicate PrintedAt(s: string, start: nat, c: Condition) {
    var eq := start + |c.key| + 1;
    var close := eq + 3 + |c.value|;
    && close < |s|
    && (forall k | 0 <= k < |c.key| :: s[start + k] == c.key[k])
    && s[eq - 1] == ' ' && s[eq] == '=' && s[eq + 1] == ' ' && s[eq + 2] == '"'
    && (forall k | 0 <= k < |c.value| :: s[eq + 3 + k] == c.value[k]) && s[close] == '"'
  }

  lemma OneIsPrinted(c: Condition)
    ensures |One(c)| == |c.key| + |c.value| + 5 && PrintedAt(One(c), 0, c)
  {}

  lemma PrintedMoves(one: string, s: string, start: nat, c: Condition)
    requires |one| == |c.key| + |c.value| + 5 && PrintedAt(one, 0, c)
    requires start + |one| <= |s| && forall k | 0 <= k < |one| :: s[start + k] == one[k]
    ensures PrintedAt(s, start, c)
  {
    var n, m := |c.key|, |c.value|;
    assert s[start + n] == one[n] && s[start + (n + 1)] == one[n + 1] && s[start + (n + 2)] == one[n + 2];
    assert s[start + (n + 3)] == one[n + 3] && s[start + (n + 4 + m)] == one[n + 4 + m];
    forall k | 0 <= k < n ensures s[start + k] == c.key[k] {
      assert one[0 + k] == c.key[k];
    }
    forall k | 0 <= k < m ensures s[start + n + 1 + 3 + k] == c.value[k] {
      assert s[start + (n + 4 + k)] == one[n + 4 + k] == one[0 + n + 1 + 3 + k];
    }
  }

  lemma ReadsParts(s: string, at: nat, one: string, rest: string)
    requires Reads(s, at, one + rest)
    ensures (forall k | 0 <= k < |one| :: s[at + k] == one[k]) && Reads(s, at + |one|, rest)
  {
    forall k | 0 <= k < |one| ensures s[at + k] == one[k] {
      assert (one + rest)[k] == one[k];
    }
    forall k | 0 <= k < |rest| ensures s[at + |one| + k] == rest[k] {
      assert s[at + (|one| + k)] == (one + rest)[|one| + k] == rest[k];
    }
  }

  lemma OneIsPrintedAt(s: string, start: nat, c: Condition, rest: string)
    requires Reads(s, start, One(c) + rest)
    ensures PrintedAt(s, start, c) && Reads(s, start + |One(c)|, rest)
  {
    ReadsParts(s, start, One(c), rest);
    OneIsPrinted(c);
    PrintedMoves(One(c), s, start, c);
  }

  lemma KeyIsFound(s: string, from: nat, start: nat, eq: nat)
    requires from <= start < eq - 1 && eq < |s| && s[eq] == '=' && s[eq - 1] == ' '
    requires forall k | start <= k < eq - 1 :: IsKeyChar(s[k]) && !Text.IsSpace(s[k]) && s[k] != '='
    requires forall k | from <= k < start :: s[k] != '='
    requires start == 0 || !IsKeyChar(s[start - 1])
    ensures Text.IndexOf(s, '=', from) == eq && KeyBefore(s, from, eq) == s[start..eq - 1]
  {
    assert BackOverSpaces(s, from, eq) == BackOverSpaces(s, from, eq - 1) == eq - 1;
    BackOverKeyStops(s, start, eq - 1);
  }

  lemma ValueIsFound(s: string, eq: nat, close: nat)
    requires eq + 2 < close < |s| && s[eq + 1] == ' ' && s[eq + 2] == '"' && s[close] == '"'
    requires forall k | eq + 3 <= k < close :: s[k] != '"'
    ensures OverSpaces(s, eq + 1) == eq + 2 && Text.IndexOf(s, '"', eq + 3) == close
  {
    assert OverSpaces(s, eq + 2) == eq + 2;
  }

  lemma KeyCharsAt(s: string, start: nat, c: Condition)
    requires IsColumn(c.key) && PrintedAt(s, start, c)
    ensures forall k | start <= k < start + |c.key| :: IsKeyChar(s[k]) && !Text.IsSpace(s[k]) && s[k] != '='
  {
    ColumnChars(c.key);
    forall k | start <= k < start + |c.key| ensures s[k] == c.key[k - start] {
      assert s[start + (k - start)] == c.key[k - start];
    }
  }

  lemma PrintedKey(s: string, from: nat, start: nat, c: Condition)
    requires IsColumn(c.key) && from <= start && PrintedAt(s, start, c)
    requires forall k | from <= k < start :: s[k] != '='
    requires start == 0 || !IsKeyChar(s[start - 1])
    ensures var eq := start + |c.key| + 1; Text.IndexOf(s, '=', from) == eq && KeyBefore(s, from, eq) == c.key
  {
    ColumnChars(c.key);
    KeyCharsAt(s, start, c);
    KeyIsFound(s, from, start, start + |c.key| + 1);
    assert s[start..start + |c.key|] == c.key;
  }

  lemma PrintedValue(s: string, start: nat, c: Condition)
    requires '"' !in c.value && PrintedAt(s, start, c)
    ensures var eq := start + |c.key| + 1; var close := eq + 3 + |c.value|;
      && OverSpaces(s, eq + 1) == eq + 2 && s[eq + 2] == '"'
      && Text.IndexOf(s, '"', eq + 3) == close && s[eq + 3..close] == c.value
  {
    var eq, close := start + |c.key| + 1, start + |c.key| + 4 + |c.value|;
    forall k | eq + 3 <= k < close ensures s[k] != '"' {
      assert s[eq + 3 + (k - eq - 3)] == c.value[k - eq - 3];
    }
    ValueIsFound(s, eq, close);
    assert s[eq + 3..close] == c.value;
  }

  /** A printed condition is what a scan finds, from its start or from the " AND " before it. */
  lemma PrintedIsFound(s: string, from: nat, start: nat, c: Condition)
    requires Printable(c) && from <= start && PrintedAt(s, start, c)
    requires forall k | from <= k < start :: s[k] != '='
    requires start == 0 || !IsKeyChar(s[start - 1])
    ensures Find(s, from) == Pair(c, start + |One(c)|)
  {
    var eq := start + |c.key| + 1;
    PrintedKey(s, from, start, c);
    PrintedValue(s, start, c);
    FindPair(s, from, c.key, eq, eq + 2, eq + 3 + |c.value|);
  }

  lemma FirstIsFound(s: string, from: nat, start: nat, c: Condition, rest: string)
    requires Printable(c) && from <= start && Reads(s, start, One(c) + rest)
    requires (forall k | from <= k < start :: s[k] != '=') && (start == 0 || !IsKeyChar(s[start - 1]))
    ensures var next := start + |One(c)|;
      from < |s| && Reads(s, next, rest) && Find(s, from) == Pair(c, next)
  {
    OneIsPrintedAt(s, start, c, rest);
    PrintedIsFound(s, from, start, c);
  }

  lemma {:induction false} ScanPrinted(s: string, from: nat, start: nat, cs: seq<Condition>)
    requires cs != [] && (forall c | c in cs :: Printable(c))
    requires from <= start && Reads(s, start, One(cs[0]) + More(cs[1..]))
    requires (forall k | from <= k < start :: s[k] != '=') && (start == 0 || !IsKeyChar(s[start - 1]))
    ensures Scan(s, from) == cs
    decreases |cs|, 0
  {
    var next := start + |One(cs[0])|;
    FirstIsFound(s, from, start, cs[0], More(cs[1..]));
    assert Scan(s, next) == cs[1..] by {
      ScanMore(s, next, cs[1..]);
    }
    ScanFound(s, from, cs[0], next);
    assert cs == [cs[0]] + cs[1..];
  }

  lemma {:induction false} ScanMore(s: string, from: nat, cs: seq<Condition>)
    requires (forall c | c in cs :: Printable(c)) && Reads(s, from, More(cs))
    ensures Scan(s, from) == cs
    decreases |cs|, 1
  {
    if cs != [] {
      var start := from + 5;
      var next := One(cs[0]) + More(cs[1..]);
      assert More(cs) == " AND " + next;
      forall k | 0 <= k < |next| ensures s[start + k] == next[k] {
        assert s[from + (5 + k)] == (" AND " + next)[5 + k];
      }
      forall k | from <= k < start ensures s[k] == " AND "[k - from] {
        assert s[from + (k - from)] == (" AND " + next)[k - from];
      }
      ScanPrinted(s, from, start, cs);
    }
  }

  /** Scanning the printed form of any list of quote-free conditions gives that list back. */
  lemma ScanUndoesPrint(cs: seq<Condition>)
    requires forall c | c in cs :: c.key in ["sourceType", "sourceId"] && '"' !in c.value
    ensures Scan(Print(cs), 0) == cs
  {
    forall c | c in cs ensures Printable(c) {}
    if cs != [] {
      var start: nat :| start == 0;
      ScanPrinted(Print(cs), start, start, cs);
    }
  }

  // ---------------------------------------------------------------- the tenant scope

  datatype Row = Row(organizationId: string, sourceType: string, sourceId: string)

  function Column(row: Row, key: string): string {
    if key == "sourceType" then row.sourceType else row.sourceId
  }

  /** The rows that a query with this filter can see. */
  predicate TenantWhere(row: Row, organizationId: string, filter: string) {
    row.organizationId == organizationId && forall c | c in Scan(filter, 0) :: Column(row, c.key) == c.value
  }

  /** A query with a printed filter sees exactly the tenant's rows that have the given values. */
  lemma TenantWhereMeaning(row: Row, organizationId: string, cs: seq<Condition>)
    requires forall c | c in cs :: c.key in ["sourceType", "sourceId"] && '"' !in c.value
    ensures TenantWhere(row, organizationId, Print(cs)) <==>
      && row.organizationId == organizationId
      && (forall value | Condition("sourceType", value) in cs :: row.sourceType == value)
      && (forall value | Condition("sourceId", value) in cs :: row.sourceId == value)
  {
    ScanUndoesPrint(cs);
  }
}
