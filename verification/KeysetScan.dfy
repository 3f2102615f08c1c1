/**
 * Keyset pagination over the vector table: a scan is a chain of range queries, each starting after
 * the last id of the page before it, while rows are inserted and deleted between the queries.
 *
 * Ids are ordered by the database's collation, which can be any total order that has the empty text
 * first.
 */
module KeysetScan {
  import Arithmetic
  import LikePattern
  import opened Outcomes

  datatype Row = Row(organizationId: string)

  /** The table, by primary key. */
  type Table = map<string, Row>

  type Collation = (string, string) -> bool

  ghost predicate IsCollation(lt: Collation) {
    && (forall a :: !lt(a, a))
    && (forall a, b, c :: lt(a, b) && lt(b, c) ==> lt(a, c))
    && (forall a, b :: lt(a, b) || a == b || lt(b, a))
    && (forall a :: a != "" ==> lt("", a))
  }

  /** What stays the same over a scan: the tenant, the id prefix, and the page size. */
  datatype Query = Query(organizationId: string, prefix: string, limit: nat, lt: Collation)

  /** The WHERE clause of a range query. An empty cursor stands for no cursor. */
  predicate Matching(q: Query, t: Table, cursor: string, id: string) {
    && id in t && t[id].organizationId == q.organizationId
    && LikePattern.Like(LikePattern.PrefixPattern(q.prefix), id)
    && (cursor == "" || q.lt(cursor, id))
  }

  function Matches(q: Query, t: Table, cursor: string): set<string> {
    set id | id in t && Matching(q, t, cursor, id)
  }

  ghost predicate Ascending(q: Query, ids: seq<string>) {
    forall i, j | 0 <= i < j < |ids| :: q.lt(ids[i], ids[j])
  }

  /** What the database may answer: the first `limit + 1` matching ids in order. */
  ghost predicate IsAnswer(q: Query, t: Table, cursor: string, ids: seq<string>) {
    && Ascending(q, ids) && |ids| <= q.limit + 1
    && (forall id | id in ids :: id in Matches(q, t, cursor))
    && (forall id | id in Matches(q, t, cursor) && id !in ids :: |ids| == q.limit + 1 && forall x | x in ids :: q.lt(x, id))
  }

  function Page(q: Query, ids: seq<string>): seq<string> {
    if |ids| > q.limit then ids[..q.limit] else ids
  }

  function NextCursor(q: Query, ids: seq<string>): Option<string> {
    if |ids| > q.limit && Page(q, ids) != [] then Some(Page(q, ids)[|Page(q, ids)| - 1]) else None
  }

  /** One range query of a scan: the table it met and the ids the database answered. */
  datatype Visit = Visit(table: Table, ids: seq<string>)

  ghost predicate IsScan(q: Query, cursor: string, visits: seq<Visit>)
    decreases |visits|
  {
    && visits != [] && IsAnswer(q, visits[0].table, cursor, visits[0].ids)
    && (|visits| > 1 ==>
          NextCursor(q, visits[0].ids).Some? && IsScan(q, NextCursor(q, visits[0].ids).value, visits[1..]))
  }

  predicate IsComplete(q: Query, visits: seq<Visit>) {
    visits != [] && NextCursor(q, visits[|visits| - 1].ids).None?
  }

  function Returned(q: Query, visits: seq<Visit>): seq<string> {
    if visits == [] then [] else Page(q, visits[0].ids) + Returned(q, visits[1..])
  }

  // ---------------------------------------------------------------- when a page can end in the empty id

  /** The caller's guard: no page of a scan can end in an empty id, which would read as no cursor. */
  ghost predicate Safe(q: Query, cursor: string, visits: seq<Visit>) {
    cursor != "" || q.limit >= 2 || forall v | v in visits :: "" !in Matches(q, v.table, "")
  }

  lemma AnswerIsAboveCursor(q: Query, t: Table, cursor: string, ids: seq<string>, id: string)
    requires IsCollation(q.lt) && IsAnswer(q, t, cursor, ids) && id in ids
    ensures cursor == "" || q.lt(cursor, id)
    ensures cursor != "" ==> id != ""
  {
    assert id in Matches(q, t, cursor);
    NothingBelowEmpty(q, cursor);
  }

  lemma NothingBelowEmpty(q: Query, x: string)
    requires IsCollation(q.lt)
    ensures !q.lt(x, "")
  {
    if x != "" {
      assert q.lt("", x);
    }
  }

  lemma NextCursorIsNotEmpty(q: Query, cursor: string, visits: seq<Visit>)
    requires IsCollation(q.lt) && q.limit >= 1 && IsScan(q, cursor, visits) && Safe(q, cursor, visits)
    requires NextCursor(q, visits[0].ids).Some?
    ensures NextCursor(q, visits[0].ids).value != ""
  {
    var ids, t := visits[0].ids, visits[0].table;
    var last := ids[q.limit - 1];
    assert last in ids && visits[0] in visits;
    AnswerIsAboveCursor(q, t, cursor, ids, last);
    if cursor == "" && q.limit >= 2 {
      assert q.lt(ids[0], last);
      NothingBelowEmpty(q, ids[0]);
    } else if cursor == "" {
      assert last in Matches(q, t, "") && "" !in Matches(q, t, "");
    }
  }

  // ---------------------------------------------------------------- what a scan returns

  /** The page and the cursor that follows it: everything in the page is at or below that cursor. */
  lemma PageUpToCursor(q: Query, t: Table, cursor: string, ids: seq<string>)
    requires IsCollation(q.lt) && q.limit >= 1 && IsAnswer(q, t, cursor, ids)
    ensures Ascending(q, Page(q, ids))
    ensures forall id | id in Page(q, ids) :: id in ids
    ensures NextCursor(q, ids).Some? ==>
      forall id | id in Page(q, ids) :: id == NextCursor(q, ids).value || q.lt(id, NextCursor(q, ids).value)
  {}

  /** Each id is returned at most once, in ascending order, and above the start cursor. */
  lemma {:induction false} ScanAscends(q: Query, cursor: string, visits: seq<Visit>)
    requires IsCollation(q.lt) && q.limit >= 1 && IsScan(q, cursor, visits) && Safe(q, cursor, visits)
    ensures Ascending(q, Returned(q, visits))
    ensures forall id | id in Returned(q, visits) :: cursor == "" || q.lt(cursor, id)
    decreases |visits|
  {
    var ids := visits[0].ids;
    PageUpToCursor(q, visits[0].table, cursor, ids);
    forall id | id in Page(q, ids) ensures cursor == "" || q.lt(cursor, id) {
      AnswerIsAboveCursor(q, visits[0].table, cursor, ids, id);
    }
    if |visits| > 1 {
      var next := NextCursor(q, ids).value;
      NextCursorIsNotEmpty(q, cursor, visits);
      ScanAscends(q, next, visits[1..]);
      AscendingJoin(q, Page(q, ids), next, Returned(q, visits[1..]));
      AnswerIsAboveCursor(q, visits[0].table, cursor, ids, next);
    } else {
      assert Returned(q, visits[1..]) == [];
      assert Returned(q, visits) == Page(q, ids);
    }
  }

  lemma AscendingJoin(q: Query, a: seq<string>, mid: string, b: seq<string>)
    requires IsCollation(q.lt) && Ascending(q, a) && Ascending(q, b)
    requires (forall x | x in a :: x == mid || q.lt(x, mid)) && (forall y | y in b :: q.lt(mid, y))
    ensures Ascending(q, a + b)
  {
    forall i, j | 0 <= i < j < |a + b| ensures q.lt((a + b)[i], (a + b)[j]) {
      if i < |a| <= j {
        assert a[i] in a && b[j - |a|] in b;
      }
    }
  }

  /** The row that this query answered was the tenant's, and its id has the prefix. */
  predicate IsTenantRow(q: Query, v: Visit, id: string) {
    id in v.table && v.table[id].organizationId == q.organizationId && q.prefix <= id
  }

  /** Nothing else is returned: every id was, when it was answered, a row of the tenant with the prefix. */
  lemma {:induction false} ScanReturnsTenantRows(q: Query, cursor: string, visits: seq<Visit>, id: string)
    requires IsScan(q, cursor, visits) && id in Returned(q, visits)
    ensures exists v :: v in visits && id in v.ids && IsTenantRow(q, v, id)
    decreases |visits|
  {
    var v := visits[0];
    if id in Page(q, v.ids) {
      assert id in v.ids && id in Matches(q, v.table, cursor);
      LikePattern.PatternMatchesPrefix(q.prefix, id);
      assert v in visits && IsTenantRow(q, v, id);
    } else {
      assert Returned(q, visits) == Page(q, v.ids) + Returned(q, visits[1..]);
      assert |visits| > 1;
      ScanReturnsTenantRows(q, NextCursor(q, v.ids).value, visits[1..], id);
      var w :| w in visits[1..] && id in w.ids && IsTenantRow(q, w, id);
      assert w in visits;
    }
  }

  /** An answered id that is not in the page comes after it. */
  lemma BeyondThePage(q: Query, ids: seq<string>, id: string) returns (k: nat)
    requires id in ids && id !in Page(q, ids)
    ensures q.limit <= k < |ids| && ids[k] == id
  {
    k :| 0 <= k < |ids| && ids[k] == id;
    assert forall i | 0 <= i < |Page(q, ids)| :: Page(q, ids)[i] == ids[i] && Page(q, ids)[i] in Page(q, ids);
  }

  /** A row with the prefix, above the start cursor, and present in every table the scan meets. */
  predicate PresentThroughout(q: Query, visits: seq<Visit>, id: string) {
    q.prefix <= id && forall v | v in visits :: id in v.table && v.table[id].organizationId == q.organizationId
  }

  /** A completed scan misses no row that was there throughout. */
  lemma {:induction false} ScanMissesNothing(q: Query, cursor: string, visits: seq<Visit>, id: string)
    requires IsCollation(q.lt) && q.limit >= 1 && IsScan(q, cursor, visits) && IsComplete(q, visits)
    requires PresentThroughout(q, visits, id) && (cursor == "" || q.lt(cursor, id))
    ensures id in Returned(q, visits)
    decreases |visits|
  {
    var ids := visits[0].ids;
    LikePattern.PatternMatchesPrefix(q.prefix, id);
    assert visits[0] in visits && id in Matches(q, visits[0].table, cursor);
    if |visits| == 1 {
      assert Returned(q, visits) == Page(q, ids) + [];
    } else if id !in Page(q, ids) {
      var next := NextCursor(q, ids).value;
      assert next in ids && next in Page(q, ids);
      if id in ids {
        var k := BeyondThePage(q, ids, id);
        assert q.lt(ids[q.limit - 1], ids[k]);
      }
      forall v | v in visits[1..] ensures v in visits {}
      ScanMissesNothing(q, next, visits[1..], id);
    }
  }

  predicate OccursOnlyAt(ids: seq<string>, id: string, k: int) {
    0 <= k < |ids| && ids[k] == id && forall i | 0 <= i < |ids| && i != k :: ids[i] != id
  }

  /**
   * Keyset pagination over a changing table: every row of the tenant that has the prefix, lies above
   * the start cursor and stays for the whole scan is returned exactly once, and in ascending order.
   */
  lemma ScanReturnsEachRowOnce(q: Query, cursor: string, visits: seq<Visit>, id: string)
    requires IsCollation(q.lt) && q.limit >= 1 && IsScan(q, cursor, visits) && IsComplete(q, visits)
    requires Safe(q, cursor, visits)
    requires PresentThroughout(q, visits, id) && (cursor == "" || q.lt(cursor, id))
    ensures Ascending(q, Returned(q, visits))
    ensures exists k :: OccursOnlyAt(Returned(q, visits), id, k)
  {
    ScanAscends(q, cursor, visits);
    ScanMissesNothing(q, cursor, visits, id);
    var all := Returned(q, visits);
    var k :| 0 <= k < |all| && all[k] == id;
    forall i | 0 <= i < |all| && i != k ensures all[i] != id {
      assert if i < k then q.lt(all[i], all[k]) else q.lt(all[k], all[i]);
    }
    assert OccursOnlyAt(all, id, k);
  }

  // ---------------------------------------------------------------- how long a scan takes

  ghost predicate OnFixedTable(visits: seq<Visit>, t: Table) {
    forall v | v in visits :: v.table == t
  }

  lemma {:induction false} DistinctCount(q: Query, ids: seq<string>)
    requires IsCollation(q.lt) && Ascending(q, ids)
    ensures |set id | id in ids| == |ids|
  {
    if ids != [] {
      var n := |ids| - 1;
      DistinctCount(q, ids[..n]);
      var front := set id | id in ids[..n];
      assert ids[n] !in front by {
        forall k | 0 <= k < n ensures ids[k] != ids[n] {
          assert q.lt(ids[k], ids[n]);
        }
      }
      assert (set id | id in ids) == front + {ids[n]};
    }
  }

  /** A full page takes exactly `limit` rows off what is left to return, and leaves at least one. */
  lemma FullPageTakesLimit(q: Query, t: Table, cursor: string, ids: seq<string>)
    requires IsCollation(q.lt) && q.limit >= 1 && IsAnswer(q, t, cursor, ids) && NextCursor(q, ids).Some?
    requires NextCursor(q, ids).value != ""
    ensures |Matches(q, t, cursor)| == q.limit + |Matches(q, t, NextCursor(q, ids).value)|
    ensures |Matches(q, t, NextCursor(q, ids).value)| >= 1
  {
    var page, next := Page(q, ids), NextCursor(q, ids).value;
    var taken := set id | id in page;
    PageUpToCursor(q, t, cursor, ids);
    DistinctCount(q, page);
    assert next in ids && next in Matches(q, t, cursor);
    assert ids[q.limit] in Matches(q, t, next) by {
      assert ids[q.limit] in ids && q.lt(ids[q.limit - 1], ids[q.limit]);
    }
    forall id | id in Matches(q, t, cursor) && id !in taken ensures id in Matches(q, t, next) {
      if id in ids {
        var k := BeyondThePage(q, ids, id);
        assert q.lt(ids[q.limit - 1], ids[k]);
      }
    }
    forall id | id in Matches(q, t, next) ensures id in Matches(q, t, cursor) && id !in taken {}
    assert Matches(q, t, cursor) == taken + Matches(q, t, next);
  }

  /** A last page holds everything that is left. */
  lemma LastPageTakesRest(q: Query, t: Table, cursor: string, ids: seq<string>)
    requires IsCollation(q.lt) && q.limit >= 1 && IsAnswer(q, t, cursor, ids) && NextCursor(q, ids).None?
    ensures |Matches(q, t, cursor)| <= q.limit
  {
    DistinctCount(q, ids);
    assert Matches(q, t, cursor) == set id | id in ids;
  }

  /** The number of pages of a fixed table with `n` rows to return. */
  function PageCount(n: nat, limit: nat): nat
    requires limit >= 1
  {
    if n <= limit then 1 else 1 + PageCount(n - limit, limit)
  }

  lemma {:induction false} PageCountIsCeiling(n: nat, limit: nat)
    requires limit >= 1
    ensures PageCount(n, limit) == if n == 0 then 1 else (n + limit - 1) / limit
  {
    if n > limit {
      PageCountIsCeiling(n - limit, limit);
      var k := (n - 1) / limit;
      Arithmetic.QuotientIs(n - 1, limit, k);
      assert (k + 1) * limit == k * limit + limit;
      Arithmetic.QuotientIs(n + limit - 1, limit, k + 1);
    } else if n > 0 {
      Arithmetic.QuotientIs(n + limit - 1, limit, 1);
    }
  }

  /**
   * A scan of a fixed table that never ends: pages of one row, no start cursor, an empty id among the
   * matching rows, and another matching row.
   */
  predicate IsEndless(q: Query, t: Table, cursor: string) {
    cursor == "" && q.limit == 1 && "" in Matches(q, t, cursor) && |Matches(q, t, cursor)| >= 2
  }

  lemma EndsWithoutEmptyCursor(q: Query, t: Table, cursor: string, ids: seq<string>)
    requires IsCollation(q.lt) && q.limit >= 1 && IsAnswer(q, t, cursor, ids) && NextCursor(q, ids).Some?
    requires !IsEndless(q, t, cursor)
    ensures NextCursor(q, ids).value != ""
  {
    var last := ids[q.limit - 1];
    assert last in ids;
    AnswerIsAboveCursor(q, t, cursor, ids, last);
    if q.limit >= 2 {
      assert q.lt(ids[0], last);
      NothingBelowEmpty(q, ids[0]);
    } else if cursor == "" {
      TwoRowsAtLeast(q, t, ids);
    }
  }

  lemma TwoRowsAtLeast(q: Query, t: Table, ids: seq<string>)
    requires IsCollation(q.lt) && q.limit == 1 && IsAnswer(q, t, "", ids) && |ids| == 2
    ensures ids[0] in Matches(q, t, "") && |Matches(q, t, "")| >= 2
  {
    DistinctCount(q, ids);
    assert ids[0] in ids;
    var answered := set id | id in ids;
    Smaller(answered, Matches(q, t, ""));
  }

  lemma Smaller(a: set<string>, b: set<string>)
    requires a <= b
    ensures |a| <= |b|
  {
    assert b == a + (b - a);
  }

  /** On a fixed table a scan never takes more pages than that, and has then, and only then, completed. */
  lemma {:induction false} FixedTablePages(q: Query, cursor: string, visits: seq<Visit>, t: Table)
    requires IsCollation(q.lt) && q.limit >= 1 && IsScan(q, cursor, visits) && OnFixedTable(visits, t)
    requires !IsEndless(q, t, cursor)
    ensures |visits| <= PageCount(|Matches(q, t, cursor)|, q.limit)
    ensures IsComplete(q, visits) <==> |visits| == PageCount(|Matches(q, t, cursor)|, q.limit)
    decreases |visits|
  {
    var ids := visits[0].ids;
    assert visits[0] in visits;
    if NextCursor(q, ids).None? {
      LastPageTakesRest(q, t, cursor, ids);
    } else {
      EndsWithoutEmptyCursor(q, t, cursor, ids);
      FullPageTakesLimit(q, t, cursor, ids);
      if |visits| > 1 {
        forall v | v in visits[1..] ensures v in visits {}
        FixedTablePages(q, NextCursor(q, ids).value, visits[1..], t);
      }
    }
  }

  lemma FirstIsLeast(q: Query, t: Table, cursor: string, ids: seq<string>, id: string)
    requires IsAnswer(q, t, cursor, ids) && id in Matches(q, t, cursor)
    ensures ids != [] && (ids[0] == id || q.lt(ids[0], id))
  {
    if id in ids {
      var k :| 0 <= k < |ids| && ids[k] == id;
    }
  }

  lemma OnlyOne(ids: set<string>, id: string)
    requires id in ids && forall x | x in ids :: x == id
    ensures |ids| == 1
  {
    assert ids == {id};
  }

  /** A page of an endless scan is the empty id, with another one behind it. */
  lemma EndlessPage(q: Query, t: Table, ids: seq<string>)
    requires IsCollation(q.lt) && IsEndless(q, t, "") && IsAnswer(q, t, "", ids)
    ensures NextCursor(q, ids) == Some("")
  {
    FirstIsLeast(q, t, "", ids, "");
    NothingBelowEmpty(q, ids[0]);
    if |ids| == 1 {
      forall x | x in Matches(q, t, "") ensures x == "" {}
      OnlyOne(Matches(q, t, ""), "");
    }
  }

  lemma {:induction false} EndlessScanNeverCompletes(q: Query, visits: seq<Visit>, t: Table)
    requires IsCollation(q.lt) && IsEndless(q, t, "") && IsScan(q, "", visits) && OnFixedTable(visits, t)
    ensures !IsComplete(q, visits)
    decreases |visits|
  {
    assert visits[0] in visits;
    EndlessPage(q, t, visits[0].ids);
    if |visits| > 1 {
      forall v | v in visits[1..] ensures v in visits {}
      EndlessScanNeverCompletes(q, visits[1..], t);
    }
  }

  lemma {:induction false} LeastExists(q: Query, ids: set<string>) returns (least: string)
    requires IsCollation(q.lt) && ids != {}
    ensures least in ids && forall id | id in ids :: id == least || q.lt(least, id)
  {
    var some :| some in ids;
    if ids == {some} {
      least := some;
    } else {
      var rest := LeastExists(q, ids - {some});
      least := if q.lt(some, rest) then some else rest;
      forall id | id in ids ensures id == least || q.lt(least, id) {
        assert id == some || id in ids - {some};
      }
    }
  }

  /** The first rows of a set in order, as many as the limit asks for. */
  lemma {:induction false} FirstRows(q: Query, ids: set<string>, n: nat) returns (first: seq<string>)
    requires IsCollation(q.lt)
    ensures Ascending(q, first) && |first| <= n && (forall id | id in first :: id in ids)
    ensures forall id | id in ids && id !in first :: |first| == n && forall x | x in first :: q.lt(x, id)
    decreases n
  {
    if n == 0 || ids == {} {
      first := [];
    } else {
      var least := LeastExists(q, ids);
      var rest := FirstRows(q, ids - {least}, n - 1);
      first := [least] + rest;
      forall j | 0 <= j < |rest| ensures q.lt(least, rest[j]) {
        assert rest[j] in rest && rest[j] in ids - {least};
      }
    }
  }

  /** Every range query has an answer. */
  lemma AnswerExists(q: Query, t: Table, cursor: string) returns (ids: seq<string>)
    requires IsCollation(q.lt)
    ensures IsAnswer(q, t, cursor, ids)
  {
    ids := FirstRows(q, Matches(q, t, cursor), q.limit + 1);
  }

  lemma {:induction false} EndlessScanGoesOn(q: Query, t: Table, n: nat) returns (visits: seq<Visit>)
    requires IsCollation(q.lt) && IsEndless(q, t, "") && n >= 1
    ensures IsScan(q, "", visits) && OnFixedTable(visits, t) && |visits| == n
  {
    var ids := AnswerExists(q, t, "");
    EndlessPage(q, t, ids);
    if n == 1 {
      visits := [Visit(t, ids)];
    } else {
      var rest := EndlessScanGoesOn(q, t, n - 1);
      visits := [Visit(t, ids)] + rest;
      assert visits[1..] == rest;
    }
  }

  lemma {:induction false} SomeScanCompletes(q: Query, t: Table, cursor: string) returns (visits: seq<Visit>)
    requires IsCollation(q.lt) && q.limit >= 1 && !IsEndless(q, t, cursor)
    ensures IsScan(q, cursor, visits) && OnFixedTable(visits, t) && IsComplete(q, visits)
    decreases |Matches(q, t, cursor)|
  {
    var ids := AnswerExists(q, t, cursor);
    if NextCursor(q, ids).None? {
      visits := [Visit(t, ids)];
    } else {
      EndsWithoutEmptyCursor(q, t, cursor, ids);
      FullPageTakesLimit(q, t, cursor, ids);
      var rest := SomeScanCompletes(q, t, NextCursor(q, ids).value);
      visits := [Visit(t, ids)] + rest;
      assert visits[1..] == rest;
    }
  }

  ghost predicate CompletesBy(q: Query, t: Table, cursor: string, visits: seq<Visit>) {
    IsScan(q, cursor, visits) && OnFixedTable(visits, t) && IsComplete(q, visits)
  }

  ghost predicate StaysWithin(q: Query, t: Table, cursor: string, visits: seq<Visit>)
    requires q.limit >= 1
  {
    IsScan(q, cursor, visits) && OnFixedTable(visits, t) ==> |visits| <= PageCount(|Matches(q, t, cursor)|, q.limit)
  }

  /**
   * The exact condition under which scanning a fixed table ends: unless it is endless some scan
   * completes and none takes more pages than that; otherwise none completes and they get as long as one likes.
   */
  lemma ScansEndExactly(q: Query, t: Table, cursor: string)
    requires IsCollation(q.lt) && q.limit >= 1
    ensures (exists visits :: CompletesBy(q, t, cursor, visits)) <==> !IsEndless(q, t, cursor)
    ensures (forall visits :: StaysWithin(q, t, cursor, visits)) <==> !IsEndless(q, t, cursor)
  {
    if IsEndless(q, t, cursor) {
      forall visits ensures !CompletesBy(q, t, cursor, visits) {
        if IsScan(q, cursor, visits) && OnFixedTable(visits, t) {
          EndlessScanNeverCompletes(q, visits, t);
        }
      }
      var long := EndlessScanGoesOn(q, t, PageCount(|Matches(q, t, cursor)|, q.limit) + 1);
      assert !StaysWithin(q, t, cursor, long);
    } else {
      var visits := SomeScanCompletes(q, t, cursor);
      assert CompletesBy(q, t, cursor, visits);
      forall visits ensures StaysWithin(q, t, cursor, visits) {
        if IsScan(q, cursor, visits) && OnFixedTable(visits, t) {
          FixedTablePages(q, cursor, visits, t);
        }
      }
    }
  }

  /** The default start cursor is "0", so rows whose id is not above "0" are never returned. */
  lemma DefaultCursorSkips(q: Query, visits: seq<Visit>, id: string)
    requires IsCollation(q.lt) && q.limit >= 1 && IsScan(q, "0", visits) && !q.lt("0", id)
    ensures id !in Returned(q, visits)
  {
    ScanAscends(q, "0", visits);
  }
}
