/** The enrollments table behind the gorm repository.

    The table is a sequence of rows in insertion order; every row carries the
    creation stamp that stands for its `created_at` column, and stamps strictly
    increase along the sequence. The SQL the repository builds is modelled by
    pure functions over that sequence: a WHERE clause of chained equality
    conditions (`Select`), `ORDER BY created_at desc` (`NewestFirst`),
    `LIMIT`/`OFFSET` (`Window`), and `UPDATE ... WHERE id = ?` (`SetStatus`,
    `Affected`). The class `Repo` holds the table and runs the four operations. */
module Repository {
  import opened Options
  import opened Errors
  import opened Domain

  /** The optional equality constraints of a list or count query. */
  datatype Filters = Filters(userId: string, courseId: string)

  /** One `Where` clause added to the query. */
  datatype Condition = UserIdIs(userId: string) | CourseIdIs(courseId: string)

  /** A stored enrollment and its creation stamp. */
  datatype Row = Row(enrollment: Enrollment, createdAt: nat)

  // ---------------------------------------------------------------------------
  // Filters

  /** The conditions `applyFilters` chains onto the query: one per non-empty field,
      user id first. */
  function ApplyFilters(f: Filters): (conds: seq<Condition>)
    ensures UserIdIs(f.userId) in conds <==> f.userId != ""
    ensures CourseIdIs(f.courseId) in conds <==> f.courseId != ""
    ensures forall c :: c in conds ==> c == UserIdIs(f.userId) || c == CourseIdIs(f.courseId)
  {
    (if f.userId != "" then [UserIdIs(f.userId)] else [])
      + (if f.courseId != "" then [CourseIdIs(f.courseId)] else [])
  }

  predicate Holds(c: Condition, e: Enrollment) {
    match c
    case UserIdIs(u) => e.userId == u
    case CourseIdIs(k) => e.courseId == k
  }

  /** Chained `Where` clauses are joined by AND: a row passes when every condition holds. */
  predicate Satisfies(conds: seq<Condition>, e: Enrollment) {
    forall c :: c in conds ==> Holds(c, e)
  }

  /** The filter predicate: an empty field adds no constraint, a non-empty one demands
      equality, and both non-empty demand both. */
  predicate Matches(f: Filters, e: Enrollment) {
    (f.userId == "" || e.userId == f.userId) && (f.courseId == "" || e.courseId == f.courseId)
  }

  /** The query `applyFilters` builds selects exactly the rows `Matches` describes. */
  lemma ApplyFiltersMeaning(f: Filters, e: Enrollment)
    ensures Satisfies(ApplyFilters(f), e) <==> Matches(f, e)
  {
    if f.userId != "" {
      assert UserIdIs(f.userId) in ApplyFilters(f);
    }
    if f.courseId != "" {
      assert CourseIdIs(f.courseId) in ApplyFilters(f);
    }
  }

  // ---------------------------------------------------------------------------
  // Table invariants

  /** Stamps strictly increase in insertion order. */
  ghost predicate Increasing(rows: seq<Row>) {
    forall i, j :: 0 <= i < j < |rows| ==> rows[i].createdAt < rows[j].createdAt
  }

  /** Stamps strictly decrease: the order of `ORDER BY created_at desc`. */
  ghost predicate StrictlyNewestFirst(rows: seq<Row>) {
    forall i, j :: 0 <= i < j < |rows| ==> rows[i].createdAt > rows[j].createdAt
  }

  /** `id` is the primary key. */
  ghost predicate UniqueIds(rows: seq<Row>) {
    forall i, j :: 0 <= i < j < |rows| ==> rows[i].enrollment.id != rows[j].enrollment.id
  }

  function IdsOf(rows: seq<Row>): set<string> {
    set x | x in rows :: x.enrollment.id
  }

  /** The rows a query with filters `f` selects, as a set. */
  ghost function MatchingRows(rows: seq<Row>, f: Filters): set<Row> {
    set x | x in rows && Matches(f, x.enrollment)
  }

  // ---------------------------------------------------------------------------
  // Queries

  /** The rows that pass the WHERE clause, in table order. */
  function Select(rows: seq<Row>, f: Filters): (r: seq<Row>)
    ensures |r| <= |rows|
    ensures forall x :: x in r <==> x in rows && Matches(f, x.enrollment)
  {
    if rows == [] then []
    else (if Matches(f, rows[0].enrollment) then [rows[0]] else []) + Select(rows[1..], f)
  }

  /** Rows newest first; on a table whose stamps increase this is `ORDER BY created_at desc`. */
  function NewestFirst(rows: seq<Row>): (r: seq<Row>)
    ensures |r| == |rows|
    ensures forall i :: 0 <= i < |rows| ==> r[i] == rows[|rows| - 1 - i]
  {
    if rows == [] then [] else NewestFirst(rows[1..]) + [rows[0]]
  }

  /** `Limit(limit).Offset(offset)`: at most `limit` rows, starting at position `offset`. */
  function Window(s: seq<Row>, offset: nat, limit: nat): (r: seq<Row>)
    ensures |r| <= limit && |r| <= |s|
    ensures offset <= |s| ==> |r| == if limit < |s| - offset then limit else |s| - offset
    ensures forall i :: 0 <= i < |r| ==> offset + i < |s| && r[i] == s[offset + i]
  {
    if offset >= |s| then []
    else if offset + limit >= |s| then s[offset..]
    else s[offset..offset + limit]
  }

  /** Every matching row, newest first. */
  function Listing(rows: seq<Row>, f: Filters): seq<Row> {
    NewestFirst(Select(rows, f))
  }

  /** One page of the listing. */
  function Page(rows: seq<Row>, f: Filters, offset: nat, limit: nat): seq<Row> {
    Window(Listing(rows, f), offset, limit)
  }

  lemma {:induction false} SelectIncreasing(rows: seq<Row>, f: Filters)
    requires Increasing(rows)
    ensures Increasing(Select(rows, f))
  {
    if rows != [] {
      SelectIncreasing(rows[1..], f);
      var tail := Select(rows[1..], f);
      forall x | x in tail ensures rows[0].createdAt < x.createdAt {
        var k :| 0 <= k < |rows[1..]| && rows[1..][k] == x;
        assert rows[k + 1] == x;
      }
    }
  }

  lemma NewestFirstOrders(rows: seq<Row>)
    requires Increasing(rows)
    ensures StrictlyNewestFirst(NewestFirst(rows))
    ensures forall x :: x in NewestFirst(rows) <==> x in rows
  {
    var r := NewestFirst(rows);
    forall x | x in rows ensures x in r {
      var k :| 0 <= k < |rows| && rows[k] == x;
      assert r[|rows| - 1 - k] == x;
    }
  }

  /** The listing holds exactly the matching rows, strictly newest first. */
  lemma ListingSound(rows: seq<Row>, f: Filters)
    requires Increasing(rows)
    ensures StrictlyNewestFirst(Listing(rows, f))
    ensures forall x :: x in Listing(rows, f) <==> x in rows && Matches(f, x.enrollment)
  {
    SelectIncreasing(rows, f);
    NewestFirstOrders(Select(rows, f));
  }

  /** In a strictly newest-first sequence the head is newer than every later row. */
  lemma HeadIsNewest(a: seq<Row>)
    requires StrictlyNewestFirst(a) && a != []
    ensures StrictlyNewestFirst(a[1..])
    ensures forall x :: x in a[1..] ==> x.createdAt < a[0].createdAt
    ensures forall x :: x in a[1..] <==> x in a && x != a[0]
    ensures forall x :: x in a ==> x.createdAt <= a[0].createdAt
  {
    forall x | x in a[1..] ensures x.createdAt < a[0].createdAt {
      var k :| 0 <= k < |a[1..]| && a[1..][k] == x;
      assert a[k + 1] == x;
    }
    assert a == [a[0]] + a[1..];
  }

  /** Two strictly newest-first sequences holding the same rows are equal: the
      ORDER BY leaves no freedom once the selected rows are fixed. */
  lemma {:induction false} NewestFirstUnique(a: seq<Row>, b: seq<Row>)
    requires StrictlyNewestFirst(a) && StrictlyNewestFirst(b)
    requires forall x :: x in a <==> x in b
    ensures a == b
  {
    if a != [] {
      assert a[0] in a;
    }
    if b != [] {
      assert b[0] in b;
    }
    if a != [] && b != [] {
      HeadIsNewest(a);
      HeadIsNewest(b);
      assert a[0].createdAt == b[0].createdAt;
      assert a[0] == b[0];
      NewestFirstUnique(a[1..], b[1..]);
      assert a == [a[0]] + a[1..] && b == [b[0]] + b[1..];
    }
  }

  /** `GetAll(f, offset, limit)` is the window [offset, offset + limit) of ANY
      ordering of the matching rows that is strictly newest first. */
  lemma PageIsWindowOfNewestFirst(rows: seq<Row>, f: Filters, offset: nat, limit: nat, sorted: seq<Row>)
    requires Increasing(rows)
    requires StrictlyNewestFirst(sorted)
    requires forall x :: x in sorted <==> x in rows && Matches(f, x.enrollment)
    ensures offset <= |sorted| ==>
      Page(rows, f, offset, limit) == sorted[offset..if offset + limit < |sorted| then offset + limit else |sorted|]
    ensures offset > |sorted| ==> Page(rows, f, offset, limit) == []
  {
    ListingSound(rows, f);
    NewestFirstUnique(Listing(rows, f), sorted);
  }

  /** Consecutive pages concatenate to the larger page that covers both. */
  lemma PagesConcatenate(rows: seq<Row>, f: Filters, offset: nat, n: nat, m: nat)
    ensures Page(rows, f, offset, n) + Page(rows, f, offset + n, m) == Page(rows, f, offset, n + m)
  {
    var s := Listing(rows, f);
    var a, b, c := Page(rows, f, offset, n), Page(rows, f, offset + n, m), Page(rows, f, offset, n + m);
    assert |a + b| == |c|;
    forall i | 0 <= i < |c| ensures (a + b)[i] == c[i] {
      if i < |a| {
        assert (a + b)[i] == s[offset + i];
      } else {
        assert (a + b)[i] == b[i - |a|] == s[offset + n + (i - |a|)];
      }
    }
  }

  lemma MatchingRowsSplit(rows: seq<Row>, f: Filters)
    requires rows != []
    ensures MatchingRows(rows, f) ==
      (if Matches(f, rows[0].enrollment) then {rows[0]} else {}) + MatchingRows(rows[1..], f)
  {
    assert rows == [rows[0]] + rows[1..];
  }

  /** In a table with increasing stamps the first row occurs nowhere after it. */
  lemma HeadIsOldest(rows: seq<Row>)
    requires Increasing(rows) && rows != []
    ensures rows[0] !in rows[1..]
  {
  }

  /** Stamps are distinct, so the selected sequence counts each matching row once. */
  lemma {:induction false} SelectCountsMatchingRows(rows: seq<Row>, f: Filters)
    requires Increasing(rows)
    ensures |Select(rows, f)| == |MatchingRows(rows, f)|
  {
    if rows == [] {
      assert MatchingRows(rows, f) == {};
    } else {
      var tail := rows[1..];
      assert Increasing(tail);
      SelectCountsMatchingRows(tail, f);
      MatchingRowsSplit(rows, f);
      HeadIsOldest(rows);
    }
  }

  /** The listing is as long as the set of matching rows is large. */
  lemma ListingLength(rows: seq<Row>, f: Filters)
    requires Increasing(rows)
    ensures |Listing(rows, f)| == |MatchingRows(rows, f)|
  {
    SelectCountsMatchingRows(rows, f);
  }

  // ---------------------------------------------------------------------------
  // Effects of Create on the queries

  lemma {:induction false} SelectAppend(rows: seq<Row>, x: Row, f: Filters)
    ensures Select(rows + [x], f) == Select(rows, f) + (if Matches(f, x.enrollment) then [x] else [])
  {
    if rows == [] {
      assert [x][1..] == [];
    } else {
      assert (rows + [x])[1..] == rows[1..] + [x];
      SelectAppend(rows[1..], x, f);
    }
  }

  lemma {:induction false} NewestFirstAppend(s: seq<Row>, x: Row)
    ensures NewestFirst(s + [x]) == [x] + NewestFirst(s)
  {
    if s != [] {
      assert (s + [x])[1..] == s[1..] + [x];
      NewestFirstAppend(s[1..], x);
    }
  }

  /** A new row that matches the filters heads the listing, ahead of every older row;
      one that does not match leaves the listing as it was. */
  lemma NewRowListedFirst(rows: seq<Row>, x: Row, f: Filters)
    ensures Matches(f, x.enrollment) ==> Listing(rows + [x], f) == [x] + Listing(rows, f)
    ensures !Matches(f, x.enrollment) ==> Listing(rows + [x], f) == Listing(rows, f)
  {
    SelectAppend(rows, x, f);
    NewestFirstAppend(Select(rows, f), x);
  }

  /** A table holding one matching row lists exactly that row. */
  lemma OnlyRowListed(x: Row, f: Filters, limit: nat)
    requires Matches(f, x.enrollment) && limit >= 1
    ensures Page([x], f, 0, limit) == [x]
  {
    NewRowListedFirst([], x, f);
    assert [] + [x] == [x];
  }

  /** Creating a row raises the count of exactly the filters it matches, by one. */
  lemma CountAfterCreate(rows: seq<Row>, x: Row, f: Filters)
    ensures |Listing(rows + [x], f)| == |Listing(rows, f)| + if Matches(f, x.enrollment) then 1 else 0
  {
    NewRowListedFirst(rows, x, f);
  }

  // ---------------------------------------------------------------------------
  // Update

  /** The row with its status replaced when its id is `id`. */
  function SetRowStatus(x: Row, id: string, status: string): Row {
    if x.enrollment.id == id then x.(enrollment := x.enrollment.(status := status)) else x
  }

  /** `UPDATE enrollments SET status = ? WHERE id = ?`. */
  function SetStatus(rows: seq<Row>, id: string, status: string): (r: seq<Row>)
    ensures |r| == |rows|
  {
    if rows == [] then [] else [SetRowStatus(rows[0], id, status)] + SetStatus(rows[1..], id, status)
  }

  /** The number of rows the WHERE clause of the update reaches: `RowsAffected`. */
  function Affected(rows: seq<Row>, id: string): (n: nat)
    ensures n == 0 <==> id !in IdsOf(rows)
    ensures n <= |rows|
  {
    if rows == [] then 0
    else (if rows[0].enrollment.id == id then 1 else 0) + Affected(rows[1..], id)
  }

  /** The update sets the status of the row with that id, keeps its id, user, course
      and stamp, and leaves every other row as it was. */
  lemma {:induction false} SetStatusEffect(rows: seq<Row>, id: string, status: string)
    ensures forall i :: 0 <= i < |rows| ==>
      SetStatus(rows, id, status)[i] ==
        if rows[i].enrollment.id == id
        then Row(Enrollment(id, rows[i].enrollment.userId, rows[i].enrollment.courseId, status), rows[i].createdAt)
        else rows[i]
  {
    if rows != [] {
      SetStatusEffect(rows[1..], id, status);
      forall i | 1 <= i < |rows|
        ensures SetStatus(rows, id, status)[i] == SetStatus(rows[1..], id, status)[i - 1]
      {
      }
    }
  }

  /** An update of an id with no row changes nothing. */
  lemma SetStatusMissing(rows: seq<Row>, id: string, status: string)
    requires id !in IdsOf(rows)
    ensures SetStatus(rows, id, status) == rows
  {
    SetStatusEffect(rows, id, status);
    forall i | 0 <= i < |rows| ensures rows[i].enrollment.id != id {
      assert rows[i] in rows;
    }
  }

  /** The update keeps stamps and ids, so it keeps the table invariants and the id set. */
  lemma SetStatusKeepsKeys(rows: seq<Row>, id: string, status: string)
    ensures forall i :: 0 <= i < |rows| ==>
      SetStatus(rows, id, status)[i].createdAt == rows[i].createdAt &&
      SetStatus(rows, id, status)[i].enrollment.id == rows[i].enrollment.id
    ensures Increasing(rows) ==> Increasing(SetStatus(rows, id, status))
    ensures UniqueIds(rows) ==> UniqueIds(SetStatus(rows, id, status))
    ensures IdsOf(SetStatus(rows, id, status)) == IdsOf(rows)
  {
    SetStatusEffect(rows, id, status);
    var r := SetStatus(rows, id, status);
    forall s ensures s in IdsOf(r) <==> s in IdsOf(rows) {
      if s in IdsOf(r) {
        var x :| x in r && x.enrollment.id == s;
        var k :| 0 <= k < |r| && r[k] == x;
        assert rows[k] in rows;
      }
      if s in IdsOf(rows) {
        var x :| x in rows && x.enrollment.id == s;
        var k :| 0 <= k < |rows| && rows[k] == x;
        assert r[k] in r;
      }
    }
  }

  /** With a unique primary key the update reaches at most one row. */
  lemma {:induction false} AffectedAtMostOne(rows: seq<Row>, id: string)
    requires UniqueIds(rows)
    ensures Affected(rows, id) <= 1
  {
    if rows != [] {
      AffectedAtMostOne(rows[1..], id);
      if rows[0].enrollment.id == id {
        assert id !in IdsOf(rows[1..]);
      }
    }
  }

  /** The status is not part of the WHERE clause, so an update never changes which
      rows a filter selects: it updates them in place. */
  lemma SetStatusCons(x: Row, s: seq<Row>, id: string, status: string)
    ensures SetStatus([x] + s, id, status) == [SetRowStatus(x, id, status)] + SetStatus(s, id, status)
  {
    assert ([x] + s)[1..] == s;
  }

  lemma SelectCons(x: Row, s: seq<Row>, f: Filters)
    ensures Select([x] + s, f) == (if Matches(f, x.enrollment) then [x] else []) + Select(s, f)
  {
    assert ([x] + s)[1..] == s;
  }

  lemma {:induction false} SelectAfterSetStatus(rows: seq<Row>, f: Filters, id: string, status: string)
    ensures Select(SetStatus(rows, id, status), f) == SetStatus(Select(rows, f), id, status)
  {
    if rows != [] {
      var x, t := rows[0], rows[1..];
      var x' := SetRowStatus(x, id, status);
      assert rows == [x] + t;
      SetStatusCons(x, t, id, status);
      SelectCons(x', SetStatus(t, id, status), f);
      SelectCons(x, t, f);
      SelectAfterSetStatus(t, f, id, status);
      assert Matches(f, x'.enrollment) == Matches(f, x.enrollment);
      if Matches(f, x.enrollment) {
        SetStatusCons(x, Select(t, f), id, status);
      } else {
        assert Select(rows, f) == Select(t, f);
      }
    }
  }

  /** An update leaves every count unchanged. */
  lemma CountAfterUpdate(rows: seq<Row>, f: Filters, id: string, status: string)
    ensures |Listing(SetStatus(rows, id, status), f)| == |Listing(rows, f)|
  {
    SelectAfterSetStatus(rows, f, id, status);
  }

  // ---------------------------------------------------------------------------
  // Fresh ids

  function MaxIdLength(rows: seq<Row>): (n: nat)
    ensures forall x :: x in rows ==> |x.enrollment.id| <= n
  {
    if rows == [] then 0
    else
      var rest := MaxIdLength(rows[1..]);
      if |rows[0].enrollment.id| > rest then |rows[0].enrollment.id| else rest
  }

  /** However many rows the table holds, a non-empty id is still unused. */
  lemma FreshIdExists(rows: seq<Row>)
    ensures exists id: string :: id != "" && id !in IdsOf(rows)
  {
    var w := seq(MaxIdLength(rows) + 1, _ => '0');
    assert w !in IdsOf(rows);
  }

  // ---------------------------------------------------------------------------
  // The repository

  /** What `Update` reports, from the table before the statement. */
  function UpdateOutcome(rows: seq<Row>, id: string, dbError: Option<string>): Outcome {
    if dbError.Some? then Fail(Unexpected(dbError.value))
    else if Affected(rows, id) == 0 then Fail(NotFound(id))
    else Pass
  }

  /** The table after `Update`. */
  function AfterUpdate(rows: seq<Row>, id: string, status: string, dbError: Option<string>): seq<Row> {
    if dbError.Some? then rows else SetStatus(rows, id, status)
  }

  /** Update on an id with no row: not-found for that id, and nothing changes. */
  lemma UpdateMissingId(rows: seq<Row>, id: string, status: string)
    requires id !in IdsOf(rows)
    ensures UpdateOutcome(rows, id, None) == Fail(NotFound(id))
    ensures AfterUpdate(rows, id, status, None) == rows
  {
    SetStatusMissing(rows, id, status);
  }

  /** Update on a stored id succeeds and rewrites exactly that row's status. */
  lemma UpdateExistingId(rows: seq<Row>, id: string, status: string)
    requires id in IdsOf(rows)
    ensures UpdateOutcome(rows, id, None) == Pass
    ensures forall i :: 0 <= i < |rows| ==>
      AfterUpdate(rows, id, status, None)[i] ==
        if rows[i].enrollment.id == id
        then Row(Enrollment(id, rows[i].enrollment.userId, rows[i].enrollment.courseId, status), rows[i].createdAt)
        else rows[i]
  {
    SetStatusEffect(rows, id, status);
  }

  /** Updating the status of the only row of a table. */
  lemma UpdateOnlyRow(x: Row, status: string)
    ensures UpdateOutcome([x], x.enrollment.id, None) == Pass
    ensures AfterUpdate([x], x.enrollment.id, status, None)
         == [Row(x.enrollment.(status := status), x.createdAt)]
  {
    assert x.enrollment.id in IdsOf([x]);
    UpdateExistingId([x], x.enrollment.id, status);
  }

  class Repo {
    /** The enrollments table, in insertion order. */
    var rows: seq<Row>
    /** The stamp the next inserted row receives. */
    var clock: nat

    ghost predicate Valid()
      reads this
    {
      && Increasing(rows)
      && UniqueIds(rows)
      && (forall i :: 0 <= i < |rows| ==> rows[i].createdAt < clock)
    }

    /** Wraps a table that may already hold rows; `clock` is newer than every stored stamp. */
    constructor (rows: seq<Row>, clock: nat)
      requires Increasing(rows) && UniqueIds(rows)
      requires forall i :: 0 <= i < |rows| ==> rows[i].createdAt < clock
      ensures Valid() && this.rows == rows && this.clock == clock
    {
      this.rows := rows;
      this.clock := clock;
    }

    /** Inserts the record under a fresh id and writes that id into the record. */
    method Create(rec: Record, dbError: Option<string>) returns (r: Outcome)
      requires Valid()
      modifies this, rec`id
      ensures Valid()
      ensures dbError.Some? ==>
        r == Fail(Unexpected(dbError.value)) && unchanged(this) && unchanged(rec)
      ensures dbError.None? ==>
        && r == Pass
        && rec.id != "" && rec.id !in IdsOf(old(rows))
        && rows == old(rows) + [Row(rec.Value(), old(clock))]
        && clock == old(clock) + 1
    {
      if dbError.Some? {
        return Fail(Unexpected(dbError.value));
      }
      FreshIdExists(rows);
      var id: string :| id != "" && id !in IdsOf(rows);
      rec.id := id;
      var row := Row(rec.Value(), clock);
      forall i | 0 <= i < |rows| ensures rows[i].enrollment.id != id {
        assert rows[i] in rows;
      }
      rows := rows + [row];
      clock := clock + 1;
      r := Pass;
    }

    /** The requested page of the filtered rows, newest first. */
    function GetAll(f: Filters, offset: nat, limit: nat, dbError: Option<string>): (r: Result<seq<Row>>)
      reads this
      requires Valid() && limit >= 1
      ensures r.Failure? <==> dbError.Some?
      ensures r.Failure? ==> r.error == Unexpected(dbError.value)
      ensures r.Success? ==>
        && |r.value| <= limit
        && |r.value| <= |MatchingRows(rows, f)|
        && (forall x :: x in r.value ==> x in rows && Matches(f, x.enrollment))
        && StrictlyNewestFirst(r.value)
      // exactly the [offset, offset + limit) slice of the newest-first listing
      ensures r.Success? ==> r.value == Page(rows, f, offset, limit)
    {
      if dbError.Some? then Failure(Unexpected(dbError.value))
      else
        ListingSound(rows, f);
        ListingLength(rows, f);
        Success(Page(rows, f, offset, limit))
    }

    /** The number of rows the filters select. */
    function Count(f: Filters, dbError: Option<string>): (r: Result<nat>)
      reads this
      requires Valid()
      ensures r.Failure? <==> dbError.Some?
      ensures r.Failure? ==> r.error == Unexpected(dbError.value)
      ensures r.Success? ==> r.value == |MatchingRows(rows, f)|
    {
      if dbError.Some? then Failure(Unexpected(dbError.value))
      else
        SelectCountsMatchingRows(rows, f);
        Success(|Select(rows, f)|)
    }

    /** Sets the status of the row with the given id, reporting not-found when
        the statement reaches no row. */
    method Update(id: string, status: string, dbError: Option<string>) returns (r: Outcome)
      requires Valid()
      modifies this
      ensures Valid() && clock == old(clock)
      ensures r == UpdateOutcome(old(rows), id, dbError)
      ensures rows == AfterUpdate(old(rows), id, status, dbError)
    {
      if dbError.Some? {
        return Fail(Unexpected(dbError.value));
      }
      SetStatusKeepsKeys(rows, id, status);
      var affected := Affected(rows, id);
      rows := SetStatus(rows, id, status);
      if affected == 0 {
        return Fail(NotFound(id));
      }
      r := Pass;
    }
  }
}
