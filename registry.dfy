/** The `migrations` bookkeeping table: one row `(file, status, created_at)` per
    registered migration file, the reconciliation that registers new files, the
    status update, and the two ordered queries the runner issues. */
module Registry {
  import opened Clock

  type FileName = string

  datatype Status = Down | Up

  datatype Row = Row(file: FileName, status: Status, createdAt: Stamp)

  datatype Option<T> = None | Some(value: T)

  /** The `file` column, in row order. */
  function Files(rows: seq<Row>): (fs: seq<FileName>)
    ensures |fs| == |rows|
    ensures forall i :: 0 <= i < |rows| ==> fs[i] == rows[i].file
  {
    seq(|rows|, i requires 0 <= i < |rows| => rows[i].file)
  }

  predicate Distinct(names: seq<FileName>)
  {
    forall i, j :: 0 <= i < j < |names| ==> names[i] != names[j]
  }

  /** No file is registered twice. */
  predicate DistinctFiles(rows: seq<Row>)
  {
    forall i, j :: 0 <= i < j < |rows| ==> rows[i].file != rows[j].file
  }

  /** In a registry without duplicate names no row occurs twice, and rows
      with one file name are the same row. */
  lemma {:induction false} DistinctFilesCounts(s: seq<Row>)
    requires DistinctFiles(s)
    ensures forall x :: multiset(s)[x] <= 1
    ensures forall a, b :: a in s && b in s && a.file == b.file ==> a == b
  {
    if s != [] {
      var t := s[1..];
      assert s == [s[0]] + t;
      assert DistinctFiles(t);
      DistinctFilesCounts(t);
      assert s[0] !in t by {
        forall j | 0 <= j < |t| ensures t[j] != s[0] {
          assert s[j + 1] == t[j];
        }
      }
    }
  }

  /** The converse: at most one copy of each row, and one row per file name,
      means no file name is repeated. */
  lemma CountsDistinctFiles(s: seq<Row>)
    requires forall x :: multiset(s)[x] <= 1
    requires forall a, b :: a in s && b in s && a.file == b.file ==> a == b
    ensures DistinctFiles(s)
  {
    forall i, j | 0 <= i < j < |s| ensures s[i] != s[j] {
      assert s == s[..j] + s[j..];
      assert s[..j][i] == s[i] && s[j..][0] == s[j];
      assert multiset(s) == multiset(s[..j]) + multiset(s[j..]);
      assert s[i] in multiset(s[..j]) && s[j] in multiset(s[j..]);
      assert multiset(s)[s[j]] == multiset(s[..j])[s[j]] + multiset(s[j..])[s[j]] <= 1;
    }
  }

  /** Any selection of rows from a registry without duplicate names, in any
      order, has none either. */
  lemma {:induction false} SubMultisetKeepsFilesDistinct(s: seq<Row>, t: seq<Row>)
    requires DistinctFiles(s) && multiset(t) <= multiset(s)
    ensures DistinctFiles(t)
  {
    DistinctFilesCounts(s);
    forall a | a in t ensures a in s {
      assert a in multiset(t);
    }
    CountsDistinctFiles(t);
  }

  // ---------------------------------------------------------------------------
  // Reconciliation

  /** The names of `listing` that pass the `mig not in migrations` test against
      the snapshot `known` of the file column, in listing order. */
  function Unregistered(known: seq<FileName>, listing: seq<FileName>): (r: seq<FileName>)
    ensures forall x :: x in r <==> x in listing && x !in known
    ensures Distinct(listing) ==> Distinct(r)
    ensures (forall x :: x in listing ==> x in known) ==> r == []
  {
    if listing == [] then []
    else
      var init, last := listing[..|listing| - 1], listing[|listing| - 1];
      assert listing == init + [last];
      Unregistered(known, init) + (if last in known then [] else [last])
  }

  /** The rows `INSERT INTO migrations VALUES (name, 'down', now)` adds, one per name. */
  function Registered(names: seq<FileName>, now: Stamp): (r: seq<Row>)
    ensures |r| == |names|
    ensures forall i :: 0 <= i < |r| ==> r[i] == Row(names[i], Down, now)
  {
    seq(|names|, i requires 0 <= i < |names| => Row(names[i], Down, now))
  }

  /** One more listed name: it is registered after the others exactly when unknown. */
  lemma UnregisteredStep(known: seq<FileName>, listing: seq<FileName>, i: nat)
    requires i < |listing|
    ensures Unregistered(known, listing[..i + 1]) ==
      Unregistered(known, listing[..i]) + (if listing[i] in known then [] else [listing[i]])
  {
    assert listing[..i + 1][..i] == listing[..i];
  }

  lemma RegisteredSnoc(names: seq<FileName>, x: FileName, now: Stamp)
    ensures Registered(names + [x], now) == Registered(names, now) + [Row(x, Down, now)]
  {
  }

  /** Appending rows keeps the registered names and adds the new ones. */
  lemma AppendedFiles(rows: seq<Row>, names: seq<FileName>, now: Stamp)
    ensures forall x :: x in Files(rows + Registered(names, now)) <==> x in Files(rows) || x in names
  {
    var r := rows + Registered(names, now);
    forall x | x in names ensures x in Files(r) {
      var j :| 0 <= j < |names| && names[j] == x;
      assert Files(r)[|rows| + j] == x;
    }
    forall x | x in Files(rows) ensures x in Files(r) {
      var j :| 0 <= j < |rows| && Files(rows)[j] == x;
      assert Files(r)[j] == x;
    }
    forall x | x in Files(r) ensures x in Files(rows) || x in names {
      var j :| 0 <= j < |r| && Files(r)[j] == x;
      if j < |rows| {
        assert Files(rows)[j] == x;
      } else {
        assert names[j - |rows|] == x;
      }
    }
  }

  /** The table after registering every listed name that is not yet in it. */
  function Reconcile(rows: seq<Row>, listing: seq<FileName>, now: Stamp): (r: seq<Row>)
    ensures |rows| <= |r| && r[..|rows|] == rows
    ensures forall i :: |rows| <= i < |r| ==>
      r[i].status == Down && r[i].createdAt == now && r[i].file in listing && r[i].file !in Files(rows)
    ensures forall x :: x in listing ==> x in Files(r)
  {
    var added := Unregistered(Files(rows), listing);
    AppendedFiles(rows, added, now);
    rows + Registered(added, now)
  }

  /** Reconciliation appends each absent listed name exactly once, so a
      registry without duplicate names keeps none. */
  lemma {:induction false} ReconcileKeepsFilesDistinct(rows: seq<Row>, listing: seq<FileName>, now: Stamp)
    requires DistinctFiles(rows) && Distinct(listing)
    ensures DistinctFiles(Reconcile(rows, listing, now))
  {
    var added := Unregistered(Files(rows), listing);
    var r := Reconcile(rows, listing, now);
    assert r == rows + Registered(added, now);
    forall i, j | 0 <= i < j < |r| ensures r[i].file != r[j].file {
      if j >= |rows| {
        assert r[j].file == added[j - |rows|];
        if i >= |rows| {
          assert r[i].file == added[i - |rows|];
        } else {
          assert r[i].file in Files(rows) by { assert Files(rows)[i] == r[i].file; }
        }
      }
    }
  }

  /** A second reconciliation against the same listing registers nothing. */
  lemma {:induction false} ReconcileIdempotent(rows: seq<Row>, listing: seq<FileName>, now: Stamp, later: Stamp)
    ensures Reconcile(Reconcile(rows, listing, now), listing, later) == Reconcile(rows, listing, now)
  {
    var r := Reconcile(rows, listing, now);
    var added := Unregistered(Files(r), listing);
    assert added == [];
    assert r + Registered(added, later) == r;
  }

  // ---------------------------------------------------------------------------
  // Status updates

  /** `UPDATE migrations SET status=? WHERE file=?`: every row naming `file`
      takes `status`; no row is added or removed and no other field changes. */
  function SetStatus(rows: seq<Row>, file: FileName, status: Status): (r: seq<Row>)
    ensures |r| == |rows|
    ensures forall i :: 0 <= i < |rows| ==>
      r[i].file == rows[i].file && r[i].createdAt == rows[i].createdAt &&
      r[i].status == (if rows[i].file == file then status else rows[i].status)
  {
    seq(|rows|, i requires 0 <= i < |rows| =>
      if rows[i].file == file then rows[i].(status := status) else rows[i])
  }

  /** The table after setting status 'up' for each of `files`, one update after
      the other: exactly the rows naming one of `files` are 'up' afterwards. */
  function MarkUp(rows: seq<Row>, files: seq<FileName>): (r: seq<Row>)
    ensures |r| == |rows|
    ensures forall i :: 0 <= i < |rows| ==>
      r[i] == if rows[i].file in files then rows[i].(status := Up) else rows[i]
    decreases |files|
  {
    if files == [] then rows
    else
      var init, last := files[..|files| - 1], files[|files| - 1];
      assert files == init + [last];
      SetStatus(MarkUp(rows, init), last, Up)
  }

  // ---------------------------------------------------------------------------
  // Queries

  /** `WHERE status=?`: the rows with the given status, each as often as in `rows`. */
  function WithStatus(rows: seq<Row>, status: Status): (r: seq<Row>)
    ensures forall x :: multiset(r)[x] == if x.status == status then multiset(rows)[x] else 0
  {
    if rows == [] then []
    else
      assert rows == [rows[0]] + rows[1..];
      (if rows[0].status == status then [rows[0]] else []) + WithStatus(rows[1..], status)
  }

  /** The day `ORDER BY date(created_at)` compares. */
  function Day(r: Row): Date
  {
    DateOf(r.createdAt)
  }

  /** Ordered as `ORDER BY date(created_at) DESC` allows: newest day first,
      rows of the same day in any order. */
  predicate NewestDayFirst(rows: seq<Row>)
  {
    forall i, j :: 0 <= i < j < |rows| ==> DateLe(Day(rows[j]), Day(rows[i]))
  }

  function InsertByDay(x: Row, s: seq<Row>): (r: seq<Row>)
    requires NewestDayFirst(s)
    ensures NewestDayFirst(r)
    ensures forall y :: y in r <==> y == x || y in s
    ensures multiset(r) == multiset(s) + multiset{x}
  {
    if s == [] || DateLe(Day(s[0]), Day(x)) then
      HeadNewest(x, s);
      [x] + s
    else
      assert s == [s[0]] + s[1..];
      HeadNewest(s[0], s[1..]);
      var rest := InsertByDay(x, s[1..]);
      HeadNewest(s[0], rest);
      [s[0]] + rest
  }

  /** A newest-day-first list stays so behind a row at least as new as all of it. */
  lemma HeadNewest(y: Row, s: seq<Row>)
    requires NewestDayFirst(s)
    requires s != [] ==> DateLe(Day(s[0]), Day(y))
    ensures NewestDayFirst([y] + s)
    ensures forall z :: z in s ==> DateLe(Day(z), Day(y))
  {
    var r := [y] + s;
    forall z | z in s ensures DateLe(Day(z), Day(y)) {
      var j :| 0 <= j < |s| && s[j] == z;
      if j > 0 {
        assert DateLe(Day(s[j]), Day(s[0]));
      }
    }
    forall i, j | 0 <= i < j < |r| ensures DateLe(Day(r[j]), Day(r[i])) {
      assert r[j] == s[j - 1] && r[j] in s;
      if i > 0 {
        assert r[i] == s[i - 1];
      }
    }
  }

  /** One order the database may return: a stable insertion sort by day,
      newest first. Only `NewestDayFirst` and the multiset are promised. */
  function ByDayDesc(s: seq<Row>): (r: seq<Row>)
    ensures NewestDayFirst(r)
    ensures multiset(r) == multiset(s)
  {
    if s == [] then []
    else
      assert s == [s[0]] + s[1..];
      InsertByDay(s[0], ByDayDesc(s[1..]))
  }

  /** The sorted selection holds exactly the rows of that status. */
  lemma SelectedMembers(rows: seq<Row>, status: Status)
    ensures forall x :: x in ByDayDesc(WithStatus(rows, status)) <==> x in rows && x.status == status
  {
    var r := ByDayDesc(WithStatus(rows, status));
    forall x ensures x in r <==> x in rows && x.status == status {
      assert x in r <==> multiset(r)[x] > 0;
      assert x in rows <==> multiset(rows)[x] > 0;
    }
  }

  /** The first row of a newest-day-first list has the latest day. */
  lemma FirstIsNewest(s: seq<Row>)
    requires NewestDayFirst(s) && s != []
    ensures forall x :: x in s ==> DateLe(Day(x), Day(s[0]))
  {
    forall x | x in s ensures DateLe(Day(x), Day(s[0])) {
      var j :| 0 <= j < |s| && s[j] == x;
    }
  }

  /** `SELECT * FROM migrations WHERE status='down' ORDER BY date(created_at) DESC`:
      every 'down' row exactly once, newest day first. */
  function PendingQuery(rows: seq<Row>): (r: seq<Row>)
    ensures NewestDayFirst(r)
    ensures forall x :: x in r <==> x in rows && x.status == Down
  {
    SelectedMembers(rows, Down);
    ByDayDesc(WithStatus(rows, Down))
  }

  /** The pending query holds each 'down' row as often as the table does, so
      without duplicate names it has none either. */
  lemma PendingQueryExact(rows: seq<Row>)
    ensures forall x :: multiset(PendingQuery(rows))[x] == if x.status == Down then multiset(rows)[x] else 0
    ensures DistinctFiles(rows) ==> DistinctFiles(PendingQuery(rows))
  {
    var r := PendingQuery(rows);
    assert multiset(r) <= multiset(rows);
    if DistinctFiles(rows) {
      SubMultisetKeepsFilesDistinct(rows, r);
    }
  }

  /** `SELECT * FROM migrations WHERE status='up' ORDER BY date(created_at) DESC LIMIT 1`:
      none when no row is 'up', otherwise an 'up' row of the latest day. */
  function LatestUp(rows: seq<Row>): (o: Option<Row>)
    ensures o.None? <==> forall x :: x in rows ==> x.status != Up
    ensures o.Some? ==> o.value in rows && o.value.status == Up
    ensures o.Some? ==> forall x :: x in rows && x.status == Up ==> DateLe(Day(x), Day(o.value))
  {
    var ups := ByDayDesc(WithStatus(rows, Up));
    SelectedMembers(rows, Up);
    if ups == [] then None
    else
      FirstIsNewest(ups);
      Some(ups[0])
  }
}
