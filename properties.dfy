/** What `migrate` and `rollback` promise, stated over their effects. */
module MigrationProperties {
  import opened Clock
  import opened ModuleNames
  import opened Registry
  import opened Limigrations

  /** `FirstFailing` is the number of leading rows whose unit does not raise. */
  lemma {:induction false} FirstFailingAll(pending: seq<Row>, upFails: set<string>)
    ensures FirstFailing(pending, upFails) == |pending| <==>
      forall x :: x in pending ==> ModuleName(x.file) !in upFails
  {
    var k := FirstFailing(pending, upFails);
    if k < |pending| {
      assert pending[k] in pending;
    } else {
      forall x | x in pending ensures ModuleName(x.file) !in upFails {
        var i :| 0 <= i < |pending| && pending[i] == x;
      }
    }
  }

  /** When no pending `up` raises, the pass runs and commits them all. */
  lemma ApplyRanAll(rec: seq<Row>, upFails: set<string>)
    requires FirstFailing(PendingQuery(rec), upFails) == |PendingQuery(rec)|
    ensures var pending := PendingQuery(rec);
      ApplyEffect(rec, upFails) == Effect(MarkUp(rec, Files(pending)), PassLog(pending), Returned(|pending| > 0))
  {
    var pending := PendingQuery(rec);
    var e := ApplyEffect(rec, upFails);
    assert pending[..|pending|] == pending;
    assert e.table == MarkUp(rec, Files(pending));
    assert e.log == PassLog(pending) + [];
    assert e.out == Returned(|pending| > 0);
  }

  /** Setting 'up' every file of a list that holds all 'down' rows leaves the row 'up'. */
  lemma MarkUpCovers(rec: seq<Row>, pending: seq<Row>, i: nat)
    requires i < |rec|
    requires rec[i].status == Down ==> rec[i] in pending
    ensures MarkUp(rec, Files(pending))[i] == rec[i].(status := Up)
  {
    if rec[i].status == Down {
      var j :| 0 <= j < |pending| && pending[j] == rec[i];
      assert Files(pending)[j] == rec[i].file;
    }
  }

  /** A pass that raised nothing leaves every row of the table 'up'. */
  lemma {:induction false} ApplyAllUp(rec: seq<Row>, upFails: set<string>, i: nat)
    requires ApplyEffect(rec, upFails).out.Returned?
    requires i < |rec|
    ensures var t := ApplyEffect(rec, upFails).table;
      |t| == |rec| && t[i] == rec[i].(status := Up)
  {
    ApplyRanAll(rec, upFails);
    MarkUpCovers(rec, PendingQuery(rec), i);
  }

  /** The table the apply pass leaves: the files of the rows before the
      first raising one are set 'up'. */
  lemma ApplyTable(rec: seq<Row>, upFails: set<string>)
    ensures var pending := PendingQuery(rec);
      ApplyEffect(rec, upFails).table == MarkUp(rec, Files(pending[..FirstFailing(pending, upFails)]))
  {
  }

  /** Setting 'up' the files of the first k rows of a list without duplicate
      names turns those rows 'up' and leaves the later ones as they were. */
  lemma MarkUpPrefixRow(rec: seq<Row>, pending: seq<Row>, k: nat, j: nat)
    requires DistinctFiles(pending) && k <= |pending| && j < |pending| && pending[j] in rec
    ensures var t := MarkUp(rec, Files(pending[..k]));
      (j < k ==> pending[j].(status := Up) in t) && (k <= j ==> pending[j] in t)
  {
    var t := MarkUp(rec, Files(pending[..k]));
    var i :| 0 <= i < |rec| && rec[i] == pending[j];
    if j < k {
      assert Files(pending[..k])[j] == pending[j].file;
    } else {
      forall l | 0 <= l < k ensures Files(pending[..k])[l] != pending[j].file {
        assert pending[..k][l] == pending[l];
      }
      assert pending[j].file !in Files(pending[..k]);
    }
    assert t[i] in t;
  }

  /** A row of a list whose name is not among the first k names is a later row. */
  lemma InLaterRows(pending: seq<Row>, k: nat, x: Row)
    requires k <= |pending| && x in pending && x.file !in Files(pending[..k])
    ensures x in pending[k..]
  {
    var j :| 0 <= j < |pending| && pending[j] == x;
    forall l | 0 <= l < k ensures pending[l] != x {
      assert Files(pending[..k])[l] == pending[l].file;
    }
    assert pending[k..][j - k] == x;
  }

  /** After setting 'up' the files of the first k rows of a list that holds
      every 'down' row, a row still 'down' is one of the later rows. */
  lemma MarkUpDownRow(rec: seq<Row>, pending: seq<Row>, k: nat, i: nat)
    requires k <= |pending| && i < |rec|
    requires rec[i].status == Down ==> rec[i] in pending
    ensures var t := MarkUp(rec, Files(pending[..k]));
      t[i].status == Down ==> t[i] == rec[i] && rec[i] in pending[k..]
  {
    var fs := Files(pending[..k]);
    if rec[i].file !in fs && rec[i].status == Down {
      InLaterRows(pending, k, rec[i]);
    }
  }

  /** After setting 'up' the files of the first k rows of a list without
      duplicate names drawn from the 'down' rows, the later rows are still
      in the table, 'down'. */
  lemma MarkUpLaterDown(rec: seq<Row>, pending: seq<Row>, k: nat, x: Row)
    requires DistinctFiles(pending) && k <= |pending|
    requires forall y :: y in pending ==> y in rec && y.status == Down
    requires x in pending[k..]
    ensures x in MarkUp(rec, Files(pending[..k])) && x.status == Down
  {
    var j :| k <= j < |pending| && pending[j] == x;
    MarkUpPrefixRow(rec, pending, k, j);
  }

  /** A pass whose k-th `up` raised leaves the rows of the first k pending
      rows 'up' and every other row as it was. */
  lemma {:induction false} ApplyPrefixUp(rec: seq<Row>, upFails: set<string>, j: nat)
    requires DistinctFiles(rec)
    requires j < |PendingQuery(rec)|
    ensures var pending := PendingQuery(rec);
      var k := FirstFailing(pending, upFails);
      var t := ApplyEffect(rec, upFails).table;
      (j < k ==> pending[j].(status := Up) in t) && (k <= j ==> pending[j] in t)
  {
    var pending := PendingQuery(rec);
    ApplyTable(rec, upFails);
    PendingQueryExact(rec);
    assert pending[j] in pending;
    MarkUpPrefixRow(rec, pending, FirstFailing(pending, upFails), j);
  }

  // ---------------------------------------------------------------------------
  // migrate

  /** The apply pass calls `up` for the 'down' rows of the reconciled table,
      newest day first, each call followed by the commit of that row's status
      before the next call; when nothing raises it calls every one of them. */
  lemma {:induction false} MigrateRunsPendingNewestDayFirst(table: seq<Row>, listing: seq<FileName>, now: Stamp, upFails: set<string>)
    ensures var rec := Reconcile(table, listing, now);
      var pending := PendingQuery(rec);
      var e := MigrateEffect(table, listing, now, upFails);
      (forall x :: x in pending <==> x in rec && x.status == Down) &&
      NewestDayFirst(pending) &&
      (forall i :: 0 <= i < |pending| && 2 * i + 1 < |e.log| ==>
        e.log[2 * i] == RanUp(ModuleName(pending[i].file)) && e.log[2 * i + 1] == Committed(pending[i].file, Up)) &&
      (e.out.Returned? ==> |e.log| == 2 * |pending|)
  {
    var rec := Reconcile(table, listing, now);
    var pending := PendingQuery(rec);
    var k := FirstFailing(pending, upFails);
    var e := MigrateEffect(table, listing, now, upFails);
    assert e.log[..2 * k] == PassLog(pending[..k]);
    forall i | 0 <= i < |pending| && 2 * i + 1 < |e.log|
      ensures e.log[2 * i] == RanUp(ModuleName(pending[i].file)) && e.log[2 * i + 1] == Committed(pending[i].file, Up)
    {
      assert i < k;
      PassLogAt(pending[..k], i);
    }
  }

  /** When an `up` raises, `migrate` has run and committed the pending rows
      before it, then called that one `up` and done nothing more, whatever
      the table and the listing. */
  lemma MigrateRaisedLog(table: seq<Row>, listing: seq<FileName>, now: Stamp, upFails: set<string>)
    ensures var pending := PendingQuery(Reconcile(table, listing, now));
      var k := FirstFailing(pending, upFails);
      var e := MigrateEffect(table, listing, now, upFails);
      e.out.Raised? ==>
        k < |pending| && e.out.file == pending[k].file &&
        e.log == PassLog(pending[..k]) + [RanUp(ModuleName(pending[k].file))]
  {
  }

  /** The apply pass keeps every row's file and stamp and can only turn a
      'down' status 'up'. */
  lemma {:induction false} ApplyOnlyRaises(rec: seq<Row>, upFails: set<string>)
    ensures var t := ApplyEffect(rec, upFails).table;
      |t| == |rec| &&
      forall i :: 0 <= i < |rec| ==>
        t[i].file == rec[i].file && t[i].createdAt == rec[i].createdAt &&
        (t[i].status != rec[i].status ==> rec[i].status == Down && t[i].status == Up)
  {
    var pending := PendingQuery(rec);
    var k := FirstFailing(pending, upFails);
    assert ApplyEffect(rec, upFails).table == MarkUp(rec, Files(pending[..k]));
  }

  /** `migrate` only appends rows for newly listed names and flips statuses
      from 'down' to 'up': no row is removed, no `file` or `created_at` changes. */
  lemma {:induction false} MigrateChangesOnlyStatus(table: seq<Row>, listing: seq<FileName>, now: Stamp, upFails: set<string>)
    ensures var e := MigrateEffect(table, listing, now, upFails);
      |table| <= |e.table| &&
      (forall i :: 0 <= i < |table| ==>
        e.table[i].file == table[i].file && e.table[i].createdAt == table[i].createdAt &&
        (e.table[i].status != table[i].status ==> table[i].status == Down && e.table[i].status == Up)) &&
      (forall i :: |table| <= i < |e.table| ==>
        e.table[i].file in listing && e.table[i].file !in Files(table) && e.table[i].createdAt == now)
  {
    var rec := Reconcile(table, listing, now);
    ApplyOnlyRaises(rec, upFails);
    forall i | 0 <= i < |table| ensures rec[i] == table[i] {
      assert rec[..|table|][i] == rec[i];
    }
  }

  /** `migrate` returns True exactly when some row was pending after
      registration and none of their units raised; a returned flag is true
      exactly when some `up` ran. */
  lemma {:induction false} MigrateReturnsWhetherRan(table: seq<Row>, listing: seq<FileName>, now: Stamp, upFails: set<string>)
    ensures var rec := Reconcile(table, listing, now);
      var e := MigrateEffect(table, listing, now, upFails);
      (e.out == Returned(true) <==>
        (exists x :: x in rec && x.status == Down) &&
        (forall x :: x in rec && x.status == Down ==> ModuleName(x.file) !in upFails)) &&
      (e.out.Returned? ==> (e.out.ran <==> |e.log| > 0))
  {
    var rec := Reconcile(table, listing, now);
    var pending := PendingQuery(rec);
    FirstFailingAll(pending, upFails);
    if pending != [] {
      assert pending[0] in pending;
    }
  }

  /** If the `up` of pending row k raises, the log is the full pass over the
      rows before it followed by that one call and nothing else: the raising
      row is never committed. The rows before it are 'up', and it and every
      later pending row are still 'down'. */
  lemma {:induction false} MigrateStopsAtFailure(table: seq<Row>, listing: seq<FileName>, now: Stamp, upFails: set<string>)
    requires DistinctFiles(table) && Distinct(listing)
    ensures var rec := Reconcile(table, listing, now);
      var pending := PendingQuery(rec);
      var k := FirstFailing(pending, upFails);
      var e := MigrateEffect(table, listing, now, upFails);
      e.out.Raised? ==>
        k < |pending| && e.out.file == pending[k].file &&
        e.log == PassLog(pending[..k]) + [RanUp(ModuleName(pending[k].file))] &&
        (forall j :: 0 <= j < k ==> pending[j].(status := Up) in e.table) &&
        (forall j :: k <= j < |pending| ==> pending[j] in e.table)
  {
    var rec := Reconcile(table, listing, now);
    ReconcileKeepsFilesDistinct(table, listing, now);
    forall j | 0 <= j < |PendingQuery(rec)| {
      ApplyPrefixUp(rec, upFails, j);
    }
  }

  /** A table that registers every listed name gains nothing from the listing. */
  lemma ReconcileNothingNew(t: seq<Row>, listing: seq<FileName>, later: Stamp)
    requires forall x :: x in listing ==> x in Files(t)
    ensures Reconcile(t, listing, later) == t
  {
    assert Unregistered(Files(t), listing) == [];
  }

  /** With no row 'down', the apply pass runs nothing and returns False. */
  lemma ApplyNothingPending(t: seq<Row>, upFails: set<string>)
    requires forall i :: 0 <= i < |t| ==> t[i].status == Up
    ensures ApplyEffect(t, upFails) == Effect(t, [], Returned(false))
  {
    var p := PendingQuery(t);
    assert forall x :: x in t ==> x.status == Up;
    assert forall x :: x !in p;
    assert p == [];
    assert MarkUp(t, Files(p[..0])) == t;
  }

  /** Changing statuses keeps the file column. */
  lemma SameFiles(rec: seq<Row>, t: seq<Row>)
    requires |t| == |rec|
    requires forall i :: 0 <= i < |rec| ==> t[i].file == rec[i].file
    ensures Files(t) == Files(rec)
  {
  }

  /** A pass that raised nothing over a table registering the listing
      leaves nothing for the next `migrate` to do. */
  lemma {:induction false} ApplyReturnedAgain(rec: seq<Row>, upFails: set<string>, listing: seq<FileName>,
                                            later: Stamp, upFails': set<string>)
    requires ApplyEffect(rec, upFails).out.Returned?
    requires forall x :: x in listing ==> x in Files(rec)
    ensures var t := ApplyEffect(rec, upFails).table;
      ApplyEffect(Reconcile(t, listing, later), upFails') == Effect(t, [], Returned(false))
  {
    var t := ApplyEffect(rec, upFails).table;
    forall i | 0 <= i < |rec| ensures t[i] == rec[i].(status := Up) {
      ApplyAllUp(rec, upFails, i);
    }
    SameFiles(rec, t);
    ReconcileNothingNew(t, listing, later);
    ApplyNothingPending(t, upFails');
  }

  /** After a pass that raised nothing, `migrate` on the same listing
      registers nothing, runs nothing and returns False. */
  lemma {:induction false} MigrateAgainRunsNothing(table: seq<Row>, listing: seq<FileName>, now: Stamp, upFails: set<string>,
                                                 later: Stamp, upFails': set<string>)
    requires MigrateEffect(table, listing, now, upFails).out.Returned?
    ensures var t := MigrateEffect(table, listing, now, upFails).table;
      MigrateEffect(t, listing, later, upFails') == Effect(t, [], Returned(false))
  {
    ApplyReturnedAgain(Reconcile(table, listing, now), upFails, listing, later, upFails');
  }

  /** After the apply pass, every row still 'down' is a pending row from
      the failing one on. */
  lemma {:induction false} DownRowsAreLater(rec: seq<Row>, upFails: set<string>, x: Row)
    requires DistinctFiles(rec)
    ensures var pending := PendingQuery(rec);
      var t := ApplyEffect(rec, upFails).table;
      x in t && x.status == Down ==> x in pending[FirstFailing(pending, upFails)..]
  {
    var pending := PendingQuery(rec);
    var t := ApplyEffect(rec, upFails).table;
    ApplyTable(rec, upFails);
    PendingQueryExact(rec);
    if x in t && x.status == Down {
      var i :| 0 <= i < |t| && t[i] == x;
      assert rec[i].status == Down ==> rec[i] in pending;
      MarkUpDownRow(rec, pending, FirstFailing(pending, upFails), i);
    }
  }

  /** After the apply pass, every pending row from the failing one on is
      still in the table, 'down'. */
  lemma {:induction false} LaterRowsStayDown(rec: seq<Row>, upFails: set<string>, x: Row)
    requires DistinctFiles(rec)
    ensures var pending := PendingQuery(rec);
      var t := ApplyEffect(rec, upFails).table;
      x in pending[FirstFailing(pending, upFails)..] ==> x in t && x.status == Down
  {
    var pending := PendingQuery(rec);
    var k := FirstFailing(pending, upFails);
    ApplyTable(rec, upFails);
    PendingQueryExact(rec);
    if x in pending[k..] {
      MarkUpLaterDown(rec, pending, k, x);
    }
  }

  /** The apply pass changes statuses only. */
  lemma ApplyKeepsFiles(rec: seq<Row>, upFails: set<string>)
    ensures Files(ApplyEffect(rec, upFails).table) == Files(rec)
  {
    var pending := PendingQuery(rec);
    var k := FirstFailing(pending, upFails);
    SameFiles(rec, MarkUp(rec, Files(pending[..k])));
  }

  /** Re-running `migrate` after the k-th `up` raised retries exactly the
      rows from the k-th on. */
  lemma {:induction false} MigrateRetryResumes(table: seq<Row>, listing: seq<FileName>, now: Stamp, upFails: set<string>, later: Stamp)
    requires DistinctFiles(table) && Distinct(listing)
    ensures var pending := PendingQuery(Reconcile(table, listing, now));
      var k := FirstFailing(pending, upFails);
      var t := MigrateEffect(table, listing, now, upFails).table;
      forall x :: x in PendingQuery(Reconcile(t, listing, later)) <==> x in pending[k..]
  {
    var rec := Reconcile(table, listing, now);
    ReconcileKeepsFilesDistinct(table, listing, now);
    ApplyKeepsFiles(rec, upFails);
    ReconcileNothingNew(ApplyEffect(rec, upFails).table, listing, later);
    var pending := PendingQuery(rec);
    var t := ApplyEffect(rec, upFails).table;
    forall x ensures x in t && x.status == Down <==> x in pending[FirstFailing(pending, upFails)..] {
      DownRowsAreLater(rec, upFails, x);
      LaterRowsStayDown(rec, upFails, x);
    }
  }

  /** With a listing of distinct names, `migrate` never registers a name twice. */
  lemma {:induction false} MigrateKeepsFilesDistinct(table: seq<Row>, listing: seq<FileName>, now: Stamp, upFails: set<string>)
    requires DistinctFiles(table) && Distinct(listing)
    ensures DistinctFiles(MigrateEffect(table, listing, now, upFails).table)
  {
    ReconcileKeepsFilesDistinct(table, listing, now);
  }

  // ---------------------------------------------------------------------------
  // rollback

  /** Without a migrations directory, or with no 'up' row, `rollback` returns
      False and changes nothing. */
  lemma {:induction false} RollbackNothingToRevert(hasTable: bool, table: seq<Row>, dirGiven: bool, downFails: set<string>)
    requires !dirGiven || (hasTable && forall x :: x in table ==> x.status != Up)
    ensures RollbackEffect(hasTable, table, dirGiven, downFails) == Effect(table, [], Returned(false))
  {
  }

  /** Otherwise `rollback` picks an 'up' row of the latest day, calls its
      unit's `down`, and if that returns sets that file's rows 'down' and
      returns True; if `down` raises, nothing is committed. */
  lemma {:induction false} RollbackRevertsLatest(table: seq<Row>, downFails: set<string>)
    requires exists x :: x in table && x.status == Up
    ensures var e := RollbackEffect(true, table, true, downFails);
      exists r :: r in table && r.status == Up &&
        (forall x :: x in table && x.status == Up ==> DateLe(Day(x), Day(r))) &&
        (ModuleName(r.file) !in downFails ==>
          e == Effect(SetStatus(table, r.file, Down), [RanDown(ModuleName(r.file)), Committed(r.file, Down)], Returned(true))) &&
        (ModuleName(r.file) in downFails ==>
          e == Effect(table, [RanDown(ModuleName(r.file))], Raised(r.file)))
  {
    var r :| r in table && r.status == Up;
    var o := LatestUp(table);
    assert o.Some?;
  }

  /** `rollback` leaves no row of the reverted file 'up'; every other row is
      unchanged. */
  lemma {:induction false} RollbackFlipsOneFile(table: seq<Row>, downFails: set<string>)
    ensures var e := RollbackEffect(true, table, true, downFails);
      e.out == Returned(true) ==>
        LatestUp(table).Some? && |e.table| == |table| &&
        forall i :: 0 <= i < |table| ==>
          e.table[i] == if table[i].file == LatestUp(table).value.file then table[i].(status := Down) else table[i]
  {
  }

  /** `rollback` never registers a name twice: it only changes a status. */
  lemma RollbackKeepsFilesDistinct(hasTable: bool, table: seq<Row>, dirGiven: bool, downFails: set<string>)
    requires DistinctFiles(table)
    ensures DistinctFiles(RollbackEffect(hasTable, table, dirGiven, downFails).table)
  {
  }

  /** `rollback` does not create the `migrations` table: on a database that
      never ran `migrate` the query fails. */
  lemma RollbackNeedsTable(downFails: set<string>)
    ensures RollbackEffect(false, [], true, downFails).out == NoSuchTable
  {
  }

  // ---------------------------------------------------------------------------
  // Scenarios

  /** The pending query of a table of one 'down' row is that row. */
  lemma PendingSingle(row: Row)
    requires row.status == Down
    ensures PendingQuery([row]) == [row]
  {
    var pending := PendingQuery([row]);
    assert row in pending;
    assert |pending| == |multiset(pending)| == 1;
  }

  /** The apply pass over one 'down' row whose `up` returns. */
  lemma {:induction false} ApplySingle(row: Row, upFails: set<string>)
    requires row.status == Down && ModuleName(row.file) !in upFails
    ensures ApplyEffect([row], upFails) ==
      Effect([row.(status := Up)], [RanUp(ModuleName(row.file)), Committed(row.file, Up)], Returned(true))
  {
    PendingSingle(row);
    assert FirstFailing([row], upFails) == 1;
    assert [row][..1] == [row];
    assert PassLog([row]) == [RanUp(ModuleName(row.file)), Committed(row.file, Up)] by {
      assert [row][..0] == [];
    }
  }

  /** `rollback` over one 'up' row whose `down` returns. */
  lemma RollbackSingle(row: Row, downFails: set<string>)
    requires row.status == Up && ModuleName(row.file) !in downFails
    ensures RollbackEffect(true, [row], true, downFails) ==
      Effect([row.(status := Down)], [RanDown(ModuleName(row.file)), Committed(row.file, Down)], Returned(true))
  {
    assert LatestUp([row]) == Some(row);
  }

  /** Registering one file on a fresh database adds one 'down' row. */
  lemma ReconcileSingle(f: FileName, now: Stamp)
    ensures Reconcile([], [f], now) == [Row(f, Down, now)]
  {
    assert Unregistered(Files([]), [f]) == [f];
  }

  /** A fresh database and one migration file: `migrate` runs its `up` and
      returns True, then `rollback` runs its `down`, leaves it 'down' and
      returns True. */
  lemma {:induction false} MigrateThenRollbackOne(f: FileName, now: Stamp, upFails: set<string>, downFails: set<string>)
    requires ModuleName(f) !in upFails && ModuleName(f) !in downFails
    ensures var m := ModuleName(f);
      var e1 := MigrateEffect([], [f], now, upFails);
      var e2 := RollbackEffect(true, e1.table, true, downFails);
      e1 == Effect([Row(f, Up, now)], [RanUp(m), Committed(f, Up)], Returned(true)) &&
      e2 == Effect([Row(f, Down, now)], [RanDown(m), Committed(f, Down)], Returned(true))
  {
    var row := Row(f, Down, now);
    ReconcileSingle(f, now);
    ApplySingle(row, upFails);
    RollbackSingle(row.(status := Up), downFails);
  }

  /** An empty migrations directory registers nothing: `migrate` is the apply
      pass over the table as it stands, so the rows already 'down' still run.
      On a fresh database it runs nothing and returns False, and `rollback`
      then finds nothing to revert. */
  lemma EmptyDirectoryRegistersNothing(table: seq<Row>, now: Stamp, upFails: set<string>, downFails: set<string>)
    ensures MigrateEffect(table, [], now, upFails) == ApplyEffect(table, upFails)
    ensures (forall i :: 0 <= i < |table| ==> table[i].status == Up) ==>
      MigrateEffect(table, [], now, upFails) == Effect(table, [], Returned(false))
    ensures MigrateEffect([], [], now, upFails) == Effect([], [], Returned(false))
    ensures RollbackEffect(true, [], true, downFails) == Effect([], [], Returned(false))
  {
    ReconcileEmptyListing(table, now);
    if forall i :: 0 <= i < |table| ==> table[i].status == Up {
      ApplyNothingPending(table, upFails);
    }
    ReconcileEmptyListing([], now);
    ApplyNothingPending([], upFails);
  }

  lemma WithStatusThree(a: Row, b: Row, c: Row)
    requires a.status == Down && b.status == Down && c.status == Down
    ensures WithStatus([a, b, c], Down) == [a, b, c]
  {
    assert [a, b, c][1..] == [b, c] && [b, c][1..] == [c];
    assert WithStatus([c], Down) == [c];
    assert WithStatus([b, c], Down) == [b, c];
  }

  lemma SortTwo(b: Row, c: Row)
    requires DayNumber(Day(b)) < DayNumber(Day(c))
    ensures ByDayDesc([b, c]) == [c, b]
  {
    assert [b, c][1..] == [c];
    assert ByDayDesc([c]) == [c];
    assert InsertByDay(b, [c]) == [c, b] by {
      assert InsertByDay(b, []) == [b];
    }
  }

  lemma SortThree(a: Row, b: Row, c: Row)
    requires DayNumber(Day(a)) < DayNumber(Day(b)) < DayNumber(Day(c))
    ensures ByDayDesc([a, b, c]) == [c, b, a]
  {
    assert [a, b, c][1..] == [b, c];
    SortTwo(b, c);
    assert InsertByDay(a, [b]) == [b, a] by {
      assert InsertByDay(a, []) == [a];
    }
    assert InsertByDay(a, [c, b]) == [c, b, a] by {
      assert [c, b][1..] == [b];
    }
  }

  /** Three 'down' rows of increasing days are pending newest first. */
  lemma PendingThree(a: Row, b: Row, c: Row)
    requires a.status == Down && b.status == Down && c.status == Down
    requires DayNumber(Day(a)) < DayNumber(Day(b)) < DayNumber(Day(c))
    ensures PendingQuery([a, b, c]) == [c, b, a]
  {
    WithStatusThree(a, b, c);
    SortThree(a, b, c);
  }

  lemma FirstFailingThree(x: Row, y: Row, z: Row, upFails: set<string>)
    requires ModuleName(x.file) !in upFails && ModuleName(y.file) !in upFails && ModuleName(z.file) !in upFails
    ensures FirstFailing([x, y, z], upFails) == 3
  {
    assert [x, y, z][1..] == [y, z] && [y, z][1..] == [z] && [z][1..] == [];
  }

  lemma FilesThree(x: Row, y: Row, z: Row)
    ensures Files([x, y, z]) == [x.file, y.file, z.file]
  {
  }

  lemma PassLogThree(x: Row, y: Row, z: Row)
    ensures PassLog([x, y, z]) == [RanUp(ModuleName(x.file)), Committed(x.file, Up),
                                   RanUp(ModuleName(y.file)), Committed(y.file, Up),
                                   RanUp(ModuleName(z.file)), Committed(z.file, Up)]
  {
    assert [x, y, z][..2] == [x, y] && [x, y][..1] == [x] && [x][..0] == [];
    assert PassLog([x]) == [RanUp(ModuleName(x.file)), Committed(x.file, Up)];
    assert PassLog([x, y]) == [RanUp(ModuleName(x.file)), Committed(x.file, Up),
                               RanUp(ModuleName(y.file)), Committed(y.file, Up)];
  }

  lemma MarkUpThree(a: Row, b: Row, c: Row)
    requires a.file != b.file && b.file != c.file && a.file != c.file
    ensures MarkUp([a, b, c], [c.file, b.file, a.file]) == [a.(status := Up), b.(status := Up), c.(status := Up)]
  {
  }

  /** The apply pass over three 'down' rows of increasing days whose `up`
      calls all return. */
  lemma {:induction false} ApplyThree(a: Row, b: Row, c: Row, upFails: set<string>)
    requires a.status == Down && b.status == Down && c.status == Down
    requires a.file != b.file && b.file != c.file && a.file != c.file
    requires DayNumber(Day(a)) < DayNumber(Day(b)) < DayNumber(Day(c))
    requires ModuleName(a.file) !in upFails && ModuleName(b.file) !in upFails && ModuleName(c.file) !in upFails
    ensures var e := ApplyEffect([a, b, c], upFails);
      e.table == [a.(status := Up), b.(status := Up), c.(status := Up)] &&
      e.log == [RanUp(ModuleName(c.file)), Committed(c.file, Up),
                RanUp(ModuleName(b.file)), Committed(b.file, Up),
                RanUp(ModuleName(a.file)), Committed(a.file, Up)] &&
      e.out == Returned(true)
  {
    PendingThree(a, b, c);
    FirstFailingThree(c, b, a, upFails);
    ApplyRanAll([a, b, c], upFails);
    FilesThree(c, b, a);
    PassLogThree(c, b, a);
    MarkUpThree(a, b, c);
  }

  lemma ReconcileEmptyListing(rows: seq<Row>, now: Stamp)
    ensures Reconcile(rows, [], now) == rows
  {
    assert Unregistered(Files(rows), []) == [];
  }

  /** Of three 'up' rows of increasing days, the latest is the last. */
  lemma LatestUpThree(x: Row, y: Row, z: Row)
    requires x.status == Up && y.status == Up && z.status == Up
    requires DayNumber(Day(x)) < DayNumber(Day(y)) < DayNumber(Day(z))
    ensures LatestUp([x, y, z]) == Some(z)
  {
    var o := LatestUp([x, y, z]);
    assert o.Some? && o.value in [x, y, z];
    assert DateLe(Day(z), Day(o.value));
  }

  /** Of three 'up' rows of increasing days, `rollback` reverts the last. */
  lemma RollbackThree(x: Row, y: Row, z: Row, downFails: set<string>)
    requires x.status == Up && y.status == Up && z.status == Up
    requires DayNumber(Day(x)) < DayNumber(Day(y)) < DayNumber(Day(z))
    ensures var r := RollbackEffect(true, [x, y, z], true, downFails);
      |r.log| > 0 && r.log[0] == RanDown(ModuleName(z.file)) &&
      (ModuleName(z.file) !in downFails ==> r.out == Returned(true) && r.log == [RanDown(ModuleName(z.file)), Committed(z.file, Down)])
  {
    LatestUpThree(x, y, z);
  }

  /** Three migrations registered on three successive days run newest first,
      the order of `ORDER BY date(created_at) DESC`, not the chronological
      one; a `rollback` afterwards calls the `down` of the newest. */
  lemma {:induction false} ThreeDaysRunNewestFirst(a: Row, b: Row, c: Row, upFails: set<string>, downFails: set<string>)
    requires a.status == Down && b.status == Down && c.status == Down
    requires a.file != b.file && b.file != c.file && a.file != c.file
    requires DayNumber(Day(a)) < DayNumber(Day(b)) < DayNumber(Day(c))
    requires ModuleName(a.file) !in upFails && ModuleName(b.file) !in upFails && ModuleName(c.file) !in upFails
    ensures var e := MigrateEffect([a, b, c], [a.file, b.file, c.file], c.createdAt, upFails);
      var r := RollbackEffect(true, e.table, true, downFails);
      e.log == [RanUp(ModuleName(c.file)), Committed(c.file, Up),
                RanUp(ModuleName(b.file)), Committed(b.file, Up),
                RanUp(ModuleName(a.file)), Committed(a.file, Up)] &&
      e.out == Returned(true) &&
      |r.log| > 0 && r.log[0] == RanDown(ModuleName(c.file)) &&
      (ModuleName(c.file) !in downFails ==> r.out == Returned(true) && r.log == [RanDown(ModuleName(c.file)), Committed(c.file, Down)])
  {
    FilesThree(a, b, c);
    ReconcileNothingNew([a, b, c], [a.file, b.file, c.file], c.createdAt);
    ApplyThree(a, b, c, upFails);
    RollbackThree(a.(status := Up), b.(status := Up), c.(status := Up), downFails);
  }
}
