/** The runner: `migrate` (register new files, apply every pending migration,
    newest day first, committing each status change) and `rollback` (revert one
    migration of the latest day that is 'up').

    The database file is the `Runner` object: whether the `migrations` table
    exists and its rows. A migration unit is an abstract action named by its
    module; which actions raise is a parameter of each call, and every call into
    a unit and every committed status change is appended to `log`. */
module Limigrations {
  import opened Clock
  import opened ModuleNames
  import opened Registry

  /** What the engine does outside its own bookkeeping, in order. */
  datatype Event =
    | RanUp(name: string)                        // tried to run the unit's `up` (import, reload and call)
    | RanDown(name: string)                      // tried to run the unit's `down` (import, reload and call)
    | Committed(file: FileName, status: Status)  // a status UPDATE was committed

  datatype Outcome =
    | Returned(ran: bool)   // the call returned this boolean
    | Raised(file: FileName) // the unit of this file raised; the exception propagates
    | NoSuchTable           // the `migrations` table is missing; SQLite raises

  /** Position of the first pending row whose unit raises in `up`, or |pending|. */
  function FirstFailing(pending: seq<Row>, upFails: set<string>): (k: nat)
    ensures k <= |pending|
    ensures forall i :: 0 <= i < k ==> ModuleName(pending[i].file) !in upFails
    ensures k < |pending| ==> ModuleName(pending[k].file) in upFails
  {
    if pending == [] then 0
    else if ModuleName(pending[0].file) in upFails then 0
    else 1 + FirstFailing(pending[1..], upFails)
  }

  /** The log of an apply pass that ran `up` for each row of `done` and
      committed its status 'up' before moving on to the next. */
  function PassLog(done: seq<Row>): (log: seq<Event>)
    ensures |log| == 2 * |done|
  {
    if done == [] then []
    else
      var last := done[|done| - 1];
      PassLog(done[..|done| - 1]) + [RanUp(ModuleName(last.file)), Committed(last.file, Up)]
  }

  /** In a pass log, the i-th row's `up` call comes right before the commit of
      its status, and both come after everything done for the rows before it. */
  lemma {:induction false} PassLogAt(done: seq<Row>, i: nat)
    requires i < |done|
    ensures PassLog(done)[2 * i] == RanUp(ModuleName(done[i].file))
    ensures PassLog(done)[2 * i + 1] == Committed(done[i].file, Up)
    ensures PassLog(done)[..2 * i] == PassLog(done[..i])
  {
    var n := |done| - 1;
    if i < n {
      PassLogAt(done[..n], i);
      assert done[..n][..i] == done[..i];
    } else {
      assert done[..n] == done[..i];
    }
  }

  lemma PassLogStep(pending: seq<Row>, run: nat)
    requires run < |pending|
    ensures PassLog(pending[..run + 1]) ==
      PassLog(pending[..run]) + [RanUp(ModuleName(pending[run].file)), Committed(pending[run].file, Up)]
  {
    assert pending[..run + 1][..run] == pending[..run];
  }

  lemma MarkUpStep(rows: seq<Row>, pending: seq<Row>, run: nat)
    requires run < |pending|
    ensures MarkUp(rows, Files(pending[..run + 1])) == SetStatus(MarkUp(rows, Files(pending[..run])), pending[run].file, Up)
  {
    assert Files(pending[..run + 1])[..run] == Files(pending[..run]);
  }

  /** Everything one call does: the new rows, the events it appends, its outcome. */
  datatype Effect = Effect(table: seq<Row>, log: seq<Event>, out: Outcome)

  /** The apply pass of `migrate` over `table`: run the pending rows in the
      order of the pending query until one raises. */
  function ApplyEffect(table: seq<Row>, upFails: set<string>): Effect
  {
    var pending := PendingQuery(table);
    var k := FirstFailing(pending, upFails);
    Effect(MarkUp(table, Files(pending[..k])),
           PassLog(pending[..k]) + (if k < |pending| then [RanUp(ModuleName(pending[k].file))] else []),
           if k < |pending| then Raised(pending[k].file) else Returned(k > 0))
  }

  /** `migrate` on a database whose `migrations` table holds `table` (empty if
      the call creates it): register the listing, then the apply pass. */
  function MigrateEffect(table: seq<Row>, listing: seq<FileName>, now: Stamp, upFails: set<string>): Effect
  {
    ApplyEffect(Reconcile(table, listing, now), upFails)
  }

  /** `rollback`: nothing without a migrations directory; otherwise query the
      latest 'up' row and, if there is one, run its `down` and set it 'down'. */
  function RollbackEffect(hasTable: bool, table: seq<Row>, dirGiven: bool, downFails: set<string>): Effect
  {
    if !dirGiven then Effect(table, [], Returned(false))
    else if !hasTable then Effect(table, [], NoSuchTable)
    else
      match LatestUp(table)
      case None => Effect(table, [], Returned(false))
      case Some(row) =>
        var m := ModuleName(row.file);
        if m in downFails then Effect(table, [RanDown(m)], Raised(row.file))
        else Effect(SetStatus(table, row.file, Down), [RanDown(m), Committed(row.file, Down)], Returned(true))
  }

  class Runner {
    var hasTable: bool     // the `migrations` table exists in the database file
    var table: seq<Row>    // its rows, in insertion order
    var log: seq<Event>    // unit calls and committed status changes, oldest first

    ghost predicate Valid()
      reads this
    {
      !hasTable ==> table == []
    }

    /** A database file with no `migrations` table yet. */
    constructor ()
      ensures Valid() && !hasTable && table == [] && log == []
    {
      hasTable, table, log := false, [], [];
    }

    /** `migrate(db_file, migrations_dir)`, given the directory's listing and
        the clock reading used for the new rows. */
    method Migrate(listing: seq<FileName>, now: Stamp, upFails: set<string>) returns (out: Outcome)
      requires Valid()
      modifies this
      ensures Valid() && hasTable
      ensures var e := MigrateEffect(old(table), listing, now, upFails);
        table == e.table && log == old(log) + e.log && out == e.out
    {
      // the table is created if missing
      hasTable := true;
      RegisterNew(listing, now);
      out := RunPending(upFails);
    }

    /** The registration loop of `migrate`: every listed name missing from a
        snapshot of the file column is inserted as 'down', stamped `now`. */
    method RegisterNew(listing: seq<FileName>, now: Stamp)
      requires hasTable
      modifies this`table
      ensures table == Reconcile(old(table), listing, now)
    {
      var known := Files(table);
      ghost var before := table;
      var i := 0;
      while i < |listing|
        invariant 0 <= i <= |listing|
        invariant table == before + Registered(Unregistered(known, listing[..i]), now)
      {
        UnregisteredStep(known, listing, i);
        RegisteredSnoc(Unregistered(known, listing[..i]), listing[i], now);
        if listing[i] !in known {
          table := table + [Row(listing[i], Down, now)];
        }
        i := i + 1;
      }
      assert listing[..i] == listing;
    }

    /** The apply pass of `migrate`: query the pending rows, then run them. */
    method RunPending(upFails: set<string>) returns (out: Outcome)
      requires hasTable
      modifies this`table, this`log
      ensures var e := ApplyEffect(old(table), upFails);
        table == e.table && log == old(log) + e.log && out == e.out
    {
      var pending := PendingQuery(table);
      out := RunRows(pending, upFails);
    }

    /** The apply loop: for each row of the query's result, in order, call its
        unit's `up`, then commit its status 'up'; stop at the first raise.
        The loop walks a snapshot of the result; the source iterates the live
        cursor while issuing each UPDATE through that same cursor, which a
        driver may not tolerate. */
    method RunRows(pending: seq<Row>, upFails: set<string>) returns (out: Outcome)
      requires hasTable
      modifies this`table, this`log
      ensures var k := FirstFailing(pending, upFails);
        table == MarkUp(old(table), Files(pending[..k])) &&
        log == old(log) + (PassLog(pending[..k]) + (if k < |pending| then [RanUp(ModuleName(pending[k].file))] else [])) &&
        out == if k < |pending| then Raised(pending[k].file) else Returned(k > 0)
    {
      ghost var rec := table;
      var run := 0;
      while run < |pending|
        invariant 0 <= run <= |pending|
        invariant run <= FirstFailing(pending, upFails)
        invariant table == MarkUp(rec, Files(pending[..run]))
        invariant log == old(log) + PassLog(pending[..run])
      {
        var row := pending[run];
        var m := ModuleName(row.file);
        log := log + [RanUp(m)];
        if m in upFails {
          assert FirstFailing(pending, upFails) == run;
          return Raised(row.file);
        }
        table := SetStatus(table, row.file, Up);
        log := log + [Committed(row.file, Up)];
        MarkUpStep(rec, pending, run);
        PassLogStep(pending, run);
        run := run + 1;
      }
      assert pending[..run] == pending;
      out := Returned(run > 0);
    }

    /** The end of `rollback`: call the `down` of the row's unit; if it
        returns, set the row's file 'down' and commit. */
    method Revert(row: Row, downFails: set<string>) returns (out: Outcome)
      requires hasTable
      modifies this`table, this`log
      ensures var m := ModuleName(row.file);
        if m in downFails then
          table == old(table) && log == old(log) + [RanDown(m)] && out == Raised(row.file)
        else
          table == SetStatus(old(table), row.file, Down) &&
          log == old(log) + [RanDown(m), Committed(row.file, Down)] && out == Returned(true)
    {
      var m := ModuleName(row.file);
      log := log + [RanDown(m)];
      if m in downFails {
        return Raised(row.file);
      }
      table := SetStatus(table, row.file, Down);
      log := log + [Committed(row.file, Down)];
      out := Returned(true);
    }

    /** `rollback(db_file, migrations_dir)`; `dirGiven` is false when no
        migrations directory was passed. */
    method Rollback(dirGiven: bool, downFails: set<string>) returns (out: Outcome)
      requires Valid()
      modifies this`table, this`log
      ensures Valid() && hasTable == old(hasTable)
      ensures var e := RollbackEffect(old(hasTable), old(table), dirGiven, downFails);
        table == e.table && log == old(log) + e.log && out == e.out
    {
      if !dirGiven {
        return Returned(false);
      }
      if !hasTable {
        return NoSuchTable;
      }
      var latest := LatestUp(table);
      if latest.None? {
        return Returned(false);
      }
      out := Revert(latest.value, downFails);
    }
  }
}
