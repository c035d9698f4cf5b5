/**
 * The SQLite database of cs_handbook/src/db.rs as an object whose two tables
 * the statements update in place. A table that does not exist yet makes every
 * statement on it fail. A storage failure is an input: `fails` for a single
 * statement, and for a run of several `fault`, the index (in execution order,
 * from 0) of the statement that fails, if any.
 */
module Db {
  import opened Wrappers
  import opened Models
  import opened Statements
  import opened Reconciliation

  class Store {
    var hasMajorsTable: bool
    var hasUnitsTable: bool
    var majors: set<string>
    var units: UnitTable

    /**
     * A table that does not exist holds no rows, and the `units` table, whose
     * `major_title` references `majors`, is only ever created after it.
     */
    ghost predicate Valid()
      reads this
    {
      && (!hasMajorsTable ==> majors == {})
      && (!hasUnitsTable ==> units == map[])
      && (hasUnitsTable ==> hasMajorsTable)
    }

    function Current(): Snapshot
      reads this
    {
      Snapshot(majors, units)
    }

    /** A freshly created, empty database file. */
    constructor ()
      ensures Valid()
      ensures !hasMajorsTable && !hasUnitsTable
    {
      hasMajorsTable, hasUnitsTable := false, false;
      majors, units := {}, map[];
    }

    /**
     * `create_tables_if_not_exists`: two auto-committed CREATE TABLE IF NOT
     * EXISTS statements. The first failure returns before the second runs.
     * Existing tables keep their rows, so repeating the call changes nothing.
     */
    method CreateTablesIfNotExists(fault: Option<nat>) returns (ok: bool)
      requires Valid()
      modifies this
      ensures Valid()
      ensures ok <==> !FailsWithin(fault, 2)
      ensures hasMajorsTable <==> old(hasMajorsTable) || fault != Some(0)
      ensures hasUnitsTable <==> old(hasUnitsTable) || ok
      ensures majors == old(majors) && units == old(units)
    {
      if fault == Some(0) {
        return false;
      }
      hasMajorsTable := true;
      if fault == Some(1) {
        return false;
      }
      hasUnitsTable := true;
      ok := true;
    }

    /** Executes the insert-major statement; it fails without a `majors` table. */
    method ExecInsertMajor(title: string, fails: bool) returns (ok: bool)
      requires Valid()
      modifies this`majors
      ensures Valid()
      ensures ok <==> hasMajorsTable && !fails
      ensures majors == if ok then InsertMajor(old(majors), title) else old(majors)
    {
      ok := hasMajorsTable && !fails;
      if ok {
        majors := InsertMajor(majors, title);
      }
    }

    /** Executes the upsert of one unit; it fails without a `units` table. */
    method ExecUpsertUnit(name: Unit, kind: string, majorTitle: Option<string>, fails: bool) returns (ok: bool)
      requires Valid()
      modifies this`units
      ensures Valid()
      ensures ok <==> hasUnitsTable && !fails
      ensures units == if ok then UpsertUnit(old(units), name, kind, majorTitle) else old(units)
    {
      ok := hasUnitsTable && !fails;
      if ok {
        units := UpsertUnit(units, name, kind, majorTitle);
      }
    }

    /** Executes the DELETE with the NOT IN list built from `keep`; it fails without a `units` table. */
    method ExecDeleteStale(majorTitle: Option<string>, kind: string, keep: seq<Unit>, fails: bool) returns (ok: bool)
      requires Valid()
      requires QuoteFree(keep)
      modifies this`units
      ensures Valid()
      ensures ok <==> hasUnitsTable && !fails
      ensures units == if ok then DeleteStale(old(units), majorTitle, kind, keep) else old(units)
    {
      ok := hasUnitsTable && !fails;
      if ok {
        units := DeleteStale(units, majorTitle, kind, keep);
      }
    }

    /**
     * The loop of `update_units`: upserts every name in order, collecting the
     * names for the DELETE. The first failing upsert returns at once.
     */
    method UpsertUnits(majorTitle: Option<string>, kind: string, names: seq<Unit>, fault: Option<nat>)
      returns (ok: bool, unitNames: seq<Unit>)
      requires Valid()
      modifies this`units
      ensures Valid()
      ensures ok <==> (hasUnitsTable || names == []) && !FailsWithin(fault, |names|)
      ensures ok ==> unitNames == names && units == UpsertAll(old(units), majorTitle, kind, names)
    {
      unitNames := [];
      var i := 0;
      while i < |names|
        invariant i <= |names|
        invariant Valid()
        invariant unitNames == names[..i]
        invariant units == UpsertAll(old(units), majorTitle, kind, names[..i])
        invariant hasUnitsTable || i == 0
        invariant !FailsWithin(fault, i)
      {
        var stepOk := ExecUpsertUnit(names[i], kind, majorTitle, fault.Some? && fault.value == i);
        if !stepOk {
          return false, unitNames;
        }
        UpsertAllStep(old(units), majorTitle, kind, names, i);
        unitNames := unitNames + [names[i]];
        i := i + 1;
      }
      assert names[..i] == names;
      ok := true;
    }

    /**
     * `update_units`: the upsert loop, then the DELETE of the stale rows of
     * the scope unless the list is empty or the type is elective. `fault`
     * counts from this call's first statement. On failure the caller rolls
     * the transaction back, so the partial state is not stated.
     */
    method UpdateUnits(majorTitle: Option<string>, kind: string, names: seq<Unit>, fault: Option<nat>)
      returns (ok: bool)
      requires Valid()
      requires kind == ElectiveType || QuoteFree(names)
      modifies this`units
      ensures Valid()
      ensures ok <==> (hasUnitsTable || names == []) && !FailsWithin(fault, UnitStatements(kind, names))
      ensures ok ==> units == SyncUnits(old(units), majorTitle, kind, names)
    {
      var unitNames;
      ok, unitNames := UpsertUnits(majorTitle, kind, names, fault);
      if ok && PruneApplies(kind, names) {
        ok := ExecDeleteStale(majorTitle, kind, unitNames, fault == Some(|names|));
      }
    }

    /**
     * One pass of the loop in `update_handbook`: the insert-major statement,
     * then `update_units` for that major's list under its title. `fault`
     * counts from the insert.
     */
    method UpdateMajor(major: Major, fault: Option<nat>) returns (ok: bool)
      requires Valid()
      requires QuoteFree(major.units)
      modifies this`majors, this`units
      ensures Valid()
      ensures ok <==> && hasMajorsTable
                      && (hasUnitsTable || major.units == [])
                      && !FailsWithin(fault, 1 + UnitStatements(MajorType, major.units))
      ensures ok ==> majors == InsertMajor(old(majors), major.title)
      ensures ok ==> units == SyncUnits(old(units), Some(major.title), MajorType, major.units)
    {
      ok := ExecInsertMajor(major.title, fault == Some(0));
      if ok {
        ok := UpdateUnits(Some(major.title), MajorType, major.units, Shift(fault, 1));
      }
    }

    /** Dropping an uncommitted transaction: both tables return to their saved contents. */
    method Rollback(saved: Snapshot)
      requires hasUnitsTable ==> hasMajorsTable
      requires !hasMajorsTable ==> saved.majors == {}
      requires !hasUnitsTable ==> saved.units == map[]
      modifies this`majors, this`units
      ensures Valid()
      ensures Current() == saved
    {
      majors, units := saved.majors, saved.units;
    }

    /**
     * The loop of `update_handbook` over the handbook's majors, in order.
     * `fault` counts from the first insert.
     */
    method UpdateMajors(ms: seq<Major>, fault: Option<nat>) returns (ok: bool)
      requires Valid()
      requires forall j :: 0 <= j < |ms| ==> QuoteFree(ms[j].units)
      modifies this`majors, this`units
      ensures Valid()
      ensures ok <==> && (hasMajorsTable || ms == [])
                      && (hasUnitsTable || forall j :: 0 <= j < |ms| ==> ms[j].units == [])
                      && !FailsWithin(fault, MajorStatements(ms))
      ensures ok ==> majors == InsertMajors(old(majors), ms)
      ensures ok ==> units == MajorsUnits(old(units), ms)
    {
      var step := 0;
      var i := 0;
      while i < |ms|
        invariant i <= |ms|
        invariant Valid()
        invariant step == MajorStatements(ms[..i])
        invariant !FailsWithin(fault, step)
        invariant hasMajorsTable || i == 0
        invariant !hasUnitsTable ==> forall j :: 0 <= j < i ==> ms[j].units == []
        invariant majors == InsertMajors(old(majors), ms[..i])
        invariant units == MajorsUnits(old(units), ms[..i])
      {
        var major := ms[i];
        MajorsStep(old(majors), old(units), ms, i);
        MajorStatementsPrefix(ms, i + 1);
        FailsWithinSplit(fault, step, 1 + UnitStatements(MajorType, major.units));
        ok := UpdateMajor(major, Shift(fault, step));
        if !ok {
          return;
        }
        step := step + 1 + UnitStatements(MajorType, major.units);
        i := i + 1;
      }
      assert ms[..i] == ms;
      ok := true;
    }

    /**
     * The statements of `update_handbook` between BEGIN and COMMIT: every
     * major's insert and unit update, then the cores, then the electives.
     * The first failure returns at once, leaving the rollback to the caller.
     * `fault` counts from the first insert.
     */
    method WriteHandbook(h: Handbook, fault: Option<nat>) returns (ok: bool)
      requires Valid()
      requires forall j :: 0 <= j < |h.majors| ==> QuoteFree(h.majors[j].units)
      requires QuoteFree(h.cores)
      modifies this`majors, this`units
      ensures Valid()
      ensures ok <==> WritesSucceed(hasMajorsTable, hasUnitsTable, h, fault)
      ensures ok ==> Current() == Reconcile(old(Current()), h)
    {
      WritesSucceedInTurn(hasMajorsTable, hasUnitsTable, h, fault);
      ReconcileInTurn(Current(), h);
      var afterMajors := MajorStatements(h.majors);
      var afterCores := afterMajors + UnitStatements(CoreType, h.cores);
      ok := UpdateMajors(h.majors, fault);
      if ok {
        ok := UpdateUnits(None, CoreType, h.cores, Shift(fault, afterMajors));
      }
      if ok {
        ok := UpdateUnits(None, ElectiveType, h.electives, Shift(fault, afterCores));
      }
    }

    /**
     * `update_handbook`: one transaction around the writes. BEGIN, any write
     * and COMMIT can fail; every failure returns early and the dropped
     * transaction rolls back, so the tables end fully reconciled or as they
     * were.
     */
    method UpdateHandbook(h: Handbook, fault: Option<nat>) returns (ok: bool)
      requires Valid()
      requires forall j :: 0 <= j < |h.majors| ==> QuoteFree(h.majors[j].units)
      requires QuoteFree(h.cores)
      modifies this
      ensures Valid()
      ensures hasMajorsTable == old(hasMajorsTable) && hasUnitsTable == old(hasUnitsTable)
      ensures ok <==> RunSucceeds(hasMajorsTable, hasUnitsTable, h, fault)
      ensures Current() == if ok then Reconcile(old(Current()), h) else old(Current())
    {
      RunSucceedsInTurn(hasMajorsTable, hasUnitsTable, h, fault);
      // Statement 0: BEGIN.
      if fault == Some(0) {
        return false;
      }
      var saved := Current();
      ok := WriteHandbook(h, Shift(fault, 1));
      if !ok {
        Rollback(saved);
        return;
      }
      // The last statement: COMMIT.
      if fault == Some(1 + WriteStatements(h)) {
        Rollback(saved);
        return false;
      }
    }
  }
}
