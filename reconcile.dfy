/**
 * What a committed `update_handbook` does to the two tables, as functions on
 * their contents (cs_handbook/src/db.rs:40-90), and the properties of that
 * reconciliation: majors only grow, the final row of every unit name in
 * closed form, and idempotence.
 */
module Reconciliation {
  import opened Wrappers
  import opened Models
  import opened Statements

  /** The contents of both tables. */
  datatype Snapshot = Snapshot(majors: set<string>, units: UnitTable)

  /**
   * The insert-major statements of the loop over the handbook's majors, in
   * order: no stored title is lost and every major's title is present.
   */
  function InsertMajors(majors: set<string>, ms: seq<Major>): (r: set<string>)
    ensures majors <= r
    ensures forall j :: 0 <= j < |ms| ==> ms[j].title in r
    decreases |ms|
  {
    if ms == [] then majors
    else InsertMajor(InsertMajors(majors, ms[..|ms| - 1]), ms[|ms| - 1].title)
  }

  function Titles(ms: seq<Major>): set<string> {
    set j | 0 <= j < |ms| :: ms[j].title
  }

  /**
   * The unit updates of the loop over the handbook's majors, in order. Only
   * listed names can appear, and an unlisted row whose type is not `major`
   * is kept as it is, since every prune of this loop is bound to that type.
   */
  function MajorsUnits(units: UnitTable, ms: seq<Major>): (r: UnitTable)
    ensures forall n :: n in r ==> n in units || Listed(ms, n)
    ensures forall n :: n in units && units[n].kind != MajorType && !Listed(ms, n) ==> n in r && r[n] == units[n]
    decreases |ms|
  {
    if ms == [] then units
    else
      var last := ms[|ms| - 1];
      SyncUnits(MajorsUnits(units, ms[..|ms| - 1]), Some(last.title), MajorType, last.units)
  }

  /**
   * All unit updates of `update_handbook`: the majors, then the cores, then
   * the electives. Electives are written last and so hold the elective row;
   * every core name is stored; only names the handbook lists can appear.
   */
  function ReconcileUnits(units: UnitTable, h: Handbook): (r: UnitTable)
    ensures forall n :: n in h.electives ==> n in r && r[n] == Row(ElectiveType, None)
    ensures forall n :: n in h.cores ==> n in r
    ensures forall n :: n in r ==> n in units || Listed(h.majors, n) || n in h.cores || n in h.electives
  {
    var afterMajors := MajorsUnits(units, h.majors);
    var afterCores := SyncUnits(afterMajors, None, CoreType, h.cores);
    SyncUnits(afterCores, None, ElectiveType, h.electives)
  }

  /**
   * The committed effect of `update_handbook`: the majors table gains exactly
   * the handbook's titles, and the units table is reconciled.
   */
  function Reconcile(s: Snapshot, h: Handbook): (r: Snapshot)
    ensures r.majors == s.majors + Titles(h.majors)
    ensures r.units == ReconcileUnits(s.units, h)
  {
    InsertMajorsAddsTitles(s.majors, h.majors);
    Snapshot(InsertMajors(s.majors, h.majors), ReconcileUnits(s.units, h))
  }

  /** The reconciliation is the majors loop, then the core update, then the elective update. */
  lemma ReconcileInTurn(s: Snapshot, h: Handbook)
    ensures Reconcile(s, h).majors == InsertMajors(s.majors, h.majors)
    ensures Reconcile(s, h).units
         == SyncUnits(SyncUnits(MajorsUnits(s.units, h.majors), None, CoreType, h.cores), None, ElectiveType, h.electives)
  {
  }

  // ---------------------------------------------------------------------
  // Statement accounting: which runs of update_handbook fail.

  function MajorStatements(ms: seq<Major>): nat
    decreases |ms|
  {
    if ms == [] then 0
    else MajorStatements(ms[..|ms| - 1]) + 1 + UnitStatements(MajorType, ms[|ms| - 1].units)
  }

  /** The statements between BEGIN and COMMIT: the majors', the cores', the electives'. */
  function WriteStatements(h: Handbook): nat {
    MajorStatements(h.majors) + UnitStatements(CoreType, h.cores) + UnitStatements(ElectiveType, h.electives)
  }

  /** BEGIN, the writes, COMMIT. */
  function HandbookStatements(h: Handbook): nat {
    1 + WriteStatements(h) + 1
  }

  /** Does the run execute any statement on the `units` table? */
  predicate WritesUnits(h: Handbook) {
    || (exists j :: 0 <= j < |h.majors| && h.majors[j].units != [])
    || h.cores != []
    || h.electives != []
  }

  /**
   * The writes between BEGIN and COMMIT all succeed when every statement
   * finds its table and no storage failure hits any of them.
   */
  predicate WritesSucceed(hasMajorsTable: bool, hasUnitsTable: bool, h: Handbook, fault: Option<nat>) {
    && (hasMajorsTable || h.majors == [])
    && (hasUnitsTable || !WritesUnits(h))
    && !FailsWithin(fault, WriteStatements(h))
  }

  /**
   * A run commits when every statement it executes finds its table and no
   * storage failure hits any of its statements.
   */
  predicate RunSucceeds(hasMajorsTable: bool, hasUnitsTable: bool, h: Handbook, fault: Option<nat>) {
    && (hasMajorsTable || h.majors == [])
    && (hasUnitsTable || !WritesUnits(h))
    && !FailsWithin(fault, HandbookStatements(h))
  }

  /** A run commits exactly when BEGIN, then the writes, then COMMIT succeed. */
  lemma RunSucceedsInTurn(hasMajorsTable: bool, hasUnitsTable: bool, h: Handbook, fault: Option<nat>)
    ensures RunSucceeds(hasMajorsTable, hasUnitsTable, h, fault) <==>
      && fault != Some(0)
      && WritesSucceed(hasMajorsTable, hasUnitsTable, h, Shift(fault, 1))
      && fault != Some(1 + WriteStatements(h))
  {
  }

  /**
   * The writes succeed exactly when the majors loop, then the core update,
   * then the elective update succeed, the failure plan of each counted from
   * its own first statement.
   */
  lemma WritesSucceedInTurn(hasMajorsTable: bool, hasUnitsTable: bool, h: Handbook, fault: Option<nat>)
    ensures
      var afterMajors := MajorStatements(h.majors);
      var afterCores := afterMajors + UnitStatements(CoreType, h.cores);
      WritesSucceed(hasMajorsTable, hasUnitsTable, h, fault) <==>
        && (hasMajorsTable || h.majors == [])
        && (hasUnitsTable || forall j :: 0 <= j < |h.majors| ==> h.majors[j].units == [])
        && !FailsWithin(fault, MajorStatements(h.majors))
        && (hasUnitsTable || h.cores == [])
        && !FailsWithin(Shift(fault, afterMajors), UnitStatements(CoreType, h.cores))
        && (hasUnitsTable || h.electives == [])
        && !FailsWithin(Shift(fault, afterCores), UnitStatements(ElectiveType, h.electives))
  {
  }

  /** One more major of the list extends each fold of the majors loop by that major's statements. */
  lemma MajorsStep(majors: set<string>, units: UnitTable, ms: seq<Major>, i: nat)
    requires i < |ms|
    ensures ms[..i + 1][..i] == ms[..i]
    ensures MajorStatements(ms[..i + 1]) == MajorStatements(ms[..i]) + 1 + UnitStatements(MajorType, ms[i].units)
    ensures InsertMajors(majors, ms[..i + 1]) == InsertMajor(InsertMajors(majors, ms[..i]), ms[i].title)
    ensures MajorsUnits(units, ms[..i + 1])
         == SyncUnits(MajorsUnits(units, ms[..i]), Some(ms[i].title), MajorType, ms[i].units)
  {
    assert ms[..i + 1][..i] == ms[..i];
  }

  lemma {:induction false} MajorStatementsPrefix(ms: seq<Major>, k: nat)
    requires k <= |ms|
    ensures MajorStatements(ms[..k]) <= MajorStatements(ms)
    decreases |ms|
  {
    if k < |ms| {
      var init := ms[..|ms| - 1];
      assert ms[..k] == init[..k];
      MajorStatementsPrefix(init, k);
    } else {
      assert ms[..k] == ms;
    }
  }

  // ---------------------------------------------------------------------
  // Majors are insert-if-absent and never deleted.

  /** The majors table afterwards is exactly what it held before plus every title of the handbook. */
  lemma {:induction false} InsertMajorsAddsTitles(majors: set<string>, ms: seq<Major>)
    ensures InsertMajors(majors, ms) == majors + Titles(ms)
    decreases |ms|
  {
    if ms != [] {
      var init := ms[..|ms| - 1];
      InsertMajorsAddsTitles(majors, init);
      forall t ensures t in Titles(ms) <==> t in Titles(init) || t == ms[|ms| - 1].title {
        if t in Titles(ms) {
          var j :| 0 <= j < |ms| && ms[j].title == t;
          if j < |ms| - 1 {
            assert init[j].title == t;
          }
        }
        if t in Titles(init) {
          var j :| 0 <= j < |init| && init[j].title == t;
          assert ms[j].title == t;
        }
      }
    }
  }

  // ---------------------------------------------------------------------
  // The final row of every unit name, in closed form.

  /** Is `n` listed under some major of `ms`? */
  predicate Listed(ms: seq<Major>, n: Unit) {
    exists j :: 0 <= j < |ms| && n in ms[j].units
  }

  /** The last major of `ms` that lists `n`: the one whose upsert `n` keeps. */
  function LastListing(ms: seq<Major>, n: Unit): (j: nat)
    requires Listed(ms, n)
    ensures j < |ms| && n in ms[j].units
    ensures forall k :: j < k < |ms| ==> n !in ms[k].units
    decreases |ms|
  {
    if n in ms[|ms| - 1].units then |ms| - 1
    else
      var init := ms[..|ms| - 1];
      assert Listed(init, n) by {
        var j :| 0 <= j < |ms| && n in ms[j].units;
        assert init[j] == ms[j];
      }
      LastListing(init, n)
  }

  /** Does a major from position `from` on prune the scope of `title` (a non-empty list under that title)? */
  predicate PrunedFrom(ms: seq<Major>, from: nat, title: string) {
    exists k :: from <= k < |ms| && ms[k].title == title && ms[k].units != []
  }

  /**
   * The row of `n` after the majors' loop, without reference to the order of
   * statements: a listed name carries the title of the last major listing it,
   * unless a later major with that same title prunes it; an unlisted name
   * keeps its row unless that row is a major unit of a title some major prunes.
   */
  ghost function MajorsRow(units: UnitTable, ms: seq<Major>, n: Unit): (r: Option<Row>)
    ensures Listed(ms, n) && r.Some? ==>
      r.value.kind == MajorType && r.value.majorTitle.Some? && r.value.majorTitle.value in Titles(ms)
    ensures !Listed(ms, n) && r.Some? ==> n in units && r.value == units[n]
    ensures !Listed(ms, n) && n in units && units[n].kind != MajorType ==> r == Some(units[n])
  {
    if Listed(ms, n) then
      var j := LastListing(ms, n);
      if PrunedFrom(ms, j + 1, ms[j].title) then None else Some(Row(MajorType, Some(ms[j].title)))
    else if n !in units then None
    else if units[n].kind == MajorType && units[n].majorTitle.Some? && PrunedFrom(ms, 0, units[n].majorTitle.value) then None
    else Some(units[n])
  }

  /** The row of `n` after a whole run: electives win over cores, cores over majors. */
  ghost function FinalRow(units: UnitTable, h: Handbook, n: Unit): (r: Option<Row>)
    ensures n in h.electives || n in h.cores ==> r.Some?
    ensures r.Some? && r.value.majorTitle.None? && n !in units ==> n in h.electives || n in h.cores
    ensures r.Some? ==> n in units || Listed(h.majors, n) || n in h.cores || n in h.electives
  {
    if n in h.electives then Some(Row(ElectiveType, None))
    else if n in h.cores then Some(Row(CoreType, None))
    else MajorsRow(units, h.majors, n)
  }

  lemma ListedSnoc(init: seq<Major>, last: Major, n: Unit)
    ensures Listed(init + [last], n) <==> Listed(init, n) || n in last.units
  {
    var ms := init + [last];
    if Listed(init, n) {
      var j :| 0 <= j < |init| && n in init[j].units;
      assert ms[j] == init[j];
    }
    if Listed(ms, n) && n !in last.units {
      var j :| 0 <= j < |ms| && n in ms[j].units;
      assert init[j] == ms[j];
    }
    if n in last.units {
      assert ms[|init|] == last;
    }
  }

  lemma PrunedFromSnoc(init: seq<Major>, last: Major, from: nat, title: string)
    requires from <= |init|
    ensures PrunedFrom(init + [last], from, title) <==>
      PrunedFrom(init, from, title) || (last.title == title && last.units != [])
  {
    var ms := init + [last];
    if PrunedFrom(init, from, title) {
      var k :| from <= k < |init| && init[k].title == title && init[k].units != [];
      assert ms[k] == init[k];
    }
    if PrunedFrom(ms, from, title) && !(last.title == title && last.units != []) {
      var k :| from <= k < |ms| && ms[k].title == title && ms[k].units != [];
      assert init[k] == ms[k];
    }
    if last.title == title && last.units != [] {
      assert ms[|init|] == last;
    }
  }

  /** The majors' loop, statement by statement, agrees with the closed form for every name. */
  lemma {:induction false} MajorsUnitsRow(units: UnitTable, ms: seq<Major>, n: Unit)
    ensures Lookup(MajorsUnits(units, ms), n) == MajorsRow(units, ms, n)
    decreases |ms|
  {
    if ms == [] {
      return;
    }
    var init, last := ms[..|ms| - 1], ms[|ms| - 1];
    assert ms == init + [last];
    MajorsUnitsRow(units, init, n);
    ListedSnoc(init, last, n);
    var u := MajorsUnits(units, init);
    var r := MajorsUnits(units, ms);
    assert r == SyncUnits(u, Some(last.title), MajorType, last.units);
    if n in last.units {
      assert LastListing(ms, n) == |ms| - 1;
      assert !PrunedFrom(ms, |ms|, last.title);
    } else if Listed(init, n) {
      var j := LastListing(init, n);
      assert LastListing(ms, n) == j;
      assert ms[j] == init[j];
      PrunedFromSnoc(init, last, j + 1, init[j].title);
    } else if n in units {
      var row := units[n];
      if row.kind == MajorType && row.majorTitle.Some? {
        PrunedFromSnoc(init, last, 0, row.majorTitle.value);
      }
    }
  }

  /** A whole run agrees with the closed form for every name. */
  lemma ReconcileUnitsRow(units: UnitTable, h: Handbook, n: Unit)
    ensures Lookup(ReconcileUnits(units, h), n) == FinalRow(units, h, n)
  {
    MajorsUnitsRow(units, h.majors, n);
  }

  lemma LookupExtensional(a: UnitTable, b: UnitTable)
    requires forall n :: Lookup(a, n) == Lookup(b, n)
    ensures a == b
  {
    assert a.Keys == b.Keys by {
      forall n ensures n in a <==> n in b {
        assert Lookup(a, n).Some? <==> Lookup(b, n).Some?;
      }
    }
    forall n | n in a ensures a[n] == b[n] {
      assert Lookup(a, n) == Lookup(b, n);
    }
  }

  // ---------------------------------------------------------------------
  // Idempotence.

  /** The closed form of a second run over the first run's result is the first run's. */
  lemma FinalRowIdempotent(units: UnitTable, h: Handbook, n: Unit)
    ensures FinalRow(ReconcileUnits(units, h), h, n) == FinalRow(units, h, n)
  {
    ReconcileUnitsRow(units, h, n);
  }

  /** Running `update_handbook` twice with the same handbook leaves both tables as running it once. */
  lemma ReconcileIdempotent(s: Snapshot, h: Handbook)
    ensures Reconcile(Reconcile(s, h), h) == Reconcile(s, h)
  {
    var once := Reconcile(s, h);
    InsertMajorsAddsTitles(s.majors, h.majors);
    InsertMajorsAddsTitles(once.majors, h.majors);
    forall n ensures Lookup(ReconcileUnits(once.units, h), n) == Lookup(once.units, n) {
      ReconcileUnitsRow(once.units, h, n);
      ReconcileUnitsRow(s.units, h, n);
      FinalRowIdempotent(s.units, h, n);
    }
    LookupExtensional(ReconcileUnits(once.units, h), once.units);
  }

  // ---------------------------------------------------------------------
  // Which names survive a run.

  /**
   * Every name the handbook lists in the cores or electives is stored after
   * the run, whatever the majors; a name listed under a major is stored too
   * when no two majors share a title.
   */
  lemma ListedNamesStored(units: UnitTable, h: Handbook, n: Unit)
    requires || n in h.cores
             || n in h.electives
             || (Listed(h.majors, n) && forall i, k :: 0 <= i < k < |h.majors| ==> h.majors[i].title != h.majors[k].title)
    ensures n in ReconcileUnits(units, h)
  {
    ReconcileUnitsRow(units, h, n);
  }

  /**
   * An elective row whose name no major lists is still stored after the run:
   * only the DELETE of a major's scope removes rows, and it never selects an
   * elective row.
   */
  lemma ElectiveRowsSurvive(units: UnitTable, h: Handbook, n: Unit)
    requires n in units && units[n].kind == ElectiveType
    requires !Listed(h.majors, n)
    ensures n in ReconcileUnits(units, h)
  {
    ReconcileUnitsRow(units, h, n);
  }

  /**
   * The empty-list fail-safe over a whole run: when every list is empty no
   * row of the `units` table changes, whatever was stored before.
   */
  lemma EmptyListsKeepUnits(units: UnitTable, h: Handbook)
    requires h.cores == [] && h.electives == []
    requires forall j :: 0 <= j < |h.majors| ==> h.majors[j].units == []
    ensures ReconcileUnits(units, h) == units
  {
    forall n ensures Lookup(ReconcileUnits(units, h), n) == Lookup(units, n) {
      ReconcileUnitsRow(units, h, n);
    }
    LookupExtensional(ReconcileUnits(units, h), units);
  }

  // ---------------------------------------------------------------------
  // A worked scenario.

  function FirstScrape(): Handbook {
    Handbook([Major("CS", ["Algo101"])], ["Math101"], ["Art101"])
  }

  /** The same scrape with the core list missing. */
  function CoresMissing(): Handbook {
    Handbook([Major("CS", ["Algo101"])], [], ["Art101"])
  }

  function ScenarioRows(): UnitTable {
    map["Algo101" := Row(MajorType, Some("CS")),
        "Math101" := Row(CoreType, None),
        "Art101" := Row(ElectiveType, None)]
  }

  lemma ScenarioTitles()
    ensures Titles(FirstScrape().majors) == Titles(CoresMissing().majors) == {"CS"}
  {
    var ms := FirstScrape().majors;
    assert ms[0].title in Titles(ms);
  }

  lemma FirstScrapeRows()
    ensures ReconcileUnits(map[], FirstScrape()) == ScenarioRows()
  {
    forall n ensures Lookup(ReconcileUnits(map[], FirstScrape()), n) == Lookup(ScenarioRows(), n) {
      ReconcileUnitsRow(map[], FirstScrape(), n);
    }
    LookupExtensional(ReconcileUnits(map[], FirstScrape()), ScenarioRows());
  }

  lemma CoresMissingKeepsRows()
    ensures ReconcileUnits(ScenarioRows(), CoresMissing()) == ScenarioRows()
  {
    forall n ensures Lookup(ReconcileUnits(ScenarioRows(), CoresMissing()), n) == Lookup(ScenarioRows(), n) {
      ReconcileUnitsRow(ScenarioRows(), CoresMissing(), n);
    }
    LookupExtensional(ReconcileUnits(ScenarioRows(), CoresMissing()), ScenarioRows());
  }

  /**
   * One major with one unit, one core and one elective reconcile into an
   * empty database; a second scrape whose core list came back empty then
   * leaves every row in place.
   */
  lemma TwoScrapesScenario()
    ensures Reconcile(Snapshot({}, map[]), FirstScrape()) == Snapshot({"CS"}, ScenarioRows())
    ensures Reconcile(Snapshot({"CS"}, ScenarioRows()), CoresMissing()) == Snapshot({"CS"}, ScenarioRows())
  {
    ScenarioTitles();
    FirstScrapeRows();
    CoresMissingKeepsRows();
  }
}
