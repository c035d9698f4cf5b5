/**
 * The SQL statements of cs_handbook/src/db.rs, each as a transformer of the
 * table it writes. The `units` table is keyed by `name` alone (its only
 * PRIMARY KEY), so it is a map from unit name to the rest of the row.
 */
module Statements {
  import opened Wrappers
  import opened Models

  /** The three values the source stores in the `type` column. */
  const MajorType: string := "major"
  const CoreType: string := "core"
  const ElectiveType: string := "elective"

  /** The non-key columns of a `units` row: `type` and the nullable `major_title`. */
  datatype Row = Row(kind: string, majorTitle: Option<string>)

  type UnitTable = map<Unit, Row>

  function Lookup(units: UnitTable, name: Unit): Option<Row> {
    if name in units then Some(units[name]) else None
  }

  /**
   * SQL `=` in a WHERE clause under three-valued logic: a NULL on either
   * side makes the comparison unknown, which does not select the row.
   */
  predicate SqlEquals(stored: Option<string>, bound: Option<string>) {
    stored.Some? && bound.Some? && stored.value == bound.value
  }

  /** The rows `major_title = ? AND type = ?` selects for the bound pair. */
  predicate InScope(row: Row, majorTitle: Option<string>, kind: string) {
    SqlEquals(row.majorTitle, majorTitle) && row.kind == kind
  }

  /** The guard before the DELETE: a non-empty list of a type other than elective. */
  predicate PruneApplies(kind: string, names: seq<Unit>) {
    |names| > 0 && kind != ElectiveType
  }

  /**
   * The DELETE's NOT IN list is built by wrapping each name in single quotes;
   * it denotes the list of names only when no name holds a quote.
   */
  predicate QuoteFree(names: seq<Unit>) {
    forall i :: 0 <= i < |names| ==> '\'' !in names[i]
  }

  /** How many statements one update of a unit list executes: one upsert per name, then the DELETE if it applies. */
  function UnitStatements(kind: string, names: seq<Unit>): nat {
    |names| + if PruneApplies(kind, names) then 1 else 0
  }

  /** A storage failure plan: the index, in execution order, of the statement that fails, if any. */
  predicate FailsWithin(fault: Option<nat>, count: nat) {
    fault.Some? && fault.value < count
  }

  /** The same failure plan seen from the statement numbered `start`. */
  function Shift(fault: Option<nat>, start: nat): (r: Option<nat>)
    ensures forall count: nat :: FailsWithin(r, count) <==> fault.Some? && start <= fault.value < start + count
  {
    if fault.Some? && fault.value >= start then Some(fault.value - start) else None
  }

  /** A failure within the first `a + b` statements hits the first `a` or, counted from `a`, the next `b`. */
  lemma FailsWithinSplit(fault: Option<nat>, a: nat, b: nat)
    ensures FailsWithin(fault, a + b) <==> FailsWithin(fault, a) || FailsWithin(Shift(fault, a), b)
  {
  }

  /**
   * Insert-if-absent of a major title: the title is present afterwards, every
   * title stored before is kept, and no other title appears.
   */
  function InsertMajor(majors: set<string>, title: string): (r: set<string>)
    ensures title in r && majors <= r
    ensures forall t :: t in r && t !in majors ==> t == title
  {
    majors + {title}
  }

  /**
   * Insert of a unit row that, when the name is already stored, overwrites
   * its type and major title instead: whatever row the name had is replaced,
   * and every other name keeps its row.
   */
  function UpsertUnit(units: UnitTable, name: Unit, kind: string, majorTitle: Option<string>): (r: UnitTable)
    ensures r.Keys == units.Keys + {name} && r[name] == Row(kind, majorTitle)
    ensures forall n :: n in units && n != name ==> r[n] == units[n]
  {
    units[name := Row(kind, majorTitle)]
  }

  /**
   * The prune statement: deletes the rows of the bound (major title, type)
   * scope whose name is not in the kept list, and nothing else.
   */
  function DeleteStale(units: UnitTable, majorTitle: Option<string>, kind: string, keep: seq<Unit>): (r: UnitTable)
    ensures forall n :: n in r ==> n in units && r[n] == units[n]
    ensures forall n :: n in units && n in keep ==> n in r
    ensures forall n :: n in units && !InScope(units[n], majorTitle, kind) ==> n in r
    ensures forall n :: n in r ==> n in keep || !InScope(r[n], majorTitle, kind)
  {
    map n | n in units && (n in keep || !InScope(units[n], majorTitle, kind)) :: units[n]
  }

  /** The upsert loop of `update_units`, applied to the names in list order. */
  function UpsertAll(units: UnitTable, majorTitle: Option<string>, kind: string, names: seq<Unit>): (r: UnitTable)
    ensures forall n :: n in r <==> n in units || n in names
    ensures forall n :: n in names ==> r[n] == Row(kind, majorTitle)
    ensures forall n :: n in units && n !in names ==> r[n] == units[n]
    decreases |names|
  {
    if names == [] then units
    else UpsertUnit(UpsertAll(units, majorTitle, kind, names[..|names| - 1]), names[|names| - 1], kind, majorTitle)
  }

  /** Upserting one more name of the list extends the fold by that one upsert. */
  lemma UpsertAllStep(units: UnitTable, majorTitle: Option<string>, kind: string, names: seq<Unit>, i: nat)
    requires i < |names|
    ensures names[..i + 1] == names[..i] + [names[i]]
    ensures UpsertAll(units, majorTitle, kind, names[..i + 1])
         == UpsertUnit(UpsertAll(units, majorTitle, kind, names[..i]), names[i], kind, majorTitle)
  {
    assert names[..i + 1][..i] == names[..i];
  }

  /**
   * What a successful `update_units(major_title, kind, names)` does to the
   * `units` table: every listed name ends up with the row (kind, major_title);
   * an unlisted row is removed only when the prune applies and the row is in
   * the bound scope; nothing else changes.
   */
  function SyncUnits(units: UnitTable, majorTitle: Option<string>, kind: string, names: seq<Unit>): (r: UnitTable)
    ensures forall n :: n in names ==> n in r && r[n] == Row(kind, majorTitle)
    ensures forall n :: n in r && n !in names ==> n in units && r[n] == units[n]
    ensures forall n :: n in units && n !in names ==>
      (n in r <==> !(PruneApplies(kind, names) && InScope(units[n], majorTitle, kind)))
    // An empty list, the elective type or a NULL major title never deletes a row.
    ensures !PruneApplies(kind, names) || majorTitle.None? ==> forall n :: n in units ==> n in r
    // A pruned scope holds exactly the listed names afterwards.
    ensures PruneApplies(kind, names) && majorTitle.Some? ==>
      forall n :: (n in r && r[n] == Row(kind, majorTitle)) <==> n in names
  {
    var upserted := UpsertAll(units, majorTitle, kind, names);
    if PruneApplies(kind, names) then DeleteStale(upserted, majorTitle, kind, names) else upserted
  }

  /**
   * Bound to NULL, the `major_title = ?` test selects nothing, so the
   * update of the core list is its upserts and nothing more.
   */
  lemma CorePruneIsNoOp(units: UnitTable, names: seq<Unit>)
    ensures SyncUnits(units, None, CoreType, names) == UpsertAll(units, None, CoreType, names)
  {
  }
}
