/**
 * The secondary sheet as `generate_secondary_report` reads it: row 0 holds
 * headers, one of which contains yesterday's `dd.mm.yy`; every later row is a
 * project with its name in column A, its status in column B and its amounts
 * in columns C to F and in yesterday's column.
 */
module SecondarySheet {
  import opened Wrappers
  import opened Text
  import opened Dates
  import Sheet

  const NameColumn: nat := 0
  const StatusColumn: nat := 1
  const VolumeColumn: nat := 2

  /**
   * The columns the tariff and issued amounts are read from, each with the
   * column whose emptiness the code tests first. As written, each guard is
   * one column to the left of the value it guards.
   */
  const TariffGuardColumn: nat := 3
  const TariffColumn: nat := 4
  const IssuedGuardColumn: nat := 4
  const IssuedColumn: nat := 5

  /** The first header at or after `from` that contains `target` anywhere in it. */
  function FirstHeaderContaining(header: Sheet.Row, target: String, from: nat): (r: Option<nat>)
    ensures r.Some? ==> from <= r.value < |header| && Contains(header[r.value], target)
    ensures forall j :: from <= j < |header| && (r.None? || j < r.value) ==> !Contains(header[j], target)
    decreases |header| - from
  {
    if from >= |header| then None
    else if Contains(header[from], target) then Some(from)
    else FirstHeaderContaining(header, target, from + 1)
  }

  /** The column of yesterday: the first header of row 0, from column A on, containing its `dd.mm.yy`. */
  function YesterdayColumn(g: Sheet.Grid, yesterday: Date): Option<nat>
    requires g != []
  {
    FirstHeaderContaining(g[0], FormatShort(yesterday), 0)
  }

  /** `len(row) > 1 and row[1] == 'TRUE'`. */
  predicate IsActiveRow(row: Sheet.Row) {
    |row| > StatusColumn && row[StatusColumn] == Sheet.TrueText
  }

  /** `int(float(cell.replace('\xa0', '').replace(' ', '')))`; none where `float()` raises ValueError. */
  function ReadAmount(cell: String): Option<int> {
    match ParseFloat(RemoveChar(RemoveChar(cell, '\U{A0}'), ' '))
    case Some(d) => Some(Truncate(d))
    case None => None
  }

  /**
   * `int(float(clean(row[source]))) if row[guard] else 0`; none where an index
   * is out of range (IndexError) or the text does not parse (ValueError).
   */
  function GuardedAmount(row: Sheet.Row, guard: nat, source: nat): Option<int> {
    if |row| <= guard then None
    else if row[guard] == [] then Some(0)
    else if |row| <= source then None
    else ReadAmount(row[source])
  }

  /** Yesterday's amount: 0 when the row is too short or the cell empty. */
  function YesterdayAmount(row: Sheet.Row, col: nat): Option<int> {
    if |row| > col && row[col] != [] then ReadAmount(row[col]) else Some(0)
  }

  datatype ProjectSnapshot = ProjectSnapshot(
    name: String,
    totalVolume: int,
    tariffRemaining: int,
    totalIssued: int,
    yesterdayIssued: int)

  /** The `project_data` built from an active row, or none when building it raises. */
  function Snapshot(row: Sheet.Row, col: nat): Option<ProjectSnapshot>
    requires IsActiveRow(row)
  {
    var volume := GuardedAmount(row, VolumeColumn, VolumeColumn);
    var tariff := GuardedAmount(row, TariffGuardColumn, TariffColumn);
    var issued := GuardedAmount(row, IssuedGuardColumn, IssuedColumn);
    var recent := YesterdayAmount(row, col);
    if volume.Some? && tariff.Some? && issued.Some? && recent.Some? then
      Some(ProjectSnapshot(row[NameColumn], volume.value, tariff.value, issued.value, recent.value))
    else
      None
  }

  /** The project a row yields: its snapshot when it is active and building it raises nothing. */
  function RowProject(row: Sheet.Row, col: nat): Option<ProjectSnapshot> {
    if IsActiveRow(row) then Snapshot(row, col) else None
  }

  /** What one row adds to the list: its project, if it yields one. */
  function Picked(p: Option<ProjectSnapshot>): seq<ProjectSnapshot> {
    if p.Some? then [p.value] else []
  }

  /** The projects `pick` yields for `rows`, in sheet order. */
  function Collect(rows: Sheet.Grid, pick: Sheet.Row -> Option<ProjectSnapshot>): seq<ProjectSnapshot> {
    if rows == [] then [] else Collect(rows[..|rows| - 1], pick) + Picked(pick(rows[|rows| - 1]))
  }

  /** The active projects of `rows`, in sheet order (`active_projects`). */
  function ActiveProjects(rows: Sheet.Grid, col: nat): seq<ProjectSnapshot> {
    Collect(rows, row => RowProject(row, col))
  }

  lemma {:induction false} CollectAppend(a: Sheet.Grid, b: Sheet.Grid, pick: Sheet.Row -> Option<ProjectSnapshot>)
    ensures Collect(a + b, pick) == Collect(a, pick) + Collect(b, pick)
    decreases |b|
  {
    if b == [] {
      assert a + b == a;
    } else {
      CollectAppend(a, b[..|b| - 1], pick);
      assert (a + b)[..|a + b| - 1] == a + b[..|b| - 1];
    }
  }

  lemma {:induction false} CollectMembers(rows: Sheet.Grid, pick: Sheet.Row -> Option<ProjectSnapshot>, p: ProjectSnapshot)
    ensures p in Collect(rows, pick) <==> exists k :: 0 <= k < |rows| && pick(rows[k]) == Some(p)
    decreases |rows|
  {
    if rows != [] {
      var init, last := rows[..|rows| - 1], rows[|rows| - 1];
      CollectMembers(init, pick, p);
      assert Collect(rows, pick) == Collect(init, pick) + Picked(pick(last));
      if p in Collect(init, pick) {
        var k :| 0 <= k < |init| && pick(init[k]) == Some(p);
        assert rows[k] == init[k];
      } else if p in Picked(pick(last)) {
        assert pick(rows[|rows| - 1]) == Some(p);
      }
      if exists k :: 0 <= k < |rows| && pick(rows[k]) == Some(p) {
        var k :| 0 <= k < |rows| && pick(rows[k]) == Some(p);
        if k < |init| {
          assert init[k] == rows[k];
        }
      }
    }
  }

  lemma {:induction false} CollectBounded(rows: Sheet.Grid, pick: Sheet.Row -> Option<ProjectSnapshot>)
    ensures |Collect(rows, pick)| <= |rows|
    decreases |rows|
  {
    if rows != [] {
      CollectBounded(rows[..|rows| - 1], pick);
    }
  }

  /** One more row adds its own project, if any, at the end. */
  lemma ActiveProjectsStep(rows: Sheet.Grid, i: nat, col: nat)
    requires i < |rows|
    ensures ActiveProjects(rows[..i + 1], col) == ActiveProjects(rows[..i], col) + Picked(RowProject(rows[i], col))
  {
    assert rows[..i + 1][..i] == rows[..i];
  }

  /** Projects keep sheet order: the projects of two blocks of rows are those of the first, then of the second. */
  lemma ActiveProjectsAppend(a: Sheet.Grid, b: Sheet.Grid, col: nat)
    ensures ActiveProjects(a + b, col) == ActiveProjects(a, col) + ActiveProjects(b, col)
  {
    CollectAppend(a, b, row => RowProject(row, col));
  }

  /** A project is listed exactly when some active row of the sheet yields it. */
  lemma ActiveProjectsMembers(rows: Sheet.Grid, col: nat, p: ProjectSnapshot)
    ensures p in ActiveProjects(rows, col) <==>
            exists k :: 0 <= k < |rows| && IsActiveRow(rows[k]) && Snapshot(rows[k], col) == Some(p)
  {
    CollectMembers(rows, row => RowProject(row, col), p);
  }

  /** No more projects than rows. */
  lemma ActiveProjectsBounded(rows: Sheet.Grid, col: nat)
    ensures |ActiveProjects(rows, col)| <= |rows|
  {
    CollectBounded(rows, row => RowProject(row, col));
  }

  /**
   * The shifted reads at work: an active row with exactly five cells whose
   * fifth cell is filled is dropped, because that cell sends the issued amount
   * to the missing sixth cell.
   */
  lemma FiveCellRowDropped(row: Sheet.Row, col: nat)
    requires IsActiveRow(row) && |row| == 5 && row[IssuedGuardColumn] != []
    ensures Snapshot(row, col).None?
    ensures RowProject(row, col).None?
  {
  }

  /** An active row whose amount cells are all empty still lists the project, with zero amounts. */
  lemma EmptyAmountsReadAsZero(row: Sheet.Row, col: nat)
    requires IsActiveRow(row) && |row| > IssuedGuardColumn
    requires row[VolumeColumn] == [] && row[TariffGuardColumn] == [] && row[IssuedGuardColumn] == []
    requires col >= |row| || row[col] == []
    ensures Snapshot(row, col) == Some(ProjectSnapshot(row[NameColumn], 0, 0, 0, 0))
  {
  }
}
