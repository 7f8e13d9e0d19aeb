/**
 * Row assembly of `iter_sheet_rows`: every `<row>` becomes a sparse map from
 * zero-based column index to stripped cell text; the first row with any
 * matched cell fixes the column-to-header map; every later row is projected
 * onto the non-empty header names, and rows that project to nothing are
 * dropped.
 */
module Sheet {
  import opened Wrappers
  import opened Text
  import opened Dicts
  import opened Cells
  import opened Columns

  /** The cell has a usable reference, and it names column `col`. */
  predicate InColumn(cell: Cell, col: nat) {
    RefColumn(cell.reference) == Some(col)
  }

  /** One step of the cell loop: a cell with a usable reference stores its
      stripped text under its column; any other cell is skipped unread. */
  function AddCell(m: map<nat, string>, cell: Cell, shared: seq<string>): Result<map<nat, string>, SheetError> {
    match RefColumn(cell.reference)
    case None => Success(m)
    case Some(col) =>
      var text :- ReadCellValue(cell, shared);
      Success(m[col := Strip(text)])
  }

  /** The cells of one row as a sparse map; a later cell of the same column
      overwrites an earlier one. Reading a matched cell can fail. */
  function RowCells(cells: seq<Cell>, shared: seq<string>): Result<map<nat, string>, SheetError>
    decreases |cells|
  {
    if cells == [] then Success(map[])
    else
      var m :- RowCells(cells[..|cells| - 1], shared);
      AddCell(m, cells[|cells| - 1], shared)
  }

  lemma RowCellsStep(cells: seq<Cell>, shared: seq<string>)
    requires cells != []
    ensures RowCells(cells, shared).Success? <==>
              RowCells(cells[..|cells| - 1], shared).Success?
              && AddCell(RowCells(cells[..|cells| - 1], shared).value, cells[|cells| - 1], shared).Success?
    ensures RowCells(cells, shared).Success? ==>
              RowCells(cells, shared) == AddCell(RowCells(cells[..|cells| - 1], shared).value, cells[|cells| - 1], shared)
  {
  }

  /** A row's map has an entry for a column exactly when some cell of the row
      has a usable reference to that column. */
  lemma {:induction false} RowCellsKeys(cells: seq<Cell>, shared: seq<string>, col: nat)
    requires RowCells(cells, shared).Success?
    ensures col in RowCells(cells, shared).value <==> exists k :: 0 <= k < |cells| && InColumn(cells[k], col)
    decreases |cells|
  {
    if cells != [] {
      var prefix := cells[..|cells| - 1];
      var last := cells[|cells| - 1];
      RowCellsStep(cells, shared);
      var m := RowCells(prefix, shared).value;
      RowCellsKeys(prefix, shared, col);
      var r := RowCells(cells, shared).value;
      assert col in r <==> col in m || RefColumn(last.reference) == Some(col);
      var p := (c: Cell) => InColumn(c, col);
      SomeSplit(cells, p);
      SomePrefix(cells, prefix, p);
    }
  }

  /** Reading a row fails exactly when one of its matched cells cannot be read. */
  lemma {:induction false} RowCellsFailure(cells: seq<Cell>, shared: seq<string>)
    ensures RowCells(cells, shared).Failure? <==> exists k :: 0 <= k < |cells| && Unreadable(cells[k], shared)
    decreases |cells|
  {
    if cells == [] {
      assert RowCells(cells, shared).Success?;
    } else {
      var prefix := cells[..|cells| - 1];
      RowCellsFailure(prefix, shared);
      RowCellsFailStep(cells, shared);
      UnreadableSplit(cells, shared);
      UnreadablePrefix(cells, prefix, shared);
    }
  }

  lemma RowCellsFailStep(cells: seq<Cell>, shared: seq<string>)
    requires cells != []
    ensures RowCells(cells, shared).Failure? <==>
              RowCells(cells[..|cells| - 1], shared).Failure? || Unreadable(cells[|cells| - 1], shared)
  {
    var prefix := cells[..|cells| - 1];
    RowCellsStep(cells, shared);
    if RowCells(prefix, shared).Success? {
      AddCellFailure(RowCells(prefix, shared).value, cells[|cells| - 1], shared);
    }
  }

  lemma UnreadableSplit(cells: seq<Cell>, shared: seq<string>)
    requires cells != []
    ensures (exists k :: 0 <= k < |cells| && Unreadable(cells[k], shared)) <==>
            (exists k :: 0 <= k < |cells| - 1 && Unreadable(cells[k], shared))
            || Unreadable(cells[|cells| - 1], shared)
  {
    SomeSplit(cells, (c: Cell) => Unreadable(c, shared));
  }

  /** Some element satisfies `p` exactly when some element before the last
      does, or the last one does. */
  lemma SomeSplit<T>(xs: seq<T>, p: T -> bool)
    requires xs != []
    ensures (exists k :: 0 <= k < |xs| && p(xs[k])) <==>
            (exists k :: 0 <= k < |xs| - 1 && p(xs[k])) || p(xs[|xs| - 1])
  {
    if exists k :: 0 <= k < |xs| && p(xs[k]) {
      var k :| 0 <= k < |xs| && p(xs[k]);
      if k < |xs| - 1 {
        assert 0 <= k < |xs| - 1 && p(xs[k]);
      }
    }
  }

  lemma UnreadablePrefix(cells: seq<Cell>, prefix: seq<Cell>, shared: seq<string>)
    requires |prefix| <= |cells| && prefix == cells[..|prefix|]
    ensures (exists k :: 0 <= k < |prefix| && Unreadable(cells[k], shared)) <==>
            (exists k :: 0 <= k < |prefix| && Unreadable(prefix[k], shared))
  {
    SomePrefix(cells, prefix, (c: Cell) => Unreadable(c, shared));
  }

  /** Searching the first `|prefix|` elements of `xs` is searching `prefix`. */
  lemma SomePrefix<T>(xs: seq<T>, prefix: seq<T>, p: T -> bool)
    requires |prefix| <= |xs| && prefix == xs[..|prefix|]
    ensures (exists k :: 0 <= k < |prefix| && p(xs[k])) <==> (exists k :: 0 <= k < |prefix| && p(prefix[k]))
  {
    if exists k :: 0 <= k < |prefix| && p(prefix[k]) {
      var k :| 0 <= k < |prefix| && p(prefix[k]);
      assert prefix[k] == xs[k];
    }
    if exists k :: 0 <= k < |prefix| && p(xs[k]) {
      var k :| 0 <= k < |prefix| && p(xs[k]);
      assert prefix[k] == xs[k];
      assert p(prefix[k]);
    }
  }

  lemma AddCellFailure(m: map<nat, string>, cell: Cell, shared: seq<string>)
    ensures AddCell(m, cell, shared).Failure? <==> Unreadable(cell, shared)
  {
  }

  /** A cell the loop reads and whose reading raises. */
  predicate Unreadable(cell: Cell, shared: seq<string>) {
    RefColumn(cell.reference).Some? && ReadCellValue(cell, shared).Failure?
  }

  /** The text of a column is that of the last cell naming it, stripped. */
  lemma {:induction false} RowCellsLastWins(cells: seq<Cell>, shared: seq<string>, k: int, col: nat)
    requires RowCells(cells, shared).Success?
    requires 0 <= k < |cells| && InColumn(cells[k], col)
    requires forall j :: k < j < |cells| ==> !InColumn(cells[j], col)
    ensures ReadCellValue(cells[k], shared).Success?
    ensures col in RowCells(cells, shared).value
    ensures RowCells(cells, shared).value[col] == Strip(ReadCellValue(cells[k], shared).value)
    decreases |cells|
  {
    var prefix := cells[..|cells| - 1];
    var last := cells[|cells| - 1];
    RowCellsStep(cells, shared);
    var m := RowCells(prefix, shared).value;
    if k < |cells| - 1 {
      assert prefix[k] == cells[k];
      forall j | k < j < |prefix|
        ensures !InColumn(prefix[j], col)
      {
        assert prefix[j] == cells[j];
        assert !InColumn(cells[j], col);
      }
      assert InColumn(prefix[k], col);
      RowCellsLastWins(prefix, shared, k, col);
      assert !InColumn(cells[|cells| - 1], col);
      AddCellOther(m, last, shared, col);
    } else {
      AddCellSelf(m, last, shared, col);
    }
  }

  /** A cell leaves every column but its own as it was. */
  lemma AddCellOther(m: map<nat, string>, cell: Cell, shared: seq<string>, col: nat)
    requires AddCell(m, cell, shared).Success?
    requires RefColumn(cell.reference) != Some(col)
    ensures col in AddCell(m, cell, shared).value <==> col in m
    ensures col in m ==> AddCell(m, cell, shared).value[col] == m[col]
  {
  }

  /** A cell stores its stripped text under its own column. */
  lemma AddCellSelf(m: map<nat, string>, cell: Cell, shared: seq<string>, col: nat)
    requires AddCell(m, cell, shared).Success?
    requires RefColumn(cell.reference) == Some(col)
    ensures ReadCellValue(cell, shared).Success?
    ensures col in AddCell(m, cell, shared).value
    ensures AddCell(m, cell, shared).value[col] == Strip(ReadCellValue(cell, shared).value)
  {
  }

  /** Cells without a usable reference play no part: dropping them changes nothing. */
  lemma RowCellsSkipsUnmatched(cells: seq<Cell>, cell: Cell, shared: seq<string>)
    requires RefColumn(cell.reference).None?
    ensures RowCells(cells + [cell], shared) == RowCells(cells, shared)
  {
    assert (cells + [cell])[..|cells|] == cells;
  }

  function CellAt(cells: map<nat, string>, col: nat): string {
    if col in cells then cells[col] else ""
  }

  /** The largest element of a non-empty finite set. */
  lemma {:induction false} MaxExists(s: set<nat>)
    requires s != {}
    ensures exists m :: m in s && forall x :: x in s ==> x <= m
    decreases |s|
  {
    var x :| x in s;
    if s != {x} {
      MaxExists(s - {x});
      var m :| m in s - {x} && forall y :: y in s - {x} ==> y <= m;
      var top := if x > m then x else m;
      forall y | y in s
        ensures y <= top
      {
        if y != x {
          assert y in s - {x};
        }
      }
      assert top in s;
    } else {
      assert forall y :: y in s ==> y <= x;
      assert x in s;
    }
  }

  /** The elements of a finite set in ascending order: `sorted(cells)`. */
  function Ascending(s: set<nat>): (ks: seq<nat>)
    ensures forall x :: x in s <==> x in ks
    ensures forall i, j :: 0 <= i < j < |ks| ==> ks[i] < ks[j]
    decreases |s|
  {
    if s == {} then []
    else
      MaxExists(s);
      var m :| m in s && forall x :: x in s ==> x <= m;
      var rest := Ascending(s - {m});
      AppendMax(s, m, rest);
      rest + [m]
  }

  /** The ascending elements of a set without its maximum, followed by the
      maximum, are the ascending elements of the set. */
  lemma AppendMax(s: set<nat>, m: nat, rest: seq<nat>)
    requires m in s && forall x :: x in s ==> x <= m
    requires forall x :: x in s - {m} <==> x in rest
    requires forall i, j :: 0 <= i < j < |rest| ==> rest[i] < rest[j]
    ensures forall x :: x in s <==> x in rest + [m]
    ensures forall i, j :: 0 <= i < j < |rest| + 1 ==> (rest + [m])[i] < (rest + [m])[j]
  {
    var ks := rest + [m];
    forall x
      ensures x in s <==> x in ks
    {
      assert x in ks <==> x in rest || x == m;
    }
    forall i | 0 <= i < |rest|
      ensures ks[i] == rest[i] && rest[i] < m
    {
      assert rest[i] in s - {m};
    }
  }

  /** The columns whose header name is non-empty, left to right. */
  function NamedColumns(header: map<nat, string>): (cols: seq<nat>)
    ensures forall i :: i in cols <==> i in header && header[i] != ""
    ensures forall i, j :: 0 <= i < j < |cols| ==> cols[i] < cols[j]
  {
    Ascending(set i | i in header && header[i] != "")
  }

  /** `(header[idx], cells.get(idx, "").strip())` for each named column. */
  function NamedPairs(header: map<nat, string>, cells: map<nat, string>): (ps: Dict)
    ensures |ps| == |NamedColumns(header)|
    ensures forall j :: 0 <= j < |ps| ==>
              ps[j] == (header[NamedColumns(header)[j]], Strip(CellAt(cells, NamedColumns(header)[j])))
  {
    var cols := NamedColumns(header);
    seq(|cols|, j requires 0 <= j < |cols| => (header[cols[j]], Strip(CellAt(cells, cols[j]))))
  }

  /**
   * One data row: the dict comprehension over the header map in ascending
   * column order. A header name that occurs in several columns keeps the
   * position of its leftmost column and the text of its rightmost one.
   */
  function Project(header: map<nat, string>, cells: map<nat, string>): (r: Dict)
    ensures DistinctKeys(r)
  {
    FromPairs(NamedPairs(header, cells))
  }

  /** A data row has exactly the non-empty header names as keys. */
  lemma ProjectKeys(header: map<nat, string>, cells: map<nat, string>, h: string)
    ensures h in Keys(Project(header, cells)) <==> h != "" && exists i :: i in header && header[i] == h
  {
    var cols := NamedColumns(header);
    var ps := NamedPairs(header, cells);
    FromPairsKeys(ps, h);
    if exists j :: 0 <= j < |ps| && ps[j].0 == h {
      var j :| 0 <= j < |ps| && ps[j].0 == h;
      assert cols[j] in cols;
      assert header[cols[j]] == h;
    }
    if h != "" && exists i :: i in header && header[i] == h {
      var i :| i in header && header[i] == h;
      assert i in cols;
      var j :| 0 <= j < |cols| && cols[j] == i;
      assert ps[j].0 == h;
    }
  }

  /** The value under a header name is the text of the rightmost column with
      that name, or `""` when the row has no cell there. */
  lemma ProjectValue(header: map<nat, string>, cells: map<nat, string>, i: nat)
    requires i in header && header[i] != ""
    requires forall j :: j in header && header[j] == header[i] ==> j <= i
    ensures Get(Project(header, cells), header[i]) == Some(Strip(CellAt(cells, i)))
  {
    var cols := NamedColumns(header);
    assert i in cols;
    var t :| 0 <= t < |cols| && cols[t] == i;
    LaterPairsDiffer(header, cells, i, t);
    FromPairsLastWins(NamedPairs(header, cells), t);
  }

  lemma LaterPairsDiffer(header: map<nat, string>, cells: map<nat, string>, i: nat, t: int)
    requires i in header && header[i] != ""
    requires forall j :: j in header && header[j] == header[i] ==> j <= i
    requires 0 <= t < |NamedColumns(header)| && NamedColumns(header)[t] == i
    ensures NamedPairs(header, cells)[t] == (header[i], Strip(CellAt(cells, i)))
    ensures forall u :: t < u < |NamedPairs(header, cells)| ==> NamedPairs(header, cells)[u].0 != header[i]
  {
    var cols := NamedColumns(header);
    var ps := NamedPairs(header, cells);
    LaterNamesDiffer(header, i, t);
    forall u | t < u < |ps|
      ensures ps[u].0 != header[i]
    {
      assert ps[u].0 == header[cols[u]];
    }
  }

  lemma LaterNamesDiffer(header: map<nat, string>, i: nat, t: int)
    requires i in header && header[i] != ""
    requires forall j :: j in header && header[j] == header[i] ==> j <= i
    requires 0 <= t < |NamedColumns(header)| && NamedColumns(header)[t] == i
    ensures forall u :: t < u < |NamedColumns(header)| ==> header[NamedColumns(header)[u]] != header[i]
  {
    var cols := NamedColumns(header);
    forall u | t < u < |cols|
      ensures header[cols[u]] != header[i]
    {
      assert cols[u] in cols;
    }
  }

  /** Columns outside the header map are ignored: only the header's columns
      of a row matter. */
  lemma ProjectIgnoresOtherColumns(header: map<nat, string>, cells: map<nat, string>, other: map<nat, string>)
    requires forall i :: i in header ==> CellAt(cells, i) == CellAt(other, i)
    ensures Project(header, cells) == Project(header, other)
  {
    var cols := NamedColumns(header);
    forall j | 0 <= j < |cols|
      ensures NamedPairs(header, cells)[j] == NamedPairs(header, other)[j]
    {
      assert cols[j] in cols;
    }
    assert NamedPairs(header, cells) == NamedPairs(header, other);
  }

  // ---------------------------------------------------------------------
  // The row loop of `iter_sheet_rows`

  /** A row with no matched cell: `if not cells: continue`. */
  predicate IsBlank(m: map<nat, string>) {
    m == map[]
  }

  /** Some column of the header carries a non-empty name. */
  predicate HasNames(header: map<nat, string>) {
    exists i :: i in header && header[i] != ""
  }

  /**
   * The generator loop, one `<row>` at a time, given the header fixed so far
   * (None until the first row with a matched cell). The rows it yields, or
   * the error of the first row whose reading raises.
   */
  function Scan(rows: seq<seq<Cell>>, header: Option<map<nat, string>>, shared: seq<string>): Result<seq<Dict>, SheetError>
    decreases |rows|
  {
    if rows == [] then Success([])
    else
      var cells :- RowCells(rows[0], shared);
      if IsBlank(cells) then Scan(rows[1..], header, shared)
      else if header.None? then Scan(rows[1..], Some(cells), shared)
      else
        var row := Project(header.value, cells);
        var rest :- Scan(rows[1..], header, shared);
        Success(if row == [] then rest else [row] + rest)
  }

  /** `iter_sheet_rows` on the first worksheet: None stands for a sheet with
      no `sheetData` element, which yields nothing. */
  function SheetRows(sheetData: Option<seq<seq<Cell>>>, shared: seq<string>): Result<seq<Dict>, SheetError> {
    match sheetData
    case None => Success([])
    case Some(rows) => Scan(rows, None, shared)
  }

  // Reference definition: read every row, drop the blank ones, take the
  // first as header, project the others.

  /** Every row's cell map in order, or the first row's error. */
  function DecodeRows(rows: seq<seq<Cell>>, shared: seq<string>): (r: Result<seq<map<nat, string>>, SheetError>)
    ensures r.Success? ==> |r.value| == |rows|
    ensures r.Success? ==> forall j :: 0 <= j < |rows| ==> RowCells(rows[j], shared) == Success(r.value[j])
    decreases |rows|
  {
    if rows == [] then Success([])
    else
      var m :- RowCells(rows[0], shared);
      var rest :- DecodeRows(rows[1..], shared);
      Success([m] + rest)
  }

  function NonBlank(ms: seq<map<nat, string>>): (r: seq<map<nat, string>>)
    ensures |r| <= |ms|
    ensures forall j :: 0 <= j < |r| ==> !IsBlank(r[j])
  {
    if ms == [] then []
    else if IsBlank(ms[0]) then NonBlank(ms[1..])
    else [ms[0]] + NonBlank(ms[1..])
  }

  /** Each map projected onto the header, when the header names anything. */
  function ProjectAll(header: map<nat, string>, ms: seq<map<nat, string>>): (r: seq<Dict>)
    ensures |r| == |ms|
  {
    if ms == [] then [] else [Project(header, ms[0])] + ProjectAll(header, ms[1..])
  }

  /** Entry `j` of the projections is the projection of map `j`. */
  lemma {:induction false} ProjectAllAt(header: map<nat, string>, ms: seq<map<nat, string>>, j: int)
    requires 0 <= j < |ms|
    ensures ProjectAll(header, ms)[j] == Project(header, ms[j])
    decreases j
  {
    if j > 0 {
      ProjectAllAt(header, ms[1..], j - 1);
    }
  }

  /** The rows a sheet yields, read off the decoded rows directly. */
  function ReferenceRows(rows: seq<seq<Cell>>, shared: seq<string>): Result<seq<Dict>, SheetError> {
    var ms :- DecodeRows(rows, shared);
    var filled := NonBlank(ms);
    if filled == [] || !HasNames(filled[0]) then Success([])
    else Success(ProjectAll(filled[0], filled[1..]))
  }

  /** A projection is empty exactly when the header names no column. */
  lemma ProjectEmpty(header: map<nat, string>, cells: map<nat, string>)
    ensures Project(header, cells) == [] <==> !HasNames(header)
  {
    if HasNames(header) {
      var i :| i in header && header[i] != "";
      ProjectKeys(header, cells, header[i]);
    } else if Project(header, cells) != [] {
      var d := Project(header, cells);
      ProjectKeys(header, cells, d[0].0);
    }
  }

  /** With the header fixed, the loop yields the projection of every later
      non-blank row, or nothing at all when the header names no column. */
  lemma {:induction false} ScanWithHeader(rows: seq<seq<Cell>>, header: map<nat, string>, shared: seq<string>)
    ensures Scan(rows, Some(header), shared) ==
              match DecodeRows(rows, shared)
              case Failure(e) => Failure(e)
              case Success(ms) => Success(if HasNames(header) then ProjectAll(header, NonBlank(ms)) else [])
    decreases |rows|
  {
    if rows != [] {
      ScanWithHeader(rows[1..], header, shared);
      match RowCells(rows[0], shared)
      case Failure(_) =>
      case Success(cells) =>
        ProjectEmpty(header, cells);
        match DecodeRows(rows[1..], shared)
        case Failure(_) =>
        case Success(rest) =>
          ProjectAllCons(header, cells, rest);
    }
  }

  lemma ProjectAllCons(header: map<nat, string>, m: map<nat, string>, rest: seq<map<nat, string>>)
    ensures ProjectAll(header, NonBlank([m] + rest)) ==
              (if IsBlank(m) then [] else [Project(header, m)]) + ProjectAll(header, NonBlank(rest))
  {
    assert ([m] + rest)[1..] == rest;
    if !IsBlank(m) {
      assert ([m] + NonBlank(rest))[1..] == NonBlank(rest);
    }
  }

  /** Before the header, the loop waits for the first non-blank row. */
  lemma {:induction false} ScanWithoutHeader(rows: seq<seq<Cell>>, shared: seq<string>)
    ensures Scan(rows, None, shared) == ReferenceRows(rows, shared)
    decreases |rows|
  {
    if rows != [] {
      match RowCells(rows[0], shared)
      case Failure(_) =>
      case Success(cells) =>
        if IsBlank(cells) {
          ScanWithoutHeader(rows[1..], shared);
          match DecodeRows(rows[1..], shared)
          case Failure(_) =>
          case Success(rest) =>
            assert ([cells] + rest)[1..] == rest;
        } else {
          ScanWithHeader(rows[1..], cells, shared);
          match DecodeRows(rows[1..], shared)
          case Failure(_) =>
          case Success(rest) =>
            assert ([cells] + rest)[1..] == rest;
        }
    }
  }

  /** The row loop yields exactly the reference rows. */
  lemma SheetRowsReference(rows: seq<seq<Cell>>, shared: seq<string>)
    ensures SheetRows(Some(rows), shared) == ReferenceRows(rows, shared)
  {
    ScanWithoutHeader(rows, shared);
  }

  /** Reading the sheet fails exactly when some row has a matched cell whose
      reading raises; rows after the header are all read too. */
  lemma SheetRowsFailure(rows: seq<seq<Cell>>, shared: seq<string>)
    ensures SheetRows(Some(rows), shared).Failure? <==>
              exists r, k :: 0 <= r < |rows| && 0 <= k < |rows[r]| && Unreadable(rows[r][k], shared)
  {
    SheetRowsReference(rows, shared);
    DecodeRowsFailure(rows, shared);
    if exists r :: 0 <= r < |rows| && RowCells(rows[r], shared).Failure? {
      var r :| 0 <= r < |rows| && RowCells(rows[r], shared).Failure?;
      RowCellsFailure(rows[r], shared);
      var k :| 0 <= k < |rows[r]| && Unreadable(rows[r][k], shared);
    }
    if exists r, k :: 0 <= r < |rows| && 0 <= k < |rows[r]| && Unreadable(rows[r][k], shared) {
      var r, k :| 0 <= r < |rows| && 0 <= k < |rows[r]| && Unreadable(rows[r][k], shared);
      RowCellsFailure(rows[r], shared);
    }
  }

  lemma {:induction false} DecodeRowsFailure(rows: seq<seq<Cell>>, shared: seq<string>)
    ensures DecodeRows(rows, shared).Failure? <==> exists r :: 0 <= r < |rows| && RowCells(rows[r], shared).Failure?
    decreases |rows|
  {
    if rows != [] {
      DecodeRowsFailure(rows[1..], shared);
      if exists r :: 0 <= r < |rows| && RowCells(rows[r], shared).Failure? {
        var r :| 0 <= r < |rows| && RowCells(rows[r], shared).Failure?;
        if r > 0 {
          assert RowCells(rows[1..][r - 1], shared).Failure?;
        }
      }
      if exists r :: 0 <= r < |rows| - 1 && RowCells(rows[1..][r], shared).Failure? {
        var r :| 0 <= r < |rows| - 1 && RowCells(rows[1..][r], shared).Failure?;
        assert RowCells(rows[r + 1], shared).Failure?;
      }
    }
  }

  /** Every yielded row is non-empty, has distinct keys, and has the same
      keys in the same order as every other yielded row. */
  lemma SheetRowsShape(rows: seq<seq<Cell>>, shared: seq<string>)
    requires SheetRows(Some(rows), shared).Success?
    ensures forall j :: 0 <= j < |SheetRows(Some(rows), shared).value| ==>
              SheetRows(Some(rows), shared).value[j] != [] && DistinctKeys(SheetRows(Some(rows), shared).value[j])
    ensures forall j :: 0 <= j < |SheetRows(Some(rows), shared).value| ==>
              Keys(SheetRows(Some(rows), shared).value[j]) == Keys(SheetRows(Some(rows), shared).value[0])
  {
    SheetRowsReference(rows, shared);
    var ms := DecodeRows(rows, shared).value;
    var filled := NonBlank(ms);
    if filled != [] && HasNames(filled[0]) {
      var out := ProjectAll(filled[0], filled[1..]);
      forall j | 0 <= j < |out|
        ensures out[j] != [] && Keys(out[j]) == Keys(out[0])
      {
        ProjectAllAt(filled[0], filled[1..], j);
        ProjectAllAt(filled[0], filled[1..], 0);
        ProjectEmpty(filled[0], filled[1..][j]);
        ProjectKeyOrder(filled[0], filled[1..][j], filled[1..][0]);
      }
    }
  }

  /** The key order of a projection depends on the header alone. */
  lemma ProjectKeyOrder(header: map<nat, string>, cells: map<nat, string>, other: map<nat, string>)
    ensures Keys(Project(header, cells)) == Keys(Project(header, other))
  {
    assert Keys(NamedPairs(header, cells)) == Keys(NamedPairs(header, other));
  }

  /** The number of yielded rows: one per non-blank row after the header,
      or none at all when the header names no column. */
  lemma SheetRowsCount(rows: seq<seq<Cell>>, shared: seq<string>)
    requires DecodeRows(rows, shared).Success?
    ensures SheetRows(Some(rows), shared).Success?
    ensures var filled := NonBlank(DecodeRows(rows, shared).value);
            |SheetRows(Some(rows), shared).value| ==
              if filled != [] && HasNames(filled[0]) then |filled| - 1 else 0
  {
    SheetRowsReference(rows, shared);
  }

  /** A row with no cell the loop matches reads as the empty map. */
  lemma {:induction false} RowCellsUnmatched(cells: seq<Cell>, shared: seq<string>)
    requires forall k :: 0 <= k < |cells| ==> RefColumn(cells[k].reference).None?
    ensures RowCells(cells, shared) == Success(map[])
    decreases |cells|
  {
    if cells != [] {
      RowCellsUnmatched(cells[..|cells| - 1], shared);
    }
  }

  /** Inserting a row without matched cells anywhere changes nothing. */
  lemma {:induction false} ScanSkipsBlankRow(rows: seq<seq<Cell>>, i: int, blank: seq<Cell>, header: Option<map<nat, string>>, shared: seq<string>)
    requires 0 <= i <= |rows|
    requires forall k :: 0 <= k < |blank| ==> RefColumn(blank[k].reference).None?
    ensures Scan(rows[..i] + [blank] + rows[i..], header, shared) == Scan(rows, header, shared)
    decreases i
  {
    var longer := rows[..i] + [blank] + rows[i..];
    RowCellsUnmatched(blank, shared);
    if i == 0 {
      assert longer[1..] == rows;
    } else {
      assert longer[0] == rows[0];
      assert longer[1..] == rows[1..][..i - 1] + [blank] + rows[1..][i - 1..];
      match RowCells(rows[0], shared)
      case Failure(_) =>
      case Success(cells) =>
        if IsBlank(cells) {
          ScanSkipsBlankRow(rows[1..], i - 1, blank, header, shared);
        } else if header.None? {
          ScanSkipsBlankRow(rows[1..], i - 1, blank, Some(cells), shared);
        } else {
          ScanSkipsBlankRow(rows[1..], i - 1, blank, header, shared);
        }
    }
  }

  lemma SheetRowsSkipsBlankRow(rows: seq<seq<Cell>>, i: int, blank: seq<Cell>, shared: seq<string>)
    requires 0 <= i <= |rows|
    requires forall k :: 0 <= k < |blank| ==> RefColumn(blank[k].reference).None?
    ensures SheetRows(Some(rows[..i] + [blank] + rows[i..]), shared) == SheetRows(Some(rows), shared)
  {
    ScanSkipsBlankRow(rows, i, blank, None, shared);
  }
}
