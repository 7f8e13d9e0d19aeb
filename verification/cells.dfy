/**
 * One `<c>` element of a worksheet, reduced to the parts `read_cell_value`
 * looks at, and the value it reads from it. The cell types are the
 * SpreadsheetML ones of ECMA-376 Part 1 (section 18.18.11, ST_CellType):
 * `s` (shared string), `inlineStr`, `b` (boolean) and everything else.
 */
module Cells {
  import opened Wrappers
  import opened Text
  import Numerals

  /**
   * `reference` is the `r` attribute, `cellType` the `t` attribute,
   * `valueText` the text of the `<v>` child (None when the child is missing
   * or has no text), `inlineRuns` the text pieces under `<is>` in document
   * order (None when there is no `<is>`), `plainText` the text of a direct
   * `<t>` child.
   */
  datatype Cell = Cell(
    reference: Option<string>,
    cellType: Option<string>,
    valueText: Option<string>,
    inlineRuns: Option<seq<string>>,
    plainText: Option<string>)

  /** The ValueError `int()` raises on the index text of a shared-string cell. */
  datatype SheetError = NotAnInteger(text: string)

  function Concat(pieces: seq<string>): string {
    if pieces == [] then [] else Concat(pieces[..|pieces| - 1]) + pieces[|pieces| - 1]
  }

  /** The shared string at `index`, or `""` when the index is outside the table. */
  function SharedAt(shared: seq<string>, index: int): (r: string)
    ensures 0 <= index < |shared| ==> r == shared[index]
    ensures index < 0 || index >= |shared| ==> r == ""
  {
    if 0 <= index < |shared| then shared[index] else ""
  }

  /** `read_cell_value`: the text a cell stands for. */
  function ReadCellValue(cell: Cell, shared: seq<string>): (r: Result<string, SheetError>)
    // Only a shared-string cell whose index text is not an integer fails.
    ensures r.Failure? <==> cell.cellType == Some("s") && cell.valueText.Some?
                            && Numerals.ParseInt(cell.valueText.value).None?
    ensures r.Failure? ==> r.error == NotAnInteger(cell.valueText.value)
    // Shared strings: a missing value or an index outside the table reads as "".
    ensures cell.cellType == Some("s") && cell.valueText.None? ==> r == Success("")
    ensures cell.cellType == Some("s") && r.Success? && r.value != "" ==>
              exists i :: 0 <= i < |shared| && shared[i] == r.value
    // ... namely the entry at the index `int()` reads from the value text.
    ensures cell.cellType == Some("s") && cell.valueText.Some?
            && Numerals.ParseInt(cell.valueText.value).Some? ==>
              r == Success(SharedAt(shared, Numerals.ParseInt(cell.valueText.value).value))
    // Booleans: "TRUE" exactly when the value text is "1".
    ensures cell.cellType == Some("b") ==> r.Success? && (r.value == "TRUE" || r.value == "FALSE")
    ensures cell.cellType == Some("b") ==> (r == Success("TRUE") <==> cell.valueText == Some("1"))
    // Inline strings: all text pieces joined; no `<is>` reads as "".
    ensures cell.cellType == Some("inlineStr") ==>
              r == Success(if cell.inlineRuns.Some? then Concat(cell.inlineRuns.value) else "")
    // Any other type: the value text, else the plain text, else "".
    ensures cell.cellType !in {Some("s"), Some("inlineStr"), Some("b")} ==>
              r == Success(cell.valueText.GetOr(cell.plainText.GetOr("")))
  {
    if cell.cellType == Some("s") then
      match cell.valueText
      case None => Success("")
      case Some(text) =>
        match Numerals.ParseInt(text)
        case None => Failure(NotAnInteger(text))
        case Some(index) => Success(SharedAt(shared, index))
    else if cell.cellType == Some("inlineStr") then
      match cell.inlineRuns
      case None => Success("")
      case Some(pieces) => Success(Concat(pieces))
    else if cell.cellType == Some("b") then
      Success(if cell.valueText == Some("1") then "TRUE" else "FALSE")
    else
      match cell.valueText
      case Some(text) => Success(text)
      case None => Success(cell.plainText.GetOr(""))
  }

  /** A shared-string cell whose value text `int()` reads as `i` reads
      entry `i` of the table when `i` is in range, and `""` otherwise. */
  lemma SharedStringLookup(cell: Cell, shared: seq<string>, i: int)
    requires cell.cellType == Some("s") && cell.valueText.Some?
    requires Numerals.ParseInt(cell.valueText.value) == Some(i)
    ensures 0 <= i < |shared| ==> ReadCellValue(cell, shared) == Success(shared[i])
    ensures (i < 0 || i >= |shared|) ==> ReadCellValue(cell, shared) == Success("")
  {
  }
}
