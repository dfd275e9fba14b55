/** A row of the waiver export after the CSV reader has produced it: each cell is
    a missing value, a string, or some other scalar. */
module Records {

  /** One cell of the loaded table. `Missing` is what `pd.isna` recognises (the
      reader's NaN); `Other` is a non-string scalar, kept only through what the
      program observes of it: its `str()` rendering and its truthiness. */
  datatype Cell = Missing | Text(s: string) | Other(repr: string, truthy: bool)

  /** Python's `str()` / f-string rendering of a cell; the reader's NaN prints as "nan". */
  function Str(c: Cell): string {
    match c
    case Missing => "nan"
    case Text(s) => s
    case Other(r, _) => r
  }

  /** Python's `bool()` of a cell: NaN is truthy, the empty string is not. */
  predicate CellTruthy(c: Cell) {
    match c
    case Missing => true
    case Text(s) => s != ""
    case Other(_, t) => t
  }

  /** The four columns the program reads: 'Waiver Id', 'Scope Type', 'Scope Id',
      'Expiration Date'. */
  datatype WaiverRecord = WaiverRecord(waiverId: Cell, scopeType: Cell, scopeId: Cell, expiration: Cell)
}
