/** The per-row readers of `transformRow`: the row itself, the
    column-aware getter `getRowVal`, the direct scalar and array fields,
    and the entity type the identity numbers depend on. */
module RowFields {
  import opened JsStrings
  import opened JsValues
  import opened JsObjects

  /** One spreadsheet row: its headers in column order, and the cell under
      each header. */
  datatype Row = Row(keys: seq<string>, cells: map<string, JsValue>)

  /** `row[c]`: a header the row does not have reads as undefined. */
  function Cell(row: Row, c: string): JsValue {
    if c in row.cells then row.cells[c] else Null
  }

  /** Every cell is a value the spreadsheet decoder produces. */
  predicate IsSheetRow(row: Row) {
    forall c :: c in row.cells ==> IsSheetCell(row.cells[c])
  }

  lemma SheetRowCell(row: Row, c: string)
    requires IsSheetRow(row)
    ensures IsSheetCell(Cell(row, c))
  {
  }

  /** Identifier-like headers whose cells are always read as trimmed text and
      never as dates. Two of them end in a tab, which is part of the header. */
  const NeverDateColumns: set<string> := {
    "profileId", "National Tax No.", "Duns Number", "Legal Entity Identifier (LEI)",
    "National ID", "Driving Licence No.\t", "Social Security No.", "Passport No.\t"
  }

  /** `getRowVal(c)`: null for an empty cell; the trimmed text of the cell
      in a never-date column; the date part of a Date; the raw cell
      otherwise. It is null exactly when the cell is empty, and it is never
      a Date. */
  function GetRowVal(row: Row, c: string): (v: JsValue)
    ensures v.Null? <==> IsEmpty(Cell(row, c))
    ensures !v.Date?
    ensures c in NeverDateColumns ==> v.Null? || (v.Str? && IsTrimmed(v.s))
  {
    var cell := Cell(row, c);
    if IsEmpty(cell) then Null
    else if c in NeverDateColumns then Str(Trim(JsString(cell)))
    else if cell.Date? then Str(cell.ymd)
    else cell
  }

  /** What the getter reads from a non-empty cell: the trimmed text of the
      cell in a never-date column, else the date part of a Date, else the
      cell itself. */
  lemma GetRowValReads(row: Row, c: string)
    ensures IsEmpty(Cell(row, c)) ==> GetRowVal(row, c) == Null
    ensures !IsEmpty(Cell(row, c)) && c in NeverDateColumns ==> GetRowVal(row, c) == Str(Trim(JsString(Cell(row, c))))
    ensures !IsEmpty(Cell(row, c)) && c !in NeverDateColumns && Cell(row, c).Date? ==> GetRowVal(row, c) == Str(Cell(row, c).ymd)
    ensures !IsEmpty(Cell(row, c)) && c !in NeverDateColumns && !Cell(row, c).Date? ==> GetRowVal(row, c) == Cell(row, c)
  {
  }

  /** On a spreadsheet row the getter does not change emptiness, and what
      it returns for a non-empty cell satisfies the sparsity invariant. */
  lemma GetRowValOnSheet(row: Row, c: string)
    requires IsSheetRow(row)
    ensures IsEmpty(GetRowVal(row, c)) <==> IsEmpty(Cell(row, c))
    ensures !IsEmpty(Cell(row, c)) ==> Sparse(GetRowVal(row, c)) && Settable(GetRowVal(row, c))
  {
    var cell := Cell(row, c);
    SheetRowCell(row, c);
    if !IsEmpty(cell) {
      if c in NeverDateColumns {
        SheetCellString(cell);
        BlankOrNanIgnoresPaddingAndCase(JsString(cell));
        NotBlankIsNonEmpty(Trim(JsString(cell)));
      } else if cell.Str? {
        NotBlankIsNonEmpty(cell.s);
      } else if cell.Date? {
        NotBlankIsNonEmpty(cell.ymd);
      }
    }
  }

  /** The columns copied as they are, in the order they are written. */
  const ScalarColumns: seq<string> := [
    "type", "profileId", "action", "activeStatus", "name", "suffix",
    "gender", "profileNotes", "lastModifiedDate"
  ]

  /** The columns read as lists through `cleanAndSplit`. */
  const ArrayColumns: seq<string> := [
    "countryOfRegistrationCode", "countryOfAffiliationCode",
    "formerlySanctionedRegionCode", "sanctionedRegionCode",
    "enhancedRiskCountryCode", "dateOfRegistrationArray",
    "dateOfBirthArray", "residentOfCode", "citizenshipCode",
    "sources", "companyUrls"
  ]

  /** The scalar fields `addIfNotEmpty(o, f, getRowVal(f))` writes for the columns `cols`. */
  function ScalarFields(row: Row, cols: seq<string>): (m: map<string, JsValue>)
    ensures forall c :: c in m ==> c in cols && m[c] == GetRowVal(row, c)
  {
    map c | c in cols && Settable(GetRowVal(row, c)) :: GetRowVal(row, c)
  }

  /** The list fields `addIfNotEmpty(o, f, cleanAndSplit(row[f]))` writes for the columns `cols`. */
  function ArrayFields(row: Row, cols: seq<string>, host: DateParser): (m: map<string, JsValue>)
    ensures forall c :: c in m ==> c in cols && m[c] == Arr(CleanAndSplit(Cell(row, c), host))
  {
    map c | c in cols && Settable(Arr(CleanAndSplit(Cell(row, c), host))) :: Arr(CleanAndSplit(Cell(row, c), host))
  }

  /** On a spreadsheet row a scalar field is present exactly when its cell
      is not empty, and then it is sparse. */
  lemma ScalarFieldsOnSheet(row: Row, cols: seq<string>, c: string)
    requires IsSheetRow(row)
    ensures c in ScalarFields(row, cols) <==> c in cols && !IsEmpty(Cell(row, c))
    ensures c in ScalarFields(row, cols) ==> Sparse(ScalarFields(row, cols)[c])
  {
    GetRowValOnSheet(row, c);
  }

  /** On a spreadsheet row a list field, when present, is a non-empty list
      of sparse values. */
  lemma ArrayFieldsOnSheet(row: Row, cols: seq<string>, host: DateParser, c: string)
    requires IsSheetRow(row)
    requires c in ArrayFields(row, cols, host)
    ensures Sparse(ArrayFields(row, cols, host)[c])
  {
    SheetRowCell(row, c);
    var items := CleanAndSplit(Cell(row, c), host);
    forall i | 0 <= i < |items| ensures Sparse(items[i]) {
      assert Settable(items[i]) && !items[i].Date?;
    }
  }

  /** One more column in the loop over scalar columns is one more `addIfNotEmpty`. */
  lemma ScalarFieldsStep(row: Row, cols: seq<string>, k: nat)
    requires k < |cols|
    ensures ScalarFields(row, cols[..k + 1])
         == SetIfNotEmpty(ScalarFields(row, cols[..k]), cols[k], GetRowVal(row, cols[k]))
  {
    assert forall c :: c in cols[..k + 1] <==> c in cols[..k] || c == cols[k];
  }

  /** One more column in the loop over list columns is one more `addIfNotEmpty`. */
  lemma ArrayFieldsStep(row: Row, cols: seq<string>, host: DateParser, k: nat)
    requires k < |cols|
    ensures ArrayFields(row, cols[..k + 1], host)
         == SetIfNotEmpty(ArrayFields(row, cols[..k], host), cols[k], Arr(CleanAndSplit(Cell(row, cols[k]), host)))
  {
    var f := (c: string) => Arr(CleanAndSplit(Cell(row, c), host));
    assert ArrayFields(row, cols[..k + 1], host) == map c | c in cols[..k + 1] && Settable(f(c)) :: f(c);
    assert ArrayFields(row, cols[..k], host) == map c | c in cols[..k] && Settable(f(c)) :: f(c);
    SettableMapStep(cols, k, f);
  }

  /** The map of the settable values `f(c)` over one more column is one
      more `addIfNotEmpty`. */
  lemma SettableMapStep(cols: seq<string>, k: nat, f: string -> JsValue)
    requires k < |cols|
    ensures (map c | c in cols[..k + 1] && Settable(f(c)) :: f(c))
         == SetIfNotEmpty(map c | c in cols[..k] && Settable(f(c)) :: f(c), cols[k], f(cols[k]))
  {
    assert forall c :: c in cols[..k + 1] <==> c in cols[..k] || c == cols[k];
  }

  /** `String(o.type || "").toUpperCase()` */
  function TypeTag(o: map<string, JsValue>): string {
    var t := if "type" in o then o["type"] else Null;
    Upper(if Truthy(t) then JsString(t) else "")
  }

  /** A record's type tag depends only on its "type" field. */
  lemma TypeTagOnlyReadsType(o: map<string, JsValue>, o': map<string, JsValue>)
    requires ("type" in o <==> "type" in o') && ("type" in o ==> o["type"] == o'["type"])
    ensures TypeTag(o) == TypeTag(o')
  {
  }

  /** The tag is case-insensitive in the letters, so "person" tags a PERSON. */
  lemma TypeTagExamples()
    ensures TypeTag(map["type" := Str("person")]) == "PERSON"
    ensures TypeTag(map["type" := Str("Company")]) == "COMPANY"
    ensures TypeTag(map[]) == ""
  {
    assert Upper("person") == "PERSON";
    assert Upper("Company") == "COMPANY";
  }
}
