/** The address block of `transformRow`: up to five text fields read
    straight from the row, wrapped as a one-element `addresses` list when
    at least one is present. */
module Address {
  import opened JsStrings
  import opened JsValues
  import opened RowFields

  const AddressKeys: set<string> := {"line", "city", "province", "postCode", "countryCode"}

  /** `s` ends in the two characters `.0`. */
  predicate EndsWithDotZero(s: string) {
    |s| >= 2 && s[|s| - 2] == '.' && s[|s| - 1] == '0'
  }

  /** `s.replace(/\.0$/, "")`: one trailing `.0` removed, nothing else. */
  function StripTrailingDotZero(s: string): (r: string)
    ensures EndsWithDotZero(s) ==> r + ".0" == s
    ensures !EndsWithDotZero(s) ==> r == s
  {
    if EndsWithDotZero(s) then s[..|s| - 2] else s
  }

  /** The stripping undoes one appended `.0`, and only one. */
  lemma StripUndoesDotZero(p: string)
    ensures StripTrailingDotZero(p + ".0") == p
    ensures StripTrailingDotZero(p + ".0.0") == p + ".0"
  {
    assert (p + ".0")[..|p|] == p;
    assert (p + ".0.0")[..|p| + 2] == p + ".0";
  }

  /** A numeric post code read back as text loses its decimal artifact. */
  lemma StripExample()
    ensures StripTrailingDotZero("10001.0") == "10001"
    ensures StripTrailingDotZero("SW1A 1AA") == "SW1A 1AA"
  {
    StripUndoesDotZero("10001");
    assert "10001" + ".0" == "10001.0";
  }

  /** `s.toUpperCase().slice(0, 2)`: at most two characters, the first
      ones of `s` upper-cased; no ASCII lower-case letter survives. */
  function CountryCode(s: string): (r: string)
    ensures |r| == if |s| < 2 then |s| else 2
    ensures forall i :: 0 <= i < |r| ==> r[i] == UpperChar(s[i])
    ensures forall i :: 0 <= i < |r| ==> !('a' <= r[i] <= 'z')
  {
    var u := Upper(s);
    if |u| < 2 then u else u[..2]
  }

  lemma CountryCodeExamples()
    ensures CountryCode("usa") == "US"
    ensures CountryCode("gb") == "GB"
    ensures CountryCode("d") == "D"
  {
  }

  /** Upper-casing the two-letter code of an already upper-cased code changes nothing. */
  lemma CountryCodeIdempotent(s: string)
    ensures CountryCode(CountryCode(s)) == CountryCode(s)
  {
  }

  /** The address fields in the order the code writes them. */
  const AddressOrder: seq<string> := ["line", "city", "province", "postCode", "countryCode"]

  /** The column each address field is read from. */
  function AddressColumn(key: string): string {
    if key == "line" then "Address Line" else key
  }

  /** The text written for a field: `String(cell)`, with the trailing `.0`
      stripped from a post code and a country code upper-cased and cut to
      two characters. */
  function FieldText(row: Row, key: string): string {
    var text := JsString(Cell(row, AddressColumn(key)));
    if key == "postCode" then StripTrailingDotZero(text)
    else if key == "countryCode" then CountryCode(text)
    else text
  }

  /** The code's test for writing a field: its cell is not empty. */
  predicate WrittenAsIs(row: Row, key: string) {
    !IsEmpty(Cell(row, AddressColumn(key)))
  }

  /** The corrected test: in addition, a post code must not be the empty
      string once its trailing `.0` is stripped. */
  predicate Written(row: Row, key: string) {
    WrittenAsIs(row, key) && (key == "postCode" ==> FieldText(row, key) != "")
  }

  /** The fields among `keys` the code writes. */
  function AddressAsWrittenOver(row: Row, keys: seq<string>): (a: map<string, JsValue>)
    ensures forall k :: k in a <==> k in keys && WrittenAsIs(row, k)
    ensures forall k :: k in a ==> a[k] == Str(FieldText(row, k))
  {
    map k | k in keys && WrittenAsIs(row, k) :: Str(FieldText(row, k))
  }

  /** The fields among `keys` the corrected code writes. */
  function AddressOver(row: Row, keys: seq<string>): (a: map<string, JsValue>)
    ensures forall k :: k in a <==> k in keys && Written(row, k)
    ensures forall k :: k in a ==> a[k] == Str(FieldText(row, k))
  {
    map k | k in keys && Written(row, k) :: Str(FieldText(row, k))
  }

  /** The address exactly as the code builds it: a post code whose text is
      `.0` is written as the empty string, `nan.0` as `nan`. */
  function AddressAsWritten(row: Row): map<string, JsValue> {
    AddressAsWrittenOver(row, AddressOrder)
  }

  /** The address with the post code kept only when its stripped text is
      not the empty string, so that no field is ever an empty string. */
  function AddressOf(row: Row): map<string, JsValue> {
    AddressOver(row, AddressOrder)
  }

  /** One more field written is one more conditional assignment. */
  lemma AddressAsWrittenOverStep(row: Row, k: nat)
    requires k < |AddressOrder|
    ensures AddressAsWrittenOver(row, AddressOrder[..k + 1])
         == if WrittenAsIs(row, AddressOrder[k])
            then AddressAsWrittenOver(row, AddressOrder[..k])[AddressOrder[k] := Str(FieldText(row, AddressOrder[k]))]
            else AddressAsWrittenOver(row, AddressOrder[..k])
  {
    assert forall c :: c in AddressOrder[..k + 1] <==> c in AddressOrder[..k] || c == AddressOrder[k];
  }

  /** The same step for the corrected builder. */
  lemma AddressOverStep(row: Row, k: nat)
    requires k < |AddressOrder|
    ensures AddressOver(row, AddressOrder[..k + 1])
         == if Written(row, AddressOrder[k])
            then AddressOver(row, AddressOrder[..k])[AddressOrder[k] := Str(FieldText(row, AddressOrder[k]))]
            else AddressOver(row, AddressOrder[..k])
  {
    assert forall c :: c in AddressOrder[..k + 1] <==> c in AddressOrder[..k] || c == AddressOrder[k];
  }

  /** Each field is present exactly when its cell is not empty (for the
      post code: when what is left after stripping is not `""` either),
      and nothing but the five address fields is ever written. */
  lemma AddressFields(row: Row)
    ensures forall k :: k in AddressOf(row) ==> k in AddressKeys
    ensures "line" in AddressOf(row) <==> !IsEmpty(Cell(row, "Address Line"))
    ensures "city" in AddressOf(row) <==> !IsEmpty(Cell(row, "city"))
    ensures "province" in AddressOf(row) <==> !IsEmpty(Cell(row, "province"))
    ensures "postCode" in AddressOf(row) <==>
      !IsEmpty(Cell(row, "postCode")) && StripTrailingDotZero(JsString(Cell(row, "postCode"))) != ""
    ensures "countryCode" in AddressOf(row) <==> !IsEmpty(Cell(row, "countryCode"))
    ensures "postCode" in AddressOf(row) ==>
      AddressOf(row)["postCode"] == Str(StripTrailingDotZero(JsString(Cell(row, "postCode"))))
    ensures "countryCode" in AddressOf(row) ==>
      AddressOf(row)["countryCode"] == Str(CountryCode(JsString(Cell(row, "countryCode"))))
  {
    assert forall k :: k in AddressOrder <==> k in AddressKeys;
  }

  /** The address has a field exactly when some field is written, both as
      the code builds it and corrected. */
  lemma AddressPresent(row: Row)
    ensures AddressAsWritten(row) != map[] <==> exists k :: k in AddressOrder && WrittenAsIs(row, k)
    ensures AddressOf(row) != map[] <==> exists k :: k in AddressOrder && Written(row, k)
  {
    if k :| k in AddressOrder && WrittenAsIs(row, k) {
      assert k in AddressAsWritten(row);
    }
    if k :| k in AddressOrder && Written(row, k) {
      assert k in AddressOf(row);
    }
  }

  /** On a spreadsheet row every address field is a non-empty string, so
      the wrapped address, when present, is sparse. */
  lemma AddressSparse(row: Row)
    requires IsSheetRow(row)
    ensures forall k :: k in AddressOf(row) ==> Sparse(AddressOf(row)[k])
    ensures AddressOf(row) != map[] ==> Sparse(Arr([Obj(AddressOf(row))]))
  {
    var a := AddressOf(row);
    forall k | k in a ensures Sparse(a[k]) {
      var cell := Cell(row, AddressColumn(k));
      if k != "postCode" {
        SheetRowCell(row, AddressColumn(k));
        SheetCellString(cell);
        NotBlankIsNonEmpty(JsString(cell));
      }
    }
  }

  /** The correction only touches the post code, and only when the stripped
      text is the empty string: then the code writes `""` and the corrected
      builder writes nothing. */
  lemma AddressCorrection(row: Row)
    ensures !WrittenAsIs(row, "postCode") || FieldText(row, "postCode") != "" ==> AddressOf(row) == AddressAsWritten(row)
    ensures WrittenAsIs(row, "postCode") && FieldText(row, "postCode") == "" ==>
      AddressAsWritten(row)["postCode"] == Str("") && "postCode" !in AddressOf(row)
    ensures forall k :: k != "postCode" ==>
      (k in AddressOf(row) <==> k in AddressAsWritten(row))
      && (k in AddressOf(row) ==> AddressOf(row)[k] == AddressAsWritten(row)[k])
  {
  }

  /** As the code builds it, the address is sparse on every spreadsheet row
      whose post code does not strip to the empty string. */
  lemma AddressAsWrittenSparse(row: Row)
    requires IsSheetRow(row)
    requires !WrittenAsIs(row, "postCode") || FieldText(row, "postCode") != ""
    ensures forall k :: k in AddressAsWritten(row) ==> Sparse(AddressAsWritten(row)[k])
    ensures AddressAsWritten(row) != map[] ==> Sparse(Arr([Obj(AddressAsWritten(row))]))
  {
    AddressCorrection(row);
    AddressSparse(row);
  }

  /** The row with a single post code cell holding `.0`. */
  function DotZeroRow(): Row {
    Row(["postCode"], map["postCode" := Str(".0")])
  }

  /** The text `.0` is neither blank nor `nan`. */
  lemma DotZeroNotBlank()
    ensures Lower(Trim(".0")) == ".0"
    ensures !IsBlankOrNan(".0")
  {
    TrimOfTrimmed(".0");
    assert Lower(".0") == ".0";
  }

  lemma DotZeroRowFields()
    ensures IsSheetRow(DotZeroRow())
    ensures WrittenAsIs(DotZeroRow(), "postCode") && FieldText(DotZeroRow(), "postCode") == ""
    ensures forall k :: k in AddressOrder && k != "postCode" ==> !WrittenAsIs(DotZeroRow(), k)
  {
    DotZeroPostCode();
    DotZeroOtherFields();
  }

  lemma DotZeroPostCode()
    ensures IsSheetRow(DotZeroRow())
    ensures WrittenAsIs(DotZeroRow(), "postCode") && FieldText(DotZeroRow(), "postCode") == ""
  {
    DotZeroSheet();
    DotZeroWritten();
    DotZeroStrip();
  }

  lemma DotZeroSheet()
    ensures IsSheetRow(DotZeroRow())
  {
    var row := DotZeroRow();
    forall c | c in row.cells ensures IsSheetCell(row.cells[c]) {
      assert row.cells[c] == Str(".0");
    }
  }

  lemma DotZeroWritten()
    ensures WrittenAsIs(DotZeroRow(), "postCode")
  {
    assert Cell(DotZeroRow(), "postCode") == Str(".0");
    DotZeroNotBlank();
  }

  lemma DotZeroStrip()
    ensures FieldText(DotZeroRow(), "postCode") == ""
  {
    assert Cell(DotZeroRow(), "postCode") == Str(".0");
    assert StripTrailingDotZero(".0") == "";
  }

  lemma DotZeroOtherFields()
    ensures forall k :: k in AddressOrder && k != "postCode" ==> !WrittenAsIs(DotZeroRow(), k)
  {
    var row := DotZeroRow();
    assert Cell(row, "Address Line") == Null;
    assert Cell(row, "city") == Null;
    assert Cell(row, "province") == Null;
    assert Cell(row, "countryCode") == Null;
  }

  /** A row whose only written address field is a post code that strips to nothing. */
  lemma OnlyEmptyPostCode(row: Row)
    requires WrittenAsIs(row, "postCode") && FieldText(row, "postCode") == ""
    requires forall k :: k in AddressOrder && k != "postCode" ==> !WrittenAsIs(row, k)
    ensures AddressAsWritten(row) == map["postCode" := Str("")]
    ensures AddressOf(row) == map[]
  {
    var a := AddressAsWritten(row);
    assert "postCode" in AddressOrder;
    assert forall k :: k in a <==> k == "postCode";
    var b := AddressOf(row);
    assert forall k :: k !in b;
  }

  /** A field holding the empty string makes the wrapped address not sparse. */
  lemma EmptyFieldNotSparse(a: map<string, JsValue>, k: string)
    requires k in a && a[k] == Str("")
    ensures !Sparse(Arr([Obj(a)]))
  {
    assert !Sparse(a[k]);
    assert !Sparse(Obj(a));
    assert Arr([Obj(a)]).items[0] == Obj(a);
  }

  /** A post code cell holding just `.0` is not empty, yet the code stores
      the empty string for it, so the address breaks the sparsity invariant. */
  lemma PostCodeDotZeroCounterexample()
    ensures AddressAsWritten(DotZeroRow()) == map["postCode" := Str("")]
    ensures !Sparse(Arr([Obj(AddressAsWritten(DotZeroRow()))]))
    ensures AddressOf(DotZeroRow()) == map[]
  {
    DotZeroRowFields();
    OnlyEmptyPostCode(DotZeroRow());
    EmptyFieldNotSparse(AddressAsWritten(DotZeroRow()), "postCode");
  }
}
