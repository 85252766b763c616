/** `transformRow(row, aliasCols)`: one spreadsheet row to one output
    record. `RecordOf` says what the record is; `TransformRow` builds it
    the way the converter does, by mutating objects in place.
    `RecordOfCorrected` is the record with the corrected address, the one
    that keeps the sparsity invariant on every spreadsheet row. */
module RowTransform {
  import opened JsStrings
  import opened JsValues
  import opened JsObjects
  import opened RowFields
  import opened IdentityNumbers
  import opened Address
  import opened Aliases
  import opened Lists

  /** The direct fields: scalar columns, then list columns. */
  function DirectFields(row: Row, host: DateParser): map<string, JsValue> {
    ScalarFields(row, ScalarColumns) + ArrayFields(row, ArrayColumns, host)
  }

  /** The keys written after the direct fields. */
  const CompositeKeys: set<string> := {"identityNumbers", "addresses", "aliases", "lists"}

  /** The record from its direct fields and its four composite parts: each
      list only when it is not empty, the address only when it has a field. */
  function Assemble(fields: map<string, JsValue>, ids: seq<JsValue>, addr: map<string, JsValue>,
                    aliases: seq<JsValue>, lists: seq<JsValue>): map<string, JsValue> {
    var r := SetIfNotEmpty(fields, "identityNumbers", Arr(ids));
    var r := if addr != map[] then r["addresses" := Arr([Obj(addr)])] else r;
    var r := SetIfNotEmpty(r, "aliases", Arr(aliases));
    SetIfNotEmpty(r, "lists", Arr(lists))
  }

  /** The record of a row around the address `addr`, field group by field group. */
  function RecordWith(row: Row, aliasCols: seq<string>, host: DateParser, addr: map<string, JsValue>): map<string, JsValue> {
    var fields := DirectFields(row, host);
    Assemble(fields, IdentityNumbersOf(row, TypeTag(fields)), addr, AliasesOf(row, aliasCols), ListsOf(row))
  }

  /** The record `transformRow` returns. */
  function RecordOf(row: Row, aliasCols: seq<string>, host: DateParser): map<string, JsValue> {
    RecordWith(row, aliasCols, host, AddressAsWritten(row))
  }

  /** The record with the corrected address (see `Address.AddressOf`). */
  function RecordOfCorrected(row: Row, aliasCols: seq<string>, host: DateParser): map<string, JsValue> {
    RecordWith(row, aliasCols, host, AddressOf(row))
  }

  /** Every key a record can have. */
  const RecordKeys: set<string> :=
    (set c | c in ScalarColumns) + (set c | c in ArrayColumns) + CompositeKeys

  /** What each part contributes to the assembled record. */
  lemma AssembleFields(fields: map<string, JsValue>, ids: seq<JsValue>, addr: map<string, JsValue>,
                       aliases: seq<JsValue>, lists: seq<JsValue>)
    requires forall k :: k in fields ==> k !in CompositeKeys
    ensures var r := Assemble(fields, ids, addr, aliases, lists);
      && (forall k :: k in r ==> k in fields || k in CompositeKeys)
      && (forall k :: k in fields ==> k in r && r[k] == fields[k])
      && ("identityNumbers" in r <==> ids != []) && ("identityNumbers" in r ==> r["identityNumbers"] == Arr(ids))
      && ("addresses" in r <==> addr != map[]) && ("addresses" in r ==> r["addresses"] == Arr([Obj(addr)]))
      && ("aliases" in r <==> aliases != []) && ("aliases" in r ==> r["aliases"] == Arr(aliases))
      && ("lists" in r <==> lists != []) && ("lists" in r ==> r["lists"] == Arr(lists))
  {
  }

  /** Sparse parts make a sparse record. */
  lemma AssembleSparse(fields: map<string, JsValue>, ids: seq<JsValue>, addr: map<string, JsValue>,
                       aliases: seq<JsValue>, lists: seq<JsValue>)
    requires forall k :: k in fields ==> k !in CompositeKeys && Sparse(fields[k])
    requires forall i :: 0 <= i < |ids| ==> Sparse(ids[i])
    requires forall k :: k in addr ==> Sparse(addr[k])
    requires forall i :: 0 <= i < |aliases| ==> Sparse(aliases[i])
    requires forall i :: 0 <= i < |lists| ==> Sparse(lists[i])
    ensures var r := Assemble(fields, ids, addr, aliases, lists);
      forall k :: k in r ==> Sparse(r[k])
  {
    AssembleFields(fields, ids, addr, aliases, lists);
    if addr != map[] {
      assert Sparse(Obj(addr));
      assert Arr([Obj(addr)]).items[0] == Obj(addr);
    }
  }

  /** The direct fields are the scalar and list columns. */
  lemma DirectFieldsKeys(row: Row, host: DateParser)
    ensures forall k :: k in DirectFields(row, host) ==> (k in ScalarColumns || k in ArrayColumns) && k !in CompositeKeys
    ensures forall k :: k in DirectFields(row, host) && k in ScalarColumns ==> DirectFields(row, host)[k] == GetRowVal(row, k)
  {
    assert forall k :: k in ScalarColumns ==> k !in ArrayColumns && k !in CompositeKeys;
    assert forall k :: k in ArrayColumns ==> k !in CompositeKeys;
  }

  /** A record only has the scalar columns, the list columns, and the four
      composite fields; a record's entity type is the type its direct
      fields give it. */
  lemma RecordShape(row: Row, aliasCols: seq<string>, host: DateParser)
    ensures forall k :: k in RecordOf(row, aliasCols, host) ==> k in RecordKeys
    ensures TypeTag(RecordOf(row, aliasCols, host)) == TypeTag(DirectFields(row, host))
  {
    RecordWithShape(row, aliasCols, host, AddressAsWritten(row));
  }

  /** The same for a record assembled around any address. */
  lemma RecordWithShape(row: Row, aliasCols: seq<string>, host: DateParser, addr: map<string, JsValue>)
    ensures forall k :: k in RecordWith(row, aliasCols, host, addr) ==> k in RecordKeys
    ensures TypeTag(RecordWith(row, aliasCols, host, addr)) == TypeTag(DirectFields(row, host))
  {
    var fields := DirectFields(row, host);
    DirectFieldsKeys(row, host);
    AssembleShape(fields, IdentityNumbersOf(row, TypeTag(fields)), addr, AliasesOf(row, aliasCols), ListsOf(row));
  }

  /** Assembling adds only composite keys and leaves the type alone. */
  lemma AssembleShape(fields: map<string, JsValue>, ids: seq<JsValue>, addr: map<string, JsValue>,
                      aliases: seq<JsValue>, lists: seq<JsValue>)
    requires forall k :: k in fields ==> (k in ScalarColumns || k in ArrayColumns) && k !in CompositeKeys
    ensures forall k :: k in Assemble(fields, ids, addr, aliases, lists) ==> k in RecordKeys
    ensures TypeTag(Assemble(fields, ids, addr, aliases, lists)) == TypeTag(fields)
  {
    var record := Assemble(fields, ids, addr, aliases, lists);
    AssembleFields(fields, ids, addr, aliases, lists);
    assert "type" !in CompositeKeys;
    TypeTagOnlyReadsType(record, fields);
  }

  /** The identity numbers of a record are those its entity type allows,
      in the fixed order; a PERSON never carries company numbers and a
      COMPANY never carries personal documents. */
  lemma RecordIdentityNumbers(row: Row, aliasCols: seq<string>, host: DateParser)
    ensures var record := RecordOf(row, aliasCols, host);
            "identityNumbers" in record ==>
              && record["identityNumbers"] == Arr(IdentityNumbersOf(row, TypeTag(record)))
              && KindsIn(record["identityNumbers"].items, AllowedKinds(TypeTag(record)))
              && Ordered(record["identityNumbers"].items)
  {
    var fields := DirectFields(row, host);
    DirectFieldsKeys(row, host);
    AssembleFields(fields, IdentityNumbersOf(row, TypeTag(fields)), AddressAsWritten(row), AliasesOf(row, aliasCols), ListsOf(row));
    RecordShape(row, aliasCols, host);
    IdentityNumbersShape(row, TypeTag(fields));
  }

  /** A scalar column is neither a list column nor a composite key, so its
      direct field is its scalar field. */
  lemma DirectScalarField(row: Row, host: DateParser, c: string)
    requires c in ScalarColumns
    ensures c !in CompositeKeys
    ensures c in DirectFields(row, host) <==> c in ScalarFields(row, ScalarColumns)
    ensures c in DirectFields(row, host) ==> DirectFields(row, host)[c] == GetRowVal(row, c)
  {
    assert c !in ArrayColumns;
  }

  /** On a spreadsheet row a scalar field is present exactly when its cell
      is not empty, and holds what the getter reads. */
  lemma RecordScalarPresence(row: Row, aliasCols: seq<string>, host: DateParser, c: string)
    requires IsSheetRow(row) && c in ScalarColumns
    ensures c in RecordOf(row, aliasCols, host) <==> !IsEmpty(Cell(row, c))
    ensures c in RecordOf(row, aliasCols, host) ==> RecordOf(row, aliasCols, host)[c] == GetRowVal(row, c)
  {
    var fields := DirectFields(row, host);
    DirectFieldsKeys(row, host);
    DirectScalarField(row, host, c);
    ScalarFieldsOnSheet(row, ScalarColumns, c);
    AssembleFields(fields, IdentityNumbersOf(row, TypeTag(fields)), AddressAsWritten(row), AliasesOf(row, aliasCols), ListsOf(row));
  }

  /** The composite fields of a record: `addresses` is there exactly when
      some address cell is not empty, and is then the one-element list of
      the address; `aliases` and `lists` are there exactly when some alias
      cell, or some list slot, is filled. */
  lemma RecordComposites(row: Row, aliasCols: seq<string>, host: DateParser)
    ensures var record := RecordOf(row, aliasCols, host);
      && ("addresses" in record <==> exists k :: k in AddressOrder && WrittenAsIs(row, k))
      && ("addresses" in record ==> record["addresses"] == Arr([Obj(AddressAsWritten(row))]))
      && ("aliases" in record <==> exists c :: c in aliasCols && !IsEmpty(Cell(row, c)))
      && ("aliases" in record ==> record["aliases"] == Arr(AliasesOf(row, aliasCols)))
      && ("lists" in record <==> exists i :: 1 <= i <= ListSlots && Listed(row, i))
      && ("lists" in record ==> record["lists"] == Arr(ListsOf(row)))
  {
    var fields := DirectFields(row, host);
    DirectFieldsKeys(row, host);
    AssembleFields(fields, IdentityNumbersOf(row, TypeTag(fields)), AddressAsWritten(row), AliasesOf(row, aliasCols), ListsOf(row));
    AddressPresent(row);
    AliasesEmptyIff(row, aliasCols);
    ListsPresent(row);
  }

  /** The sparsity invariant of the corrected record: on a spreadsheet row
      no field is null, an empty string, an empty list or an empty object,
      at any depth. */
  lemma RecordSparse(row: Row, aliasCols: seq<string>, host: DateParser)
    requires IsSheetRow(row)
    ensures forall k :: k in RecordOfCorrected(row, aliasCols, host) ==> Sparse(RecordOfCorrected(row, aliasCols, host)[k])
  {
    var fields := DirectFields(row, host);
    DirectFieldsKeys(row, host);
    forall k | k in fields ensures Sparse(fields[k]) {
      if k in ArrayFields(row, ArrayColumns, host) {
        ArrayFieldsOnSheet(row, ArrayColumns, host, k);
      } else {
        ScalarFieldsOnSheet(row, ScalarColumns, k);
      }
    }
    IdentityNumbersShape(row, TypeTag(fields));
    AddressSparse(row);
    AliasesSparse(row, aliasCols);
    ListsSparse(row);
    AssembleSparse(fields, IdentityNumbersOf(row, TypeTag(fields)), AddressOf(row), AliasesOf(row, aliasCols), ListsOf(row));
  }

  /** Only `addresses` depends on the address the record is assembled around. */
  lemma AssembleAddress(fields: map<string, JsValue>, ids: seq<JsValue>, addr: map<string, JsValue>,
                        addr': map<string, JsValue>, aliases: seq<JsValue>, lists: seq<JsValue>)
    requires "addresses" !in fields
    ensures var r := Assemble(fields, ids, addr, aliases, lists);
            var r' := Assemble(fields, ids, addr', aliases, lists);
      && ("addresses" in r <==> addr != map[])
      && ("addresses" in r ==> r["addresses"] == Arr([Obj(addr)]))
      && (forall k :: k != "addresses" ==> (k in r <==> k in r') && (k in r ==> r[k] == r'[k]))
  {
  }

  /** The `addresses` field of a record assembled around `addr`, and every
      other field, which does not depend on `addr`. */
  lemma RecordWithAddress(row: Row, aliasCols: seq<string>, host: DateParser,
                          addr: map<string, JsValue>, addr': map<string, JsValue>)
    ensures var r := RecordWith(row, aliasCols, host, addr);
            var r' := RecordWith(row, aliasCols, host, addr');
      && ("addresses" in r <==> addr != map[])
      && ("addresses" in r ==> r["addresses"] == Arr([Obj(addr)]))
      && (forall k :: k != "addresses" ==> (k in r <==> k in r') && (k in r ==> r[k] == r'[k]))
  {
    var fields := DirectFields(row, host);
    DirectFieldsKeys(row, host);
    AssembleAddress(fields, IdentityNumbersOf(row, TypeTag(fields)), addr, addr', AliasesOf(row, aliasCols), ListsOf(row));
  }

  /** The record `transformRow` returns differs from the corrected one only
      in `addresses`, and only for a row whose post code strips to `""`. */
  lemma RecordCorrection(row: Row, aliasCols: seq<string>, host: DateParser)
    ensures !WrittenAsIs(row, "postCode") || FieldText(row, "postCode") != "" ==>
      RecordOf(row, aliasCols, host) == RecordOfCorrected(row, aliasCols, host)
    ensures forall k :: k != "addresses" ==>
      (k in RecordOf(row, aliasCols, host) <==> k in RecordOfCorrected(row, aliasCols, host))
      && (k in RecordOf(row, aliasCols, host) ==> RecordOf(row, aliasCols, host)[k] == RecordOfCorrected(row, aliasCols, host)[k])
  {
    AddressCorrection(row);
    RecordWithAddress(row, aliasCols, host, AddressAsWritten(row), AddressOf(row));
  }

  /** The record `transformRow` returns keeps the sparsity invariant on
      every spreadsheet row whose post code does not strip to `""`. */
  lemma RecordSparseAsWritten(row: Row, aliasCols: seq<string>, host: DateParser)
    requires IsSheetRow(row)
    requires !WrittenAsIs(row, "postCode") || FieldText(row, "postCode") != ""
    ensures forall k :: k in RecordOf(row, aliasCols, host) ==> Sparse(RecordOf(row, aliasCols, host)[k])
  {
    RecordCorrection(row, aliasCols, host);
    RecordSparse(row, aliasCols, host);
  }

  /** For the row whose post code cell is `.0`, `transformRow` returns a
      record whose `addresses` holds `{postCode: ""}`, which is not sparse;
      the corrected record has no `addresses`. */
  lemma RecordDotZeroCounterexample(aliasCols: seq<string>, host: DateParser)
    ensures "addresses" in RecordOf(DotZeroRow(), aliasCols, host)
    ensures RecordOf(DotZeroRow(), aliasCols, host)["addresses"] == Arr([Obj(map["postCode" := Str("")])])
    ensures !Sparse(RecordOf(DotZeroRow(), aliasCols, host)["addresses"])
    ensures "addresses" !in RecordOfCorrected(DotZeroRow(), aliasCols, host)
  {
    PostCodeDotZeroCounterexample();
    var written := AddressAsWritten(DotZeroRow());
    RecordWithAddress(DotZeroRow(), aliasCols, host, written, written);
    RecordWithAddress(DotZeroRow(), aliasCols, host, map[], map[]);
  }

  /** What the scalar loop leaves in `o`. */
  method AddScalarFields(o: JsObject, row: Row)
    requires o.props == map[]
    modifies o
    ensures o.props == ScalarFields(row, ScalarColumns)
  {
    assert ScalarColumns[..0] == [];
    for k := 0 to |ScalarColumns|
      invariant o.props == ScalarFields(row, ScalarColumns[..k])
    {
      ScalarFieldsStep(row, ScalarColumns, k);
      AddIfNotEmpty(o, ScalarColumns[k], GetRowVal(row, ScalarColumns[k]));
    }
    assert ScalarColumns[..|ScalarColumns|] == ScalarColumns;
  }

  /** What the list-column loop adds to `o`. */
  method AddArrayFields(o: JsObject, row: Row, host: DateParser)
    modifies o
    ensures o.props == old(o.props) + ArrayFields(row, ArrayColumns, host)
  {
    ghost var base := o.props;
    assert ArrayColumns[..0] == [];
    for k := 0 to |ArrayColumns|
      invariant o.props == base + ArrayFields(row, ArrayColumns[..k], host)
    {
      var f := ArrayColumns[k];
      ArrayFieldsStep(row, ArrayColumns, host, k);
      SetIfNotEmptyOverUnion(base, ArrayFields(row, ArrayColumns[..k], host), f, Arr(CleanAndSplit(Cell(row, f), host)));
      AddIfNotEmpty(o, f, Arr(CleanAndSplit(Cell(row, f), host)));
    }
    assert ArrayColumns[..|ArrayColumns|] == ArrayColumns;
  }

  /** One guarded `ids.push({type, value})`: the entry for column
      `cols[k]` is appended when the getter's value is not empty. */
  method PushIdIfPresent(ids: seq<JsValue>, row: Row, cols: seq<(string, string)>, k: nat, ghost before: seq<JsValue>)
    returns (r: seq<JsValue>)
    requires k < |cols|
    requires ids == before + IdsFrom(row, cols[..k])
    ensures r == before + IdsFrom(row, cols[..k + 1])
  {
    var (c, t) := cols[k];
    var v := GetRowVal(row, c);
    r := ids;
    if !IsEmpty(v) {
      r := r + [IdNumber(t, JsString(v))];
    }
    IdsFromStep(row, cols, k);
  }

  /** The identity-number list for a record whose type tag is `tag`: the
      tax number, then the company numbers for a COMPANY or the personal
      documents for a PERSON. */
  method CollectIdentityNumbers(row: Row, tag: string) returns (ids: seq<JsValue>)
    ensures tag == "COMPANY" ==> ids == IdsFrom(row, TaxIdColumns) + IdsFrom(row, CompanyIdColumns)
    ensures tag == "PERSON" ==> ids == IdsFrom(row, TaxIdColumns) + IdsFrom(row, PersonIdColumns)
    ensures tag != "COMPANY" && tag != "PERSON" ==> ids == IdsFrom(row, TaxIdColumns)
  {
    ids := CollectTax(row);
    if tag == "COMPANY" {
      var more := CollectCompany(row);
      ids := ids + more;
    }
    if tag == "PERSON" {
      var more := CollectPerson(row);
      ids := ids + more;
    }
  }

  /** The tax number, tried for every record. */
  method CollectTax(row: Row) returns (ids: seq<JsValue>)
    ensures ids == IdsFrom(row, TaxIdColumns)
  {
    assert TaxIdColumns[..0] == [];
    assert TaxIdColumns[..1] == TaxIdColumns;
    ids := PushIdIfPresent([], row, TaxIdColumns, 0, []);
  }

  /** The DUNS number, then the LEI. */
  method CollectCompany(row: Row) returns (ids: seq<JsValue>)
    ensures ids == IdsFrom(row, CompanyIdColumns)
  {
    assert CompanyIdColumns[..0] == [];
    assert CompanyIdColumns[..2] == CompanyIdColumns;
    ids := PushIdIfPresent([], row, CompanyIdColumns, 0, []);
    ids := PushIdIfPresent(ids, row, CompanyIdColumns, 1, []);
  }

  /** The loop over the personal-document columns. */
  method CollectPerson(row: Row) returns (ids: seq<JsValue>)
    ensures ids == IdsFrom(row, PersonIdColumns)
  {
    ids := [];
    assert PersonIdColumns[..0] == [];
    for k := 0 to |PersonIdColumns|
      invariant ids == IdsFrom(row, PersonIdColumns[..k])
    {
      ids := PushIdIfPresent(ids, row, PersonIdColumns, k, []);
    }
    assert PersonIdColumns[..|PersonIdColumns|] == PersonIdColumns;
  }

  /** One of the address block's conditional assignments: the field
      `AddressOrder[k]` is written when its cell is not empty. */
  method AddAddressField(addr: JsObject, row: Row, k: nat)
    requires k < |AddressOrder|
    requires addr.props == AddressAsWrittenOver(row, AddressOrder[..k])
    modifies addr
    ensures addr.props == AddressAsWrittenOver(row, AddressOrder[..k + 1])
  {
    var key := AddressOrder[k];
    var cell := Cell(row, AddressColumn(key));
    if !IsEmpty(cell) {
      var text := JsString(cell);
      if key == "postCode" {
        text := StripTrailingDotZero(text);
      } else if key == "countryCode" {
        text := CountryCode(text);
      }
      addr.Set(key, Str(text));
    }
    AddressAsWrittenOverStep(row, k);
  }

  /** The address object, built field by field. */
  method BuildAddress(row: Row) returns (addr: JsObject)
    ensures fresh(addr)
    ensures addr.props == AddressAsWritten(row)
  {
    addr := new JsObject();
    assert AddressOrder[..0] == [];
    AddAddressField(addr, row, 0);
    AddAddressField(addr, row, 1);
    AddAddressField(addr, row, 2);
    AddAddressField(addr, row, 3);
    AddAddressField(addr, row, 4);
    assert AddressOrder[..5] == AddressOrder;
  }

  /** The alias entries, one per filled alias column. */
  method CollectAliases(row: Row, aliasCols: seq<string>) returns (aliases: seq<JsValue>)
    ensures aliases == AliasesOf(row, aliasCols)
  {
    aliases := [];
    assert aliasCols[..0] == [];
    for k := 0 to |aliasCols|
      invariant aliases == AliasesOf(row, aliasCols[..k])
    {
      var c := aliasCols[k];
      if !IsEmpty(Cell(row, c)) {
        aliases := aliases + [AliasEntry(JsString(Cell(row, c)))];
      }
      assert aliasCols[..k + 1][..k] == aliasCols[..k];
    }
    assert aliasCols[..|aliasCols|] == aliasCols;
  }

  /** The entry object for a listed slot. */
  method BuildListEntry(row: Row, i: nat) returns (e: JsObject)
    requires 1 <= i <= ListSlots
    ensures fresh(e)
    ensures e.props == ListEntry(row, i)
  {
    e := new JsObject();
    var v := GetRowVal(row, ListColumn(i));
    AddIfNotEmpty(e, "id", v);
    AddIfNotEmpty(e, "name", v);
    var active := Lower(JsString(Cell(row, ActiveListColumn(i)))) == "true";
    e.Set("active", Bool(active));
    e.Set("listActive", Bool(active));
    if !IsEmpty(v) {
      e.Set("hierarchy", Arr([HierarchyNode(v)]));
    }
    AddIfNotEmpty(e, "since", GetRowVal(row, SinceListColumn(i)));
    AddIfNotEmpty(e, "to", GetRowVal(row, ToListColumn(i)));
  }

  /** The entries of the listed slots, in slot order. */
  method CollectLists(row: Row) returns (lists: seq<JsValue>)
    ensures lists == ListsOf(row)
  {
    lists := [];
    for i := 1 to ListSlots + 1
      invariant lists == ListsUpTo(row, i - 1)
    {
      if IsEmpty(Cell(row, ListColumn(i))) {
        continue;
      }
      var e := BuildListEntry(row, i);
      lists := lists + [Obj(e.props)];
    }
  }

  /** `transformRow(row, aliasCols)`. */
  method TransformRow(row: Row, aliasCols: seq<string>, host: DateParser) returns (record: JsValue)
    ensures record == Obj(RecordOf(row, aliasCols, host))
  {
    var o := new JsObject();
    AddScalarFields(o, row);
    AddArrayFields(o, row, host);
    assert o.props == DirectFields(row, host);
    var tag := TypeTag(o.props);
    var ids := CollectIdentityNumbers(row, tag);
    ByTagCases(tag, IdsFrom(row, TaxIdColumns), IdsFrom(row, CompanyIdColumns), IdsFrom(row, PersonIdColumns));
    AddIfNotEmpty(o, "identityNumbers", Arr(ids));
    var addr := BuildAddress(row);
    if addr.props != map[] {
      o.Set("addresses", Arr([Obj(addr.props)]));
    }
    var aliases := CollectAliases(row, aliasCols);
    AddIfNotEmpty(o, "aliases", Arr(aliases));
    var lists := CollectLists(row);
    AddIfNotEmpty(o, "lists", Arr(lists));
    record := Obj(o.props);
  }
}
