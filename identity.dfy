/** The identity-number list of `transformRow`: the tax number for every
    record, then the company numbers for a COMPANY or the personal
    documents for a PERSON, each only when its cell is not empty. */
module IdentityNumbers {
  import opened JsStrings
  import opened JsValues
  import opened RowFields

  /** (column, identity-number type) pairs, in the order they are tried. */
  const TaxIdColumns: seq<(string, string)> := [("National Tax No.", "tax_no")]

  const CompanyIdColumns: seq<(string, string)> := [
    ("Duns Number", "duns"),
    ("Legal Entity Identifier (LEI)", "lei")
  ]

  const PersonIdColumns: seq<(string, string)> := [
    ("National ID", "national_id"),
    ("Driving Licence No.\t", "driving_licence"),
    ("Social Security No.", "ssn"),
    ("Passport No.\t", "passport_no")
  ]

  /** `{type: kind, value}` */
  function IdNumber(kind: string, value: string): JsValue {
    Obj(map["type" := Str(kind), "value" := Str(value)])
  }

  /** The `type` of an identity-number entry. */
  function KindOf(e: JsValue): string {
    if e.Obj? && "type" in e.props && e.props["type"].Str? then e.props["type"].s else ""
  }

  /** Position of a type in the fixed extraction order. */
  function Rank(kind: string): nat {
    if kind == "tax_no" then 0
    else if kind == "duns" then 1
    else if kind == "lei" then 2
    else if kind == "national_id" then 3
    else if kind == "driving_licence" then 4
    else if kind == "ssn" then 5
    else if kind == "passport_no" then 6
    else 7
  }

  /** The entries pushed for the columns `cols`, tried in order. */
  function IdsFrom(row: Row, cols: seq<(string, string)>): seq<JsValue>
    decreases |cols|
  {
    if cols == [] then []
    else
      var last := cols[|cols| - 1];
      var v := GetRowVal(row, last.0);
      IdsFrom(row, cols[..|cols| - 1]) + (if IsEmpty(v) then [] else [IdNumber(last.1, JsString(v))])
  }

  /** `ids` as `transformRow` builds it for a record whose type tag is `tag`. */
  function IdentityNumbersOf(row: Row, tag: string): seq<JsValue> {
    ByTag(tag, IdsFrom(row, TaxIdColumns), IdsFrom(row, CompanyIdColumns), IdsFrom(row, PersonIdColumns))
  }

  /** The tax part, then the company part for a COMPANY or the personal
      part for a PERSON. */
  function ByTag(tag: string, tax: seq<JsValue>, company: seq<JsValue>, person: seq<JsValue>): seq<JsValue> {
    tax + (if tag == "COMPANY" then company else []) + (if tag == "PERSON" then person else [])
  }

  /** At most one of the two type-specific parts is used. */
  lemma ByTagCases(tag: string, tax: seq<JsValue>, company: seq<JsValue>, person: seq<JsValue>)
    ensures tag == "COMPANY" ==> ByTag(tag, tax, company, person) == tax + company
    ensures tag == "PERSON" ==> ByTag(tag, tax, company, person) == tax + person
    ensures tag != "COMPANY" && tag != "PERSON" ==> ByTag(tag, tax, company, person) == tax
  {
    if tag == "COMPANY" {
      assert |tag| == 7;
      assert tag != "PERSON";
      assert ByTag(tag, tax, company, person) == tax + company + [];
    } else if tag == "PERSON" {
      assert ByTag(tag, tax, company, person) == tax + [] + person;
    } else {
      assert ByTag(tag, tax, company, person) == tax + [] + [];
    }
  }

  /** Kinds strictly increasing in rank along `cols`. */
  predicate RankedColumns(cols: seq<(string, string)>) {
    forall i, j :: 0 <= i < j < |cols| ==> Rank(cols[i].1) < Rank(cols[j].1)
  }

  predicate ColumnRanksIn(cols: seq<(string, string)>, lo: int, hi: int) {
    forall j :: 0 <= j < |cols| ==> lo <= Rank(cols[j].1) <= hi
  }

  /** Never-date columns with a non-empty type name. */
  predicate TextColumns(cols: seq<(string, string)>) {
    forall j :: 0 <= j < |cols| ==> cols[j].0 in NeverDateColumns && cols[j].1 != ""
  }

  /** Entries in strictly increasing rank: fixed order, no type twice. */
  predicate Ordered(ids: seq<JsValue>) {
    forall i, j :: 0 <= i < j < |ids| ==> Rank(KindOf(ids[i])) < Rank(KindOf(ids[j]))
  }

  predicate RanksIn(ids: seq<JsValue>, lo: int, hi: int) {
    forall i :: 0 <= i < |ids| ==> lo <= Rank(KindOf(ids[i])) <= hi
  }

  predicate AllSparse(ids: seq<JsValue>) {
    forall i :: 0 <= i < |ids| ==> Sparse(ids[i])
  }

  lemma OrderedConcat(a: seq<JsValue>, b: seq<JsValue>, mid: int)
    requires Ordered(a) && Ordered(b)
    requires RanksIn(a, 0, mid) && RanksIn(b, mid + 1, 7)
    ensures Ordered(a + b)
  {
  }

  /** The last column's entry, if any. */
  function LastEntry(row: Row, cols: seq<(string, string)>): seq<JsValue>
    requires cols != []
  {
    var v := GetRowVal(row, cols[|cols| - 1].0);
    if IsEmpty(v) then [] else [IdNumber(cols[|cols| - 1].1, JsString(v))]
  }

  lemma IdsFromUnfold(row: Row, cols: seq<(string, string)>)
    requires cols != []
    ensures IdsFrom(row, cols) == IdsFrom(row, cols[..|cols| - 1]) + LastEntry(row, cols)
    ensures forall i :: 0 <= i < |LastEntry(row, cols)| ==> KindOf(LastEntry(row, cols)[i]) == cols[|cols| - 1].1
  {
  }

  /** One more column tried is one more conditional push. */
  lemma IdsFromStep(row: Row, cols: seq<(string, string)>, k: nat)
    requires k < |cols|
    ensures IdsFrom(row, cols[..k + 1]) == IdsFrom(row, cols[..k])
      + (if IsEmpty(GetRowVal(row, cols[k].0)) then [] else [IdNumber(cols[k].1, JsString(GetRowVal(row, cols[k].0)))])
  {
    assert cols[..k + 1][..k] == cols[..k];
  }

  /** Every entry's type is the type of one of the columns. */
  lemma {:induction false} IdsFromRanks(row: Row, cols: seq<(string, string)>, lo: int, hi: int)
    requires ColumnRanksIn(cols, lo, hi)
    ensures RanksIn(IdsFrom(row, cols), lo, hi)
    decreases |cols|
  {
    if cols != [] {
      IdsFromUnfold(row, cols);
      IdsFromRanks(row, cols[..|cols| - 1], lo, hi);
    }
  }

  /** The entries follow the column order. */
  lemma {:induction false} IdsFromOrdered(row: Row, cols: seq<(string, string)>)
    requires RankedColumns(cols)
    ensures Ordered(IdsFrom(row, cols))
    decreases |cols|
  {
    if cols != [] {
      var n := |cols| - 1;
      IdsFromUnfold(row, cols);
      RankedPrefix(cols);
      IdsFromOrdered(row, cols[..n]);
      IdsFromRanks(row, cols[..n], 0, Rank(cols[n].1) - 1);
      LastEntryRank(row, cols);
      OrderedConcat(IdsFrom(row, cols[..n]), LastEntry(row, cols), Rank(cols[n].1) - 1);
    }
  }

  /** The columns before the last are ranked, and below the last one. */
  lemma RankedPrefix(cols: seq<(string, string)>)
    requires RankedColumns(cols) && cols != []
    ensures RankedColumns(cols[..|cols| - 1])
    ensures ColumnRanksIn(cols[..|cols| - 1], 0, Rank(cols[|cols| - 1].1) - 1)
  {
  }

  /** The last column's entry, if any, has the last column's rank. */
  lemma LastEntryRank(row: Row, cols: seq<(string, string)>)
    requires cols != []
    ensures Ordered(LastEntry(row, cols))
    ensures RanksIn(LastEntry(row, cols), Rank(cols[|cols| - 1].1), 7)
  {
    var c := cols[|cols| - 1];
    var v := GetRowVal(row, c.0);
    if !IsEmpty(v) {
      KindOfIdNumber(c.1, JsString(v));
      assert LastEntry(row, cols) == [IdNumber(c.1, JsString(v))];
    }
  }

  lemma KindOfIdNumber(kind: string, value: string)
    ensures KindOf(IdNumber(kind, value)) == kind
  {
    assert IdNumber(kind, value).props["type"] == Str(kind);
  }

  /** Every entry is an object with a non-empty type and a non-empty value. */
  lemma {:induction false} IdsFromSparse(row: Row, cols: seq<(string, string)>)
    requires TextColumns(cols)
    ensures AllSparse(IdsFrom(row, cols))
    decreases |cols|
  {
    if cols != [] {
      var n := |cols| - 1;
      IdsFromUnfold(row, cols);
      assert TextColumns(cols[..n]);
      IdsFromSparse(row, cols[..n]);
      LastEntrySparse(row, cols);
    }
  }

  /** The entry of a never-date column with a type name, if any, is sparse. */
  lemma LastEntrySparse(row: Row, cols: seq<(string, string)>)
    requires cols != [] && cols[|cols| - 1].0 in NeverDateColumns && cols[|cols| - 1].1 != ""
    ensures AllSparse(LastEntry(row, cols))
  {
    var c := cols[|cols| - 1];
    var v := GetRowVal(row, c.0);
    if !IsEmpty(v) {
      NotBlankIsNonEmpty(v.s);
      IdNumberSparse(c.1, JsString(v));
    }
  }

  lemma IdNumberSparse(kind: string, value: string)
    requires kind != "" && value != ""
    ensures Sparse(IdNumber(kind, value))
  {
    var e := IdNumber(kind, value);
    assert e.props["type"] == Str(kind) && e.props["value"] == Str(value);
  }

  /** The entry for column `cols[j]` is present exactly when that column's
      value is not empty. */
  lemma {:induction false} IdsFromPresence(row: Row, cols: seq<(string, string)>, j: nat)
    requires RankedColumns(cols)
    requires j < |cols|
    ensures HasKind(IdsFrom(row, cols), cols[j].1) <==> !IsEmpty(GetRowVal(row, cols[j].0))
    decreases |cols|
  {
    var n := |cols| - 1;
    IdsFromUnfold(row, cols);
    HasKindConcat(IdsFrom(row, cols[..n]), LastEntry(row, cols), cols[j].1);
    if j < n {
      IdsFromPresence(row, cols[..n], j);
      PresenceEarlier(row, cols, j);
    } else {
      PresenceLast(row, cols);
    }
  }

  /** An earlier column's type never comes from the last column. */
  lemma PresenceEarlier(row: Row, cols: seq<(string, string)>, j: nat)
    requires RankedColumns(cols)
    requires j < |cols| - 1
    ensures cols[..|cols| - 1][j] == cols[j]
    ensures !HasKind(LastEntry(row, cols), cols[j].1)
  {
    var n := |cols| - 1;
    assert Rank(cols[j].1) < Rank(cols[n].1);
  }

  /** The last column's type never comes from the earlier columns, and comes
      from the last one exactly when its cell is not empty. */
  lemma PresenceLast(row: Row, cols: seq<(string, string)>)
    requires RankedColumns(cols)
    requires |cols| > 0
    ensures !HasKind(IdsFrom(row, cols[..|cols| - 1]), cols[|cols| - 1].1)
    ensures HasKind(LastEntry(row, cols), cols[|cols| - 1].1) <==> !IsEmpty(GetRowVal(row, cols[|cols| - 1].0))
  {
    var n := |cols| - 1;
    IdsFromRanks(row, cols[..n], 0, Rank(cols[n].1) - 1);
    NoKindOutsideBand(IdsFrom(row, cols[..n]), 0, Rank(cols[n].1) - 1, cols[n].1);
    if !IsEmpty(GetRowVal(row, cols[n].0)) {
      assert KindOf(LastEntry(row, cols)[0]) == cols[n].1;
    }
  }

  /** The types allowed for a record with the given tag. */
  function AllowedKinds(tag: string): set<string> {
    if tag == "COMPANY" then {"tax_no", "duns", "lei"}
    else if tag == "PERSON" then {"tax_no", "national_id", "driving_licence", "ssn", "passport_no"}
    else {"tax_no"}
  }

  /** The column tables are in rank order, within their rank bands, and
      read never-date columns. */
  lemma TaxColumnsReadable()
    ensures RankedColumns(TaxIdColumns) && ColumnRanksIn(TaxIdColumns, 0, 0) && TextColumns(TaxIdColumns)
  {
  }

  lemma CompanyColumnsReadable()
    ensures RankedColumns(CompanyIdColumns) && ColumnRanksIn(CompanyIdColumns, 1, 2) && TextColumns(CompanyIdColumns)
  {
    assert CompanyIdColumns[0].1 == "duns" && CompanyIdColumns[1].1 == "lei";
  }

  lemma PersonColumnsReadable()
    ensures RankedColumns(PersonIdColumns) && ColumnRanksIn(PersonIdColumns, 3, 6) && TextColumns(PersonIdColumns)
  {
    assert PersonIdColumns[0].1 == "national_id" && PersonIdColumns[1].1 == "driving_licence";
    assert PersonIdColumns[2].1 == "ssn" && PersonIdColumns[3].1 == "passport_no";
  }

  /** Everything proved about the entries of one column table. */
  predicate WellFormedPart(ids: seq<JsValue>, lo: int, hi: int) {
    AllSparse(ids) && Ordered(ids) && RanksIn(ids, lo, hi)
  }

  lemma IdsFromWellFormed(row: Row, cols: seq<(string, string)>, lo: int, hi: int)
    requires RankedColumns(cols) && ColumnRanksIn(cols, lo, hi) && TextColumns(cols)
    ensures WellFormedPart(IdsFrom(row, cols), lo, hi)
  {
    IdsFromRanks(row, cols, lo, hi);
    IdsFromOrdered(row, cols);
    IdsFromSparse(row, cols);
  }

  /** The three parts of the list: tax number, company numbers, personal documents. */
  lemma IdentityParts(row: Row, tag: string)
    ensures var company := if tag == "COMPANY" then IdsFrom(row, CompanyIdColumns) else [];
            var person := if tag == "PERSON" then IdsFrom(row, PersonIdColumns) else [];
            && IdentityNumbersOf(row, tag) == IdsFrom(row, TaxIdColumns) + company + person
            && WellFormedPart(IdsFrom(row, TaxIdColumns), 0, 0)
            && WellFormedPart(company, 1, 2)
            && WellFormedPart(person, 3, 6)
  {
    TaxColumnsReadable();
    CompanyColumnsReadable();
    PersonColumnsReadable();
    IdsFromWellFormed(row, TaxIdColumns, 0, 0);
    IdsFromWellFormed(row, CompanyIdColumns, 1, 2);
    IdsFromWellFormed(row, PersonIdColumns, 3, 6);
  }

  /** The type of each rank band. */
  lemma RankBands(kind: string)
    ensures Rank(kind) == 0 ==> kind == "tax_no"
    ensures 1 <= Rank(kind) <= 2 ==> kind in {"duns", "lei"}
    ensures 3 <= Rank(kind) <= 6 ==> kind in {"national_id", "driving_licence", "ssn", "passport_no"}
  {
  }

  /** Every entry's type is in `kinds`. */
  predicate KindsIn(ids: seq<JsValue>, kinds: set<string>) {
    forall i :: 0 <= i < |ids| ==> KindOf(ids[i]) in kinds
  }

  lemma ConcatParts(a: seq<JsValue>, b: seq<JsValue>, kinds: set<string>)
    requires AllSparse(a) && AllSparse(b) && KindsIn(a, kinds) && KindsIn(b, kinds)
    ensures AllSparse(a + b) && KindsIn(a + b, kinds)
  {
    forall i | 0 <= i < |a + b| ensures Sparse((a + b)[i]) && KindOf((a + b)[i]) in kinds {
      if i >= |a| {
        assert (a + b)[i] == b[i - |a|];
      }
    }
  }

  lemma BandKinds(ids: seq<JsValue>, lo: int, hi: int, kinds: set<string>)
    requires RanksIn(ids, lo, hi)
    requires lo == hi == 0 ==> "tax_no" in kinds
    requires lo == 1 && hi == 2 ==> "duns" in kinds && "lei" in kinds
    requires lo == 3 && hi == 6 ==> {"national_id", "driving_licence", "ssn", "passport_no"} <= kinds
    requires (lo == hi == 0) || (lo == 1 && hi == 2) || (lo == 3 && hi == 6)
    ensures KindsIn(ids, kinds)
  {
    forall i | 0 <= i < |ids| ensures KindOf(ids[i]) in kinds {
      RankBands(KindOf(ids[i]));
    }
  }

  /** The list holds only the types the entity type allows (so a PERSON
      never gets `duns` or `lei`, and a COMPANY never gets a personal
      document), in the fixed order tax number, company numbers, personal
      documents, with no type twice, and every entry is sparse. */
  lemma IdentityNumbersShape(row: Row, tag: string)
    ensures KindsIn(IdentityNumbersOf(row, tag), AllowedKinds(tag))
    ensures Ordered(IdentityNumbersOf(row, tag))
    ensures AllSparse(IdentityNumbersOf(row, tag))
  {
    IdentityParts(row, tag);
    PartsShape(IdsFrom(row, TaxIdColumns),
               if tag == "COMPANY" then IdsFrom(row, CompanyIdColumns) else [],
               if tag == "PERSON" then IdsFrom(row, PersonIdColumns) else [],
               tag);
  }

  /** The shape of the list, from the shape of its three parts. */
  lemma PartsShape(tax: seq<JsValue>, company: seq<JsValue>, person: seq<JsValue>, tag: string)
    requires WellFormedPart(tax, 0, 0) && WellFormedPart(company, 1, 2) && WellFormedPart(person, 3, 6)
    requires tag != "COMPANY" ==> company == []
    requires tag != "PERSON" ==> person == []
    ensures KindsIn(tax + company + person, AllowedKinds(tag))
    ensures Ordered(tax + company + person)
    ensures AllSparse(tax + company + person)
  {
    var kinds := AllowedKinds(tag);
    OrderedConcat(tax, company, 0);
    assert RanksIn(tax + company, 0, 2);
    OrderedConcat(tax + company, person, 2);
    BandKinds(tax, 0, 0, kinds);
    if tag == "COMPANY" {
      BandKinds(company, 1, 2, kinds);
    }
    if tag == "PERSON" {
      BandKinds(person, 3, 6, kinds);
    }
    ConcatParts(tax, company, kinds);
    ConcatParts(tax + company, person, kinds);
  }

  /** Some entry of `ids` has type `kind`. */
  predicate HasKind(ids: seq<JsValue>, kind: string) {
    exists i :: 0 <= i < |ids| && KindOf(ids[i]) == kind
  }

  lemma HasKindConcat(a: seq<JsValue>, b: seq<JsValue>, kind: string)
    ensures HasKind(a + b, kind) <==> HasKind(a, kind) || HasKind(b, kind)
  {
    if HasKind(a + b, kind) {
      var i :| 0 <= i < |a + b| && KindOf((a + b)[i]) == kind;
      if i >= |a| {
        assert (a + b)[i] == b[i - |a|];
      }
    }
    if HasKind(b, kind) {
      var i :| 0 <= i < |b| && KindOf(b[i]) == kind;
      assert (a + b)[|a| + i] == b[i];
    }
    if HasKind(a, kind) {
      var i :| 0 <= i < |a| && KindOf(a[i]) == kind;
      assert (a + b)[i] == a[i];
    }
  }

  lemma NoKindOutsideBand(ids: seq<JsValue>, lo: int, hi: int, kind: string)
    requires RanksIn(ids, lo, hi)
    requires Rank(kind) < lo || hi < Rank(kind)
    ensures !HasKind(ids, kind)
  {
  }

  /** An entry of each type the tag allows is present exactly when its
      column's value is not empty. */
  lemma IdentityNumberPresence(row: Row, tag: string, j: nat, cols: seq<(string, string)>)
    requires cols == TaxIdColumns
          || (tag == "COMPANY" && cols == CompanyIdColumns)
          || (tag == "PERSON" && cols == PersonIdColumns)
    requires j < |cols|
    ensures HasKind(IdentityNumbersOf(row, tag), cols[j].1) <==> !IsEmpty(GetRowVal(row, cols[j].0))
  {
    var tax := IdsFrom(row, TaxIdColumns);
    var company := if tag == "COMPANY" then IdsFrom(row, CompanyIdColumns) else [];
    var person := if tag == "PERSON" then IdsFrom(row, PersonIdColumns) else [];
    assert IdentityNumbersOf(row, tag) == tax + company + person;
    TaxColumnsReadable();
    CompanyColumnsReadable();
    PersonColumnsReadable();
    IdsFromRanks(row, TaxIdColumns, 0, 0);
    IdsFromRanks(row, CompanyIdColumns, 1, 2);
    IdsFromRanks(row, PersonIdColumns, 3, 6);
    if cols == TaxIdColumns {
      KindInBand(tax, company, person, cols[j].1, 0, 0);
    } else if cols == CompanyIdColumns {
      KindInBand(tax, company, person, cols[j].1, 1, 2);
    } else {
      KindInBand(tax, company, person, cols[j].1, 3, 6);
    }
    IdsFromPresence(row, cols, j);
  }

  /** A type of one band occurs in the whole list exactly when it occurs
      in that band's part. */
  lemma KindInBand(tax: seq<JsValue>, company: seq<JsValue>, person: seq<JsValue>, kind: string, lo: int, hi: int)
    requires RanksIn(tax, 0, 0) && RanksIn(company, 1, 2) && RanksIn(person, 3, 6)
    requires (lo == 0 && hi == 0) || (lo == 1 && hi == 2) || (lo == 3 && hi == 6)
    requires lo <= Rank(kind) <= hi
    ensures HasKind(tax + company + person, kind) <==>
      HasKind(if lo == 0 then tax else if lo == 1 then company else person, kind)
  {
    HasKindConcat(tax + company, person, kind);
    HasKindConcat(tax, company, kind);
    if lo != 0 { NoKindOutsideBand(tax, 0, 0, kind); }
    if lo != 1 { NoKindOutsideBand(company, 1, 2, kind); }
    if lo != 3 { NoKindOutsideBand(person, 3, 6, kind); }
  }
}
