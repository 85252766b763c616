/** The alias list of `transformRow`: one `Also Known As` entry per alias
    column whose cell is not empty, in column order. */
module Aliases {
  import opened JsValues
  import opened RowFields

  const AliasType: string := "Also Known As"

  /** `{name, type: "Also Known As"}` */
  function AliasEntry(name: string): JsValue {
    Obj(map["name" := Str(name), "type" := Str(AliasType)])
  }

  /** The entries pushed while walking `cols` in order. */
  function AliasesOf(row: Row, cols: seq<string>): (r: seq<JsValue>)
    ensures |r| <= |cols|
    ensures forall i :: 0 <= i < |r| ==> r[i].Obj? && "type" in r[i].props && r[i].props["type"] == Str(AliasType)
    decreases |cols|
  {
    if cols == [] then []
    else
      var c := cols[|cols| - 1];
      AliasesOf(row, cols[..|cols| - 1])
      + (if IsEmpty(Cell(row, c)) then [] else [AliasEntry(JsString(Cell(row, c)))])
  }

  /** The columns among `cols` whose cells are not empty, in order. */
  function FilledColumns(row: Row, cols: seq<string>): (r: seq<string>)
    ensures |r| <= |cols|
    ensures forall i :: 0 <= i < |r| ==> r[i] in cols && !IsEmpty(Cell(row, r[i]))
    ensures forall c :: c in cols && !IsEmpty(Cell(row, c)) ==> c in r
    decreases |cols|
  {
    if cols == [] then []
    else
      var c := cols[0];
      var rest := FilledColumns(row, cols[1..]);
      assert forall x :: x in cols[1..] ==> x in cols;
      assert forall x :: x in cols ==> x == c || x in cols[1..];
      if IsEmpty(Cell(row, c)) then rest else [c] + rest
  }

  /** Walking two lists of columns one after the other gives the two lists
      of entries one after the other. */
  lemma {:induction false} AliasesConcat(row: Row, a: seq<string>, b: seq<string>)
    ensures AliasesOf(row, a + b) == AliasesOf(row, a) + AliasesOf(row, b)
    decreases |b|
  {
    if b != [] {
      var n := |b| - 1;
      assert (a + b)[..|a + b| - 1] == a + b[..n];
      assert (a + b)[|a + b| - 1] == b[n];
      AliasesConcat(row, a, b[..n]);
    } else {
      assert a + b == a;
    }
  }

  lemma {:induction false} FilledColumnsConcat(row: Row, a: seq<string>, b: seq<string>)
    ensures FilledColumns(row, a + b) == FilledColumns(row, a) + FilledColumns(row, b)
    decreases |a|
  {
    if a != [] {
      var ab := a + b;
      assert ab[0] == a[0];
      assert ab[1..] == a[1..] + b;
      FilledColumnsConcat(row, a[1..], b);
      var rest := FilledColumns(row, a[1..]);
      if IsEmpty(Cell(row, a[0])) {
        assert FilledColumns(row, a) == rest;
      } else {
        assert FilledColumns(row, a) == [a[0]] + rest;
      }
    } else {
      assert a + b == b;
    }
  }

  /** The aliases are exactly one entry per filled column, in column order,
      named by the text of that cell. */
  lemma {:induction false} AliasesFollowColumns(row: Row, cols: seq<string>)
    ensures |AliasesOf(row, cols)| == |FilledColumns(row, cols)|
    ensures forall i :: 0 <= i < |AliasesOf(row, cols)| ==>
      AliasesOf(row, cols)[i] == AliasEntry(JsString(Cell(row, FilledColumns(row, cols)[i])))
    decreases |cols|
  {
    if cols != [] {
      var n := |cols| - 1;
      var c := cols[n];
      AliasesFollowColumns(row, cols[..n]);
      assert cols == cols[..n] + [c];
      FilledColumnsConcat(row, cols[..n], [c]);
      assert FilledColumns(row, [c]) == if IsEmpty(Cell(row, c)) then [] else [c];
    }
  }

  /** There are no aliases exactly when every alias cell is empty. */
  lemma AliasesEmptyIff(row: Row, cols: seq<string>)
    ensures AliasesOf(row, cols) == [] <==> forall c :: c in cols ==> IsEmpty(Cell(row, c))
  {
    AliasesFollowColumns(row, cols);
    if !(forall c :: c in cols ==> IsEmpty(Cell(row, c))) {
      var c :| c in cols && !IsEmpty(Cell(row, c));
      assert c in FilledColumns(row, cols);
    }
  }

  /** An entry with a non-empty name is sparse. */
  lemma AliasEntrySparse(name: string)
    requires name != ""
    ensures Sparse(AliasEntry(name))
  {
    var e := AliasEntry(name);
    assert e.props["name"] == Str(name) && e.props["type"] == Str(AliasType);
  }

  /** A filled cell of a spreadsheet row has a non-empty text. */
  lemma FilledCellText(row: Row, c: string)
    requires IsSheetRow(row) && !IsEmpty(Cell(row, c))
    ensures JsString(Cell(row, c)) != ""
  {
    SheetRowCell(row, c);
    SheetCellString(Cell(row, c));
    NotBlankIsNonEmpty(JsString(Cell(row, c)));
  }

  /** On a spreadsheet row every alias has a non-empty name. */
  lemma AliasesSparse(row: Row, cols: seq<string>)
    requires IsSheetRow(row)
    ensures forall i :: 0 <= i < |AliasesOf(row, cols)| ==> Sparse(AliasesOf(row, cols)[i])
  {
    AliasesFollowColumns(row, cols);
    var filled := FilledColumns(row, cols);
    forall i | 0 <= i < |AliasesOf(row, cols)| ensures Sparse(AliasesOf(row, cols)[i]) {
      FilledCellText(row, filled[i]);
      AliasEntrySparse(JsString(Cell(row, filled[i])));
    }
  }
}
