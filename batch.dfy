/** The batch step of `processExcel`: the alias columns found in the first
    row's headers, one record per row, the JSONL text that joins their
    serialisations, and the preview shown on the page. */
module Batch {
  import opened JsStrings
  import opened JsValues
  import opened RowFields
  import opened RowTransform

  /** `JSON.stringify`, supplied by the host. */
  type Serializer = JsValue -> string

  /** The header test of the alias-column filter: lower-cased, the header
      starts with `aliases`, and it ends in a digit. */
  predicate IsAliasHeader(h: string) {
    StartsWith(Lower(h), "aliases") && EndsWithDigits(h)
  }

  /** `Object.keys(rows[0]).filter(IsAliasHeader)`: the alias headers, in
      header order. */
  function AliasColumns(headers: seq<string>): (r: seq<string>)
    ensures |r| <= |headers|
    ensures forall c :: c in r <==> c in headers && IsAliasHeader(c)
    decreases |headers|
  {
    if headers == [] then []
    else
      var rest := AliasColumns(headers[1..]);
      assert forall c :: c in headers <==> c == headers[0] || c in headers[1..];
      if IsAliasHeader(headers[0]) then [headers[0]] + rest else rest
  }

  /** The filter keeps the header order: filtering two runs of headers one
      after the other gives the two filtered runs one after the other. */
  lemma {:induction false} AliasColumnsConcat(a: seq<string>, b: seq<string>)
    ensures AliasColumns(a + b) == AliasColumns(a) + AliasColumns(b)
    decreases |a|
  {
    if a == [] {
      assert a + b == b;
    } else {
      assert (a + b)[0] == a[0];
      assert (a + b)[1..] == a[1..] + b;
      AliasColumnsConcat(a[1..], b);
    }
  }

  /** A header is kept whatever the case of its `aliases` prefix, as long as
      it ends in a digit; a header that ends in anything else is dropped. */
  lemma AliasHeaderCases(prefix: string, middle: string, last: char)
    requires Lower(prefix) == "aliases"
    ensures IsAliasHeader(prefix + middle + [last]) <==> IsAsciiDigit(last)
  {
    var h := prefix + middle + [last];
    assert h[..|prefix|] == prefix;
    assert Lower(h)[..7] == Lower(h[..7]);
  }

  /** The records: `rows.map(r => transformRow(r, aliasCols))`. */
  function Records(rows: seq<Row>, aliasCols: seq<string>, host: DateParser): (r: seq<JsValue>)
    ensures |r| == |rows|
    ensures forall i :: 0 <= i < |rows| ==> r[i] == Obj(RecordOf(rows[i], aliasCols, host))
  {
    seq(|rows|, i requires 0 <= i < |rows| => Obj(RecordOf(rows[i], aliasCols, host)))
  }

  /** `records.map(r => JSON.stringify(r))` */
  function Lines(records: seq<JsValue>, serialize: Serializer): (r: seq<string>)
    ensures |r| == |records|
    ensures forall i :: 0 <= i < |records| ==> r[i] == serialize(records[i])
  {
    seq(|records|, i requires 0 <= i < |records| => serialize(records[i]))
  }

  /** The JSONL text: one serialised record per line, no newline after the last. */
  function Jsonl(records: seq<JsValue>, serialize: Serializer): string {
    Join(Lines(records, serialize), '\n')
  }

  /** Since a serialised record never holds a raw newline, the JSONL text
      splits back into exactly one line per record. */
  lemma JsonlLines(records: seq<JsValue>, serialize: Serializer)
    requires records != []
    requires forall i :: 0 <= i < |records| ==> '\n' !in serialize(records[i])
    ensures Split(Jsonl(records, serialize), '\n') == Lines(records, serialize)
    ensures |Split(Jsonl(records, serialize), '\n')| == |records|
  {
    SplitJoin(Lines(records, serialize), '\n');
  }

  /** Joining the lines of two batches is joining the two texts with a newline between. */
  lemma {:induction false} JsonlConcat(a: seq<JsValue>, b: seq<JsValue>, serialize: Serializer)
    requires a != [] && b != []
    ensures Jsonl(a + b, serialize) == Jsonl(a, serialize) + "\n" + Jsonl(b, serialize)
    decreases |a|
  {
    var la := Lines(a, serialize);
    var lb := Lines(b, serialize);
    assert Lines(a + b, serialize) == la + lb;
    JoinConcat(la, lb, '\n');
  }

  lemma {:induction false} JoinConcat(a: seq<string>, b: seq<string>, sep: char)
    requires a != [] && b != []
    ensures Join(a + b, sep) == Join(a, sep) + [sep] + Join(b, sep)
    decreases |a|
  {
    if |a| == 1 {
      assert (a + b)[1..] == b;
    } else {
      assert (a + b)[1..] == a[1..] + b;
      JoinConcat(a[1..], b, sep);
    }
  }

  /** How many characters of the text the preview shows. */
  const PreviewLimit: nat := 4000

  /** What follows a cut preview. */
  const TruncationMarker: string := "\n\n...preview truncated..."

  /** The page text: the first 4000 characters, followed by the marker when
      the text was longer than that. */
  function Preview(jsonl: string): (p: string)
    ensures |jsonl| <= PreviewLimit ==> p == jsonl
    ensures |jsonl| > PreviewLimit ==>
      |p| == PreviewLimit + |TruncationMarker|
      && p[..PreviewLimit] == jsonl[..PreviewLimit]
      && p[PreviewLimit..] == TruncationMarker
  {
    if |jsonl| > PreviewLimit then jsonl[..PreviewLimit] + TruncationMarker
    else jsonl
  }

  /** The preview never exceeds the limit plus the marker, always starts
      with the text's first characters, and runs past the limit exactly
      when the text does. */
  lemma PreviewBounds(jsonl: string)
    ensures |Preview(jsonl)| <= PreviewLimit + |TruncationMarker|
    ensures |jsonl| <= PreviewLimit ==> Preview(jsonl) == jsonl
    ensures |jsonl| > PreviewLimit <==> |Preview(jsonl)| > PreviewLimit
    ensures var n := if |jsonl| < PreviewLimit then |jsonl| else PreviewLimit;
            |Preview(jsonl)| >= n && Preview(jsonl)[..n] == jsonl[..n]
  {
    assert |TruncationMarker| > 0;
  }

  /** What the page ends up with. */
  datatype Outcome =
    | NoRows
    | Converted(jsonl: string, preview: string)

  /** `processExcel` once the sheet has been read into `rows`. */
  function ProcessRows(rows: seq<Row>, host: DateParser, serialize: Serializer): (out: Outcome)
    ensures out.NoRows? <==> rows == []
    ensures out.Converted? ==> out.preview == Preview(out.jsonl)
  {
    if rows == [] then NoRows
    else
      var aliasCols := AliasColumns(rows[0].keys);
      var jsonl := Jsonl(Records(rows, aliasCols, host), serialize);
      Converted(jsonl, Preview(jsonl))
  }

  /** For a non-empty sheet the output holds one line per row: line `i` is
      the serialised record of row `i`, built with the alias columns of the
      first row's headers. */
  lemma ProcessRowsLines(rows: seq<Row>, host: DateParser, serialize: Serializer)
    requires rows != []
    requires forall v: JsValue :: '\n' !in serialize(v)
    ensures ProcessRows(rows, host, serialize).Converted?
    ensures var lines := Split(ProcessRows(rows, host, serialize).jsonl, '\n');
            var records := Records(rows, AliasColumns(rows[0].keys), host);
            && |lines| == |rows|
            && forall i :: 0 <= i < |rows| ==> lines[i] == serialize(records[i])
  {
    var records := Records(rows, AliasColumns(rows[0].keys), host);
    JsonlLines(records, serialize);
  }
}
