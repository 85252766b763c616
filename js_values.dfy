/** JavaScript values as the converter sees them: spreadsheet cells on the
    way in, record fields on the way out, and the value coercions applied
    to them (`isEmpty`, `String(...)`, truthiness, `parseDateToYMD`,
    `cleanAndSplit`). */
module JsValues {
  import opened JsStrings

  datatype Option<T> = None | Some(value: T)

  /** A JavaScript value. `Null` stands for both `null` and `undefined`.
      A number is carried as the text `String(n)` gives it, which is
      `"NaN"` exactly for NaN. A `Date` carries the two renderings the
      converter uses: `toISOString().slice(0, 10)` and `String(d)`. */
  datatype JsValue =
    | Null
    | Bool(b: bool)
    | Num(repr: string)
    | Str(s: string)
    | Date(ymd: string, text: string)
    | Arr(items: seq<JsValue>)
    | Obj(props: map<string, JsValue>)

  /** What the host's `new Date(v)` makes of a non-Date value: the
      `YYYY-MM-DD` prefix of its ISO form, or None for an Invalid Date. */
  type DateParser = JsValue -> Option<string>

  /** The string test inside `isEmpty`: blank after trimming, or "nan" in any case. */
  predicate IsBlankOrNan(s: string) {
    var v := Lower(Trim(s));
    v == "" || v == "nan"
  }

  /** `isEmpty(value)`. */
  predicate IsEmpty(v: JsValue) {
    match v
    case Null => true
    case Num(repr) => repr == "NaN"
    case Str(s) => IsBlankOrNan(s)
    case _ => false
  }

  /** The test `addIfNotEmpty` applies before it writes a key: not null or
      undefined, not the empty string, not an empty array. */
  predicate Settable(v: JsValue) {
    !(v.Null? || v == Str("") || v == Arr([]))
  }

  /** The values `sheet_to_json(sheet, {raw: true})` puts in a row. A
      number's text is never blank, and a date's renderings are never blank. */
  predicate IsSheetCell(v: JsValue) {
    match v
    case Null => true
    case Bool(_) => true
    case Str(_) => true
    case Num(repr) => repr == "NaN" || !IsBlankOrNan(repr)
    case Date(ymd, text) => !IsBlankOrNan(ymd) && !IsBlankOrNan(text)
    case _ => false
  }

  /** The sparsity invariant of an output value: no null, no empty string,
      no empty array and no empty object anywhere inside it. */
  predicate Sparse(v: JsValue)
    decreases v
  {
    match v
    case Null => false
    case Str(s) => s != ""
    case Arr(items) => items != [] && forall i :: 0 <= i < |items| ==> Sparse(items[i])
    case Obj(props) => props != map[] && forall k :: k in props ==> Sparse(props[k])
    case _ => true
  }

  /** `String(v)`. */
  function JsString(v: JsValue): string
    decreases v
  {
    match v
    case Null => "null"
    case Bool(b) => if b then "true" else "false"
    case Num(repr) => repr
    case Str(s) => s
    case Date(_, text) => text
    case Arr(items) =>
      Join(seq(|items|, i requires 0 <= i < |items| => if items[i].Null? then "" else JsString(items[i])), ',')
    case Obj(_) => "[object Object]"
  }

  /** JavaScript truthiness; `String(-0)` is `"0"`, so `"0"` covers both zeros. */
  predicate Truthy(v: JsValue) {
    match v
    case Null => false
    case Bool(b) => b
    case Num(repr) => repr != "0" && repr != "NaN"
    case Str(s) => s != ""
    case _ => true
  }

  /** Trimming, and lower-casing, do not change whether a string is empty
      in the sense of `isEmpty`. */
  lemma BlankOrNanIgnoresPaddingAndCase(s: string)
    ensures IsBlankOrNan(Trim(s)) == IsBlankOrNan(s)
    ensures IsBlankOrNan(Lower(s)) == IsBlankOrNan(s)
  {
    TrimIdempotent(s);
    LowerTrimCommute(s);
    LowerIdempotent(Trim(s));
    assert Lower(Trim(Lower(s))) == Lower(Trim(s));
  }

  /** A string is empty in the sense of `isEmpty` exactly when it is all
      whitespace or, once trimmed, spells "nan" in some mix of cases. */
  lemma BlankOrNanMeaning(s: string)
    ensures IsBlankOrNan(s) <==>
      (forall i :: 0 <= i < |s| ==> IsJsWhitespace(s[i])) || Lower(Trim(s)) == "nan"
  {
    TrimEmptyIffBlank(s);
  }

  /** `isEmpty` holds exactly for null, NaN, and a string that is all
      whitespace or spells "nan" once trimmed; never for a boolean, a Date,
      an array or an object, however empty. */
  lemma IsEmptyMeaning(v: JsValue)
    ensures IsEmpty(v) <==>
      v.Null? || v == Num("NaN")
      || (v.Str? && ((forall i :: 0 <= i < |v.s| ==> IsJsWhitespace(v.s[i])) || Lower(Trim(v.s)) == "nan"))
    ensures v.Bool? || v.Date? || v.Arr? || v.Obj? ==> !IsEmpty(v)
  {
    if v.Str? {
      BlankOrNanMeaning(v.s);
    }
  }

  /** A value `isEmpty` does not call empty, other than `[]`, passes the
      setter's test. */
  lemma NotEmptyIsSettable(v: JsValue)
    requires !IsEmpty(v) && v != Arr([])
    ensures Settable(v)
  {
    if v.Str? {
      NotBlankIsNonEmpty(v.s);
    }
  }

  /** The two tests differ the other way too: a blank string and NaN pass
      the setter's test although `isEmpty` calls them empty, and `[]` fails
      it although `isEmpty` does not. */
  lemma SetterTestAgainstIsEmpty()
    ensures Settable(Str(" ")) && IsEmpty(Str(" "))
    ensures Settable(Num("NaN")) && IsEmpty(Num("NaN"))
    ensures !Settable(Arr([])) && !IsEmpty(Arr([]))
  {
    TrimEmptyIffBlank(" ");
  }

  /** A non-empty string value is a non-empty string. */
  lemma NotBlankIsNonEmpty(s: string)
    requires !IsBlankOrNan(s)
    ensures s != "" && Trim(s) != ""
  {
  }

  /** For a spreadsheet cell that is not empty, `String(cell)` is not empty either. */
  lemma SheetCellString(v: JsValue)
    requires IsSheetCell(v) && !IsEmpty(v)
    ensures !IsBlankOrNan(JsString(v))
  {
    match v
    case Bool(b) =>
      var t := JsString(v);
      assert IsTrimmed(t);
      assert Lower(t) == t;
    case _ =>
  }

  /** `parseDateToYMD(value)`: a Date is copied and keeps its date part;
      every other value goes through the host's parser. */
  function ParseDateToYMD(v: JsValue, host: DateParser): (r: Option<string>)
    ensures v.Date? ==> r == Some(v.ymd)
    ensures !v.Date? ==> r == host(v)
  {
    if v.Date? then Some(v.ymd) else host(v)
  }

  /** `.map(v => v.trim())` */
  function TrimEach(parts: seq<string>): (r: seq<string>)
    ensures |r| == |parts|
    ensures forall i :: 0 <= i < |r| ==> r[i] == Trim(parts[i]) && IsTrimmed(r[i])
  {
    seq(|parts|, i requires 0 <= i < |parts| => Trim(parts[i]))
  }

  /** `.filter(Boolean)` on strings: drops the empty ones, keeps the order.
      Every non-empty piece is kept as often as it occurs, and the order is
      kept because dropping commutes with concatenation (`DropEmptyConcat`). */
  function DropEmpty(parts: seq<string>): (r: seq<string>)
    ensures |r| <= |parts|
    ensures forall i :: 0 <= i < |r| ==> r[i] != "" && r[i] in parts
    ensures EmptiesRemoved(parts, r)
    ensures (forall i :: 0 <= i < |parts| ==> parts[i] != "") ==> r == parts
  {
    if parts == [] then []
    else
      var rest := DropEmpty(parts[1..]);
      assert parts == [parts[0]] + parts[1..];
      assert forall i :: 0 <= i < |rest| ==> rest[i] in parts by {
        forall i | 0 <= i < |rest| ensures rest[i] in parts {
          assert rest[i] in multiset(rest);
        }
      }
      EmptiesRemovedStep(parts, rest);
      if parts[0] == "" then rest
      else [parts[0]] + rest
  }

  /** `r` is `parts` with its empty strings removed, counted: no empty
      string is left, and every other string occurs as often as in `parts`. */
  ghost predicate EmptiesRemoved(parts: seq<string>, r: seq<string>) {
    && multiset(r)[""] == 0
    && forall x :: x != "" ==> multiset(r)[x] == multiset(parts)[x]
  }

  lemma EmptiesRemovedStep(parts: seq<string>, rest: seq<string>)
    requires parts != [] && EmptiesRemoved(parts[1..], rest)
    ensures EmptiesRemoved(parts, if parts[0] == "" then rest else [parts[0]] + rest)
  {
    assert parts == [parts[0]] + parts[1..];
    assert multiset(parts) == multiset{parts[0]} + multiset(parts[1..]);
    assert multiset([parts[0]] + rest) == multiset{parts[0]} + multiset(rest);
  }

  /** Dropping the empty pieces of two runs one after the other drops them
      from each run, so the kept pieces stay in their order. */
  lemma {:induction false} DropEmptyConcat(a: seq<string>, b: seq<string>)
    ensures DropEmpty(a + b) == DropEmpty(a) + DropEmpty(b)
    decreases |a|
  {
    if a == [] {
      assert a + b == b;
    } else {
      assert (a + b)[0] == a[0];
      assert (a + b)[1..] == a[1..] + b;
      DropEmptyConcat(a[1..], b);
    }
  }

  /** The string branch of `cleanAndSplit`: split on commas if there is one,
      else on semicolons if there is one, else keep the whole string; trim
      each piece and drop the empty ones. */
  function SplitList(s: string): (r: seq<string>)
    requires ',' !in s && ';' !in s ==> Trim(s) != ""
    ensures forall i :: 0 <= i < |r| ==> r[i] != "" && IsTrimmed(r[i])
    ensures ',' in s ==> forall i :: 0 <= i < |r| ==> ',' !in r[i]
    ensures ',' !in s ==> forall i :: 0 <= i < |r| ==> ';' !in r[i] || ';' !in s
    ensures ',' !in s && ';' !in s ==> r == [Trim(s)]
  {
    if ',' in s then SplitPieces(s, ',')
    else if ';' in s then SplitPieces(s, ';')
    else [Trim(s)]
  }

  /** `s.split(sep).map(v => v.trim()).filter(Boolean)`. */
  function SplitPieces(s: string, sep: char): (r: seq<string>)
    ensures forall i :: 0 <= i < |r| ==> r[i] != "" && IsTrimmed(r[i]) && sep !in r[i]
  {
    var parts := Split(s, sep);
    var trimmed := TrimEach(parts);
    assert forall i :: 0 <= i < |trimmed| ==> sep !in trimmed[i] by {
      forall i | 0 <= i < |trimmed| ensures sep !in trimmed[i] {
        TrimSubstring(parts[i], sep);
      }
    }
    DropEmpty(trimmed)
  }

  /** Trimming never introduces a character. */
  lemma TrimSubstring(s: string, c: char)
    requires c !in s
    ensures c !in Trim(s)
  {
    var t := TrimStart(s);
    assert forall i :: 0 <= i < |t| ==> t[i] == s[|s| - |t| + i];
    var r := TrimEnd(t);
    assert forall i :: 0 <= i < |r| ==> r[i] == t[i];
  }

  /** Wraps each piece as a string value. */
  function Strs(pieces: seq<string>): (r: seq<JsValue>)
    ensures |r| == |pieces|
    ensures forall i :: 0 <= i < |r| ==> r[i] == Str(pieces[i])
  {
    seq(|pieces|, i requires 0 <= i < |pieces| => Str(pieces[i]))
  }

  /** `cleanAndSplit(value)`: nothing for an empty value; the date for a
      value the date parser accepts; the split pieces for a string; the
      value itself otherwise. No element of the result is null, empty or a Date. */
  function CleanAndSplit(v: JsValue, host: DateParser): (r: seq<JsValue>)
    ensures IsEmpty(v) ==> r == []
    ensures forall i :: 0 <= i < |r| ==> r[i].Str? || r[i] == v
    ensures IsSheetCell(v) ==> forall i :: 0 <= i < |r| ==> Settable(r[i]) && !r[i].Date?
  {
    if IsEmpty(v) then []
    else
      if AcceptedDate(v, host) then [Str(ParseDateToYMD(v, host).value)]
      else if v.Str? then SplitText(v.s)
      else [v]
  }

  /** What `cleanAndSplit` gives for a value that is not empty: the date
      alone when the date parser accepts the value; otherwise the split
      pieces of a string, and any other value unchanged. */
  lemma CleanAndSplitCases(v: JsValue, host: DateParser)
    requires !IsEmpty(v)
    ensures AcceptedDate(v, host) ==> CleanAndSplit(v, host) == [Str(ParseDateToYMD(v, host).value)]
    ensures !AcceptedDate(v, host) && v.Str? ==> CleanAndSplit(v, host) == Strs(SplitList(v.s))
    ensures !AcceptedDate(v, host) && !v.Str? ==> CleanAndSplit(v, host) == [v]
  {
  }

  /** `if (parsedDate)`: the parser gave a date, and it is not the empty
      string (which JavaScript treats as false). */
  predicate AcceptedDate(v: JsValue, host: DateParser) {
    var d := ParseDateToYMD(v, host);
    d.Some? && d.value != ""
  }

  /** The split pieces of a text that is not blank, as strings. */
  function SplitText(s: string): (r: seq<JsValue>)
    requires !IsBlankOrNan(s)
    ensures forall i :: 0 <= i < |r| ==> r[i].Str? && r[i].s != "" && Settable(r[i])
  {
    NotBlankIsNonEmpty(s);
    Strs(SplitList(s))
  }

  /** A value the date parser accepts is kept whole, never split. */
  lemma CleanAndSplitKeepsDates(v: JsValue, host: DateParser, d: string)
    requires !IsEmpty(v)
    requires ParseDateToYMD(v, host) == Some(d) && d != ""
    ensures CleanAndSplit(v, host) == [Str(d)]
    ensures v.Str? && (',' in v.s || ';' in v.s) ==> |CleanAndSplit(v, host)| == 1
  {
  }

  /** The items `cleanAndSplit` can give back: non-empty, trimmed, and
      free of both separators. */
  predicate PlainItem(s: string) {
    s != "" && IsTrimmed(s) && ',' !in s && ';' !in s
  }

  /** Comma takes precedence over semicolon: in a string holding both, the
      semicolons stay inside the comma-separated pieces. */
  lemma SplitListCommaFirst(a: string, b: string, c: string)
    requires PlainItem(a) && PlainItem(b) && PlainItem(c)
    ensures SplitList(a + [','] + b + [';'] + c) == [a, b + [';'] + c]
  {
    var bc := b + [';'] + c;
    assert bc[0] == b[0] && bc[|bc| - 1] == c[|c| - 1];
    assert ',' !in bc by {
      forall i | 0 <= i < |bc| ensures bc[i] != ',' {
        if i < |b| {
          assert bc[i] == b[i];
        } else if i > |b| {
          assert bc[i] == c[i - |b| - 1];
        }
      }
    }
    assert Join([a, bc], ',') == a + [','] + bc;
    assert a + [','] + b + [';'] + c == a + [','] + bc;
    SplitListJoin([a, bc]);
  }

  /** Without a comma, a semicolon separates. */
  lemma SplitListSemicolon(a: string, b: string)
    requires PlainItem(a) && PlainItem(b)
    ensures SplitList(a + [';'] + b) == [a, b]
  {
    var s := a + [';'] + b;
    assert ',' !in s by {
      forall i | 0 <= i < |s| ensures s[i] != ',' {
        if i < |a| {
          assert s[i] == a[i];
        } else if i > |a| {
          assert s[i] == b[i - |a| - 1];
        }
      }
    }
    assert s[|a|] == ';';
    assert Join([a, b], ';') == s;
    SplitJoin([a, b], ';');
    TrimOfTrimmed(a);
    TrimOfTrimmed(b);
    assert TrimEach([a, b]) == [a, b];
  }

  /** Splitting on commas is the inverse of joining non-empty, trimmed,
      comma-free items with commas. */
  lemma {:induction false} SplitListJoin(items: seq<string>)
    requires |items| >= 2
    requires forall i :: 0 <= i < |items| ==> items[i] != "" && IsTrimmed(items[i]) && ',' !in items[i]
    ensures SplitList(Join(items, ',')) == items
  {
    var s := Join(items, ',');
    SplitJoin(items, ',');
    assert s == items[0] + [','] + Join(items[1..], ',');
    assert s[|items[0]|] == ',';
    var trimmed := TrimEach(items);
    assert trimmed == items by {
      forall i | 0 <= i < |items| ensures trimmed[i] == items[i] {
        TrimOfTrimmed(items[i]);
      }
    }
  }
}
