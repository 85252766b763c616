# Spreadsheet-to-JSONL row transformer, modelled in Dafny

`script.js` converts the rows of a spreadsheet into JSONL. It reads each
row as a map from header to cell value and builds one sparse output
record per row, with these parts:

- scalar fields, read through the column-aware getter `getRowVal`;
- list fields, read through `cleanAndSplit`;
- identity numbers, chosen by entity type;
- a one-element address list;
- alias entries;
- up to four sanction-list entries.

The batch step finds the alias columns in the first row's headers. It
serialises every record, joins the lines with `"\n"` and shows a preview
of at most 4000 characters.

The model has ten modules:

| module | file | what it models |
|---|---|---|
| `JsStrings` | `js_strings.dfy` | `trim`, ASCII `toLowerCase`/`toUpperCase`, one-character `split` and its inverse `join`, `startsWith`, `/\d+$/` |
| `JsValues` | `js_values.dfy` | the JavaScript value datatype; `isEmpty`, `String(v)`, `parseDateToYMD`, `cleanAndSplit` |
| `JsObjects` | `js_object.dfy` | objects mutated in place (the `JsObject` class); `addIfNotEmpty` as a method, with the function `SetIfNotEmpty` specifying it |
| `RowFields` | `row_fields.dfy` | the row; `getRowVal`; the scalar and list column loops; the upper-cased type tag |
| `IdentityNumbers` | `identity.dfy` | the entity-type-conditional identity numbers |
| `Address` | `address.dfy` | the address block, both as written and corrected (see Findings) |
| `Aliases` | `aliases.dfy` | alias entries |
| `Lists` | `lists.dfy` | the four list slots |
| `RowTransform` | `record.dfy` | `RecordOf`, which says what `transformRow` returns; `RecordOfCorrected`, the same record with the corrected post code (see Findings); the imperative `TransformRow` and its helper methods, each proved equal to its part of `RecordOf` |
| `Batch` | `batch.dfy` | alias-column discovery, the JSONL join, the preview, the zero-rows exit |

A cell is a `JsValue`:

- `Null` stands for `null` and `undefined`;
- `Bool`;
- `Num` carries the text `String(n)` gives, which is `"NaN"` exactly for NaN;
- `Str`;
- `Date` carries its two renderings, `toISOString().slice(0, 10)` and `String(d)`;
- `Arr` and `Obj` are the output structures.

`IsSheetCell` and `IsSheetRow` describe what the spreadsheet decoder can
produce. The sparsity results hold for such rows.

Two things are parameters rather than part of the model:

- The host's `new Date(v)` parser is a `DateParser` function.
- `JSON.stringify` is a `Serializer` function.

`transformRow` builds its objects by assignment and `push`, so
`TransformRow` builds the record the same way. It uses `JsObject` instances
and sequence variables, with loops over the column tables and the four
slots. Its postcondition is `record == Obj(RecordOf(row, aliasCols, host))`.
The properties of the record are proved about `RecordOf`. The sparsity invariant holds of `RecordOf` on every spreadsheet row whose post code does not strip to `""`, and of `RecordOfCorrected` on every spreadsheet row.

## Model

| member | source | states |
|---|---|---|
| JsStrings.Trim | script.js:32 | The result has no JavaScript whitespace at either end and is no longer than the input. An input that is already trimmed comes back unchanged. (That it is exactly the input without its leading and trailing whitespace is `TrimMeaning`.) |
| JsStrings.TrimMeaning | script.js:32 | The result is the stretch of the input that follows its leading whitespace, and every character of the input outside that stretch is whitespace. With the result trimmed, this fixes it uniquely. |
| JsStrings.TrimIdempotent | script.js:32 | Trimming twice is trimming once. |
| JsStrings.TrimEmptyIffBlank | script.js:32-33 | Trim gives `""` exactly when every character of the input is whitespace. |
| JsStrings.Lower | script.js:32 | Lower-casing keeps the length and maps every character through the ASCII lower-case map. |
| JsStrings.Upper | script.js:109 | Upper-casing keeps the length and maps every character through the ASCII upper-case map. |
| JsStrings.LowerTrimCommute | script.js:32 | Lower-casing and trimming commute, so the order of `.trim().toLowerCase()` does not matter. |
| JsStrings.Split | script.js:50-51 | `split` on a one-character separator gives at least one piece, and no piece holds the separator. |
| JsStrings.Join | script.js:192 | `join`: the pieces with the separator between each two. Its meaning is the round trip with `Split` below. |
| JsStrings.JoinSplit | script.js:50-51 | Joining the pieces of `split(sep)` with `sep` gives back the input. |
| JsStrings.SplitJoin | script.js:50-51 | Splitting a join of separator-free pieces gives back exactly those pieces. |
| JsValues.IsEmpty | script.js:28-36 | `isEmpty`: true for null/undefined, NaN, and a string that is blank or `nan` once trimmed and lower-cased; false otherwise. Its meaning is `IsEmptyMeaning`. |
| JsValues.Settable | script.js:58 | The test of `addIfNotEmpty`: not null/undefined, not `""`, not an empty array. Its relation to `isEmpty` is `NotEmptyIsSettable` and `SetterTestAgainstIsEmpty`. |
| JsValues.JsString | script.js:88 | `String(v)` for each kind of value; for an array the items joined with commas, null items as empty text. |
| JsValues.Truthy | script.js:109 | JavaScript truthiness, as `o.type \|\| ""` uses it. |
| JsValues.IsEmptyMeaning | script.js:28-36 | `isEmpty` holds exactly for null/undefined, NaN, and a string that is all whitespace or is "nan" in any case once trimmed. It never holds for a boolean, a Date, an array or an object. |
| JsValues.BlankOrNanIgnoresPaddingAndCase | script.js:31-34 | Trimming or lower-casing a string does not change whether `isEmpty` calls it empty. |
| JsValues.BlankOrNanMeaning | script.js:31-34 | The string test of `isEmpty`, stated without trim and lower-case composed: all whitespace, or "nan" after trimming. |
| JsValues.NotEmptyIsSettable | script.js:57-61 | A value that `isEmpty` does not call empty, other than `[]`, passes the setter's test. |
| JsValues.SetterTestAgainstIsEmpty | script.js:57-61 | The two tests also differ the other way. A blank string and NaN pass the setter's test although `isEmpty` calls them empty. `[]` fails it although `isEmpty` does not call it empty. |
| JsValues.SheetCellString | script.js:86-88 | For a non-empty spreadsheet cell, `String(cell)` is not blank either. |
| JsValues.ParseDateToYMD | script.js:38-41 | A Date yields its own date part. Any other value yields what the host parser makes of it. |
| JsValues.TrimEach | script.js:50-52 | `.map(v => v.trim())` keeps the count, and piece `i` of the result is the trim of piece `i` of the input. |
| JsValues.DropEmpty | script.js:50-51 | `.filter(Boolean)` leaves no empty string, and every other string occurs in the result exactly as often as in the input. A list without empty strings comes back unchanged. Order is kept by `DropEmptyConcat`. |
| JsValues.DropEmptyConcat | script.js:50-51 | Filtering two runs one after the other gives the two filtered runs one after the other, so the kept pieces stay in input order. |
| JsValues.SplitList | script.js:49-53 | Every piece is non-empty and trimmed. With a comma present no piece holds a comma. With neither separator the result is `[trim(s)]`. |
| JsValues.SplitPieces | script.js:50-51 | The pieces of a split on `sep` are non-empty, trimmed and free of `sep`. |
| JsValues.CleanAndSplit | script.js:43-55 | An empty value gives `[]`. Every element is a string or the value itself. For a spreadsheet cell no element is null, empty or a Date. (Which branch gives what is `CleanAndSplitCases`.) |
| JsValues.CleanAndSplitCases | script.js:43-55 | For a non-empty value: a value the date parser accepts with a non-empty date gives just that date; otherwise a string gives its `SplitList` pieces and any other value gives `[value]`. |
| JsValues.SplitText | script.js:49-53 | The split pieces of a non-blank string are non-empty strings. |
| JsValues.CleanAndSplitKeepsDates | script.js:46-47 | For every non-empty value the date parser maps to a non-empty date `d`, the result is `[d]`: such a value is never split, even when it holds a comma or a semicolon. |
| JsValues.SplitListCommaFirst | script.js:50-51 | The comma takes precedence: `a,b;c` splits into `a` and `b;c`. |
| JsValues.SplitListSemicolon | script.js:51 | Without a comma, `a;b` splits into `a` and `b`. |
| JsValues.SplitListJoin | script.js:50 | Splitting is the inverse of joining two or more non-empty, trimmed, comma-free items with commas. |
| JsObjects.JsObject.constructor | script.js:83 | `{}` has no properties. |
| JsObjects.JsObject.Set | script.js:141 | `obj[key] = val` sets that one key and leaves the others as they were. |
| JsObjects.SetIfNotEmpty | script.js:57-61 | `key` is written exactly when the value passes the setter's test. Every other key keeps its presence and value. If the test fails, nothing changes. |
| JsObjects.SetIfNotEmptyOverUnion | script.js:99-105 | Setting a key on top of a map union only touches the right-hand part. |
| JsObjects.AddIfNotEmpty | script.js:57-61 | The method leaves the object's properties equal to `SetIfNotEmpty` of the old ones. |
| RowFields.GetRowVal | script.js:85-91 | The getter gives null exactly for an empty cell, and never gives a Date. In a never-date column it gives null or a trimmed string. (The value read from a non-empty cell is `GetRowValReads`.) |
| RowFields.GetRowValReads | script.js:85-91 | An empty cell reads as null. A non-empty cell reads as the trimmed `String(cell)` in a never-date column, else as the date part of a Date, else as the cell itself. |
| RowFields.GetRowValOnSheet | script.js:85-91 | On a spreadsheet row the getter keeps emptiness. A non-empty cell yields a sparse value that the setter writes. |
| RowFields.ScalarFields | script.js:96-97 | Every key written is one of the columns, holding what the getter reads. |
| RowFields.ArrayFields | script.js:99-105 | Every key written is one of the columns, holding `cleanAndSplit` of the cell. |
| RowFields.ScalarFieldsOnSheet | script.js:96-97 | On a spreadsheet row a scalar field is present exactly when its cell is not empty, and it is then sparse. |
| RowFields.ArrayFieldsOnSheet | script.js:99-105 | On a spreadsheet row a list field, when present, is a sparse non-empty list. |
| RowFields.ScalarFieldsStep | script.js:96-97 | One more scalar column is one more `addIfNotEmpty`. |
| RowFields.ArrayFieldsStep | script.js:99-105 | One more list column is one more `addIfNotEmpty`. |
| RowFields.TypeTag | script.js:109 | `String(o.type \|\| "").toUpperCase()`: the upper-cased text of a truthy `type` field, else `""`. |
| RowFields.TypeTagOnlyReadsType | script.js:109 | The upper-cased type tag depends only on the `type` field. |
| RowFields.TypeTagExamples | script.js:109 | `"person"` tags a PERSON, `"Company"` tags a COMPANY, and a record without a type gets `""`. |
| IdentityNumbers.IdsFrom | script.js:111-129 | The entries pushed for a run of (column, type) pairs: one `{type, value: String(v)}` per column whose getter value is not empty, in column order. |
| IdentityNumbers.IdentityNumbersOf | script.js:108-130 | `ids` for a record with a given type tag: the tax part, then the company part or the personal part. |
| IdentityNumbers.ByTagCases | script.js:111-130 | The tax part is always used. The company part is added only for COMPANY and the personal part only for PERSON. |
| IdentityNumbers.OrderedConcat | script.js:111-130 | Two ordered runs in disjoint rank bands concatenate to an ordered list. |
| IdentityNumbers.IdsFromStep | script.js:126-129 | One more column tried is one guarded `ids.push({type, value: String(v)})`. |
| IdentityNumbers.IdsFromRanks | script.js:111-129 | Every entry's type is the type of one of the columns tried. |
| IdentityNumbers.IdsFromOrdered | script.js:111-129 | The entries follow the column order, with no type twice. |
| IdentityNumbers.IdsFromSparse | script.js:111-129 | Every entry is an object with a non-empty type and a non-empty value. |
| IdentityNumbers.IdsFromPresence | script.js:126-129 | The entry for a column is present exactly when that column's value is not empty. |
| IdentityNumbers.TaxColumnsReadable | script.js:14-23 | The tax column is a never-date column in the first rank band. |
| IdentityNumbers.CompanyColumnsReadable | script.js:14-23 | The DUNS and LEI columns are never-date columns, in rank order within the company band. |
| IdentityNumbers.PersonColumnsReadable | script.js:14-23 | The four personal-document columns are never-date columns, in rank order within the personal band. The two tab-suffixed headers are included. |
| IdentityNumbers.IdentityParts | script.js:108-130 | The list is the tax part, then the company part (COMPANY only), then the personal part (PERSON only). Each part is sparse, ordered and within its band. |
| IdentityNumbers.IdentityNumbersShape | script.js:108-132 | A record's identity numbers have only the types its entity type allows: a PERSON never gets `duns`/`lei` and a COMPANY never gets personal documents. They come in the fixed order with no type twice, and all are sparse. |
| IdentityNumbers.PartsShape | script.js:108-130 | The shape of the whole list follows from the shape of its three parts. |
| IdentityNumbers.HasKindConcat | script.js:108-130 | A type occurs in a concatenation exactly when it occurs in one side. |
| IdentityNumbers.IdentityNumberPresence | script.js:111-129 | For every type the tag allows, an entry of that type is present exactly when its column's value is not empty. |
| Address.StripTrailingDotZero | script.js:139 | Exactly one trailing `.0` is removed, if there is one. Otherwise the text is unchanged. |
| Address.StripUndoesDotZero | script.js:139 | Stripping undoes one appended `.0` and only one: `p.0.0` becomes `p.0`. |
| Address.StripExample | script.js:139 | `"10001.0"` becomes `"10001"` and `"SW1A 1AA"` is unchanged. |
| Address.CountryCode | script.js:140 | The result has `min(2, length)` characters, each the upper-cased character of the input, and holds no ASCII lower-case letter. |
| Address.CountryCodeExamples | script.js:140 | `"usa"` becomes `"US"`, `"gb"` becomes `"GB"` and `"d"` becomes `"D"`. |
| Address.CountryCodeIdempotent | script.js:140 | Applying the country-code rule to a country code changes nothing. |
| Address.AddressAsWritten | script.js:135-140 | The address exactly as the code builds it: each of the five fields whose cell is not empty, holding its text. |
| Address.AddressOf | script.js:135-140 | The corrected address: as written, except that a post code whose stripped text is `""` is left out. |
| Address.AddressAsWrittenOver | script.js:135-140 | As written: a field is present exactly when its cell is not empty, holding the field's text. |
| Address.AddressAsWrittenOverStep | script.js:136-140 | One more address field, as written, is one more conditional assignment. |
| Address.AddressOver | script.js:135-140 | Corrected: a field is present exactly when its cell is not empty and, for `postCode`, its stripped text is not `""`; it holds the field's text. |
| Address.AddressOverStep | script.js:136-140 | The same step for the corrected builder. |
| Address.AddressFields | script.js:136-140 | Corrected address: only the five address keys occur. `line`, `city`, `province` and `countryCode` are present exactly when their cells are not empty. `postCode` is present exactly when its cell is not empty and the stripped text is not `""`. `postCode` holds the stripped text and `countryCode` holds the two-letter code. |
| Address.AddressPresent | script.js:141 | As written, the address has a field exactly when some address cell is not empty; the corrected address has one exactly when some field passes the corrected test. |
| Address.AddressSparse | script.js:135-141 | On a spreadsheet row every address field is a non-empty string, so `[addr]` is sparse. |
| Address.AddressAsWrittenSparse | script.js:135-141 | As written, the address is sparse on every spreadsheet row whose post code does not strip to `""`. |
| Address.AddressCorrection | script.js:139 | The correction touches only `postCode`, and only when the stripped text is `""`: the code then writes `""` and the corrected builder writes nothing. Otherwise the two addresses are equal. |
| Address.PostCodeDotZeroCounterexample | script.js:139-141 | As written, a post-code cell holding `.0` yields `{postCode: ""}`. The wrapped address then breaks sparsity, while the corrected address is empty. |
| Aliases.AliasesOf | script.js:144-147 | There are at most as many entries as alias columns, and every entry has type `"Also Known As"`. |
| Aliases.AliasesConcat | script.js:145-147 | Walking two column lists one after the other gives the two entry lists one after the other. |
| Aliases.FilledColumns | script.js:145-146 | The filled columns are exactly the alias columns whose cells are not empty. |
| Aliases.AliasesFollowColumns | script.js:145-147 | There is one entry per filled alias column, in column order, named by `String(cell)`. |
| Aliases.AliasesEmptyIff | script.js:145-148 | There are no aliases exactly when every alias cell is empty. |
| Aliases.AliasEntrySparse | script.js:146 | An entry with a non-empty name is sparse. |
| Aliases.AliasesSparse | script.js:144-147 | On a spreadsheet row every alias entry is sparse. |
| Lists.ListColumnsDistinct | script.js:153-163 | Different slots read different `List i` columns. |
| Lists.ListActive | script.js:158 | `String(row["Active List i"]).toLowerCase() === "true"`. |
| Lists.ActiveFlagExamples | script.js:158 | `"TRUE"` and `true` make a list active. `"yes"` and a missing cell do not. |
| Lists.EntryOfFields | script.js:154-163 | `id` and `name` hold the value, and `active` and `listActive` hold the flag. `hierarchy` is `[{id: v, name: v}]`. `since` and `to` are present exactly when the setter writes them. No other key occurs. |
| Lists.EntryCoreFields | script.js:154-161 | The entry before its dates is exactly the five-key object. |
| Lists.EntryOfDates | script.js:162-163 | The optional dates are added on top without touching the other keys. |
| Lists.EntryOfSparse | script.js:154-163 | An entry built from sparse parts is sparse. |
| Lists.EntryOf | script.js:154-163 | The entry `e`: `id` and `name` through the setter, the two flags, `hierarchy` when the value is not empty, then `since` and `to` through the setter. Its fields are stated by `EntryOfFields`. |
| Lists.ListsUpTo | script.js:151-165 | After slot `n` there are at most `n` entries. (Which entry is which is `ListsFollowSlots`.) |
| Lists.ListsOf | script.js:151-165 | `lists` after the loop over the four slots. |
| Lists.ListedSlots | script.js:152-153 | The listed slots are increasing, lie within `1..n`, and include every slot whose `List i` cell is not empty. |
| Lists.ListsFollowSlots | script.js:151-165 | `lists` holds one entry per listed slot, in slot order. |
| Lists.ListsPresent | script.js:151-166 | There is an entry exactly when some slot is listed. |
| Lists.ListEntryFields | script.js:153-163 | On a spreadsheet row the entry of a listed slot has `id == name ==` the getter's value and `active == listActive`. `hierarchy` is a single node. `since`/`to` are present exactly when their cells are not empty. |
| Lists.ListEntrySparse | script.js:153-164 | On a spreadsheet row every entry is sparse. |
| Lists.ListsSparse | script.js:151-166 | On a spreadsheet row `lists` has at most four entries, all sparse. |
| RowTransform.RecordOf | script.js:82-169 | The record `transformRow` returns: the direct fields, then `identityNumbers`, `addresses` (the address as written), `aliases` and `lists`. |
| RowTransform.RecordOfCorrected | script.js:82-169 | The same record with the corrected address. |
| RowTransform.AssembleFields | script.js:132-166 | The direct fields survive unchanged. `identityNumbers`, `aliases` and `lists` are present exactly when their lists are non-empty. `addresses` is present exactly when the address has a field, and is then `[addr]`. |
| RowTransform.AssembleSparse | script.js:132-166 | Sparse parts make a sparse record. |
| RowTransform.DirectFieldsKeys | script.js:95-105 | The direct fields are scalar or list columns and never composite keys. A scalar field holds the getter's value. |
| RowTransform.RecordShape | script.js:82-169 | A record has only the scalar columns, the list columns and the four composite keys. Its type tag is the one its direct fields give. |
| RowTransform.RecordIdentityNumbers | script.js:107-132 | A record's `identityNumbers`, when present, are the list for its own type tag. They have only allowed types and come in the fixed order. |
| RowTransform.DirectScalarField | script.js:96-105 | A scalar column's direct field is its scalar field. |
| RowTransform.RecordScalarPresence | script.js:96-97 | On a spreadsheet row a scalar field is present exactly when its cell is not empty, and holds the getter's value. |
| RowTransform.RecordComposites | script.js:132-166 | `addresses` is present exactly when some address cell is not empty, and is then `[address]` with the address as written. `aliases` is present exactly when some alias cell is filled, and `lists` exactly when some slot is listed. |
| RowTransform.RecordSparse | script.js:82-169 | Corrected record: on a spreadsheet row no field is null, an empty string, an empty list or an empty object, at any depth. |
| RowTransform.RecordCorrection | script.js:139-141 | The record `transformRow` returns and the corrected record agree on every key but `addresses`, and are equal when the post code does not strip to `""`. |
| RowTransform.RecordSparseAsWritten | script.js:82-169 | The record `transformRow` returns is sparse on every spreadsheet row whose post code does not strip to `""`. |
| RowTransform.RecordDotZeroCounterexample | script.js:139-141 | For a row whose post-code cell is `.0`, `transformRow` returns `addresses: [{postCode: ""}]`, which is not sparse; the corrected record has no `addresses`. |
| RowTransform.AddScalarFields | script.js:96-97 | The scalar loop leaves exactly the scalar fields in the new object. |
| RowTransform.AddArrayFields | script.js:99-105 | The list-column loop adds exactly the list fields. |
| RowTransform.PushIdIfPresent | script.js:126-129 | One guarded push extends the list by the entry of the next column. |
| RowTransform.CollectIdentityNumbers | script.js:108-130 | `ids` is the tax part, plus the company part for COMPANY or the personal part for PERSON. |
| RowTransform.CollectTax | script.js:111-112 | The tax number, when present. |
| RowTransform.CollectCompany | script.js:115-118 | The DUNS number, then the LEI, each when present. |
| RowTransform.CollectPerson | script.js:122-129 | The loop over the personal-document columns. |
| RowTransform.AddAddressField | script.js:136-140 | One conditional address assignment, as the code makes it: the field is written when its cell is not empty. |
| RowTransform.BuildAddress | script.js:135-140 | A fresh address object holding exactly the address as written. |
| RowTransform.CollectAliases | script.js:144-147 | The alias loop's `aliases` is the entries of the filled alias columns. |
| RowTransform.BuildListEntry | script.js:154-163 | A fresh entry object holding exactly the slot's entry. |
| RowTransform.CollectLists | script.js:151-165 | The slot loop, with its `continue`, gives the entries of the listed slots. |
| RowTransform.TransformRow | script.js:82-169 | The record built by mutation is `RecordOf` of the row, the record as written. |
| Batch.AliasColumns | script.js:189 | A header is an alias column exactly when it is one of the first row's headers, its lower-cased form starts with `aliases`, and it ends in a digit. |
| Batch.IsAliasHeader | script.js:189 | The header test: lower-cased it starts with `aliases`, and it ends in a digit. |
| Batch.AliasColumnsConcat | script.js:189 | The filter keeps header order. |
| Batch.AliasHeaderCases | script.js:189 | With any casing of `aliases` as prefix, a header is kept exactly when its last character is a digit. |
| Batch.Records | script.js:191 | One record per row, in row order, each the record `transformRow` returns for that row. |
| Batch.Lines | script.js:192 | One serialised line per record, in order. |
| Batch.Jsonl | script.js:192 | The serialised records joined with `"\n"`. |
| Batch.JsonlLines | script.js:192 | When no serialised record holds a raw newline, the JSONL text splits back into exactly the per-record lines. |
| Batch.JsonlConcat | script.js:192 | The JSONL of two batches is their two texts joined by one newline. |
| Batch.JoinConcat | script.js:192 | Joining a concatenation is joining each half with one separator between. |
| Batch.Preview | script.js:195 | A text of at most 4000 characters is shown whole. A longer one shows its first 4000 characters followed by the marker. |
| Batch.PreviewBounds | script.js:195 | The preview never exceeds 4000 characters plus the marker and always starts with the text's first characters. It runs past 4000 characters exactly when the text does. |
| Batch.ProcessRows | script.js:182-195 | The zero-rows exit is taken exactly for an empty sheet. Otherwise the preview is the preview of the JSONL text. |
| Batch.ProcessRowsLines | script.js:188-192 | For a non-empty sheet the JSONL text has one line per row, and line `i` is the serialised record `transformRow` returns for row `i`. The records use the alias columns of the first row's headers. |

## Left out

- The DOM wiring is not modelled: element lookup, the click handler and the status messages (script.js:5-9, 176, 183-184, 205-221). It is user interface only.
- Reading the file and decoding the workbook are not modelled (script.js:177-180). The rows are an input.
- The Blob, the object URL, the download link and the `.jsonl` file name are not modelled (script.js:198-203). They are browser I/O.
- The `try`/`catch` error path and `async` are not modelled. The model has no exceptions and no concurrency.
- The internals of `new Date(...)` and `toISOString` are not modelled. Non-Date values go through the `DateParser` parameter. A Date cell carries its renderings. An Invalid Date cell, for which `toISOString` throws, is not modelled.
- `String(n)` number formatting is not modelled. A number is carried as that text.
- `JSON.stringify` is the `Serializer` parameter. Its escaping and the key order of the output are not modelled; records are maps, so insertion order is lost.
- The unused helper `getVal` (script.js:66-77) is not modelled. It is never called.
- `null` and `undefined` are one value. The code treats them alike everywhere except in `String(...)`, and no modelled path depends on that difference.
- JsStrings.Trim: its own contract does not pin the result down; that the result is exactly the input without its leading and trailing whitespace is proved as `TrimMeaning`, kept out of the contract because every proof that trims would carry it.
- JsValues.CleanAndSplit: its own contract gives the shape of the result; which branch gives what is proved for all inputs as `CleanAndSplitCases`, kept out of the contract for the same reason.
- RowFields.GetRowVal: its own contract does not give the value read; that is proved for all inputs as `GetRowValReads`, kept out of the contract for the same reason.
- Lists.ListsUpTo: its own contract gives only the count bound; the entries, one per listed slot in slot order, are stated by `ListsFollowSlots`.
- JsStrings.Lower: it maps only ASCII letters. This is exact for the comparisons with `"nan"`, `"true"` and `"aliases"`.
- JsStrings.Upper: it maps only ASCII letters, while `toUpperCase` also maps others (`ſ` becomes `S`, `ß` becomes `SS`).
- RowFields.TypeTag: because `Upper` is ASCII-only, a `type` such as `perſon` tags PERSON in the code but nothing in the model.
- Address.CountryCode: `toUpperCase` beyond ASCII is not modelled. A non-ASCII country code may differ.
- Address.CountryCode: `slice(0, 2)` and the 4000-character preview count UTF-16 code units. The model counts characters, which differ only outside the Basic Multilingual Plane.
- Batch.JsonlLines: it assumes that serialised records hold no raw newline. `JSON.stringify` guarantees this, but its text is not modelled.

Where the specification and the code differ, the model follows the code:

- There is no header normaliser. Columns are looked up by their literal header text. The `Driving Licence No.\t` and `Passport No.\t` headers include a trailing tab.
- An active flag is true only for `"true"` in any case. Other yes-like tokens are false.
- `gender` and the other scalar columns are copied whatever the entity type.
- An alias entry always uses `name`, never `companyName`.
- An alias header must end in a digit.
- A row whose record is empty still yields a line (`{}`).
- The address reads the cells directly, not through `getRowVal`.

## Findings

| source | as written | input that shows it | evidently intended | confidence | as-written member | corrected member |
|---|---|---|---|---|---|---|
| script.js:139 | The `isEmpty` test runs on the raw post-code cell. The `.0` is stripped afterwards, so stripping can leave the empty string, which is stored. | a row whose `postCode` cell is the string `".0"` and whose other address cells are empty: `transformRow` returns a record with `addresses: [{postCode: ""}]` | no address field, like every other field, is an empty string: a post code that strips to `""` is left out (a stripped `nan` or blank text is not empty and is kept, as the code keeps it) | not executed | RowTransform.RecordDotZeroCounterexample | RowTransform.RecordSparse |
