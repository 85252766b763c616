/** The sanction-list block of `transformRow`: the four numbered list slots
    `List 1` … `List 4`, each with its `Active List i`, `Since List i` and
    `To List i` companions. */
module Lists {
  import opened JsStrings
  import opened JsValues
  import opened JsObjects
  import opened RowFields

  /** The number of list slots. */
  const ListSlots: nat := 4

  /** The decimal digit of a slot number. */
  function Digit(i: nat): (d: char)
    requires 1 <= i <= 9
    ensures '1' <= d <= '9'
  {
    ('0' as int + i) as char
  }

  /** `List ${i}` */
  function ListColumn(i: nat): string
    requires 1 <= i <= ListSlots
  {
    "List " + [Digit(i)]
  }

  function ActiveListColumn(i: nat): string
    requires 1 <= i <= ListSlots
  {
    "Active List " + [Digit(i)]
  }

  function SinceListColumn(i: nat): string
    requires 1 <= i <= ListSlots
  {
    "Since List " + [Digit(i)]
  }

  function ToListColumn(i: nat): string
    requires 1 <= i <= ListSlots
  {
    "To List " + [Digit(i)]
  }

  /** Different slots read different columns. */
  lemma ListColumnsDistinct(i: nat, j: nat)
    requires 1 <= i <= ListSlots && 1 <= j <= ListSlots && i != j
    ensures ListColumn(i) != ListColumn(j)
    ensures ListColumn(i) != ActiveListColumn(j) && ListColumn(i) != SinceListColumn(j)
  {
    assert ListColumn(i)[5] != ListColumn(j)[5];
  }

  /** `String(row[`Active List ${i}`]).toLowerCase() === "true"` */
  predicate ListActive(row: Row, i: nat)
    requires 1 <= i <= ListSlots
  {
    Lower(JsString(Cell(row, ActiveListColumn(i)))) == "true"
  }

  /** Only the text `true`, in any case, or the boolean `true`, makes a list
      active; other yes-like values do not. */
  lemma ActiveFlagExamples(row: Row)
    requires Cell(row, ActiveListColumn(1)) == Str("TRUE")
    requires Cell(row, ActiveListColumn(2)) == Bool(true)
    requires Cell(row, ActiveListColumn(3)) == Str("yes")
    requires Cell(row, ActiveListColumn(4)) == Null
    ensures ListActive(row, 1) && ListActive(row, 2)
    ensures !ListActive(row, 3) && !ListActive(row, 4)
  {
    assert Lower("TRUE") == "true";
    assert Lower("yes") == "yes";
    assert Lower("null") == "null";
  }

  /** `{id: v, name: v}` */
  function HierarchyNode(v: JsValue): JsValue {
    Obj(map["id" := v, "name" := v])
  }

  /** The entry object `e` built for slot `i`. */
  function ListEntry(row: Row, i: nat): map<string, JsValue>
    requires 1 <= i <= ListSlots
  {
    EntryOf(GetRowVal(row, ListColumn(i)), ListActive(row, i),
            GetRowVal(row, SinceListColumn(i)), GetRowVal(row, ToListColumn(i)))
  }

  /** The entry for list value `v`, flag `active` and dates `since`, `to`. */
  function EntryOf(v: JsValue, active: bool, since: JsValue, to: JsValue): map<string, JsValue> {
    var e := SetIfNotEmpty(SetIfNotEmpty(map[], "id", v), "name", v);
    var e := e["active" := Bool(active)]["listActive" := Bool(active)];
    var e := if !IsEmpty(v) then e["hierarchy" := Arr([HierarchyNode(v)])] else e;
    var e := SetIfNotEmpty(e, "since", since);
    SetIfNotEmpty(e, "to", to)
  }

  /** The entry before its optional dates. */
  function EntryCore(v: JsValue, active: bool): map<string, JsValue> {
    var e := SetIfNotEmpty(SetIfNotEmpty(map[], "id", v), "name", v);
    var e := e["active" := Bool(active)]["listActive" := Bool(active)];
    if !IsEmpty(v) then e["hierarchy" := Arr([HierarchyNode(v)])] else e
  }

  lemma EntryOfSteps(v: JsValue, active: bool, since: JsValue, to: JsValue)
    ensures EntryOf(v, active, since, to) == SetIfNotEmpty(SetIfNotEmpty(EntryCore(v, active), "since", since), "to", to)
  {
  }

  /** The fields of an entry whose value is present, before its dates. */
  lemma EntryCoreFields(v: JsValue, active: bool)
    requires Settable(v) && !IsEmpty(v)
    ensures var c := EntryCore(v, active);
            && "id" in c && "name" in c && c["id"] == v && c["name"] == v
            && "active" in c && "listActive" in c
            && c["active"] == Bool(active) && c["listActive"] == Bool(active)
            && "hierarchy" in c && c["hierarchy"] == Arr([HierarchyNode(v)])
            && (forall k :: k in c ==> k in CoreKeys)
  {
    var e1 := SetIfNotEmpty(SetIfNotEmpty(map[], "id", v), "name", v);
    assert forall k :: k in e1 ==> k == "id" || k == "name";
  }

  /** The keys of an entry before its dates. */
  const CoreKeys: set<string> := {"id", "name", "active", "listActive", "hierarchy"}

  /** The dates are added on top of the core without touching it. */
  lemma EntryOfDates(core: map<string, JsValue>, since: JsValue, to: JsValue)
    requires "since" !in core && "to" !in core
    ensures var e := SetIfNotEmpty(SetIfNotEmpty(core, "since", since), "to", to);
            && (forall k :: k in core ==> k in e && e[k] == core[k])
            && (forall k :: k in e ==> k in core || k == "since" || k == "to")
            && ("since" in e <==> Settable(since)) && ("since" in e ==> e["since"] == since)
            && ("to" in e <==> Settable(to)) && ("to" in e ==> e["to"] == to)
  {
  }

  lemma EntryOfFields(v: JsValue, active: bool, since: JsValue, to: JsValue)
    requires Settable(v) && !IsEmpty(v)
    ensures var e := EntryOf(v, active, since, to);
            && "id" in e && "name" in e && e["id"] == v && e["name"] == v
            && "active" in e && "listActive" in e
            && e["active"] == Bool(active) && e["listActive"] == Bool(active)
            && "hierarchy" in e && e["hierarchy"] == Arr([HierarchyNode(v)])
            && ("since" in e <==> Settable(since)) && ("since" in e ==> e["since"] == since)
            && ("to" in e <==> Settable(to)) && ("to" in e ==> e["to"] == to)
            && (forall k :: k in e ==> k in CoreKeys || k == "since" || k == "to")
  {
    EntryOfSteps(v, active, since, to);
    EntryCoreFields(v, active);
    assert "since" !in CoreKeys && "to" !in CoreKeys;
    EntryOfDates(EntryCore(v, active), since, to);
    EntryOfCoreKeys(v, active, since, to);
  }

  /** The core fields survive the dates. */
  lemma EntryOfCoreKeys(v: JsValue, active: bool, since: JsValue, to: JsValue)
    requires Settable(v) && !IsEmpty(v)
    ensures var e := EntryOf(v, active, since, to);
            && "id" in e && "name" in e && e["id"] == v && e["name"] == v
            && "active" in e && "listActive" in e
            && e["active"] == Bool(active) && e["listActive"] == Bool(active)
            && "hierarchy" in e && e["hierarchy"] == Arr([HierarchyNode(v)])
  {
    var core := EntryCore(v, active);
    EntryOfSteps(v, active, since, to);
    EntryCoreFields(v, active);
    assert "since" !in CoreKeys && "to" !in CoreKeys;
    EntryOfDates(core, since, to);
  }

  /** The hierarchy of a sparse value is sparse. */
  lemma HierarchySparse(v: JsValue)
    requires Settable(v) && Sparse(v)
    ensures Sparse(Arr([HierarchyNode(v)]))
  {
    assert HierarchyNode(v).props["id"] == v;
    assert Sparse(HierarchyNode(v));
    assert Arr([HierarchyNode(v)]).items[0] == HierarchyNode(v);
  }

  /** Every value of `m` is sparse. */
  predicate ValuesSparse(m: map<string, JsValue>) {
    forall k :: k in m ==> Sparse(m[k])
  }

  lemma ValuesSparseSet(m: map<string, JsValue>, key: string, val: JsValue)
    requires ValuesSparse(m) && (Settable(val) ==> Sparse(val))
    ensures ValuesSparse(SetIfNotEmpty(m, key, val))
  {
  }

  /** An entry built from sparse parts is sparse. */
  lemma EntryOfSparse(v: JsValue, active: bool, since: JsValue, to: JsValue)
    requires Settable(v) && !IsEmpty(v) && Sparse(v)
    requires Settable(since) ==> Sparse(since)
    requires Settable(to) ==> Sparse(to)
    ensures Sparse(Obj(EntryOf(v, active, since, to)))
  {
    var e1 := SetIfNotEmpty(map[], "id", v);
    ValuesSparseSet(map[], "id", v);
    var e2 := SetIfNotEmpty(e1, "name", v);
    ValuesSparseSet(e1, "name", v);
    var e3 := e2["active" := Bool(active)]["listActive" := Bool(active)];
    HierarchySparse(v);
    var core := e3["hierarchy" := Arr([HierarchyNode(v)])];
    assert core == EntryCore(v, active);
    assert ValuesSparse(core);
    var e4 := SetIfNotEmpty(core, "since", since);
    ValuesSparseSet(core, "since", since);
    ValuesSparseSet(e4, "to", to);
    EntryOfSteps(v, active, since, to);
    assert "id" in EntryOf(v, active, since, to);
  }

  /** The slot is skipped exactly when its `List i` cell is empty. */
  predicate Listed(row: Row, i: nat)
    requires 1 <= i <= ListSlots
  {
    !IsEmpty(Cell(row, ListColumn(i)))
  }

  /** The entries of slots `1..n`, in slot order. */
  function ListsUpTo(row: Row, n: nat): (r: seq<JsValue>)
    requires n <= ListSlots
    ensures |r| <= n
  {
    if n == 0 then []
    else ListsUpTo(row, n - 1) + (if Listed(row, n) then [Obj(ListEntry(row, n))] else [])
  }

  /** `lists` after the loop. */
  function ListsOf(row: Row): seq<JsValue> {
    ListsUpTo(row, ListSlots)
  }

  /** The slots among `1..n` that are listed, in increasing order. */
  function ListedSlots(row: Row, n: nat): (s: seq<nat>)
    requires n <= ListSlots
    ensures forall j :: 0 <= j < |s| ==> 1 <= s[j] <= n && Listed(row, s[j])
    ensures forall j, k :: 0 <= j < k < |s| ==> s[j] < s[k]
    ensures forall i :: 1 <= i <= n && Listed(row, i) ==> i in s
  {
    if n == 0 then []
    else ListedSlots(row, n - 1) + (if Listed(row, n) then [n] else [])
  }

  /** `lists` holds, position by position, the entries of the slots `slots`. */
  predicate EntriesOf(row: Row, lists: seq<JsValue>, slots: seq<nat>) {
    && |lists| == |slots|
    && forall j :: 0 <= j < |lists| ==> 1 <= slots[j] <= ListSlots && lists[j] == Obj(ListEntry(row, slots[j]))
  }

  lemma EntriesAppend(row: Row, lists: seq<JsValue>, slots: seq<nat>, i: nat)
    requires EntriesOf(row, lists, slots) && 1 <= i <= ListSlots
    ensures EntriesOf(row, lists + [Obj(ListEntry(row, i))], slots + [i])
  {
    var lists' := lists + [Obj(ListEntry(row, i))];
    var slots' := slots + [i];
    forall j | 0 <= j < |lists'| ensures 1 <= slots'[j] <= ListSlots && lists'[j] == Obj(ListEntry(row, slots'[j])) {
      if j < |lists| {
        assert lists'[j] == lists[j] && slots'[j] == slots[j];
      }
    }
  }

  /** `lists` holds one entry per listed slot, in slot order. */
  lemma {:induction false} ListsFollowSlots(row: Row, n: nat)
    requires n <= ListSlots
    ensures EntriesOf(row, ListsUpTo(row, n), ListedSlots(row, n))
  {
    if n > 0 {
      ListsFollowSlots(row, n - 1);
      var lists := ListsUpTo(row, n - 1);
      var slots := ListedSlots(row, n - 1);
      if Listed(row, n) {
        assert ListsUpTo(row, n) == lists + [Obj(ListEntry(row, n))];
        assert ListedSlots(row, n) == slots + [n];
        EntriesAppend(row, lists, slots, n);
      } else {
        assert ListsUpTo(row, n) == lists;
        assert ListedSlots(row, n) == slots;
      }
    }
  }

  /** There is an entry exactly when some slot is listed. */
  lemma ListsPresent(row: Row)
    ensures ListsOf(row) != [] <==> exists i :: 1 <= i <= ListSlots && Listed(row, i)
  {
    ListsFollowSlots(row, ListSlots);
    var slots := ListedSlots(row, ListSlots);
    if i :| 1 <= i <= ListSlots && Listed(row, i) {
      assert i in slots;
    }
    if ListsOf(row) != [] {
      assert 1 <= slots[0] <= ListSlots && Listed(row, slots[0]);
    }
  }

  /** The entry of a listed slot: `id` and `name` both hold the slot's
      value, `active` and `listActive` both hold the active flag, the
      hierarchy is the single node for the value, and `since` and `to` are
      there exactly when their cells are not empty. */
  lemma ListEntryFields(row: Row, i: nat)
    requires 1 <= i <= ListSlots && Listed(row, i) && IsSheetRow(row)
    ensures var e := ListEntry(row, i);
            var v := GetRowVal(row, ListColumn(i));
            && "id" in e && "name" in e && e["id"] == v && e["name"] == v
            && "active" in e && "listActive" in e
            && e["active"] == Bool(ListActive(row, i)) && e["listActive"] == Bool(ListActive(row, i))
            && "hierarchy" in e && e["hierarchy"] == Arr([HierarchyNode(v)])
            && ("since" in e <==> !IsEmpty(Cell(row, SinceListColumn(i))))
            && ("to" in e <==> !IsEmpty(Cell(row, ToListColumn(i))))
            && (forall k :: k in e ==> k in CoreKeys || k == "since" || k == "to")
  {
    GetRowValOnSheet(row, ListColumn(i));
    GetRowValOnSheet(row, SinceListColumn(i));
    GetRowValOnSheet(row, ToListColumn(i));
    EntryOfFields(GetRowVal(row, ListColumn(i)), ListActive(row, i),
                  GetRowVal(row, SinceListColumn(i)), GetRowVal(row, ToListColumn(i)));
  }

  /** On a spreadsheet row every entry is sparse. */
  lemma ListEntrySparse(row: Row, i: nat)
    requires 1 <= i <= ListSlots && Listed(row, i) && IsSheetRow(row)
    ensures Sparse(Obj(ListEntry(row, i)))
  {
    GetRowValOnSheet(row, ListColumn(i));
    GetRowValOnSheet(row, SinceListColumn(i));
    GetRowValOnSheet(row, ToListColumn(i));
    EntryOfSparse(GetRowVal(row, ListColumn(i)), ListActive(row, i),
                  GetRowVal(row, SinceListColumn(i)), GetRowVal(row, ToListColumn(i)));
  }

  /** On a spreadsheet row `lists` is a list of sparse entries, at most one per slot. */
  lemma ListsSparse(row: Row)
    requires IsSheetRow(row)
    ensures |ListsOf(row)| <= ListSlots
    ensures forall j :: 0 <= j < |ListsOf(row)| ==> Sparse(ListsOf(row)[j])
  {
    ListsFollowSlots(row, ListSlots);
    var slots := ListedSlots(row, ListSlots);
    forall j | 0 <= j < |ListsOf(row)| ensures Sparse(ListsOf(row)[j]) {
      ListEntrySparse(row, slots[j]);
    }
  }
}
