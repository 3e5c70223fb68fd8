/** The admin-side updates of the `persons` and `person_spouses` tables
    that carry invariants: replacing one person's spouse list
    (`setSpouseNames`, with `normalizeMulti`) and deleting a person, which
    is refused while the person has children. */
module FamilyDb {
  import opened Wrappers
  import opened JsText
  import opened Persons
  import opened JsValues
  import TreeBuilder

  /** One row of `person_spouses`. The table's autoincrement `id` is the
      row's position in the table sequence: rows are appended in id order. */
  datatype SpouseRow = SpouseRow(personId: int, spouseName: string, ord: int)

  /** `normalizeMulti(value)`: a falsy value gives `[]`, an array is kept
      as it is, any other value is wrapped in a one-element array. */
  function NormalizeMulti(v: JsValue): seq<JsScalar>
  {
    match v
    case One(x) => if Truthy(x) then [x] else []
    case Arr(items) => items
  }

  /** The form yields no items exactly when the field is falsy (absent,
      `null`, `false`, `0`, `""`) or an empty array; a value that is not an
      array is never split, and an array is kept element for element. */
  lemma NormalizeMultiEmptyIff(v: JsValue)
    ensures NormalizeMulti(v) == [] <==> (v.One? && !Truthy(v.x)) || v == Arr([])
    ensures v.One? ==> |NormalizeMulti(v)| <= 1
    ensures v.One? && Truthy(v.x) ==> NormalizeMulti(v) == [v.x]
    ensures v.Arr? ==> NormalizeMulti(v) == v.items
  {
  }

  /** `String(s || "")`: a falsy item reads as the empty string, any other
      item as its `String`. */
  function ItemText(x: JsScalar): (r: string)
    ensures r == "" <==> !Truthy(x)
  {
    if Truthy(x) then JsString(x) else ""
  }

  /** Each item turned into text, in order. */
  function Texts(items: seq<JsScalar>): (r: seq<string>)
    ensures |r| == |items|
  {
    seq(|items|, k requires 0 <= k < |items| => ItemText(items[k]))
  }

  /** `.map(s => s.trim()).filter(Boolean)`: each text trimmed, the blank
      ones dropped, the order kept. */
  function CleanNames(names: seq<string>): (r: seq<string>)
    ensures |r| <= |names|
    ensures forall k :: 0 <= k < |r| ==> IsCleanName(r[k])
  {
    if names == [] then []
    else
      var t := Trim(names[0]);
      var rest := CleanNames(names[1..]);
      if t == [] then rest
      else
        assert IsCleanName(t);
        ConsClean(t, rest);
        [t] + rest
  }

  lemma ConsClean(t: string, rest: seq<string>)
    requires IsCleanName(t) && forall k :: 0 <= k < |rest| ==> IsCleanName(rest[k])
    ensures forall k :: 0 <= k < |[t] + rest| ==> IsCleanName(([t] + rest)[k])
  {
  }

  /** A name as `setSpouseNames` stores it: not blank, and with no white
      space at either end (so it is its own trim). */
  predicate IsCleanName(s: string) {
    s != [] && !IsJsWhitespace(s[0]) && !IsJsWhitespace(s[|s| - 1])
  }

  /** The names `setSpouseNames` stores for a form value. */
  function CleanSpouseNames(v: JsValue): (r: seq<string>)
    ensures v.One? && !Truthy(v.x) ==> r == []
    ensures v.One? && v.x.Str? ==> r == (if Trim(v.x.s) == [] then [] else [Trim(v.x.s)])
    ensures forall k :: 0 <= k < |r| ==> IsCleanName(r[k])
  {
    CleanNames(Texts(NormalizeMulti(v)))
  }

  /** Cleaning treats every name on its own: cleaning a concatenation is
      concatenating the cleaned parts, so the order of names is kept. */
  lemma {:induction false} CleanNamesAppend(a: seq<string>, b: seq<string>)
    ensures CleanNames(a + b) == CleanNames(a) + CleanNames(b)
  {
    if a != [] {
      assert (a + b)[1..] == a[1..] + b;
      CleanNamesAppend(a[1..], b);
    } else {
      assert a + b == b;
    }
  }

  /** A list of names that are already trimmed and non-blank comes back
      unchanged. */
  lemma {:induction false} CleanNamesKeepsCleanList(names: seq<string>)
    requires forall k :: 0 <= k < |names| ==> IsCleanName(names[k])
    ensures CleanNames(names) == names
  {
    if names != [] {
      TrimKeepsBoundedString(names[0]);
      CleanNamesKeepsCleanList(names[1..]);
    }
  }

  /** Texts that are white space only (the empty text included) give no
      name. */
  lemma {:induction false} CleanNamesDropsBlank(names: seq<string>)
    requires forall k :: 0 <= k < |names| ==> AllWhitespace(names[k])
    ensures CleanNames(names) == []
  {
    if names != [] {
      TrimEmptyIff(names[0]);
      CleanNamesDropsBlank(names[1..]);
    }
  }

  /** Items that are falsy (`null`, `undefined`, `false`, `0`, `""`) or
      white space only store no name. */
  lemma FalsyItemsStoreNothing(items: seq<JsScalar>)
    requires forall k :: 0 <= k < |items| ==> !Truthy(items[k]) || (items[k].Str? && AllWhitespace(items[k].s))
    ensures CleanNames(Texts(items)) == []
  {
    CleanNamesDropsBlank(Texts(items));
  }

  /** Items that are not strings are stored as their `String`: a number as
      its decimal text, `true` as `"true"`, an object as
      `"[object Object]"`. */
  lemma NonStringNames()
    ensures CleanNames(Texts([Num(-7), Bool(true), Obj])) == ["-7", "true", "[object Object]"]
  {
    assert Decimal(7) == "7";
    assert ItemText(Num(-7)) == "-7";
    assert ItemText(Bool(true)) == "true";
    assert Texts([Num(-7), Bool(true), Obj]) == ["-7", "true", "[object Object]"];
    CleanNamesKeepsCleanList(["-7", "true", "[object Object]"]);
  }

  /** The form values of a list of strings. */
  function Strs(names: seq<string>): (r: seq<JsScalar>)
    ensures |r| == |names| && forall k :: 0 <= k < |r| ==> r[k] == Str(names[k])
  {
    if names == [] then [] else [Str(names[0])] + Strs(names[1..])
  }

  /** Names that are already trimmed and non-blank, submitted again as
      strings, are stored unchanged. */
  lemma ResubmittedNamesKept(names: seq<string>)
    requires forall k :: 0 <= k < |names| ==> IsCleanName(names[k])
    ensures CleanNames(Texts(Strs(names))) == names
  {
    assert Texts(Strs(names)) == names;
    CleanNamesKeepsCleanList(names);
  }

  /*** The person_spouses table ***/

  /** One person's rows, in table (id) order. */
  function RowsOf(t: seq<SpouseRow>, pid: int): (r: seq<SpouseRow>)
    ensures forall k :: 0 <= k < |r| ==> r[k].personId == pid && r[k] in t
  {
    if t == [] then []
    else
      var last := t[|t| - 1];
      RowsOf(t[..|t| - 1], pid) + (if last.personId == pid then [last] else [])
  }

  /** The spouse names of one person, in table order. */
  function SpouseNames(t: seq<SpouseRow>, pid: int): (r: seq<string>)
    ensures |r| == |RowsOf(t, pid)|
  {
    seq(|RowsOf(t, pid)|, k requires 0 <= k < |RowsOf(t, pid)| => RowsOf(t, pid)[k].spouseName)
  }

  /** `DELETE FROM person_spouses WHERE person_id = ?`. */
  function WithoutPerson(t: seq<SpouseRow>, pid: int): (r: seq<SpouseRow>)
    ensures forall row :: row in r <==> row in t && row.personId != pid
  {
    if t == [] then []
    else
      var last := t[|t| - 1];
      WithoutPerson(t[..|t| - 1], pid) + (if last.personId != pid then [last] else [])
  }

  /** The rows the insertion loop appends: the `k`-th name with ord `k + 1`. */
  function Numbered(pid: int, names: seq<string>): (r: seq<SpouseRow>)
  {
    seq(|names|, k requires 0 <= k < |names| => SpouseRow(pid, names[k], k + 1))
  }

  lemma NumberedInit(pid: int, names: seq<string>)
    requires names != []
    ensures Numbered(pid, names)[..|names| - 1] == Numbered(pid, names[..|names| - 1])
    ensures Numbered(pid, names)[|names| - 1] == SpouseRow(pid, names[|names| - 1], |names|)
  {
  }

  lemma NumberedSnoc(pid: int, names: seq<string>, i: nat)
    requires i < |names|
    ensures Numbered(pid, names[..i + 1]) == Numbered(pid, names[..i]) + [SpouseRow(pid, names[i], i + 1)]
  {
  }

  /** The table after `setSpouseNames(pid, v)`. */
  function AfterSetSpouses(t: seq<SpouseRow>, pid: int, v: JsValue): (r: seq<SpouseRow>)
    ensures forall row: SpouseRow :: row.personId != pid ==> (row in r <==> row in t)
    ensures forall row :: row in r && row.personId == pid ==>
      1 <= row.ord <= |CleanSpouseNames(v)| && IsCleanName(row.spouseName)
  {
    WithoutPerson(t, pid) + Numbered(pid, CleanSpouseNames(v))
  }

  /** Every person's rows carry the ords 1, 2, ..., n in table order, so
      `ORDER BY ord ASC, id ASC` reads them in table order. */
  ghost predicate OrdsConsecutive(t: seq<SpouseRow>) {
    forall pid, k :: 0 <= k < |RowsOf(t, pid)| ==> RowsOf(t, pid)[k].ord == k + 1
  }

  /** Every stored spouse name is trimmed and non-blank. */
  predicate NamesClean(t: seq<SpouseRow>) {
    forall k :: 0 <= k < |t| ==> IsCleanName(t[k].spouseName)
  }

  lemma {:induction false} RowsOfAppend(a: seq<SpouseRow>, b: seq<SpouseRow>, pid: int)
    ensures RowsOf(a + b, pid) == RowsOf(a, pid) + RowsOf(b, pid)
  {
    if b != [] {
      assert (a + b)[..|a + b| - 1] == a + b[..|b| - 1];
      RowsOfAppend(a, b[..|b| - 1], pid);
    } else {
      assert a + b == a;
    }
  }

  /** Deleting one person's rows empties that person's list and leaves
      every other person's list as it was. */
  lemma {:induction false} RowsOfWithoutPerson(t: seq<SpouseRow>, pid: int, q: int)
    ensures RowsOf(WithoutPerson(t, pid), q) == if q == pid then [] else RowsOf(t, q)
  {
    if t != [] {
      var init, last := t[..|t| - 1], t[|t| - 1];
      RowsOfWithoutPerson(init, pid, q);
      RowsOfAppend(WithoutPerson(init, pid), if last.personId != pid then [last] else [], q);
    }
  }

  lemma {:induction false} RowsOfNumbered(pid: int, names: seq<string>, q: int)
    ensures RowsOf(Numbered(pid, names), q) == if q == pid then Numbered(pid, names) else []
  {
    if names != [] {
      var init := names[..|names| - 1];
      NumberedInit(pid, names);
      RowsOfNumbered(pid, init, q);
      NumberedSnoc(pid, names, |names| - 1);
      assert names[..|names|] == names;
    }
  }

  /** `setSpouseNames(pid, v)` leaves the person with exactly the cleaned
      names, in their order, with ords 1..n and none of the previous rows,
      and leaves every other person's rows as they were. */
  lemma SetSpousesEffect(t: seq<SpouseRow>, pid: int, v: JsValue)
    ensures SpouseNames(AfterSetSpouses(t, pid, v), pid) == CleanSpouseNames(v)
    ensures forall k :: 0 <= k < |RowsOf(AfterSetSpouses(t, pid, v), pid)| ==>
      RowsOf(AfterSetSpouses(t, pid, v), pid)[k].ord == k + 1
    ensures forall q :: q != pid ==> RowsOf(AfterSetSpouses(t, pid, v), q) == RowsOf(t, q)
  {
    RowsAfterSetSpouses(t, pid, v, pid);
    forall q | q != pid ensures RowsOf(AfterSetSpouses(t, pid, v), q) == RowsOf(t, q) {
      RowsAfterSetSpouses(t, pid, v, q);
    }
  }

  lemma RowsAfterSetSpouses(t: seq<SpouseRow>, pid: int, v: JsValue, q: int)
    ensures RowsOf(AfterSetSpouses(t, pid, v), q)
      == if q == pid then Numbered(pid, CleanSpouseNames(v)) else RowsOf(t, q)
  {
    var names := CleanSpouseNames(v);
    RowsOfAppend(WithoutPerson(t, pid), Numbered(pid, names), q);
    RowsOfWithoutPerson(t, pid, q);
    RowsOfNumbered(pid, names, q);
  }

  /** `setSpouseNames` keeps both table invariants. */
  lemma SetSpousesKeepsInvariants(t: seq<SpouseRow>, pid: int, v: JsValue)
    requires OrdsConsecutive(t) && NamesClean(t)
    ensures OrdsConsecutive(AfterSetSpouses(t, pid, v))
    ensures NamesClean(AfterSetSpouses(t, pid, v))
  {
    SetSpousesKeepsOrds(t, pid, v);
    SetSpousesKeepsNamesClean(t, pid, v);
  }

  lemma SetSpousesKeepsOrds(t: seq<SpouseRow>, pid: int, v: JsValue)
    requires OrdsConsecutive(t)
    ensures OrdsConsecutive(AfterSetSpouses(t, pid, v))
  {
    var after := AfterSetSpouses(t, pid, v);
    forall q, k | 0 <= k < |RowsOf(after, q)|
      ensures RowsOf(after, q)[k].ord == k + 1
    {
      RowsAfterSetSpouses(t, pid, v, q);
    }
  }

  lemma SetSpousesKeepsNamesClean(t: seq<SpouseRow>, pid: int, v: JsValue)
    requires NamesClean(t)
    ensures NamesClean(AfterSetSpouses(t, pid, v))
  {
    var after := AfterSetSpouses(t, pid, v);
    var w := WithoutPerson(t, pid);
    var names := CleanSpouseNames(v);
    forall k | 0 <= k < |after|
      ensures IsCleanName(after[k].spouseName)
    {
      if k < |w| {
        assert after[k] == w[k] && w[k] in t;
      } else {
        assert after[k] == Numbered(pid, names)[k - |w|];
      }
    }
  }

  /** The stored names of a table whose names are clean are clean. */
  lemma StoredNamesClean(t: seq<SpouseRow>, pid: int)
    requires NamesClean(t)
    ensures forall k :: 0 <= k < |SpouseNames(t, pid)| ==> IsCleanName(SpouseNames(t, pid)[k])
  {
    var rows := RowsOf(t, pid);
    forall k | 0 <= k < |rows| ensures IsCleanName(rows[k].spouseName) {
      assert rows[k] in t;
    }
  }

  /** Numbering a person's names afresh gives back that person's rows
      when their ords were already 1..n. */
  lemma RenumberIsIdentity(t: seq<SpouseRow>, pid: int)
    requires OrdsConsecutive(t)
    ensures Numbered(pid, SpouseNames(t, pid)) == RowsOf(t, pid)
  {
  }

  /** Submitting a person's stored names again (as the edit form does)
      changes no one's spouse list. */
  lemma ResubmitKeepsSpouses(t: seq<SpouseRow>, pid: int, v: JsValue)
    requires OrdsConsecutive(t) && NamesClean(t)
    requires NormalizeMulti(v) == Strs(SpouseNames(t, pid))
    ensures forall q :: RowsOf(AfterSetSpouses(t, pid, v), q) == RowsOf(t, q)
  {
    SetSpousesEffect(t, pid, v);
    StoredNamesClean(t, pid);
    ResubmittedNamesKept(SpouseNames(t, pid));
    assert CleanSpouseNames(v) == SpouseNames(t, pid);
    RenumberIsIdentity(t, pid);
    forall q ensures RowsOf(AfterSetSpouses(t, pid, v), q) == RowsOf(t, q) {
      if q == pid {
        RowsOfAppend(WithoutPerson(t, pid), Numbered(pid, SpouseNames(t, pid)), pid);
        RowsOfWithoutPerson(t, pid, pid);
        RowsOfNumbered(pid, SpouseNames(t, pid), pid);
      }
    }
  }

  /*** The persons table ***/

  /** Some row names `id` as its father (`father_id = id`; NULL matches
      nothing). */
  predicate HasChild(persons: seq<Person>, id: int) {
    exists k :: 0 <= k < |persons| && persons[k].fatherId == Some(id)
  }

  /** For a non-zero id, the delete guard refuses exactly the persons that
      `buildTree` gives a non-empty children list (a `father_id` of 0 is
      falsy, so a row naming 0 hangs under no one in the tree). */
  lemma {:induction false} HasChildIffListed(persons: seq<Person>, id: int)
    requires id != 0
    ensures HasChild(persons, id) <==> TreeBuilder.ChildIds(persons, id) != []
  {
    if persons != [] {
      var init, last := persons[..|persons| - 1], persons[|persons| - 1];
      HasChildIffListed(init, id);
      if HasChild(init, id) {
        var k :| 0 <= k < |init| && init[k].fatherId == Some(id);
        assert persons[k] == init[k];
      }
      if HasChild(persons, id) && last.fatherId != Some(id) {
        var k :| 0 <= k < |persons| && persons[k].fatherId == Some(id);
        assert k < |init| && init[k] == persons[k];
      }
    }
  }

  /** `DELETE FROM persons WHERE id = ?`. */
  function WithoutId(persons: seq<Person>, id: int): (r: seq<Person>)
    ensures forall p :: p in r <==> p in persons && p.id != id
  {
    if persons == [] then []
    else
      var last := persons[|persons| - 1];
      WithoutId(persons[..|persons| - 1], id) + (if last.id != id then [last] else [])
  }

  lemma IdOfMember(persons: seq<Person>, p: Person)
    requires p in persons
    ensures p.id in Ids(persons)
  {
    var k :| 0 <= k < |persons| && persons[k] == p;
  }

  /** The delete guard keeps referential integrity: removing a person
      nobody names as father leaves every non-NULL `father_id` resolving. */
  lemma DeleteKeepsFathersResolve(persons: seq<Person>, id: int)
    requires FathersResolve(persons) && !HasChild(persons, id)
    ensures FathersResolve(WithoutId(persons, id))
  {
    var rest := WithoutId(persons, id);
    forall k | 0 <= k < |rest| && rest[k].fatherId.Some?
      ensures rest[k].fatherId.value in Ids(rest)
    {
      var j :| 0 <= j < |persons| && persons[j] == rest[k];
      var f := rest[k].fatherId.value;
      var i :| 0 <= i < |persons| && persons[i].id == f;
      IdOfMember(rest, persons[i]);
    }
  }

  /** Removing rows keeps the primary key and the id order. */
  lemma {:induction false} DeleteKeepsIdOrder(persons: seq<Person>, id: int)
    requires AscendingIds(persons)
    ensures AscendingIds(WithoutId(persons, id))
  {
    if persons != [] {
      var init, last := persons[..|persons| - 1], persons[|persons| - 1];
      DeleteKeepsIdOrder(init, id);
      var w := WithoutId(init, id);
      forall j | 0 <= j < |w| ensures w[j].id < last.id {
        assert w[j] in init;
      }
    }
  }

  /** While `father_id`s resolve, the tree builder drops no row: every row
      with a truthy `father_id` is listed under its father exactly once. */
  lemma NoRowDroppedWhileFathersResolve(persons: seq<Person>, k: nat)
    requires UniqueIds(persons) && FathersResolve(persons)
    requires k < |persons| && HasFather(persons[k])
    ensures multiset(TreeBuilder.ChildIds(persons, persons[k].fatherId.value))[persons[k].id] == 1
  {
    TreeBuilder.ResolvingRowInExactlyOneList(persons, k);
  }

  /** Deleting a person's spouse rows keeps the ord invariant. */
  lemma DeleteKeepsOrds(t: seq<SpouseRow>, id: int)
    requires OrdsConsecutive(t)
    ensures OrdsConsecutive(WithoutPerson(t, id))
  {
    forall q ensures RowsOf(WithoutPerson(t, id), q) == if q == id then [] else RowsOf(t, q) {
      RowsOfWithoutPerson(t, id, q);
    }
  }

  /** The two tables the admin routes update. */
  class Database {
    var persons: seq<Person>
    var spouses: seq<SpouseRow>

    constructor (persons: seq<Person>, spouses: seq<SpouseRow>)
      ensures this.persons == persons && this.spouses == spouses
    {
      this.persons := persons;
      this.spouses := spouses;
    }

    /** `setSpouseNames(personId, names)`: delete the person's rows, then
        insert the cleaned names one by one with `ord` counting from 1. */
    method SetSpouseNames(personId: int, names: JsValue)
      modifies this
      ensures persons == old(persons)
      ensures spouses == AfterSetSpouses(old(spouses), personId, names)
    {
      spouses := WithoutPerson(spouses, personId);
      var cleaned := CleanSpouseNames(names);
      InsertNumbered(personId, cleaned);
    }

    /** The insertion loop: one row per name, `ord` counting from 1. */
    method InsertNumbered(personId: int, cleaned: seq<string>)
      modifies this
      ensures persons == old(persons)
      ensures spouses == old(spouses) + Numbered(personId, cleaned)
    {
      var ord := 1;
      for i := 0 to |cleaned|
        invariant ord == i + 1
        invariant persons == old(persons)
        invariant spouses == old(spouses) + Numbered(personId, cleaned[..i])
      {
        NumberedSnoc(personId, cleaned, i);
        spouses := spouses + [SpouseRow(personId, cleaned[i], ord)];
        ord := ord + 1;
      }
      assert cleaned[..|cleaned|] == cleaned;
    }

    /** `SELECT id FROM persons WHERE father_id = ? LIMIT 1`: the first row,
        in table order, that names `id` as its father. */
    method FindChild(id: int) returns (child: Option<nat>)
      ensures child.None? <==> !HasChild(persons, id)
      ensures child.Some? ==> child.value < |persons| && persons[child.value].fatherId == Some(id)
      ensures child.Some? ==> forall k :: 0 <= k < child.value ==> persons[k].fatherId != Some(id)
    {
      var i := 0;
      while i < |persons| && persons[i].fatherId != Some(id)
        invariant 0 <= i <= |persons|
        invariant forall k :: 0 <= k < i ==> persons[k].fatherId != Some(id)
      {
        i := i + 1;
      }
      child := if i < |persons| then Some(i) else None;
    }

    /** `POST /admin/person/:id/delete`: refused while some row names the
        person as father; otherwise the person's spouse rows and then the
        person's row are deleted. */
    method DeletePerson(id: int) returns (deleted: bool)
      modifies this
      ensures deleted <==> !HasChild(old(persons), id)
      ensures deleted ==> persons == WithoutId(old(persons), id) && spouses == WithoutPerson(old(spouses), id)
      ensures !deleted ==> persons == old(persons) && spouses == old(spouses)
    {
      var child := FindChild(id);
      if child.Some? {
        return false;
      }
      spouses := WithoutPerson(spouses, id);
      persons := WithoutId(persons, id);
      deleted := true;
    }
  }
}
