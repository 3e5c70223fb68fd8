/** One row of the `persons` table: an id, a display name, an optional
    father reference and the optional attributes shown on a card. */
module Persons {
  import opened Wrappers
  import opened JsValues

  datatype Person = Person(
    id: int,
    name: string,
    fatherId: Option<int>,
    birthDate: Option<string>,
    job: Option<string>,
    lineage: Option<string>,
    photoUrl: Option<string>,
    notes: Option<string>)

  /** JavaScript truthiness of `father_id`: the column holds NULL or an
      integer, and both NULL and 0 are falsy. */
  predicate HasFather(p: Person) {
    p.fatherId.Some? && p.fatherId.value != 0
  }

  /** `HasFather` is `if (r.father_id)`: NULL reads as `null`, an integer
      as a number, and the test is JavaScript truthiness. */
  lemma HasFatherIsTruthy(p: Person)
    ensures HasFather(p) <==> Truthy(if p.fatherId.None? then Null else Num(p.fatherId.value))
  {
  }

  function Ids(rows: seq<Person>): set<int> {
    set k | 0 <= k < |rows| :: rows[k].id
  }

  /** `id` is the primary key of the table. */
  predicate UniqueIds(rows: seq<Person>) {
    forall i, j :: 0 <= i < j < |rows| ==> rows[i].id != rows[j].id
  }

  /** The order of `SELECT * FROM persons ORDER BY id ASC`. */
  predicate AscendingIds(rows: seq<Person>) {
    forall i, j :: 0 <= i < j < |rows| ==> rows[i].id < rows[j].id
  }

  /** Referential integrity of the table: every non-NULL `father_id` names
      an existing row. */
  predicate FathersResolve(rows: seq<Person>) {
    forall k :: 0 <= k < |rows| && rows[k].fatherId.Some? ==> rows[k].fatherId.value in Ids(rows)
  }
}
