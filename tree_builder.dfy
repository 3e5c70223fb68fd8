/** `buildTree`: turns the flat `persons` rows into one rooted hierarchy.
    Each row gets a wrapper holding its own fields and a `children` list;
    every row whose `father_id` names an existing row is pushed onto that
    row's list; the first row whose `father_id` is falsy is the root. */
module TreeBuilder {
  import opened Wrappers
  import opened Persons

  /** The wrapper `{ ...r, children: [] }`. The `children` array holds the
      wrappers pushed into it; since each pushed wrapper is the one the
      index holds under its id, a child is recorded here by that id. */
  datatype TreeNode = TreeNode(row: Person, children: seq<int>)

  /** Row `k` names `pid` as its (truthy) father. */
  predicate IsChildRow(rows: seq<Person>, k: int, pid: int) {
    0 <= k < |rows| && HasFather(rows[k]) && rows[k].fatherId.value == pid
  }

  /** The ids, in input order, of the rows whose truthy `father_id` is `pid`. */
  function ChildIds(rows: seq<Person>, pid: int): (r: seq<int>)
    ensures |r| <= |rows|
  {
    if rows == [] then []
    else
      var last := rows[|rows| - 1];
      ChildIds(rows[..|rows| - 1], pid) + (if HasFather(last) && last.fatherId.value == pid then [last.id] else [])
  }

  /** The index of the first row, in input order, whose `father_id` is
      falsy; `None` when there is no such row. */
  function FirstRoot(rows: seq<Person>): (r: Option<nat>)
    ensures r.Some? ==> r.value < |rows| && !HasFather(rows[r.value])
    ensures r.Some? ==> forall j :: 0 <= j < r.value ==> HasFather(rows[j])
    ensures r.None? ==> forall j :: 0 <= j < |rows| ==> HasFather(rows[j])
  {
    if rows == [] then None
    else
      var prev := FirstRoot(rows[..|rows| - 1]);
      if prev.Some? then prev
      else if !HasFather(rows[|rows| - 1]) then Some(|rows| - 1)
      else None
  }

  /** `buildTree(rows)`: `byId` is the index of wrappers after the pass and
      `root` the wrapper chosen as root (`null` when none). Every wrapper
      keeps its row unchanged and ends with exactly the ids of the rows
      naming it as father, in input order. The pass is one loop over the
      rows, so it ends even when `father_id`s form a cycle. */
  method BuildTree(rows: seq<Person>) returns (root: Option<TreeNode>, byId: map<int, TreeNode>)
    requires UniqueIds(rows)
    ensures byId.Keys == Ids(rows)
    ensures forall k :: 0 <= k < |rows| ==> byId[rows[k].id] == TreeNode(rows[k], ChildIds(rows, rows[k].id))
    ensures FirstRoot(rows).None? ==> root.None?
    ensures FirstRoot(rows).Some? ==> root == Some(byId[rows[FirstRoot(rows).value].id])
  {
    byId := IndexRows(rows);
    // Map iteration follows insertion order, which (ids being unique) is
    // the order of the rows.
    var rootId: Option<int> := None;
    for i := 0 to |rows|
      invariant Attached(rows, i, byId)
      invariant rootId == RootIdSoFar(rows, i)
    {
      PrefixStep(rows, i);
      ghost var before := byId;
      var r := rows[i];
      if HasFather(r) {
        var f := r.fatherId.value;
        if f in byId {
          var parent := byId[f];
          byId := byId[f := parent.(children := parent.children + [r.id])];
        }
      } else if rootId.None? {
        rootId := Some(r.id);
      }
      AttachStep(rows, i, before, byId);
    }
    assert rows[..|rows|] == rows;
    root := if rootId.Some? then Some(byId[rootId.value]) else None;
  }

  /** `new Map(rows.map(r => [r.id, { ...r, children: [] }]))`. */
  method IndexRows(rows: seq<Person>) returns (byId: map<int, TreeNode>)
    requires UniqueIds(rows)
    ensures Attached(rows, 0, byId)
  {
    byId := map[];
    for i := 0 to |rows|
      invariant byId.Keys == Ids(rows[..i])
      invariant forall k :: 0 <= k < i ==> byId[rows[k].id] == TreeNode(rows[k], [])
    {
      assert rows[..i + 1] == rows[..i] + [rows[i]];
      byId := byId[rows[i].id := TreeNode(rows[i], [])];
    }
    assert rows[..|rows|] == rows;
  }

  /** The wrappers after the pass has seen the first `i` rows. */
  ghost predicate Attached(rows: seq<Person>, i: nat, byId: map<int, TreeNode>)
    requires i <= |rows|
  {
    && byId.Keys == Ids(rows)
    && forall k :: 0 <= k < |rows| ==> byId[rows[k].id] == TreeNode(rows[k], ChildIds(rows[..i], rows[k].id))
  }

  /** The loop body keeps `Attached`: row `i` is pushed onto its father's
      list when the father exists, and nothing else changes. */
  lemma AttachStep(rows: seq<Person>, i: nat, before: map<int, TreeNode>, after: map<int, TreeNode>)
    requires UniqueIds(rows) && i < |rows| && Attached(rows, i, before)
    requires after == if HasFather(rows[i]) && rows[i].fatherId.value in before
      then before[rows[i].fatherId.value := before[rows[i].fatherId.value].(children :=
        before[rows[i].fatherId.value].children + [rows[i].id])]
      else before
    ensures Attached(rows, i + 1, after)
  {
    PrefixStep(rows, i);
    forall k | 0 <= k < |rows|
      ensures after[rows[k].id] == TreeNode(rows[k], ChildIds(rows[..i + 1], rows[k].id))
    {
      if IsChildRow(rows, i, rows[k].id) {
        assert rows[k].id in before;
      }
    }
  }

  /** The id of the root chosen among the first `i` rows. */
  function RootIdSoFar(rows: seq<Person>, i: nat): Option<int>
    requires i <= |rows|
  {
    match FirstRoot(rows[..i])
    case None => None
    case Some(k) => Some(rows[k].id)
  }

  /** One more row adds its id to its father's list and to no other, and
      settles the root if none was found before. */
  lemma PrefixStep(rows: seq<Person>, i: nat)
    requires i < |rows|
    ensures forall pid ::
      ChildIds(rows[..i + 1], pid) == ChildIds(rows[..i], pid) + (if IsChildRow(rows, i, pid) then [rows[i].id] else [])
    ensures FirstRoot(rows[..i + 1]) ==
      if FirstRoot(rows[..i]).Some? then FirstRoot(rows[..i])
      else if !HasFather(rows[i]) then Some(i) else None
  {
    assert rows[..i + 1][..i] == rows[..i];
  }

  /*** Where each row lands ***/

  /** Some row with id `c` names `pid` as its father. */
  ghost predicate ListsId(rows: seq<Person>, pid: int, c: int) {
    exists k :: IsChildRow(rows, k, pid) && rows[k].id == c
  }

  /** `ListsId` over a non-empty table splits into the earlier rows and
      the last one. */
  lemma ListsIdSnoc(rows: seq<Person>, pid: int, c: int)
    requires rows != []
    ensures ListsId(rows, pid, c) <==>
      ListsId(rows[..|rows| - 1], pid, c) || (IsChildRow(rows, |rows| - 1, pid) && rows[|rows| - 1].id == c)
  {
    var init := rows[..|rows| - 1];
    if ListsId(rows, pid, c) {
      var k :| IsChildRow(rows, k, pid) && rows[k].id == c;
      if k < |init| {
        assert IsChildRow(init, k, pid) && init[k].id == c;
      }
    }
    if ListsId(init, pid, c) {
      var k :| IsChildRow(init, k, pid) && init[k].id == c;
      assert IsChildRow(rows, k, pid) && rows[k].id == c;
    }
  }

  /** With unique ids, `c` occurs in `pid`'s list once if the row with id
      `c` names `pid` as father, and not at all otherwise. */
  lemma {:induction false} ChildIdsCount(rows: seq<Person>, pid: int, c: int)
    requires UniqueIds(rows)
    ensures multiset(ChildIds(rows, pid))[c] == if ListsId(rows, pid, c) then 1 else 0
  {
    if rows != [] {
      var init, last := rows[..|rows| - 1], rows[|rows| - 1];
      var extra := if HasFather(last) && last.fatherId.value == pid then [last.id] else [];
      assert UniqueIds(init);
      ChildIdsCount(init, pid, c);
      ListsIdSnoc(rows, pid, c);
      assert ChildIds(rows, pid) == ChildIds(init, pid) + extra;
      assert multiset(ChildIds(rows, pid))[c] == multiset(ChildIds(init, pid))[c] + multiset(extra)[c];
      if last.id == c {
        NotListedBeforeLast(rows, pid);
      }
    }
  }

  /** With unique ids, no earlier row carries the last row's id. */
  lemma NotListedBeforeLast(rows: seq<Person>, pid: int)
    requires UniqueIds(rows) && rows != []
    ensures !ListsId(rows[..|rows| - 1], pid, rows[|rows| - 1].id)
  {
  }

  /** Every row whose `father_id` resolves is appended exactly once, to its
      father's list, and to no other list. */
  lemma ResolvingRowInExactlyOneList(rows: seq<Person>, k: nat)
    requires UniqueIds(rows)
    requires k < |rows| && HasFather(rows[k]) && rows[k].fatherId.value in Ids(rows)
    ensures multiset(ChildIds(rows, rows[k].fatherId.value))[rows[k].id] == 1
    ensures forall p :: p != rows[k].fatherId.value ==> rows[k].id !in ChildIds(rows, p)
  {
    ChildIdsCount(rows, rows[k].fatherId.value, rows[k].id);
    assert IsChildRow(rows, k, rows[k].fatherId.value);
    forall p | p != rows[k].fatherId.value
      ensures rows[k].id !in ChildIds(rows, p)
    {
      ChildIdsCount(rows, p, rows[k].id);
    }
  }

  /** A row whose `father_id` is truthy but names no row (an orphan) is in
      no wrapper's list: it is dropped, not attached to the root. */
  lemma OrphanInNoList(rows: seq<Person>, k: nat)
    requires UniqueIds(rows)
    requires k < |rows| && HasFather(rows[k]) && rows[k].fatherId.value !in Ids(rows)
    ensures forall p :: p in Ids(rows) ==> rows[k].id !in ChildIds(rows, p)
  {
    forall p | p in Ids(rows)
      ensures rows[k].id !in ChildIds(rows, p)
    {
      ChildIdsCount(rows, p, rows[k].id);
    }
  }

  /** Every id in a list is the id of some row. */
  lemma {:induction false} ChildIdsAreIds(rows: seq<Person>, pid: int)
    ensures forall c :: c in ChildIds(rows, pid) ==> c in Ids(rows)
  {
    if rows != [] {
      var init := rows[..|rows| - 1];
      ChildIdsAreIds(init, pid);
      forall c | c in ChildIds(init, pid) ensures c in Ids(rows) {
        var k :| 0 <= k < |init| && init[k].id == c;
        assert rows[k].id == c;
      }
    }
  }

  /** With the rows in ascending id order, every list is in ascending id
      order: children keep the order of the input. */
  lemma {:induction false} ChildIdsAscending(rows: seq<Person>, pid: int)
    requires AscendingIds(rows)
    ensures forall a, b :: 0 <= a < b < |ChildIds(rows, pid)| ==> ChildIds(rows, pid)[a] < ChildIds(rows, pid)[b]
  {
    if rows != [] {
      var init, last := rows[..|rows| - 1], rows[|rows| - 1];
      ChildIdsAscending(init, pid);
      ChildIdsAreIds(init, pid);
      var prev := ChildIds(init, pid);
      forall a | 0 <= a < |prev| ensures prev[a] < last.id {
        assert prev[a] in ChildIds(init, pid);
        var k :| 0 <= k < |init| && init[k].id == prev[a];
        assert rows[k].id < rows[|rows| - 1].id;
      }
    }
  }

  /** With the rows in ascending id order the root is the row with the
      lowest id among those with a falsy `father_id`, and there is no root
      exactly when every row has a truthy `father_id`. */
  lemma RootIsLowestFatherlessId(rows: seq<Person>)
    requires AscendingIds(rows)
    ensures FirstRoot(rows).Some? ==>
      forall j :: 0 <= j < |rows| && !HasFather(rows[j]) ==> rows[FirstRoot(rows).value].id <= rows[j].id
    ensures FirstRoot(rows).None? <==> forall j :: 0 <= j < |rows| ==> HasFather(rows[j])
  {
  }

  /*** Reachability from the root ***/

  /** The index of the row with id `id`. */
  function RowIndex(rows: seq<Person>, id: int): (r: Option<nat>)
    ensures r.Some? ==> r.value < |rows| && rows[r.value].id == id
    ensures r.None? ==> id !in Ids(rows)
  {
    if rows == [] then None
    else if rows[0].id == id then Some(0)
    else
      var rest := RowIndex(rows[1..], id);
      assert rest.None? ==> forall k :: 1 <= k < |rows| ==> rows[k].id == rows[1..][k - 1].id;
      if rest.Some? then Some(rest.value + 1) else None
  }

  /** The id of the row that the row `id` is attached under, if any. */
  function FatherOf(rows: seq<Person>, id: int): (r: Option<int>)
    ensures r.Some? ==> r.value != 0 && r.value in Ids(rows)
    ensures r.Some? ==> RowIndex(rows, id).Some? && rows[RowIndex(rows, id).value].fatherId == Some(r.value)
    ensures id !in Ids(rows) ==> r.None?
  {
    match RowIndex(rows, id)
    case None => None
    case Some(k) =>
      if HasFather(rows[k]) && rows[k].fatherId.value in Ids(rows) then Some(rows[k].fatherId.value) else None
  }

  /** The row `n` steps up the father chain from `x`. */
  function Up(rows: seq<Person>, x: int, n: nat): Option<int>
  {
    if n == 0 then Some(x)
    else
      match Up(rows, x, n - 1)
      case None => None
      case Some(y) => FatherOf(rows, y)
  }

  /** A downward path through the children lists, starting at a row. */
  predicate IsDownPath(rows: seq<Person>, p: seq<int>) {
    && |p| > 0
    && p[0] in Ids(rows)
    && forall i :: 0 <= i < |p| - 1 ==> p[i + 1] in ChildIds(rows, p[i])
  }

  /** `x` can be reached from `root` through the children lists. */
  ghost predicate Reachable(rows: seq<Person>, root: int, x: int) {
    exists p :: IsDownPath(rows, p) && p[0] == root && p[|p| - 1] == x
  }

  /** Walking up `a` steps and then `b` more is walking up `a + b`. */
  lemma {:induction false} UpAdd(rows: seq<Person>, x: int, a: nat, b: nat)
    ensures Up(rows, x, a + b) == match Up(rows, x, a) case None => None case Some(y) => Up(rows, y, b)
  {
    if b > 0 {
      UpAdd(rows, x, a, b - 1);
    }
  }

  /** Walking up through `y`: the walk from `x` continues as the walk
      from `y`. */
  lemma UpThrough(rows: seq<Person>, x: int, a: nat, y: int, b: nat)
    requires Up(rows, x, a) == Some(y)
    ensures Up(rows, x, a + b) == Up(rows, y, b)
  {
    UpAdd(rows, x, a, b);
  }

  lemma UpOne(rows: seq<Person>, x: int)
    ensures Up(rows, x, 1) == FatherOf(rows, x)
  {
  }

  /** Once the chain has stopped it stays stopped. */
  lemma UpStopped(rows: seq<Person>, x: int, j: nat, n: nat)
    requires j <= n && Up(rows, x, j).None?
    ensures Up(rows, x, n).None?
  {
    UpAdd(rows, x, j, n - j);
  }

  /** A listed child is attached under the list's owner. */
  lemma ListedChildHasFather(rows: seq<Person>, q: int, c: int)
    requires UniqueIds(rows) && q in Ids(rows) && c in ChildIds(rows, q)
    ensures c in Ids(rows) && FatherOf(rows, c) == Some(q)
  {
    ChildIdsCount(rows, q, c);
    assert ListsId(rows, q, c);
    var k :| IsChildRow(rows, k, q) && rows[k].id == c;
    var i := RowIndex(rows, c).value;
    assert i == k;
  }

  /** A row attached under `q` is listed by `q`. */
  lemma FatherListsChild(rows: seq<Person>, q: int, c: int)
    requires UniqueIds(rows) && FatherOf(rows, c) == Some(q)
    ensures q in Ids(rows) && c in Ids(rows) && c in ChildIds(rows, q)
  {
    var k := RowIndex(rows, c).value;
    assert IsChildRow(rows, k, q);
    ChildIdsCount(rows, q, c);
  }

  /** A path through the children lists, read backwards, is the father
      chain of its last row. */
  lemma {:induction false} PathIsFatherChain(rows: seq<Person>, p: seq<int>)
    requires UniqueIds(rows) && IsDownPath(rows, p)
    ensures p[|p| - 1] in Ids(rows)
    ensures Up(rows, p[|p| - 1], |p| - 1) == Some(p[0])
  {
    if |p| > 1 {
      var q := p[..|p| - 1];
      assert IsDownPath(rows, q);
      PathIsFatherChain(rows, q);
      var x, y := p[|p| - 1], q[|q| - 1];
      ListedChildHasFather(rows, y, x);
      assert Up(rows, x, 1) == Some(y);
      UpThrough(rows, x, 1, y, |q| - 1);
    }
  }

  /** A path followed by a child of its last node is a path. */
  lemma ExtendPath(rows: seq<Person>, q: seq<int>, x: int)
    requires IsDownPath(rows, q) && x in ChildIds(rows, q[|q| - 1])
    ensures IsDownPath(rows, q + [x])
  {
    var p := q + [x];
    forall i | 0 <= i < |p| - 1 ensures p[i + 1] in ChildIds(rows, p[i]) {
      if i < |q| - 1 {
        assert p[i] == q[i] && p[i + 1] == q[i + 1];
      }
    }
  }

  /** The first step of a chain of `n > 0` steps: the father of `x`, which
      lists `x` and is `n - 1` steps below the chain's end. */
  lemma FatherStep(rows: seq<Person>, x: int, n: nat, r: int) returns (f: int)
    requires UniqueIds(rows) && n > 0 && Up(rows, x, n) == Some(r)
    ensures f in Ids(rows) && x in ChildIds(rows, f) && Up(rows, f, n - 1) == Some(r)
  {
    UpOne(rows, x);
    var g := FatherOf(rows, x);
    if g.None? {
      UpStopped(rows, x, 1, n);
    }
    f := g.value;
    UpThrough(rows, x, 1, f, n - 1);
    FatherListsChild(rows, f, x);
  }

  /** A father chain from `x` up to `r`, read backwards, is a path through
      the children lists. */
  lemma {:induction false} FatherChainIsPath(rows: seq<Person>, x: int, n: nat, r: int) returns (p: seq<int>)
    requires UniqueIds(rows) && x in Ids(rows) && Up(rows, x, n) == Some(r)
    ensures IsDownPath(rows, p) && p[0] == r && p[|p| - 1] == x
    decreases n
  {
    if n == 0 {
      p := [x];
    } else {
      var f := FatherStep(rows, x, n, r);
      var q := FatherChainIsPath(rows, f, n - 1, r);
      ExtendPath(rows, q, x);
      p := q + [x];
    }
  }

  lemma ReachableIff(rows: seq<Person>, root: int, x: int)
    requires UniqueIds(rows) && x in Ids(rows)
    ensures Reachable(rows, root, x) <==> exists n :: Up(rows, x, n) == Some(root)
  {
    if Reachable(rows, root, x) {
      var p :| IsDownPath(rows, p) && p[0] == root && p[|p| - 1] == x;
      PathIsFatherChain(rows, p);
    }
    if exists n :: Up(rows, x, n) == Some(root) {
      var n :| Up(rows, x, n) == Some(root);
      var p := FatherChainIsPath(rows, x, n, root);
    }
  }

  /** The chain above a row with a falsy `father_id` stops there. */
  lemma FatherlessStops(rows: seq<Person>, k: nat)
    requires UniqueIds(rows) && k < |rows| && !HasFather(rows[k])
    ensures FatherOf(rows, rows[k].id).None?
  {
    assert RowIndex(rows, rows[k].id).value == k;
  }

  /** The chain above an orphan stops there. */
  lemma OrphanStops(rows: seq<Person>, k: nat)
    requires UniqueIds(rows) && k < |rows| && rows[k].fatherId.Some? && rows[k].fatherId.value !in Ids(rows)
    ensures FatherOf(rows, rows[k].id).None?
  {
    assert RowIndex(rows, rows[k].id).value == k;
  }

  /** A row reachable from a root has a chain that ends exactly at that
      root after `m` steps. */
  lemma ReachableChainEnds(rows: seq<Person>, rootIndex: nat, x: int) returns (m: nat)
    requires UniqueIds(rows) && rootIndex < |rows| && !HasFather(rows[rootIndex])
    requires Reachable(rows, rows[rootIndex].id, x)
    ensures Up(rows, x, m) == Some(rows[rootIndex].id) && Up(rows, x, m + 1).None?
  {
    var p :| IsDownPath(rows, p) && p[0] == rows[rootIndex].id && p[|p| - 1] == x;
    PathIsFatherChain(rows, p);
    m := |p| - 1;
    FatherlessStops(rows, rootIndex);
    UpAdd(rows, x, m, 1);
  }

  /** A chain stops at one place only. */
  lemma StopIsUnique(rows: seq<Person>, x: int, a: nat, b: nat)
    requires Up(rows, x, a).Some? && Up(rows, x, a + 1).None?
    requires Up(rows, x, b).Some? && Up(rows, x, b + 1).None?
    ensures a == b
  {
    if a < b {
      UpStopped(rows, x, a + 1, b);
    } else if b < a {
      UpStopped(rows, x, b + 1, a);
    }
  }

  /** On a cycle the chain never stops. */
  lemma {:induction false} CycleNeverStops(rows: seq<Person>, x: int, n: nat, j: nat)
    requires n > 0 && Up(rows, x, n) == Some(x)
    ensures Up(rows, x, j).Some?
    decreases j
  {
    if j < n {
      if Up(rows, x, j).None? {
        UpStopped(rows, x, j, n);
      }
    } else {
      CycleNeverStops(rows, x, n, j - n);
      UpAdd(rows, x, n, j - n);
    }
  }

  /** A row on a `father_id` cycle is never reachable from a root. */
  lemma CycleUnreachable(rows: seq<Person>, rootIndex: nat, x: int, n: nat)
    requires UniqueIds(rows) && rootIndex < |rows| && !HasFather(rows[rootIndex])
    requires n > 0 && Up(rows, x, n) == Some(x)
    ensures !Reachable(rows, rows[rootIndex].id, x)
  {
    if Reachable(rows, rows[rootIndex].id, x) {
      var m := ReachableChainEnds(rows, rootIndex, x);
      CycleNeverStops(rows, x, n, m + 1);
      assert false;
    }
  }

  /** A row whose father chain runs into an orphan (the orphan itself
      when `n` is 0) is never reachable from a root: the orphan's whole
      subtree is dropped. */
  lemma OrphanSubtreeUnreachable(rows: seq<Person>, rootIndex: nat, orphan: nat, x: int, n: nat)
    requires UniqueIds(rows) && rootIndex < |rows| && !HasFather(rows[rootIndex])
    requires orphan < |rows| && HasFather(rows[orphan]) && rows[orphan].fatherId.value !in Ids(rows)
    requires Up(rows, x, n) == Some(rows[orphan].id)
    ensures !Reachable(rows, rows[rootIndex].id, x)
  {
    if Reachable(rows, rows[rootIndex].id, x) {
      var m := ReachableChainEnds(rows, rootIndex, x);
      OrphanStops(rows, orphan);
      UpAdd(rows, x, n, 1);
      StopIsUnique(rows, x, m, n);
      assert false;
    }
  }
}
