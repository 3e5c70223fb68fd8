/** The tree as the browser sees it: the nodes of `d3.hierarchy(root)`
    listed in `descendants()` order (breadth first, the root first), each
    node naming its parent by position. Ancestors, children and the set of
    nodes a focus keeps visible are computed over that list. */
module Hierarchy {
  import opened Wrappers

  /** One node of the hierarchy: the person's id, name and photo, and the
      position of its parent (`None` for the root). */
  datatype HNode = HNode(id: int, name: string, photoUrl: Option<string>, parent: Option<nat>)

  /** Parents before children: the root comes first and has no parent;
      every other node has a parent listed before it. Breadth-first
      `descendants()` order is one such order, and nothing here needs more. */
  predicate WellFormed(h: seq<HNode>) {
    && |h| > 0
    && h[0].parent.None?
    && forall i :: 0 < i < |h| ==> h[i].parent.Some? && h[i].parent.value < i
  }

  /** The node reached from `n` by `k` steps towards the root (staying at
      the root once there). */
  function Up(h: seq<HNode>, n: nat, k: nat): (r: nat)
    requires WellFormed(h) && n < |h|
    ensures r <= n
  {
    if k == 0 then n
    else
      match h[n].parent
      case None => n
      case Some(p) => Up(h, p, k - 1)
  }

  lemma {:induction false} UpAtRoot(h: seq<HNode>, k: nat)
    requires WellFormed(h)
    ensures Up(h, 0, k) == 0
  {
  }

  lemma {:induction false} UpAdd(h: seq<HNode>, n: nat, a: nat, b: nat)
    requires WellFormed(h) && n < |h|
    ensures Up(h, Up(h, n, a), b) == Up(h, n, a + b)
    decreases a
  {
    if a > 0 && h[n].parent.Some? {
      UpAdd(h, h[n].parent.value, a - 1, b);
    } else if a > 0 {
      UpAtRoot(h, b);
      UpAtRoot(h, a + b);
    }
  }

  /** The nodes met by `while (p) { arr.push(p); p = p.parent; }` starting
      from `p`: `p`, its parent, and so on up to the root. */
  function Walk(h: seq<HNode>, p: Option<nat>): (r: seq<nat>)
    requires WellFormed(h) && (p.Some? ==> p.value < |h|)
    ensures (r == []) == p.None?
    ensures p.Some? ==> r[0] == p.value && r[|r| - 1] == 0
    ensures forall k :: 0 <= k < |r| ==> r[k] < |h|
    ensures forall k :: 0 <= k < |r| - 1 ==> h[r[k]].parent == Some(r[k + 1])
    ensures forall j, k :: 0 <= j < k < |r| ==> r[k] < r[j]
    decreases if p.Some? then p.value + 1 else 0
  {
    match p
    case None => []
    case Some(q) => [q] + Walk(h, h[q].parent)
  }

  /** `getAncestors(n)`: the parent of `n`, its grandparent, and so on,
      nearest first, ending at the root. */
  function Ancestors(h: seq<HNode>, n: nat): (r: seq<nat>)
    requires WellFormed(h) && n < |h|
    ensures (r == []) <==> n == 0
    ensures r != [] ==> h[n].parent == Some(r[0]) && r[|r| - 1] == 0
    ensures forall k :: 0 <= k < |r| ==> r[k] < n
    ensures forall k :: 0 <= k < |r| - 1 ==> h[r[k]].parent == Some(r[k + 1])
    ensures forall j, k :: 0 <= j < k < |r| ==> r[k] < r[j]
  {
    Walk(h, h[n].parent)
  }

  /** `getAncestors` walks the parent links with a loop. */
  method GetAncestors(h: seq<HNode>, n: nat) returns (arr: seq<nat>)
    requires WellFormed(h) && n < |h|
    ensures arr == Ancestors(h, n)
  {
    arr := [];
    var p: Option<nat> := h[n].parent;
    while p.Some?
      invariant p.Some? ==> p.value < |h|
      invariant arr + Walk(h, p) == Walk(h, h[n].parent)
      decreases if p.Some? then p.value + 1 else 0
    {
      var q := p.value;
      WalkUnfold(h, arr, q);
      arr := arr + [q];
      p := h[q].parent;
    }
    assert arr + [] == arr;
  }

  /** One step of the walk moves its first node onto the collected list. */
  lemma WalkUnfold(h: seq<HNode>, arr: seq<nat>, q: nat)
    requires WellFormed(h) && q < |h|
    ensures arr + Walk(h, Some(q)) == (arr + [q]) + Walk(h, h[q].parent)
  {
    assert Walk(h, Some(q)) == [q] + Walk(h, h[q].parent);
  }

  /** The ancestors are the nodes one, two, … steps up from `n`, and their
      number is the depth of `n`: the fewest steps that reach the root. */
  lemma {:induction false} AncestorsAreUpSteps(h: seq<HNode>, n: nat)
    requires WellFormed(h) && n < |h|
    ensures forall k :: 0 <= k < |Ancestors(h, n)| ==> Ancestors(h, n)[k] == Up(h, n, k + 1)
    ensures Up(h, n, |Ancestors(h, n)|) == 0
    ensures forall k :: 0 <= k < |Ancestors(h, n)| ==> Up(h, n, k) != 0
  {
    if n > 0 {
      var p := h[n].parent.value;
      AncestorsAreUpSteps(h, p);
      var a := Ancestors(h, n);
      assert a == [p] + Ancestors(h, p);
      forall k | 0 <= k < |a|
        ensures a[k] == Up(h, n, k + 1) && Up(h, n, k) != 0
      {
        if k > 0 {
          assert a[k] == Ancestors(h, p)[k - 1];
        }
      }
    }
  }

  /** The positions below `m` whose parent is `n`, in list order. */
  function ChildrenBelow(h: seq<HNode>, n: nat, m: nat): (r: seq<nat>)
    requires m <= |h|
    ensures forall c: nat :: c in r <==> c < m && h[c].parent == Some(n)
    ensures forall j, k :: 0 <= j < k < |r| ==> r[j] < r[k]
    ensures forall k :: 0 <= k < |r| ==> r[k] < m
  {
    if m == 0 then []
    else ChildrenBelow(h, n, m - 1) + (if h[m - 1].parent == Some(n) then [m - 1] else [])
  }

  /** `getChildren(n)`: the direct children of `n` in list order. In d3's
      breadth-first order this is the order of the `children` array. */
  function Children(h: seq<HNode>, n: nat): (r: seq<nat>)
    ensures forall c: nat :: c in r <==> c < |h| && h[c].parent == Some(n)
    ensures forall j, k :: 0 <= j < k < |r| ==> r[j] < r[k]
    ensures forall k :: 0 <= k < |r| ==> r[k] < |h|
  {
    ChildrenBelow(h, n, |h|)
  }

  /** `getChildren` gives `[]` exactly for a leaf, a node no other node
      names as its parent (d3 leaves `children` undefined there). */
  lemma LeafHasNoChildren(h: seq<HNode>, n: nat)
    ensures Children(h, n) == [] <==> forall c :: 0 <= c < |h| ==> h[c].parent != Some(n)
  {
    var r := Children(h, n);
    if r != [] {
      assert r[0] in r;
    }
  }

  /** The set `focusOnNode` builds: the node, its ancestors, its children. */
  function Visible(h: seq<HNode>, n: nat): (v: set<nat>)
    requires WellFormed(h) && n < |h|
    ensures forall i :: i in v ==> i < |h|
  {
    {n} + (set a | a in Ancestors(h, n)) + (set c | c in Children(h, n))
  }

  lemma VisibleIsUpOrChild(h: seq<HNode>, n: nat, i: nat)
    requires WellFormed(h) && n < |h|
    requires i in Visible(h, n)
    ensures (exists k: nat :: Up(h, n, k) == i) || (i < |h| && h[i].parent == Some(n))
  {
    var a := Ancestors(h, n);
    if i in a {
      AncestorsAreUpSteps(h, n);
      var k :| 0 <= k < |a| && a[k] == i;
      assert Up(h, n, k + 1) == i;
    } else if i == n {
      assert Up(h, n, 0) == i;
    }
  }

  /** Every step up from `n` lands on `n` itself or on one of its ancestors. */
  lemma UpStepIsSelfOrAncestor(h: seq<HNode>, n: nat, k: nat)
    requires WellFormed(h) && n < |h|
    ensures Up(h, n, k) == n || Up(h, n, k) in Ancestors(h, n)
  {
    var a := Ancestors(h, n);
    AncestorsAreUpSteps(h, n);
    if 0 < k <= |a| {
      assert a[k - 1] in a;
    } else if k > |a| {
      UpAdd(h, n, |a|, k - |a|);
      UpAtRoot(h, k - |a|);
      if n > 0 {
        assert a[|a| - 1] in a;
      }
    }
  }

  lemma UpStepIsVisible(h: seq<HNode>, n: nat, k: nat)
    requires WellFormed(h) && n < |h|
    ensures Up(h, n, k) in Visible(h, n)
  {
    UpStepIsSelfOrAncestor(h, n, k);
  }

  /** What a focus shows: every node on the way from `n` up to the root
      (`n` included), and the direct children of `n`, and nothing else. */
  lemma VisibleIff(h: seq<HNode>, n: nat, i: nat)
    requires WellFormed(h) && n < |h|
    ensures i in Visible(h, n) <==>
      (exists k: nat :: Up(h, n, k) == i) || (i < |h| && h[i].parent == Some(n))
  {
    if i in Visible(h, n) {
      VisibleIsUpOrChild(h, n, i);
    }
    if exists k: nat :: Up(h, n, k) == i {
      var k: nat :| Up(h, n, k) == i;
      UpStepIsVisible(h, n, k);
    }
  }

  /** The visible nodes form a connected piece of the tree that contains
      the root: the parent of every visible node is visible too. */
  lemma VisibleIsRootedSubtree(h: seq<HNode>, n: nat)
    requires WellFormed(h) && n < |h|
    ensures 0 in Visible(h, n)
    ensures forall t :: t in Visible(h, n) && t > 0 ==> h[t].parent.value in Visible(h, n)
  {
    var a := Ancestors(h, n);
    if n > 0 {
      assert a[|a| - 1] in a;
    }
    forall t | t in Visible(h, n) && t > 0
      ensures h[t].parent.value in Visible(h, n)
    {
      if t in a {
        var k :| 0 <= k < |a| && a[k] == t;
        if k < |a| - 1 {
          assert a[k + 1] in a;
        }
      } else if t == n {
        assert a[0] in a;
      }
    }
  }

  /** A sibling of the focused node stays hidden. */
  lemma SiblingHidden(h: seq<HNode>, n: nat, s: nat)
    requires WellFormed(h) && n < |h| && s < |h|
    requires s != n && h[s].parent.Some? && h[s].parent == h[n].parent
    ensures s !in Visible(h, n)
  {
  }

  /** A grandchild of the focused node stays hidden. */
  lemma GrandchildHidden(h: seq<HNode>, n: nat, c: nat, g: nat)
    requires WellFormed(h) && n < |h| && c < |h| && g < |h|
    requires h[c].parent == Some(n) && h[g].parent == Some(c)
    ensures g !in Visible(h, n)
  {
  }

  /** A cousin of the focused node (a child of a sibling of its parent)
      stays hidden. */
  lemma CousinHidden(h: seq<HNode>, n: nat, u: nat, x: nat)
    requires WellFormed(h) && n < |h| && u < |h| && x < |h|
    requires n > 0 && u != h[n].parent.value
    requires h[u].parent.Some? && h[u].parent == h[h[n].parent.value].parent
    requires h[x].parent == Some(u)
    ensures x !in Visible(h, n)
  {
  }

  /** The image a card shows: the person's `photo_url`, or the default
      picture when there is none or it is empty. */
  function PhotoHref(url: Option<string>): (r: string)
    ensures r != []
    ensures url.Some? && url.value != [] ==> r == url.value
    ensures url.None? || url.value == [] ==> r == "/images/default.png"
  {
    if url.Some? && url.value != [] then url.value else "/images/default.png"
  }
}
