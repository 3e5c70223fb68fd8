/** The presentation state of the rendered tree and the four inputs that
    change it: a click on a person's card, a click on the empty canvas, the
    "show the whole tree" button, and typing in the search box. The state is
    one opacity and one pointer-events value per card, one `nodeSelected`
    flag per card, and one opacity per link. */
module FocusView {
  import opened Wrappers
  import opened JsText
  import opened Hierarchy

  /** The `pointer-events` attribute of a card. */
  datatype Events = Auto | NoEvents

  /** The whole presentation state, card by card and link by link. Link `k`
      joins card `k + 1` to its parent (`root.links()` follows
      `descendants()` and skips the root). */
  datatype View = View(nodeOpacity: seq<real>, pointer: seq<Events>, selected: seq<bool>, linkOpacity: seq<real>)

  predicate Fits(h: seq<HNode>, v: View) {
    && |v.nodeOpacity| == |h| && |v.pointer| == |h| && |v.selected| == |h|
    && |v.linkOpacity| + 1 == |h|
  }

  /** The parent end of link `k`. */
  function LinkSource(h: seq<HNode>, k: nat): nat
    requires WellFormed(h) && k + 1 < |h|
  {
    h[k + 1].parent.value
  }

  /** `resetFocus`: every card opaque and clickable, every link opaque, no
      card selected. Nothing of the earlier state survives. */
  function ResetView(h: seq<HNode>): (v: View)
    requires WellFormed(h)
    ensures Fits(h, v)
  {
    View(seq(|h|, i => 1.0), seq(|h|, i => Auto), seq(|h|, i => false), seq(|h| - 1, k => 1.0))
  }

  /** Card opacities: 1 for the cards in `lit`, the fade `dim` for the
      others. */
  function CardOpacities(count: nat, lit: set<nat>, dim: real): (r: seq<real>)
    requires dim < 1.0
    ensures |r| == count
    ensures forall i :: 0 <= i < count ==> (r[i] == 1.0 <==> i in lit) && (r[i] != 1.0 ==> r[i] == dim)
  {
    seq(count, i => if i in lit then 1.0 else dim)
  }

  /** Card pointer-events: "auto" for the cards in `lit`, "none" for the
      others. */
  function CardEvents(count: nat, lit: set<nat>): (r: seq<Events>)
    ensures |r| == count
    ensures forall i :: 0 <= i < count ==> (r[i] == Auto <==> i in lit)
  {
    seq(count, i => if i in lit then Auto else NoEvents)
  }

  /** Link opacities: 1 for a link whose two ends are both in `lit`, 0.04
      for the others. */
  function LinkOpacities(h: seq<HNode>, lit: set<nat>): (r: seq<real>)
    requires WellFormed(h)
    ensures |r| + 1 == |h|
    ensures forall k :: 0 <= k < |h| - 1 ==>
      (r[k] == 1.0 <==> LinkSource(h, k) in lit && k + 1 in lit) && (r[k] != 1.0 ==> r[k] == 0.04)
  {
    seq(|h| - 1, k requires 0 <= k < |h| - 1 => if LinkSource(h, k) in lit && k + 1 in lit then 1.0 else 0.04)
  }

  /** `focusOnNode(n)`: cards in the visible set opaque and clickable, the
      others faded to 0.07 and not clickable; a link opaque when both its
      ends are visible and faded to 0.04 otherwise; selection untouched. */
  function FocusOn(h: seq<HNode>, n: nat, v: View): (r: View)
    requires WellFormed(h) && n < |h| && Fits(h, v)
    ensures Fits(h, r)
  {
    var vis := Visible(h, n);
    View(CardOpacities(|h|, vis, 0.07), CardEvents(|h|, vis), v.selected, LinkOpacities(h, vis))
  }

  /** The click sequence on card `d`: reset, mark `d` alone as selected,
      focus on `d`. */
  function ClickOn(h: seq<HNode>, d: nat): (r: View)
    requires WellFormed(h) && d < |h|
    ensures Fits(h, r)
  {
    FocusOn(h, d, ResetView(h).(selected := seq(|h|, i => i == d)))
  }

  /** The query the search box uses: its value trimmed and lower-cased.
      It is empty exactly when the value is blank, has no white space at
      either end and no upper-case letter. */
  function Query(value: string): (q: string)
    ensures q == [] <==> AllWhitespace(value)
    ensures q == [] || (!IsJsWhitespace(q[0]) && !IsJsWhitespace(q[|q| - 1]))
    ensures forall k :: 0 <= k < |q| ==> !('A' <= q[k] <= 'Z')
  {
    QueryShape(value);
    ToLower(Trim(value))
  }

  lemma QueryShape(value: string)
    ensures var q := ToLower(Trim(value));
      && (q == [] <==> AllWhitespace(value))
      && (q == [] || (!IsJsWhitespace(q[0]) && !IsJsWhitespace(q[|q| - 1])))
  {
    TrimEmptyIff(value);
    var t := Trim(value);
    if t != [] {
      assert IsJsWhitespace(ToLower(t)[0]) <==> IsJsWhitespace(t[0]);
      assert IsJsWhitespace(ToLower(t)[|t| - 1]) <==> IsJsWhitespace(t[|t| - 1]);
    }
  }

  /** A card's name matches the query when its lower-cased form contains
      it: the query occurs at some position of the lower-cased name. */
  predicate Matches(name: string, q: string)
    ensures Matches(name, q) <==> exists j :: OccursAt(ToLower(name), q, j)
  {
    IncludesIff(ToLower(name), q);
    Includes(ToLower(name), q)
  }

  /** The search box's `oninput`: an empty query resets; otherwise matching
      cards are opaque and clickable, the others faded to 0.12 and not
      clickable, and every link is faded to 0.08. */
  function SearchFor(h: seq<HNode>, v: View, value: string): (r: View)
    requires WellFormed(h) && Fits(h, v)
    ensures Fits(h, r)
  {
    ShowMatches(h, v, Query(value))
  }

  /** The cards whose lower-cased name contains `q`. */
  function MatchSet(h: seq<HNode>, q: string): (r: set<nat>)
    ensures forall i: nat :: i in r <==> i < |h| && exists j :: OccursAt(ToLower(h[i].name), q, j)
  {
    set i: nat | i < |h| && Matches(h[i].name, q)
  }

  /** The search for a query already trimmed and lower-cased. */
  function ShowMatches(h: seq<HNode>, v: View, q: string): (r: View)
    requires WellFormed(h) && Fits(h, v)
    ensures Fits(h, r)
  {
    if q == [] then ResetView(h)
    else
      var hits := MatchSet(h, q);
      View(CardOpacities(|h|, hits, 0.12), CardEvents(|h|, hits), v.selected, seq(|h| - 1, k => 0.08))
  }

  /** The inputs the page reacts to. */
  datatype Input = CardClick(d: nat) | CanvasClick | ResetButton | SearchInput(value: string)

  predicate Accepts(h: seq<HNode>, e: Input) {
    e.CardClick? ==> e.d < |h|
  }

  /** The state after one input. A card whose pointer-events are "none"
      does not take the click: it falls through to the canvas, whose
      handler resets. */
  function Step(h: seq<HNode>, v: View, e: Input): (r: View)
    requires WellFormed(h) && Fits(h, v) && Accepts(h, e)
    ensures Fits(h, r)
  {
    match e
    case CardClick(d) => if v.pointer[d] == Auto then ClickOn(h, d) else ResetView(h)
    case CanvasClick => ResetView(h)
    case ResetButton => ResetView(h)
    case SearchInput(value) => SearchFor(h, v, value)
  }

  /*** Properties of the focus ***/

  /** After a focus on `n`, a card is opaque and clickable exactly when it
      lies on the way from `n` up to the root or is a child of `n`; every
      other card is faded to 0.07 and does not take clicks. */
  lemma FocusShowsLineAndChildren(h: seq<HNode>, n: nat, v: View, i: nat)
    requires WellFormed(h) && n < |h| && Fits(h, v) && i < |h|
    ensures var r := FocusOn(h, n, v);
      && (r.nodeOpacity[i] == 1.0 <==> (exists k: nat :: Up(h, n, k) == i) || h[i].parent == Some(n))
      && (r.pointer[i] == Auto <==> r.nodeOpacity[i] == 1.0)
      && (r.nodeOpacity[i] != 1.0 ==> r.nodeOpacity[i] == 0.07)
  {
    VisibleIff(h, n, i);
  }

  /** After a focus, a link is opaque exactly when the card it leads to is
      opaque: the lit cards are joined to the root by lit links. */
  lemma FocusLinksFollowCards(h: seq<HNode>, n: nat, v: View, k: nat)
    requires WellFormed(h) && n < |h| && Fits(h, v) && k + 1 < |h|
    ensures var r := FocusOn(h, n, v);
      && (r.linkOpacity[k] == 1.0 <==> r.nodeOpacity[k + 1] == 1.0)
      && (r.linkOpacity[k] != 1.0 ==> r.linkOpacity[k] == 0.04)
  {
    VisibleIsRootedSubtree(h, n);
  }

  /** Focus leaves the selection alone and touches every other part. */
  lemma FocusKeepsSelection(h: seq<HNode>, n: nat, v: View, w: View)
    requires WellFormed(h) && n < |h| && Fits(h, v) && Fits(h, w)
    ensures FocusOn(h, n, v).selected == v.selected
    ensures FocusOn(h, n, v).(selected := w.selected) == FocusOn(h, n, w)
  {
  }

  /*** Properties of the inputs ***/

  /** A canvas click and the reset button do the same thing, and doing it
      twice is doing it once. */
  lemma ResetIsIdempotent(h: seq<HNode>, v: View)
    requires WellFormed(h) && Fits(h, v)
    ensures Step(h, v, ResetButton) == Step(h, v, CanvasClick)
    ensures Step(h, Step(h, v, CanvasClick), CanvasClick) == Step(h, v, CanvasClick)
  {
  }

  /** After a reset every card is opaque, clickable and unselected and
      every link is opaque. */
  lemma ResetClearsAll(h: seq<HNode>, v: View)
    requires WellFormed(h) && Fits(h, v)
    ensures var r := Step(h, v, CanvasClick);
      && (forall i :: 0 <= i < |h| ==> r.nodeOpacity[i] == 1.0 && r.pointer[i] == Auto && !r.selected[i])
      && (forall k :: 0 <= k < |h| - 1 ==> r.linkOpacity[k] == 1.0)
  {
  }

  /** Clicking a clickable card gives a state that depends on the card
      alone: no earlier focus or search shows through. */
  lemma ClickForgetsHistory(h: seq<HNode>, v: View, w: View, d: nat)
    requires WellFormed(h) && Fits(h, v) && Fits(h, w) && d < |h|
    requires v.pointer[d] == Auto && w.pointer[d] == Auto
    ensures Step(h, v, CardClick(d)) == Step(h, w, CardClick(d))
  {
  }

  /** After a click on a clickable card, that card and no other is
      selected, and it is lit and clickable itself. */
  lemma ClickSelectsExactlyOne(h: seq<HNode>, v: View, d: nat)
    requires WellFormed(h) && Fits(h, v) && d < |h| && v.pointer[d] == Auto
    ensures var r := Step(h, v, CardClick(d));
      && (forall i :: 0 <= i < |h| ==> (r.selected[i] <==> i == d))
      && r.nodeOpacity[d] == 1.0 && r.pointer[d] == Auto
  {
    assert d in Visible(h, d);
  }

  /** Clicking the same card again gives the same state. */
  lemma ClickTwiceIsClickOnce(h: seq<HNode>, v: View, d: nat)
    requires WellFormed(h) && Fits(h, v) && d < |h| && v.pointer[d] == Auto
    ensures Step(h, Step(h, v, CardClick(d)), CardClick(d)) == Step(h, v, CardClick(d))
  {
    ClickSelectsExactlyOne(h, v, d);
  }

  /** A query that is empty once trimmed resets the view. */
  lemma BlankSearchResets(h: seq<HNode>, v: View, value: string)
    requires WellFormed(h) && Fits(h, v)
    requires forall k :: 0 <= k < |value| ==> IsJsWhitespace(value[k])
    ensures Step(h, v, SearchInput(value)) == Step(h, v, CanvasClick)
  {
    TrimEmptyIff(value);
  }

  /** A non-blank search lights exactly the cards whose lower-cased name
      contains the query somewhere, fades every other card to 0.12, fades
      every link to 0.08, and keeps the selection. Nothing of an earlier
      focus survives. */
  lemma SearchLightsMatches(h: seq<HNode>, v: View, value: string, i: nat)
    requires WellFormed(h) && Fits(h, v) && i < |h|
    requires Query(value) != []
    ensures var r := Step(h, v, SearchInput(value));
      && (r.nodeOpacity[i] == 1.0 <==> exists j :: OccursAt(ToLower(h[i].name), Query(value), j))
      && (r.pointer[i] == Auto <==> r.nodeOpacity[i] == 1.0)
      && (r.nodeOpacity[i] != 1.0 ==> r.nodeOpacity[i] == 0.12)
      && (forall k :: 0 <= k < |h| - 1 ==> r.linkOpacity[k] == 0.08)
      && r.selected == v.selected
  {
    var q := Query(value);
    assert Step(h, v, SearchInput(value)) == ShowMatches(h, v, q);
    MatchCard(h, v, q, i);
    IncludesIff(ToLower(h[i].name), q);
  }

  /** One card after a search for a non-empty query. */
  lemma MatchCard(h: seq<HNode>, v: View, q: string, i: nat)
    requires WellFormed(h) && Fits(h, v) && i < |h| && q != []
    ensures var r := ShowMatches(h, v, q);
      && (r.nodeOpacity[i] == 1.0 <==> Matches(h[i].name, q))
      && (r.pointer[i] == Auto <==> Matches(h[i].name, q))
      && (r.nodeOpacity[i] != 1.0 ==> r.nodeOpacity[i] == 0.12)
      && (forall k :: 0 <= k < |h| - 1 ==> r.linkOpacity[k] == 0.08)
      && r.selected == v.selected
  {
    assert i in MatchSet(h, q) <==> Matches(h[i].name, q);
  }

  /** Two states that differ only in what was lit before give the same
      cards and links after the same search. */
  lemma SearchOverwritesFocus(h: seq<HNode>, v: View, w: View, value: string)
    requires WellFormed(h) && Fits(h, v) && Fits(h, w) && v.selected == w.selected
    ensures Step(h, v, SearchInput(value)) == Step(h, w, SearchInput(value))
  {
  }

  /** Surrounding white space and letter case do not change a search. */
  lemma SearchIgnoresPaddingAndCase(h: seq<HNode>, v: View, value: string)
    requires WellFormed(h) && Fits(h, v)
    ensures SearchFor(h, v, Trim(value)) == SearchFor(h, v, value)
    ensures SearchFor(h, v, ToLower(value)) == SearchFor(h, v, value)
  {
    QueryIgnoresPaddingAndCase(value);
  }

  lemma QueryIgnoresPaddingAndCase(value: string)
    ensures Query(Trim(value)) == Query(value)
    ensures Query(ToLower(value)) == Query(value)
  {
    TrimIdempotent(value);
    TrimOfLower(value);
    ToLowerIdempotent(Trim(value));
  }

  /*** The rendered page ***/

  /** The drawn tree: the attributes of its cards and links, held in arrays
      that the event handlers overwrite in place. */
  class TreeView {
    const h: seq<HNode>
    const nodeOpacity: array<real>
    const pointer: array<Events>
    const selected: array<bool>
    const linkOpacity: array<real>

    ghost predicate Valid()
    {
      && WellFormed(h)
      && nodeOpacity.Length == |h| && pointer.Length == |h| && selected.Length == |h|
      && linkOpacity.Length + 1 == |h|
      && nodeOpacity != linkOpacity
    }

    /** The attributes as one value. */
    function State(): View
      reads nodeOpacity, pointer, selected, linkOpacity
    {
      View(nodeOpacity[..], pointer[..], selected[..], linkOpacity[..])
    }

    /** A freshly drawn tree: every card and link at full opacity, every
        card clickable, none selected. */
    constructor (h: seq<HNode>)
      requires WellFormed(h)
      ensures Valid() && this.h == h && State() == ResetView(h)
    {
      this.h := h;
      nodeOpacity := new real[|h|](i => 1.0);
      pointer := new Events[|h|](i => Auto);
      selected := new bool[|h|](i => false);
      linkOpacity := new real[|h| - 1](k => 1.0);
    }

    /** `resetFocus(nodes, links)`. */
    method ResetFocus()
      requires Valid()
      modifies nodeOpacity, pointer, selected, linkOpacity
      ensures State() == ResetView(h)
    {
      for i := 0 to nodeOpacity.Length
        modifies nodeOpacity, pointer, selected
        invariant forall j :: 0 <= j < i ==> nodeOpacity[j] == 1.0 && pointer[j] == Auto && !selected[j]
      {
        nodeOpacity[i] := 1.0;
        pointer[i] := Auto;
        selected[i] := false;
      }
      FillLinks(1.0);
    }

    /** Sets every card's opacity and pointer-events from the set of lit
        cards (the per-node `.attr` calls). */
    method PaintCards(lit: set<nat>, dim: real)
      requires Valid() && dim < 1.0
      modifies nodeOpacity, pointer
      ensures nodeOpacity[..] == CardOpacities(|h|, lit, dim)
      ensures pointer[..] == CardEvents(|h|, lit)
    {
      for i := 0 to nodeOpacity.Length
        invariant forall j :: 0 <= j < i ==>
          && nodeOpacity[j] == (if j in lit then 1.0 else dim)
          && pointer[j] == (if j in lit then Auto else NoEvents)
      {
        nodeOpacity[i] := if i in lit then 1.0 else dim;
        pointer[i] := if i in lit then Auto else NoEvents;
      }
    }

    /** Sets every link's opacity from the set of visible cards. */
    method PaintLinks(lit: set<nat>)
      requires Valid()
      modifies linkOpacity
      ensures linkOpacity[..] == LinkOpacities(h, lit)
    {
      for k := 0 to linkOpacity.Length
        invariant forall j :: 0 <= j < k ==>
          linkOpacity[j] == (if LinkSource(h, j) in lit && j + 1 in lit then 1.0 else 0.04)
      {
        var source := h[k + 1].parent.value;
        linkOpacity[k] := if source in lit && k + 1 in lit then 1.0 else 0.04;
      }
    }

    /** Sets every link's opacity to `x`. */
    method FillLinks(x: real)
      requires Valid()
      modifies linkOpacity
      ensures linkOpacity[..] == seq(|h| - 1, k => x)
    {
      for k := 0 to linkOpacity.Length
        invariant forall j :: 0 <= j < k ==> linkOpacity[j] == x
      {
        linkOpacity[k] := x;
      }
    }

    /** `focusOnNode(n, nodes, links)`: returns the visible set and sets
        the cards' and links' attributes from it. */
    method FocusOnNode(n: nat) returns (visible: set<nat>)
      requires Valid() && n < |h|
      modifies nodeOpacity, pointer, linkOpacity
      ensures visible == Visible(h, n)
      ensures State() == FocusOn(h, n, old(State()))
    {
      var ancestors := GetAncestors(h, n);
      var children := Children(h, n);
      visible := {n} + (set a | a in ancestors) + (set c | c in children);
      PaintCards(visible, 0.07);
      PaintLinks(visible);
    }

    /** The click handler of card `d` (after the person's details have been
        fetched): reset, select `d` alone, focus on `d`. A card that does
        not take pointer events passes the click to the canvas. */
    method ClickCard(d: nat)
      requires Valid() && d < |h|
      modifies nodeOpacity, pointer, selected, linkOpacity
      ensures State() == Step(h, old(State()), CardClick(d))
    {
      if pointer[d] == NoEvents {
        ResetFocus();
        return;
      }
      ResetFocus();
      for i := 0 to selected.Length
        modifies selected
        invariant forall j :: 0 <= j < i ==> selected[j] == (j == d)
      {
        selected[i] := i == d;
      }
      var _ := FocusOnNode(d);
    }

    /** The canvas's click handler. */
    method ClickCanvas()
      requires Valid()
      modifies nodeOpacity, pointer, selected, linkOpacity
      ensures State() == Step(h, old(State()), CanvasClick)
    {
      ResetFocus();
    }

    /** The "show the whole tree" button's handler, less its re-fit. */
    method PressResetButton()
      requires Valid()
      modifies nodeOpacity, pointer, selected, linkOpacity
      ensures State() == Step(h, old(State()), ResetButton)
    {
      ResetFocus();
    }

    /** The search box's `oninput` handler. */
    method TypeInSearch(value: string)
      requires Valid()
      modifies nodeOpacity, pointer, selected, linkOpacity
      ensures State() == Step(h, old(State()), SearchInput(value))
    {
      var q := ToLower(Trim(value));
      if q == [] {
        ResetFocus();
        return;
      }
      PaintMatches(q);
      FillLinks(0.08);
    }

    /** Lights the cards whose lower-cased name contains `q`. */
    method PaintMatches(q: string)
      requires Valid()
      modifies nodeOpacity, pointer
      ensures nodeOpacity[..] == CardOpacities(|h|, MatchSet(h, q), 0.12)
      ensures pointer[..] == CardEvents(|h|, MatchSet(h, q))
    {
      for i := 0 to nodeOpacity.Length
        invariant forall j :: 0 <= j < i ==>
          && nodeOpacity[j] == (if Matches(h[j].name, q) then 1.0 else 0.12)
          && pointer[j] == (if Matches(h[j].name, q) then Auto else NoEvents)
      {
        var hit := Includes(ToLower(h[i].name), q);
        nodeOpacity[i] := if hit then 1.0 else 0.12;
        pointer[i] := if hit then Auto else NoEvents;
      }
    }
  }

  /*** Worked examples ***/

  /** Four generations in one line, grandfather to great-grandson. */
  function Line4(): seq<HNode>
  {
    [ HNode(1, "A", None, None), HNode(2, "B", None, Some(0)),
      HNode(3, "C", None, Some(1)), HNode(4, "D", None, Some(2)) ]
  }

  lemma Line4WellFormed()
    ensures WellFormed(Line4())
  {
  }

  lemma Line4Ancestors()
    ensures WellFormed(Line4()) && (set a | a in Ancestors(Line4(), 2)) == {0, 1}
  {
    Line4WellFormed();
    var h := Line4();
    assert Walk(h, None) == [];
    assert Walk(h, Some(0)) == [0];
    assert Ancestors(h, 2) == [1, 0];
  }

  lemma Line4Children()
    ensures WellFormed(Line4()) && (set c | c in Children(Line4(), 2)) == {3}
  {
    Line4WellFormed();
    var h := Line4();
    var kids := Children(h, 2);
    assert 3 in kids;
  }

  /** Focusing the third generation lights the whole line: its father and
      grandfather above and its son below. */
  lemma FocusOnThirdGeneration()
    ensures WellFormed(Line4())
    ensures Visible(Line4(), 2) == {0, 1, 2, 3}
  {
    Line4Ancestors();
    Line4Children();
  }

  /** Three brothers with names sharing a prefix, under one father. */
  function Brothers(): seq<HNode>
  {
    [ HNode(1, "علي", None, None), HNode(2, "حسن", None, Some(0)),
      HNode(3, "حازم", None, Some(0)), HNode(4, "حسام", None, Some(0)) ]
  }

  lemma BrothersWellFormed()
    ensures WellFormed(Brothers())
  {
  }

  lemma PaddedQuery()
    ensures Query(" حس ") == "حس"
  {
    var t := "حس";
    assert " حس " == [' '] + t + [' '];
    TrimPadded(' ', t, ' ');
    ToLowerKeepsUncased(t);
  }

  lemma PrefixMatches()
    ensures Matches("حسن", "حس") && Matches("حسام", "حس")
  {
    assert ToLower("حسن") == "حسن";
    assert ToLower("حسام") == "حسام";
  }

  lemma OthersDoNotMatch()
    ensures !Matches("حازم", "حس") && !Matches("علي", "حس")
  {
    assert ToLower("حازم") == "حازم";
    assert ToLower("علي") == "علي";
    assert "حس"[1] == 'س';
    MissingLetterNotIncluded("حازم", "حس", 'س');
    MissingLetterNotIncluded("علي", "حس", 'س');
  }

  lemma MatchesOfBrothers(v: View)
    requires WellFormed(Brothers()) && Fits(Brothers(), v)
    ensures ShowMatches(Brothers(), v, "حس").nodeOpacity == [0.12, 1.0, 0.12, 1.0]
  {
    PrefixMatches();
    OthersDoNotMatch();
  }

  /** Searching for " حس " lights Hassan and Hussam and fades Hazem and
      the father. */
  lemma SearchByPrefix(v: View)
    requires Fits(Brothers(), v)
    ensures WellFormed(Brothers())
    ensures SearchFor(Brothers(), v, " حس ").nodeOpacity == [0.12, 1.0, 0.12, 1.0]
  {
    BrothersWellFormed();
    PaddedQuery();
    MatchesOfBrothers(v);
  }
}
