/**
  What the portfolio section renders from its state: in mobile mode one card
  per project, only the active one visible, plus one dot button per project;
  otherwise a marquee of the catalog written out twice.
 */
module Portfolio {
  import opened Catalog
  import opened Keys
  import opened Cursor
  import opened Slideshow

  /** `index === currentIndex`: the test that picks both the visible card
      and the highlighted dot. */
  predicate IsActive(index: nat, cursor: nat) {
    index == cursor
  }

  /** A slideshow card, keyed by the project id. */
  datatype SlideCard = SlideCard(key: nat, project: Project, visible: bool)

  /** A dot button, keyed by its index; clicking it selects `target`. */
  datatype DotButton = DotButton(key: nat, target: nat, highlighted: bool)

  /** A marquee card, keyed by the string `${id}-${index}`. */
  datatype MarqueeCard = MarqueeCard(key: string, project: Project)

  datatype View =
    | SlideshowView(cards: seq<SlideCard>, dots: seq<DotButton>)
    | MarqueeView(items: seq<MarqueeCard>)

  function SlideCards(catalog: seq<Project>, cursor: nat): (cards: seq<SlideCard>)
    ensures |cards| == |catalog|
    ensures forall i :: 0 <= i < |cards| ==> cards[i].project == catalog[i]
  {
    seq(|catalog|, i requires 0 <= i < |catalog| =>
      SlideCard(catalog[i].id, catalog[i], IsActive(i, cursor)))
  }

  function DotButtons(n: nat, cursor: nat): (dots: seq<DotButton>)
    ensures |dots| == n
  {
    seq(n, i requires 0 <= i < n => DotButton(i, i, IsActive(i, cursor)))
  }

  /** The positions of the visible cards. */
  function VisibleCards(cards: seq<SlideCard>): set<nat> {
    set i: nat | i < |cards| && cards[i].visible
  }

  /** The positions of the highlighted dots. */
  function HighlightedDots(dots: seq<DotButton>): set<nat> {
    set i: nat | i < |dots| && dots[i].highlighted
  }

  /** `[...projects, ...projects]`: the catalog written out twice, so that
      position `i` shows project `i mod n`. */
  function Doubled(catalog: seq<Project>): (list: seq<Project>)
    ensures |list| == 2 * |catalog|
    ensures forall i :: 0 <= i < |list| ==> list[i] == catalog[i % |catalog|]
  {
    var list := catalog + catalog;
    assert forall i :: |catalog| <= i < |list| ==> i % |catalog| == i - |catalog| by {
      forall i | |catalog| <= i < |list|
        ensures i % |catalog| == i - |catalog|
      {
        ModOfQuotientForm(i, 1, i - |catalog|, |catalog|);
      }
    }
    assert forall i :: 0 <= i < |catalog| ==> i % |catalog| == i by {
      forall i | 0 <= i < |catalog|
        ensures i % |catalog| == i
      {
        ModOfQuotientForm(i, 0, i, |catalog|);
      }
    }
    list
  }

  function MarqueeCards(catalog: seq<Project>): (items: seq<MarqueeCard>)
    ensures |items| == 2 * |catalog|
    ensures forall i :: 0 <= i < |items| ==> items[i].project == catalog[i % |catalog|]
  {
    var list := Doubled(catalog);
    seq(|list|, i requires 0 <= i < |list| => MarqueeCard(MarqueeKey(list[i].id, i), list[i]))
  }

  /** The section as a function of the catalog and the component state:
      the slideshow in mobile mode, the marquee otherwise. */
  function Render(catalog: seq<Project>, s: State): (v: View)
    ensures v.SlideshowView? <==> s.mobile
    ensures v.SlideshowView? ==> |v.cards| == |catalog| && |v.dots| == |catalog|
    ensures v.MarqueeView? ==> |v.items| == 2 * |catalog|
  {
    if s.mobile then SlideshowView(SlideCards(catalog, s.cursor), DotButtons(|catalog|, s.cursor))
    else MarqueeView(MarqueeCards(catalog))
  }

  /** Exactly one card is visible and exactly one dot is highlighted, and
      both are the one at the cursor. */
  lemma ExactlyOneActive(catalog: seq<Project>, cursor: nat)
    requires cursor < |catalog|
    ensures VisibleCards(SlideCards(catalog, cursor)) == {cursor}
    ensures HighlightedDots(DotButtons(|catalog|, cursor)) == {cursor}
  {
  }

  /** In every reachable mobile state the rendered slideshow shows one card
      and highlights one dot, the same index, and it is the cursor. */
  lemma MobileViewAgreesWithCursor(catalog: seq<Project>, s: State)
    requires Inv(s, |catalog|) && s.mobile
    ensures Render(catalog, s).SlideshowView?
    ensures VisibleCards(Render(catalog, s).cards) == {s.cursor}
    ensures HighlightedDots(Render(catalog, s).dots) == {s.cursor}
  {
    ExactlyOneActive(catalog, s.cursor);
  }

  /** Clicking dot `i` makes card `i` the only visible card and dot `i` the
      only highlighted dot. */
  lemma ClickingDotShowsItsCard(catalog: seq<Project>, s: State, i: nat)
    requires Inv(s, |catalog|) && s.mobile && i < |catalog|
    ensures Enabled(s, Select(Render(catalog, s).dots[i].target), |catalog|)
    ensures VisibleCards(Render(catalog, Step(s, Select(Render(catalog, s).dots[i].target), |catalog|)).cards) == {i}
    ensures HighlightedDots(Render(catalog, Step(s, Select(Render(catalog, s).dots[i].target), |catalog|)).dots) == {i}
  {
    ExactlyOneActive(catalog, i);
  }

  /** The marquee does not depend on the cursor. */
  lemma MarqueeIgnoresCursor(catalog: seq<Project>, s: State, c: nat)
    requires !s.mobile
    ensures Render(catalog, s) == Render(catalog, s.(cursor := c))
    ensures Render(catalog, s) == MarqueeView(MarqueeCards(catalog))
  {
  }

  /** Slideshow card keys (`project.id`) are unique when the ids are. */
  lemma SlideKeysUnique(catalog: seq<Project>, cursor: nat)
    requires DistinctIds(catalog)
    ensures forall i, j :: 0 <= i < j < |catalog| ==>
              SlideCards(catalog, cursor)[i].key != SlideCards(catalog, cursor)[j].key
  {
  }

  /** Dot keys (the index) and targets are unique: each dot selects its own index. */
  lemma DotKeysUnique(n: nat, cursor: nat)
    ensures forall i, j :: 0 <= i < j < n ==> DotButtons(n, cursor)[i].key != DotButtons(n, cursor)[j].key
    ensures forall i :: 0 <= i < n ==> DotButtons(n, cursor)[i].target == i
  {
  }

  /** Marquee keys `${id}-${index}` are unique because the positions are,
      even though every project appears twice. */
  lemma MarqueeKeysUnique(catalog: seq<Project>)
    ensures forall i, j :: 0 <= i < j < 2 * |catalog| ==>
              MarqueeCards(catalog)[i].key != MarqueeCards(catalog)[j].key
  {
    var items := MarqueeCards(catalog);
    var list := Doubled(catalog);
    forall i, j | 0 <= i < j < 2 * |catalog|
      ensures items[i].key != items[j].key
    {
      MarqueeKeyInjective(list[i].id, i, list[j].id, j);
    }
  }

  /** With distinct ids, each project of the catalog occupies exactly two
      marquee positions, `p` and `p + n`. */
  lemma MarqueeShowsEachProjectTwice(catalog: seq<Project>, p: nat, i: nat)
    requires DistinctIds(catalog) && p < |catalog| && i < 2 * |catalog|
    ensures MarqueeCards(catalog)[i].project == catalog[p] <==> i == p || i == p + |catalog|
  {
  }

  /** The six-project slideshow from mount: three ticks reach 3, five reach
      5, and the sixth wraps back to 0. */
  lemma SixProjectTicks()
    ensures Run(Mount(true), Ticks(0, 3), |Projects|).cursor == 3
    ensures Run(Mount(true), Ticks(0, 5), |Projects|).cursor == 5
    ensures Run(Mount(true), Ticks(0, 6), |Projects|).cursor == 0
  {
    ProjectsShape();
    TicksAdvance(Mount(true), 0, 3, 6);
    AdvanceNWithinLap(3, 0, 6);
    TicksAdvance(Mount(true), 0, 5, 6);
    AdvanceNWithinLap(5, 0, 6);
    TicksAdvance(Mount(true), 0, 6, 6);
    AdvanceNWithinLap(6, 0, 6);
  }

  /** The six-project marquee: twelve cards showing ids 1..6 and then 1..6 again. */
  lemma SixProjectMarquee()
    ensures |MarqueeCards(Projects)| == 12
    ensures forall i :: 0 <= i < 12 ==> MarqueeCards(Projects)[i].project.id == i % 6 + 1
  {
  }
}
