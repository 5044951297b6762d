/** The classical button finder of `ScreenshotAnalyzer`: bounding boxes of
    colour-mask and edge contours, filtered by size, aspect and margins,
    de-duplicated twice, ordered top to bottom, left to right, and cut to
    eight. OpenCV's masks and contours arrive as lists of boxes. */
module ScreenAnalysis {
  import opened Wrappers
  import opened Geometry
  import opened Seqs

  /** The `color` tag of an element: the mask that found it, or
      `edge_detected` for the edge pass. */
  datatype Color = Blue | GrayLight | GrayMedium | White | EdgeDetected

  /** One detected element: its box and the pass that found it. */
  datatype Element = Element(box: Box, color: Color)

  // ---------------------------------------------------------------------
  // Colour masks

  /** The colour-contour filter of `find_buttons_by_color` on an image of
      `width` by `height`: 60-300 by 20-80 pixels, under 40% of the width
      and 30% of the height, aspect between 2 and 8, and more than 10
      pixels clear of every edge. */
  predicate ColorFilter(width: int, height: int, b: Box) {
    && 60 <= b.w <= 300 && 20 <= b.h <= 80
    && 10 * b.w < 4 * width && 10 * b.h < 3 * height
    && 2 * b.h <= b.w <= 8 * b.h
    && b.x > 10 && b.y > 10
    && b.x + b.w < width - 10 && b.y + b.h < height - 10
  }

  /** Tags a contour box with the mask that found it. */
  function TagWith(color: Color): Box -> Element {
    (b: Box) => Element(b, color)
  }

  function PassesColor(width: int, height: int): Element -> bool {
    (e: Element) => ColorFilter(width, height, e.box)
  }

  /** A contour box passing the colour filter with the given area. */
  function PassesWithArea(width: int, height: int, a: int): Box -> bool {
    (b: Box) => ColorFilter(width, height, b) && Area(b) == a
  }

  function AreaIs(a: int): Element -> bool {
    (e: Element) => Area(e.box) == a
  }

  /** The order of the colour pass: smaller area first. */
  predicate ByArea(a: Element, b: Element) {
    Area(a.box) <= Area(b.box)
  }

  lemma ByAreaTotal()
    ensures TotalPreorder(ByArea)
  {
  }

  /** `find_buttons_by_color` for one mask: each contour passing the filter,
      as often as it occurs, tagged with the mask's colour, smallest area
      first. */
  function FindByColor(width: int, height: int, contours: seq<Box>, color: Color): (r: seq<Element>)
    ensures forall e :: e in r <==> e.color == color && e.box in contours && ColorFilter(width, height, e.box)
    ensures SortedBy(r, ByArea)
  {
    var tagged := Map(contours, TagWith(color));
    var kept := Filter(tagged, PassesColor(width, height));
    var r := Sort(kept, ByArea);
    SortElements(kept, ByArea);
    ByAreaTotal();
    SortSorted(kept, ByArea);
    assert forall e :: e in tagged <==> e.color == color && e.box in contours;
    r
  }

  /** Multiplicity: each passing contour is kept as often as it occurs. */
  lemma FindByColorCounts(width: int, height: int, contours: seq<Box>, color: Color)
    ensures forall b :: multiset(FindByColor(width, height, contours, color))[Element(b, color)]
                        == if ColorFilter(width, height, b) then multiset(contours)[b] else 0
  {
    var tagged := Map(contours, TagWith(color));
    var kept := Filter(tagged, PassesColor(width, height));
    assert multiset(FindByColor(width, height, contours, color)) == multiset(kept);
    forall b
      ensures multiset(kept)[Element(b, color)] == if ColorFilter(width, height, b) then multiset(contours)[b] else 0
    {
      FilterCount(tagged, PassesColor(width, height), Element(b, color));
      MapCount(contours, TagWith(color), b);
    }
  }

  /** The sort by area is stable: the elements of one area are the passing
      contours of that area, tagged, in contour order. */
  lemma FindByColorTies(width: int, height: int, contours: seq<Box>, color: Color, a: int)
    ensures Selects(Filter(FindByColor(width, height, contours, color), AreaIs(a)),
                    contours, PassesWithArea(width, height, a), TagWith(color))
  {
    var tagged := Map(contours, TagWith(color));
    var kept := Filter(tagged, PassesColor(width, height));
    SortStable(kept, ByArea, AreaIs(a));
    FilterFilter(tagged, PassesColor(width, height), AreaIs(a));
    FilterMap(contours, TagWith(color), Both(PassesColor(width, height), AreaIs(a)), PassesWithArea(width, height, a));
    MapFilterSelects(contours, PassesWithArea(width, height, a), TagWith(color));
  }

  // ---------------------------------------------------------------------
  // Edges

  /** A contour of the edge pass: its bounding box and its own area. */
  datatype EdgeContour = EdgeContour(box: Box, area: real)

  /** The filter of `detect_buttons_by_edges`: 70-250 by 25-60 pixels, under
      30% of the width and 20% of the height, aspect between 2.5 and 6, more
      than 20 pixels clear of every edge, and filling over 60% of its box. */
  predicate EdgeFilter(width: int, height: int, c: EdgeContour) {
    var b := c.box;
    && 70 <= b.w <= 250 && 25 <= b.h <= 60
    && 10 * b.w < 3 * width && 5 * b.h < height
    && 5 * b.h <= 2 * b.w && b.w <= 6 * b.h
    && b.x > 20 && b.y > 20
    && b.x + b.w < width - 20 && b.y + b.h < height - 20
    && b.w * b.h > 0 && c.area > 0.6 * ((b.w * b.h) as real)
  }

  function PassesEdge(width: int, height: int): EdgeContour -> bool {
    (c: EdgeContour) => EdgeFilter(width, height, c)
  }

  /** The element an edge contour yields. */
  function AsEdge(c: EdgeContour): Element {
    Element(c.box, EdgeDetected)
  }

  /** `detect_buttons_by_edges`: the boxes of the passing contours in contour
      order; `None` stands for the OpenCV call raising, which yields no
      buttons. */
  function EdgeButtons(width: int, height: int, contours: Option<seq<EdgeContour>>): (r: seq<Element>)
    ensures contours.None? ==> r == []
    ensures contours.Some? ==> Selects(r, contours.value, PassesEdge(width, height), AsEdge)
    ensures forall k :: 0 <= k < |r| ==> r[k].color == EdgeDetected
    ensures contours.Some? ==> forall e :: e in r <==>
              e.color == EdgeDetected && exists c :: c in contours.value && c.box == e.box && EdgeFilter(width, height, c)
  {
    match contours
    case None => []
    case Some(cs) =>
      MapFilterSelects(cs, PassesEdge(width, height), AsEdge);
      EdgeMembers(width, height, cs);
      Map(Filter(cs, PassesEdge(width, height)), AsEdge)
  }

  lemma EdgeMembers(width: int, height: int, cs: seq<EdgeContour>)
    ensures var r := Map(Filter(cs, PassesEdge(width, height)), AsEdge);
      forall e :: e in r <==> e.color == EdgeDetected && exists c :: c in cs && c.box == e.box && EdgeFilter(width, height, c)
  {
    var kept := Filter(cs, PassesEdge(width, height));
    var r := Map(kept, AsEdge);
    forall e
      ensures e in r <==> e.color == EdgeDetected && exists c :: c in cs && c.box == e.box && EdgeFilter(width, height, c)
    {
      if e in r {
        var k :| 0 <= k < |r| && r[k] == e;
        assert kept[k] in cs && EdgeFilter(width, height, kept[k]);
      }
      if e.color == EdgeDetected && exists c :: c in cs && c.box == e.box && EdgeFilter(width, height, c) {
        var c :| c in cs && c.box == e.box && EdgeFilter(width, height, c);
        var i :| 0 <= i < |cs| && cs[i] == c;
        assert c in kept;
        var k :| 0 <= k < |kept| && kept[k] == c;
        assert r[k] == e;
      }
    }
  }

  // ---------------------------------------------------------------------
  // De-duplication and ordering

  /** First pass: corners within 30 pixels, or any shared pixel. */
  predicate NearOrOverlapping(a: Element, b: Element) {
    SqDist(a.box, b.box) < 30 * 30 || OverlapArea(a.box, b.box) > 0
  }

  /** Second pass: corners within 50 pixels. */
  predicate Near(a: Element, b: Element) {
    SqDist(a.box, b.box) < 50 * 50
  }

  predicate Apart(a: Element, b: Element) {
    !Near(a, b)
  }

  lemma OverlapSymmetric(a: Box, b: Box)
    ensures OverlapArea(a, b) == OverlapArea(b, a)
  {
    assert Overlap1(a.x, a.w, b.x, b.w) == Overlap1(b.x, b.w, a.x, a.w);
    assert Overlap1(a.y, a.h, b.y, b.h) == Overlap1(b.y, b.h, a.y, a.h);
  }

  lemma NearOrOverlappingSymmetric()
    ensures Symmetric(NearOrOverlapping)
  {
    forall a: Element, b: Element | NearOrOverlapping(a, b)
      ensures NearOrOverlapping(b, a)
    {
      OverlapSymmetric(a.box, b.box);
    }
  }

  lemma NearSymmetric()
    ensures Symmetric(Near)
  {
  }

  /** Reading order: top to bottom, then left to right. */
  predicate ByPosition(a: Element, b: Element) {
    a.box.y < b.box.y || (a.box.y == b.box.y && a.box.x <= b.box.x)
  }

  lemma ByPositionTotal()
    ensures TotalPreorder(ByPosition)
  {
  }

  const MaxElements: nat := 8

  /** The screen `detect_ui_elements` works on: its size, the contour boxes
      of the blue, light grey, medium grey and white masks, and the edge
      contours. */
  datatype Screen = Screen(
    width: int, height: int,
    blue: seq<Box>, grayLight: seq<Box>, grayMedium: seq<Box>, white: seq<Box>,
    edges: Option<seq<EdgeContour>>)

  /** The four colour passes in the order of `color_ranges`. */
  function ColorCandidates(s: Screen): (r: seq<Element>)
    ensures forall e :: e in r ==> e.color != EdgeDetected && ColorFilter(s.width, s.height, e.box)
  {
    FindByColor(s.width, s.height, s.blue, Blue)
    + FindByColor(s.width, s.height, s.grayLight, GrayLight)
    + FindByColor(s.width, s.height, s.grayMedium, GrayMedium)
    + FindByColor(s.width, s.height, s.white, White)
  }

  /** `filtered_elements`: the first de-duplication of `all_detected`,
      ordered by position. */
  function ColorElements(all: seq<Element>): (r: seq<Element>)
    ensures SortedBy(r, ByPosition)
  {
    ByPositionTotal();
    SortSorted(Dedup(all, NearOrOverlapping), ByPosition);
    Sort(Dedup(all, NearOrOverlapping), ByPosition)
  }

  /** The colour elements are candidates, no two of them within 30 pixels
      or overlapping, and every candidate is one of them or is near or
      overlaps one; a dropped candidate clashes with an earlier kept one,
      so the first of a clashing run wins. */
  lemma FirstPass(all: seq<Element>)
    ensures var r := ColorElements(all);
      && (forall e :: e in r ==> e in all)
      && (forall i, j :: 0 <= i < |r| && 0 <= j < |r| && i != j ==> !NearOrOverlapping(r[i], r[j]))
      && (forall k :: 0 <= k < |all| ==> CoveredBy(all[k], r, NearOrOverlapping))
      && (forall k :: 0 <= k < |all| ==>
            all[k] in r || exists j :: 0 <= j < k && all[j] in r && NearOrOverlapping(all[k], all[j]))
  {
    NearOrOverlappingSymmetric();
    DedupThenSort(all, NearOrOverlapping, ByPosition);
    DedupSortFirstWins(all, NearOrOverlapping, ByPosition);
  }

  /** `final_elements` before the cut: the second de-duplication of the
      colour elements followed by the edge elements, ordered by position. */
  function FinalElements(colors: seq<Element>, edges: seq<Element>): (r: seq<Element>)
    ensures SortedBy(r, ByPosition)
    ensures Pairwise(r, Apart)
  {
    var all := colors + edges;
    ByPositionTotal();
    SortSorted(Dedup(all, Near), ByPosition);
    SecondPass(all);
    Sort(Dedup(all, Near), ByPosition)
  }

  /** The same for the second pass with the 50-pixel test. */
  lemma SecondPass(all: seq<Element>)
    ensures var r := Sort(Dedup(all, Near), ByPosition);
      && (forall e :: e in r ==> e in all)
      && (forall i, j :: 0 <= i < |r| && 0 <= j < |r| && i != j ==> !Near(r[i], r[j]))
      && (forall k :: 0 <= k < |all| ==> CoveredBy(all[k], r, Near))
      && (forall k :: 0 <= k < |all| ==> all[k] in r || exists j :: 0 <= j < k && all[j] in r && Near(all[k], all[j]))
  {
    NearSymmetric();
    DedupThenSort(all, Near, ByPosition);
    DedupSortFirstWins(all, Near, ByPosition);
  }

  /** Every final element is a colour or an edge element, and every colour
      or edge element is final or within 50 pixels of a final one. */
  lemma FinalElementsCover(colors: seq<Element>, edges: seq<Element>)
    ensures forall e :: e in FinalElements(colors, edges) ==> e in colors || e in edges
    ensures forall e :: e in colors + edges ==> exists f :: f in FinalElements(colors, edges) && (f == e || Near(e, f))
  {
    var all := colors + edges;
    SecondPass(all);
    forall e | e in all
      ensures exists f :: f in FinalElements(colors, edges) && (f == e || Near(e, f))
    {
      var k :| 0 <= k < |all| && all[k] == e;
      assert CoveredBy(all[k], FinalElements(colors, edges), Near);
    }
  }

  /** The final list of a screen, before the cut to eight. */
  function ScreenFinal(s: Screen): (r: seq<Element>)
    ensures SortedBy(r, ByPosition) && Pairwise(r, Apart)
  {
    FinalElements(ColorElements(ColorCandidates(s)), EdgeButtons(s.width, s.height, s.edges))
  }

  /** The cut to the first eight elements of an ordered, separated list. */
  function Cut(f: seq<Element>): (r: seq<Element>)
    requires SortedBy(f, ByPosition) && Pairwise(f, Apart)
    ensures r == f[..Min(MaxElements, |f|)]
    ensures |r| <= MaxElements
    ensures SortedBy(r, ByPosition) && Pairwise(r, Apart)
    ensures forall e :: e in r ==> e in f
  {
    TakeKeeps(f, Min(MaxElements, |f|));
    f[..Min(MaxElements, |f|)]
  }

  /** `detect_ui_elements`: the first eight final elements (all of them
      when fewer), in reading order, any two of them at least 50 pixels
      apart; no screenshot means none. */
  function DetectUiElements(shot: Option<Screen>): (r: seq<Element>)
    ensures shot.None? ==> r == []
    ensures shot.Some? ==> r == ScreenFinal(shot.value)[..Min(MaxElements, |ScreenFinal(shot.value)|)]
    ensures |r| <= MaxElements
    ensures SortedBy(r, ByPosition)
    ensures Pairwise(r, Apart)
    ensures shot.Some? ==> forall e :: e in r ==> e in ScreenFinal(shot.value)
  {
    match shot
    case None => []
    case Some(s) => Cut(ScreenFinal(s))
  }

  /** Each reported element passed the colour filter of its mask, or is an
      edge element whose contour passed the edge filter. */
  lemma DetectedPassFilters(s: Screen, e: Element)
    ensures e in DetectUiElements(Some(s)) && e.color != EdgeDetected ==> ColorFilter(s.width, s.height, e.box)
    ensures e in DetectUiElements(Some(s)) && e.color == EdgeDetected ==>
              s.edges.Some? && exists c :: c in s.edges.value && c.box == e.box && EdgeFilter(s.width, s.height, c)
  {
    if e in DetectUiElements(Some(s)) {
      var colors := ColorElements(ColorCandidates(s));
      var edges := EdgeButtons(s.width, s.height, s.edges);
      FinalElementsCover(colors, edges);
      assert e in colors || e in edges;
      FirstPass(ColorCandidates(s));
    }
  }

  /** A prefix keeps order, separation and membership. */
  lemma TakeKeeps(f: seq<Element>, n: nat)
    requires n <= |f|
    requires SortedBy(f, ByPosition) && Pairwise(f, Apart)
    ensures SortedBy(f[..n], ByPosition) && Pairwise(f[..n], Apart)
    ensures forall e :: e in f[..n] ==> e in f
  {
  }

  /** With at most eight survivors nothing is cut: every colour or edge
      element is reported or lies within 50 pixels of a reported one. */
  lemma FewSurvivorsAllReported(s: Screen)
    requires |ScreenFinal(s)| <= MaxElements
    ensures var colors := ColorElements(ColorCandidates(s));
      forall e :: e in colors + EdgeButtons(s.width, s.height, s.edges) ==>
        exists f :: f in DetectUiElements(Some(s)) && (f == e || Near(e, f))
  {
    NothingCut(s);
    FinalElementsCover(ColorElements(ColorCandidates(s)), EdgeButtons(s.width, s.height, s.edges));
  }

  lemma NothingCut(s: Screen)
    requires |ScreenFinal(s)| <= MaxElements
    ensures DetectUiElements(Some(s)) == ScreenFinal(s)
  {
    CutShort(ScreenFinal(s));
  }

  lemma CutShort(f: seq<Element>)
    requires |f| <= MaxElements && SortedBy(f, ByPosition) && Pairwise(f, Apart)
    ensures Cut(f) == f
  {
    assert f[..|f|] == f;
  }
}
