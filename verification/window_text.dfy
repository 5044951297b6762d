/** `SimpleTextExtractor`: reading an installer through the window titles
    and control texts Win32 reports, without OCR. Window enumeration and
    contour finding arrive as lists; the screen size as two integers. */
module WindowText {
  import opened Wrappers
  import opened Text
  import opened Seqs
  import opened Geometry
  import opened Regex

  // ---------------------------------------------------------------------
  // The installer window

  datatype WindowInfo = WindowInfo(handle: int, title: string)

  const InstallationWords: seq<string> := [
    "setup", "install", "wizard", "installer", "configurar",
    "instalar", "asistente", "installation", "instalacion"]

  predicate IsInstallationTitle(title: string) {
    AnyIn(InstallationWords, Lower(title))
  }

  predicate HasTitle(w: WindowInfo) {
    |w.title| > 0
  }

  /** `list_all_windows`: the visible windows that have a title, in
      enumeration order. */
  function ListAllWindows(visible: seq<WindowInfo>): (r: seq<WindowInfo>)
    ensures forall k :: 0 <= k < |r| ==> |r[k].title| > 0
    ensures Selects(r, visible, HasTitle, Id)
  {
    FilterSelects(visible, HasTitle);
    Filter(visible, HasTitle)
  }

  /** Index of the first window, from `k` on, whose title names an
      installation. */
  function FirstInstallation(ws: seq<WindowInfo>, k: nat): (r: Option<nat>)
    requires k <= |ws|
    ensures r.Some? ==> k <= r.value < |ws| && IsInstallationTitle(ws[r.value].title)
    ensures r.Some? ==> forall j :: k <= j < r.value ==> !IsInstallationTitle(ws[j].title)
    ensures r.None? ==> forall j :: k <= j < |ws| ==> !IsInstallationTitle(ws[j].title)
    decreases |ws| - k
  {
    if k == |ws| then None
    else if IsInstallationTitle(ws[k].title) then Some(k)
    else FirstInstallation(ws, k + 1)
  }

  /** `find_installation_window`: the handle of the first titled window whose
      lower-cased title holds an installation keyword, or `None`. */
  function FindInstallationWindow(visible: seq<WindowInfo>): (r: Option<int>)
    ensures r.None? <==> forall k :: 0 <= k < |ListAllWindows(visible)| ==>
                           !IsInstallationTitle(ListAllWindows(visible)[k].title)
    ensures r.Some? ==> exists k :: 0 <= k < |ListAllWindows(visible)|
                          && ListAllWindows(visible)[k].handle == r.value
                          && IsInstallationTitle(ListAllWindows(visible)[k].title)
                          && forall j :: 0 <= j < k ==> !IsInstallationTitle(ListAllWindows(visible)[j].title)
  {
    var ws := ListAllWindows(visible);
    match FirstInstallation(ws, 0)
    case None => None
    case Some(k) => Some(ws[k].handle)
  }

  // ---------------------------------------------------------------------
  // Control texts

  /** `get_window_text_win32`: the foreground window's own text followed by
      its children's, keeping the non-empty ones; `None` stands for a Win32
      call raising, which yields no controls. */
  function WindowTexts(win: Option<(string, seq<string>)>): (r: seq<string>)
    ensures forall k :: 0 <= k < |r| ==> |r[k]| > 0
    ensures win.None? ==> r == []
    ensures win.Some? ==> Selects(r, [win.value.0] + win.value.1, NonEmpty, Id)
    ensures win.Some? && |win.value.0| > 0 ==> |r| > 0 && r[0] == win.value.0
  {
    match win
    case None => []
    case Some((main, children)) =>
      var all := [main] + children;
      FilterSelects(all, NonEmpty);
      if |main| > 0 then
        assert all == [main] + children;
        FilterCons(all, NonEmpty);
        Filter(all, NonEmpty)
      else Filter(all, NonEmpty)
  }

  /** The non-empty texts joined with single spaces. */
  function AllText(texts: seq<string>): (r: string)
    ensures forall k :: 0 <= k < |texts| && |texts[k]| > 0 ==> Contains(r, texts[k])
  {
    var parts := Filter(texts, NonEmpty);
    forall k | 0 <= k < |texts| && |texts[k]| > 0
      ensures Contains(Join(" ", parts), texts[k])
    {
      assert texts[k] in parts;
      var j :| 0 <= j < |parts| && parts[j] == texts[k];
      JoinContainsParts(" ", parts, j);
    }
    Join(" ", parts)
  }

  /** When no text holds a space character, splitting the joined text on
      whitespace gives back exactly the non-empty texts, in order. */
  lemma AllTextSplits(texts: seq<string>)
    requires forall k, i :: 0 <= k < |texts| && 0 <= i < |texts[k]| ==> !IsSpace(texts[k][i])
    ensures Split(AllText(texts)) == Filter(texts, NonEmpty)
  {
    var parts := Filter(texts, NonEmpty);
    forall k | 0 <= k < |parts|
      ensures IsWord(parts[k])
    {
      var j :| 0 <= j < |texts| && texts[j] == parts[k];
    }
    SplitJoin(parts);
  }

  // ---------------------------------------------------------------------
  // Button regions

  /** A contour of the window screenshot: its bounding box and the number of
      vertices of its polygon approximation. */
  datatype RegionContour = RegionContour(box: Box, vertices: nat)

  /** A button region with its centre, each half-side rounded down. */
  datatype Region = Region(box: Box, center: (int, int))

  /** Four corners, 50-200 by 20-50 pixels. */
  predicate IsButtonShape(c: RegionContour) {
    c.vertices == 4 && 50 <= c.box.w <= 200 && 20 <= c.box.h <= 50
  }

  function ToRegion(c: RegionContour): Region {
    Region(c.box, Center(c.box))
  }

  /** `detect_button_regions`: the button-shaped contours in contour order;
      `None` stands for a failed screenshot, which yields no regions. */
  function DetectButtonRegions(shot: Option<seq<RegionContour>>): (r: seq<Region>)
    ensures shot.None? ==> r == []
    ensures forall k :: 0 <= k < |r| ==> 50 <= r[k].box.w <= 200 && 20 <= r[k].box.h <= 50
    ensures forall k :: 0 <= k < |r| ==> r[k].center == Center(r[k].box)
    ensures shot.Some? ==> forall k :: 0 <= k < |shot.value| && IsButtonShape(shot.value[k]) ==>
              ToRegion(shot.value[k]) in r
    ensures shot.Some? ==> Selects(r, shot.value, IsButtonShape, ToRegion)
  {
    match shot
    case None => []
    case Some(cs) => RegionsOf(cs)
  }

  function RegionsOf(cs: seq<RegionContour>): (r: seq<Region>)
    ensures |r| <= |cs|
    ensures forall k :: 0 <= k < |r| ==> 50 <= r[k].box.w <= 200 && 20 <= r[k].box.h <= 50
    ensures forall k :: 0 <= k < |r| ==> r[k].center == Center(r[k].box)
    ensures forall k :: 0 <= k < |cs| && IsButtonShape(cs[k]) ==> ToRegion(cs[k]) in r
    ensures Selects(r, cs, IsButtonShape, ToRegion)
  {
    var kept := Filter(cs, IsButtonShape);
    forall k | 0 <= k < |cs| && IsButtonShape(cs[k])
      ensures ToRegion(cs[k]) in Map(kept, ToRegion)
    {
      MapMember(kept, ToRegion, cs[k]);
    }
    MapFilterSelects(cs, IsButtonShape, ToRegion);
    Map(kept, ToRegion)
  }

  // ---------------------------------------------------------------------
  // Classification by position

  /** The button types: the template keys in their dictionary order, and
      `unknown`. */
  datatype ButtonType = Next | Install | Cancel | Accept | Finish | Back | Browse | Close | UnknownType

  /** `classify_buttons_by_position` for one centre on a `width` by `height`
      screen, with the ratio tests cross-multiplied: bottom fifth right,
      left or centre; middle band far right or elsewhere. */
  function PositionType(width: int, height: int, cx: int, cy: int): ButtonType {
    if 10 * cy > 8 * height then
      (if 10 * cx > 7 * width then Next else if 10 * cx < 3 * width then Back else Accept)
    else if 3 * height < 10 * cy < 7 * height then
      (if 10 * cx > 8 * width then Browse else Install)
    else UnknownType
  }

  /** The ratio tests as the source writes them, on exact quotients. */
  function RatioType(width: int, height: int, cx: int, cy: int): ButtonType
    requires width > 0 && height > 0
  {
    var yr := (cy as real) / (height as real);
    var xr := (cx as real) / (width as real);
    if yr > 0.8 then (if xr > 0.7 then Next else if xr < 0.3 then Back else Accept)
    else if 0.3 < yr < 0.7 then (if xr > 0.8 then Browse else Install)
    else UnknownType
  }

  lemma RatioCompare(a: int, n: int, num: int, den: int)
    requires n > 0 && den > 0
    ensures (a as real) / (n as real) > (num as real) / (den as real) <==> den * a > num * n
    ensures (a as real) / (n as real) < (num as real) / (den as real) <==> den * a < num * n
  {
    var q := (a as real) / (n as real);
    assert q * (n as real) == a as real;
    var t := (num as real) / (den as real);
    assert t * (den as real) == num as real;
    if q > t {
      assert q * (n as real) * (den as real) > t * (n as real) * (den as real);
    }
    if q < t {
      assert q * (n as real) * (den as real) < t * (n as real) * (den as real);
    }
    if den * a > num * n {
      assert (den as real) * (a as real) > (num as real) * (n as real);
    }
    if den * a < num * n {
      assert (den as real) * (a as real) < (num as real) * (n as real);
    }
  }

  /** On a real screen the integer tests agree with the ratio tests. */
  lemma PositionTypeIsRatioType(width: int, height: int, cx: int, cy: int)
    requires width > 0 && height > 0
    ensures PositionType(width, height, cx, cy) == RatioType(width, height, cx, cy)
  {
    RatioCompare(cy, height, 8, 10);
    RatioCompare(cy, height, 3, 10);
    RatioCompare(cy, height, 7, 10);
    RatioCompare(cx, width, 7, 10);
    RatioCompare(cx, width, 3, 10);
    RatioCompare(cx, width, 8, 10);
  }

  /** A bottom button is next, back or accept; a middle one browse or
      install; the top and the bands' edges stay unknown. */
  lemma PositionBands(width: int, height: int, cx: int, cy: int)
    ensures var t := PositionType(width, height, cx, cy);
      && (t == Next || t == Back || t == Accept <==> 10 * cy > 8 * height)
      && (t == Browse || t == Install <==> 10 * cy <= 8 * height && 3 * height < 10 * cy < 7 * height)
  {
  }

  /** A region, the type its position suggests, and the template type the
      window's text matched, if any. */
  datatype Classified = Classified(region: Region, predicted: ButtonType, textMatch: Option<ButtonType>)

  /** `classify_buttons_by_position`: every region in order, with its
      position type. */
  function ClassifyByPosition(width: int, height: int, regions: seq<Region>): (r: seq<Classified>)
    ensures |r| == |regions|
    ensures forall k :: 0 <= k < |r| ==> r[k].region == regions[k] && r[k].textMatch.None?
    ensures forall k :: 0 <= k < |r| ==>
              r[k].predicted == PositionType(width, height, regions[k].center.0, regions[k].center.1)
  {
    seq(|regions|, k requires 0 <= k < |regions| =>
      Classified(regions[k], PositionType(width, height, regions[k].center.0, regions[k].center.1), None))
  }

  // ---------------------------------------------------------------------
  // Text templates

  /** `button_templates` in dictionary order. */
  const TemplateOrder: seq<ButtonType> := [Next, Install, Cancel, Accept, Finish, Back, Browse, Close]

  function TemplateWords(t: ButtonType): seq<string> {
    match t
    case Next => ["next", "siguiente", "continuar", ">"]
    case Install => ["install", "instalar", "setup"]
    case Cancel => ["cancel", "cancelar", "salir"]
    case Accept => ["accept", "aceptar", "ok", "si"]
    case Finish => ["finish", "finalizar", "done"]
    case Back => ["back", "atras", "volver", "<"]
    case Browse => ["browse", "examinar", "..."]
    case Close => ["close", "cerrar", "x"]
    case UnknownType => []
  }

  predicate TemplateHits(t: ButtonType, text: string) {
    AnyIn(TemplateWords(t), Lower(text))
  }

  /** Position in the order of the first template, from `k` on, with a
      keyword in the text. */
  function FirstTemplateAt(text: string, k: nat): (r: Option<nat>)
    requires k <= |TemplateOrder|
    ensures r.Some? ==> k <= r.value < |TemplateOrder| && TemplateHits(TemplateOrder[r.value], text)
    ensures r.Some? ==> forall i :: k <= i < r.value ==> !TemplateHits(TemplateOrder[i], text)
    ensures r.None? ==> forall j :: k <= j < |TemplateOrder| ==> !TemplateHits(TemplateOrder[j], text)
    decreases |TemplateOrder| - k
  {
    if k == |TemplateOrder| then None
    else if TemplateHits(TemplateOrder[k], text) then Some(k)
    else FirstTemplateAt(text, k + 1)
  }

  /** The template type the text names: the first in dictionary order with
      one of its keywords in the lower-cased text. */
  function TextMatch(text: string): (r: Option<ButtonType>)
    ensures r.None? <==> forall j :: 0 <= j < |TemplateOrder| ==> !TemplateHits(TemplateOrder[j], text)
    ensures r.Some? ==> r.value != UnknownType && TemplateHits(r.value, text)
    ensures r.Some? ==> exists i :: 0 <= i < |TemplateOrder| && r.value == TemplateOrder[i]
                          && forall j :: 0 <= j < i ==> !TemplateHits(TemplateOrder[j], text)
  {
    match FirstTemplateAt(text, 0)
    case None => None
    case Some(i) => Some(TemplateOrder[i])
  }

  /** `find_installation_elements`: the classified regions, each marked with
      the first template type whose keyword the window's joined text holds;
      the mark depends on the text alone, so all regions share it. */
  function FindInstallationElements(
    width: int, height: int, win: Option<(string, seq<string>)>, shot: Option<seq<RegionContour>>): (r: seq<Classified>)
    ensures var regions := DetectButtonRegions(shot);
      && |r| == |regions|
      && (forall k :: 0 <= k < |r| ==> r[k].region == regions[k])
      && (forall k :: 0 <= k < |r| ==>
            r[k].predicted == PositionType(width, height, regions[k].center.0, regions[k].center.1))
    ensures forall k, j :: 0 <= k < |r| && 0 <= j < |r| ==> r[k].textMatch == r[j].textMatch
    ensures forall k :: 0 <= k < |r| ==> r[k].textMatch == TextMatch(AllText(WindowTexts(win)))
  {
    MarkAll(ClassifyByPosition(width, height, DetectButtonRegions(shot)), TextMatch(AllText(WindowTexts(win))))
  }

  function MarkAll(cs: seq<Classified>, m: Option<ButtonType>): (r: seq<Classified>)
    ensures |r| == |cs|
    ensures forall k :: 0 <= k < |r| ==> r[k] == cs[k].(textMatch := m)
  {
    seq(|cs|, k requires 0 <= k < |cs| => cs[k].(textMatch := m))
  }

  /** `next` comes first in the template order, so a window text naming it
      marks every region `next`, whatever else it says. */
  lemma NextWins(text: string)
    requires Contains(Lower(text), "next")
    ensures TextMatch(text) == Some(Next)
  {
    assert TemplateHits(TemplateOrder[0], text) by {
      assert TemplateWords(Next)[0] == "next";
    }
  }

  // ---------------------------------------------------------------------
  // Progress

  const InstallKeywords: seq<string> := [
    "installing", "instalando", "copying", "copiando",
    "extracting", "extrayendo", "configuring", "configurando"]

  datatype Progress = Progress(percentage: Option<nat>, status: string, isInstalling: bool)

  /** The first keyword, from `k` on, that the lower-cased text holds. */
  function FirstKeyword(words: seq<string>, text: string, k: nat): (r: Option<nat>)
    requires k <= |words|
    ensures r.Some? ==> k <= r.value < |words| && Contains(text, words[r.value])
    ensures r.Some? ==> forall j :: k <= j < r.value ==> !Contains(text, words[j])
    ensures r.None? ==> forall j :: k <= j < |words| ==> !Contains(text, words[j])
    decreases |words| - k
  {
    if k == |words| then None
    else if Contains(text, words[k]) then Some(k)
    else FirstKeyword(words, text, k + 1)
  }

  /** The status a text reports: the first keyword of the list, in list
      order, that the lower-cased text holds, or `unknown` when none does. */
  ghost predicate FirstKeywordStatus(text: string, status: string) {
    && (!AnyIn(InstallKeywords, Lower(text)) ==> status == "unknown")
    && (AnyIn(InstallKeywords, Lower(text)) ==>
          exists k :: (0 <= k < |InstallKeywords| && status == InstallKeywords[k] && Contains(Lower(text), status)
                       && forall j :: 0 <= j < k ==> !Contains(Lower(text), InstallKeywords[j])))
  }

  /** The progress a text reports: its first `N%`, and the first keyword of
      the list, in list order, that the lower-cased text holds as the status,
      `unknown` when none does. */
  function ProgressOfText(text: string): (r: Progress)
    ensures r.percentage == FirstPercent(text)
    ensures r.isInstalling <==> AnyIn(InstallKeywords, Lower(text))
    ensures !r.isInstalling ==> r.status == "unknown"
    ensures r.isInstalling ==>
      exists k :: (0 <= k < |InstallKeywords| && r.status == InstallKeywords[k] && Contains(Lower(text), r.status)
                   && forall j :: 0 <= j < k ==> !Contains(Lower(text), InstallKeywords[j]))
    ensures FirstKeywordStatus(text, r.status)
  {
    var p := FirstPercent(text);
    match FirstKeyword(InstallKeywords, Lower(text), 0)
    case None => Progress(p, "unknown", false)
    case Some(k) => Progress(p, InstallKeywords[k], true)
  }

  /** `get_installation_progress`: the progress the joined control text of
      the foreground window reports. */
  function GetInstallationProgress(win: Option<(string, seq<string>)>): (r: Progress)
    ensures r.percentage == FirstPercent(AllText(WindowTexts(win)))
    ensures r.isInstalling <==> AnyIn(InstallKeywords, Lower(AllText(WindowTexts(win))))
    ensures FirstKeywordStatus(AllText(WindowTexts(win)), r.status)
  {
    ProgressOfText(AllText(WindowTexts(win)))
  }

  /** Without any control text the progress is empty. */
  lemma NoTextNoProgress()
    ensures GetInstallationProgress(None) == Progress(None, "unknown", false)
  {
    assert AllText(WindowTexts(None)) == "";
    assert !AnyIn(InstallKeywords, Lower(""));
  }
}
