/** `TextExtractor`: reading an installer through Tesseract. The OCR engine
    is a parameter: each region arrives with the raw string Tesseract
    returned for it, or `None` when the call raised. */
module OcrText {
  import opened Wrappers
  import opened Text
  import opened Seqs
  import opened Geometry
  import opened Regex
  import WindowText

  /** `extract_text_from_image`: the OCR output stripped of surrounding
      whitespace, or the empty string when OCR failed. */
  function ExtractText(ocr: Option<string>): (r: string)
    ensures ocr.None? ==> r == ""
    ensures ocr.Some? ==> Contains(ocr.value, r) && (|r| > 0 <==> HasNonSpace(ocr.value))
    ensures |r| > 0 ==> !IsSpace(r[0]) && !IsSpace(r[|r| - 1])
    ensures ocr.Some? ==> OccursAt(ocr.value, r, LeadingSpaces(ocr.value))
    ensures ocr.Some? ==> forall j :: LeadingSpaces(ocr.value) + |r| <= j < |ocr.value| ==> IsSpace(ocr.value[j])
  {
    match ocr
    case None => ""
    case Some(t) => Strip(t)
  }

  // ---------------------------------------------------------------------
  // Text regions

  /** A contour of the thresholded screenshot and what OCR read inside its
      bounding box. */
  datatype TextContour = TextContour(box: Box, ocr: Option<string>)

  datatype TextRegion = TextRegion(box: Box, text: string)

  /** Wider than 30 and narrower than 800, taller than 10 and shorter than
      100 pixels. */
  predicate IsTextSized(b: Box) {
    30 < b.w < 800 && 10 < b.h < 100
  }

  /** The region a contour yields, if it is text-sized and OCR read
      something that is not blank. */
  predicate YieldsRegion(c: TextContour) {
    IsTextSized(c.box) && |ExtractText(c.ocr)| > 0
  }

  function ToRegion(c: TextContour): (r: TextRegion)
    ensures YieldsRegion(c) ==> IsTextSized(r.box) && |r.text| > 0
  {
    TextRegion(c.box, Strip(ExtractText(c.ocr)))
  }

  /** `find_text_regions`: in contour order, the text-sized contours whose
      OCR text is not blank, with that text stripped. */
  function FindTextRegions(cs: seq<TextContour>): (r: seq<TextRegion>)
    ensures |r| <= |cs|
    ensures forall k :: 0 <= k < |r| ==> IsTextSized(r[k].box) && |r[k].text| > 0
    ensures forall k :: 0 <= k < |cs| && YieldsRegion(cs[k]) ==> ToRegion(cs[k]) in r
    ensures Selects(r, cs, YieldsRegion, ToRegion)
  {
    var kept := Filter(cs, YieldsRegion);
    MapFilterSelects(cs, YieldsRegion, ToRegion);
    forall k | 0 <= k < |cs| && YieldsRegion(cs[k])
      ensures ToRegion(cs[k]) in Map(kept, ToRegion)
    {
      MapMember(kept, ToRegion, cs[k]);
    }
    Map(kept, ToRegion)
  }

  /** Stripping twice is stripping once, so a region's text is exactly what
      `extract_text_from_image` returned for it. */
  lemma RegionTextIsOcrText(c: TextContour)
    ensures ToRegion(c).text == ExtractText(c.ocr)
  {
    match c.ocr
    case None =>
    case Some(t) => StripIdempotent(t);
  }

  // ---------------------------------------------------------------------
  // Buttons by text

  /** A lower-cased target matches a lower-cased text when the text contains
      it, or contains one of its whitespace-separated words. */
  predicate TargetMatches(target: string, text: string) {
    Contains(text, target) || AnyIn(Split(target), text)
  }

  /** A target with a word in it matches exactly when one of its words
      occurs: the whole target containing its first word, the first test
      adds nothing. */
  lemma TargetMatchesWords(target: string, text: string)
    requires HasNonSpace(target)
    ensures TargetMatches(target, text) <==> AnyIn(Split(target), text)
  {
    if Contains(text, target) {
      SplitNonEmpty(target);
      var words := Split(target);
      ContainsTrans(text, target, words[0]);
    }
  }

  /** A blank target has no words, so it matches a text exactly when the
      text contains it; the empty target matches every text. */
  lemma BlankTarget(target: string, text: string)
    requires !HasNonSpace(target)
    ensures TargetMatches(target, text) <==> Contains(text, target)
    ensures target == "" ==> TargetMatches(target, text)
  {
    SplitNonEmpty(target);
    assert OccursAt(text, "", 0);
  }

  /** Index of the first target, from `k` on, that matches the text. */
  function FirstTarget(targets: seq<string>, text: string, k: nat): (r: Option<nat>)
    requires k <= |targets|
    ensures r.Some? ==> k <= r.value < |targets| && TargetMatches(targets[r.value], text)
    ensures r.Some? ==> forall j :: k <= j < r.value ==> !TargetMatches(targets[j], text)
    ensures r.None? ==> forall j :: k <= j < |targets| ==> !TargetMatches(targets[j], text)
    decreases |targets| - k
  {
    if k == |targets| then None
    else if TargetMatches(targets[k], text) then Some(k)
    else FirstTarget(targets, text, k + 1)
  }

  /** `t` is the first of the targets, in list order, that matches the
      text. */
  ghost predicate IsFirstTarget(targets: seq<string>, text: string, t: string) {
    exists i :: 0 <= i < |targets| && targets[i] == t && TargetMatches(t, text)
                && forall j :: 0 <= j < i ==> !TargetMatches(targets[j], text)
  }

  /** A region and the (lower-cased) target it matched. */
  datatype ButtonMatch = ButtonMatch(region: TextRegion, matched: string)

  /** The first matching target a region gets, if any. */
  function Tag(targets: seq<string>, x: TextRegion): (r: Option<ButtonMatch>)
    ensures r.Some? ==> r.value.region == x && r.value.matched in targets
                        && TargetMatches(r.value.matched, Lower(x.text))
    ensures r.None? <==> forall j :: 0 <= j < |targets| ==> !TargetMatches(targets[j], Lower(x.text))
    ensures r.Some? ==> IsFirstTarget(targets, Lower(x.text), r.value.matched)
  {
    match FirstTarget(targets, Lower(x.text), 0)
    case None => None
    case Some(i) => Some(ButtonMatch(x, targets[i]))
  }

  function RegionsOf(ms: seq<ButtonMatch>): (r: seq<TextRegion>)
    ensures |r| == |ms| && forall k :: 0 <= k < |ms| ==> r[k] == ms[k].region
  {
    seq(|ms|, k requires 0 <= k < |ms| => ms[k].region)
  }

  /** Every region in order, kept with its first matching target when one
      matches and dropped otherwise. */
  function MatchRegions(regions: seq<TextRegion>, targets: seq<string>): (r: seq<ButtonMatch>)
    ensures IsSubseq(RegionsOf(r), regions)
    ensures forall k :: 0 <= k < |r| ==> Tag(targets, r[k].region) == Some(r[k])
    ensures forall k :: 0 <= k < |regions| && Tag(targets, regions[k]).Some? ==>
              Tag(targets, regions[k]).value in r
    ensures forall k :: 0 <= k < |r| ==> IsFirstTarget(targets, Lower(r[k].region.text), r[k].matched)
    ensures Selects(r, regions, Tagged(targets), MatchOf(targets))
  {
    var kept := Filter(regions, Tagged(targets));
    var r := seq(|kept|, k requires 0 <= k < |kept| => Tag(targets, kept[k]).value);
    MatchedTags(regions, targets, kept, r);
    r
  }

  function Tagged(targets: seq<string>): TextRegion -> bool {
    (x: TextRegion) => Tag(targets, x).Some?
  }

  /** The match a tagged region becomes; untagged regions never reach it. */
  function MatchOf(targets: seq<string>): TextRegion -> ButtonMatch {
    (x: TextRegion) => if Tag(targets, x).Some? then Tag(targets, x).value else ButtonMatch(x, "")
  }

  lemma MatchedTags(regions: seq<TextRegion>, targets: seq<string>, kept: seq<TextRegion>, r: seq<ButtonMatch>)
    requires kept == Filter(regions, Tagged(targets))
    requires |r| == |kept| && forall k :: 0 <= k < |kept| ==> r[k] == Tag(targets, kept[k]).value
    ensures IsSubseq(RegionsOf(r), regions)
    ensures forall k :: 0 <= k < |r| ==> Tag(targets, r[k].region) == Some(r[k])
    ensures forall k :: 0 <= k < |regions| && Tag(targets, regions[k]).Some? ==>
              Tag(targets, regions[k]).value in r
    ensures forall k :: 0 <= k < |r| ==> IsFirstTarget(targets, Lower(r[k].region.text), r[k].matched)
    ensures Selects(r, regions, Tagged(targets), MatchOf(targets))
  {
    assert RegionsOf(r) == kept;
    MatchedSelects(regions, targets, kept, r);
    forall k | 0 <= k < |r|
      ensures Tag(targets, r[k].region) == Some(r[k])
    {
      assert Tagged(targets)(kept[k]);
    }
    forall k | 0 <= k < |regions| && Tag(targets, regions[k]).Some?
      ensures Tag(targets, regions[k]).value in r
    {
      assert Tagged(targets)(regions[k]);
      var j :| 0 <= j < |kept| && kept[j] == regions[k];
      assert r[j] == Tag(targets, regions[k]).value;
    }
  }

  lemma MatchedSelects(regions: seq<TextRegion>, targets: seq<string>, kept: seq<TextRegion>, r: seq<ButtonMatch>)
    requires kept == Filter(regions, Tagged(targets))
    requires |r| == |kept| && forall k :: 0 <= k < |kept| ==> r[k] == Tag(targets, kept[k]).value
    ensures Selects(r, regions, Tagged(targets), MatchOf(targets))
  {
    forall k | 0 <= k < |kept|
      ensures r[k] == MatchOf(targets)(kept[k])
    {
      assert Tagged(targets)(kept[k]);
    }
    assert r == Map(kept, MatchOf(targets));
    MapFilterSelects(regions, Tagged(targets), MatchOf(targets));
  }

  function LowerAll(ts: seq<string>): (r: seq<string>)
    ensures |r| == |ts| && forall k :: 0 <= k < |ts| ==> r[k] == Lower(ts[k])
  {
    seq(|ts|, k requires 0 <= k < |ts| => Lower(ts[k]))
  }

  /** `find_buttons_with_text`: the text regions of the screenshot that match
      one of the lower-cased targets, in region order, each with the first
      target it matched; `None` stands for a failed screenshot. */
  function FindButtonsWithText(shot: Option<seq<TextContour>>, targets: seq<string>): (r: seq<ButtonMatch>)
    ensures shot.None? ==> r == []
    ensures shot.Some? ==> IsSubseq(RegionsOf(r), FindTextRegions(shot.value))
    ensures forall k :: 0 <= k < |r| ==> r[k].matched in LowerAll(targets)
                                         && TargetMatches(r[k].matched, Lower(r[k].region.text))
    ensures forall k :: 0 <= k < |r| ==> IsFirstTarget(LowerAll(targets), Lower(r[k].region.text), r[k].matched)
  {
    match shot
    case None => []
    case Some(cs) =>
      var regions := FindTextRegions(cs);
      var ts := LowerAll(targets);
      var r := MatchRegions(regions, ts);
      MatchFacts(regions, ts, r);
      r
  }

  /** What a caller of `MatchRegions` may rely on, for an unknown region list. */
  lemma MatchFacts(regions: seq<TextRegion>, ts: seq<string>, r: seq<ButtonMatch>)
    requires r == MatchRegions(regions, ts)
    ensures IsSubseq(RegionsOf(r), regions)
    ensures forall k :: 0 <= k < |r| ==> r[k].matched in ts && TargetMatches(r[k].matched, Lower(r[k].region.text))
    ensures forall k :: 0 <= k < |r| ==> IsFirstTarget(ts, Lower(r[k].region.text), r[k].matched)
  {
    forall k | 0 <= k < |r|
      ensures r[k].matched in ts && TargetMatches(r[k].matched, Lower(r[k].region.text))
    {
      assert Tag(ts, r[k].region) == Some(r[k]);
    }
  }

  /** A region is reported exactly when some target matches its text. */
  lemma ReportedIffSomeTargetMatches(regions: seq<TextRegion>, targets: seq<string>, x: TextRegion)
    requires x in regions
    ensures (exists m :: m in MatchRegions(regions, targets) && m.region == x) <==>
            (exists j :: 0 <= j < |targets| && TargetMatches(targets[j], Lower(x.text)))
  {
    var r := MatchRegions(regions, targets);
    if exists m :: m in r && m.region == x {
      var m :| m in r && m.region == x;
      var k :| 0 <= k < |r| && r[k] == m;
      assert Tag(targets, x).Some?;
    }
    if Tag(targets, x).Some? {
      var i :| 0 <= i < |regions| && regions[i] == x;
      assert Tag(targets, regions[i]).value in r;
    }
  }

  /** The screenshot-level form: a text region is reported exactly when one
      of the targets, lower-cased, matches its lower-cased text. */
  lemma FoundIffSomeTargetMatches(cs: seq<TextContour>, targets: seq<string>, x: TextRegion)
    ensures x in FindTextRegions(cs) ==>
            ((exists m :: m in FindButtonsWithText(Some(cs), targets) && m.region == x) <==>
             (exists j :: 0 <= j < |targets| && TargetMatches(Lower(targets[j]), Lower(x.text))))
  {
    var regions := FindTextRegions(cs);
    if x in regions {
      var r := FindButtonsWithText(Some(cs), targets);
      ButtonsOfShot(cs, targets);
      FoundIffLowerTarget(regions, targets, r, x);
    }
  }

  lemma ButtonsOfShot(cs: seq<TextContour>, targets: seq<string>)
    ensures FindButtonsWithText(Some(cs), targets) == MatchRegions(FindTextRegions(cs), LowerAll(targets))
  {
  }

  lemma FoundIffLowerTarget(regions: seq<TextRegion>, targets: seq<string>, r: seq<ButtonMatch>, x: TextRegion)
    requires x in regions && r == MatchRegions(regions, LowerAll(targets))
    ensures (exists m :: m in r && m.region == x) <==>
            (exists j :: 0 <= j < |targets| && TargetMatches(Lower(targets[j]), Lower(x.text)))
  {
    ReportedIffSomeTargetMatches(regions, LowerAll(targets), x);
    SomeLowerTarget(targets, Lower(x.text));
  }

  lemma SomeLowerTarget(targets: seq<string>, t: string)
    ensures (exists j :: 0 <= j < |LowerAll(targets)| && TargetMatches(LowerAll(targets)[j], t)) <==>
            (exists j :: 0 <= j < |targets| && TargetMatches(Lower(targets[j]), t))
  {
    var ts := LowerAll(targets);
    if exists j :: 0 <= j < |ts| && TargetMatches(ts[j], t) {
      var j :| 0 <= j < |ts| && TargetMatches(ts[j], t);
      assert TargetMatches(Lower(targets[j]), t);
    }
    if exists j :: 0 <= j < |targets| && TargetMatches(Lower(targets[j]), t) {
      var j :| 0 <= j < |targets| && TargetMatches(Lower(targets[j]), t);
      assert TargetMatches(ts[j], t);
    }
  }

  /** The texts `find_installation_elements` looks for. */
  const CommonTexts: seq<string> := [
    "next", "siguiente", "continuar", "continue",
    "install", "instalar", "setup", "configurar",
    "cancel", "cancelar", "back", "atras", "volver",
    "accept", "aceptar", "agree", "acepto",
    "finish", "finalizar", "complete", "completar",
    "browse", "examinar", "change", "cambiar",
    "yes", "si", "no", "ok", "close", "cerrar"]

  /** `find_installation_elements`: the text regions matching the common
      installer texts, in region order, each with the first text of the list
      it matched. */
  function FindInstallationElements(shot: Option<seq<TextContour>>): (r: seq<ButtonMatch>)
    ensures shot.None? ==> r == []
    ensures shot.Some? ==> IsSubseq(RegionsOf(r), FindTextRegions(shot.value))
    ensures forall k :: 0 <= k < |r| ==> r[k].matched in LowerAll(CommonTexts)
    ensures forall k :: 0 <= k < |r| ==> IsFirstTarget(LowerAll(CommonTexts), Lower(r[k].region.text), r[k].matched)
  {
    FindButtonsWithText(shot, CommonTexts)
  }

  /** A text region of the screenshot is reported exactly when one of the
      common installer texts matches it. */
  lemma InstallationElementsFound(cs: seq<TextContour>, x: TextRegion)
    requires x in FindTextRegions(cs)
    ensures (exists m :: m in FindInstallationElements(Some(cs)) && m.region == x) <==>
            (exists j :: 0 <= j < |CommonTexts| && TargetMatches(Lower(CommonTexts[j]), Lower(x.text)))
  {
    FoundIffSomeTargetMatches(cs, CommonTexts, x);
  }

  // ---------------------------------------------------------------------
  // Progress

  const InstallingAlts: seq<string> := ["installing", "instalando"]
  const CopyingAlts: seq<string> := ["copying", "copiando"]
  const ExtractingAlts: seq<string> := ["extracting", "extrayendo"]
  const ConfiguringAlts: seq<string> := ["configuring", "configurando"]

  /** The status the four keyword patterns leave behind, checked in the
      order installing, copying, extracting, configuring with each match
      overwriting the last: the last pattern that matches decides, with the
      match in the text's own case for the last three, `installing` for the
      first, and `unknown` when none matches. */
  ghost predicate LastPatternStatus(text: string, status: string) {
    var installing := FindFirst(text, InstallingAlts);
    var copying := FindFirst(text, CopyingAlts);
    var extracting := FindFirst(text, ExtractingAlts);
    var configuring := FindFirst(text, ConfiguringAlts);
    && (configuring.Some? ==> status == configuring.value)
    && (configuring.None? && extracting.Some? ==> status == extracting.value)
    && (configuring.None? && extracting.None? && copying.Some? ==> status == copying.value)
    && (configuring.None? && extracting.None? && copying.None? && installing.Some? ==> status == "installing")
    && (configuring.None? && extracting.None? && copying.None? && installing.None? ==> status == "unknown")
  }

  /** `extract_window_text`: the OCR text of the foreground window. */
  function WindowOcrText(ocr: Option<string>): (r: string)
    ensures ocr.None? ==> r == ""
  {
    ExtractText(ocr)
  }

  /** The progress patterns in order over one text: the first `N%` sets the
      percentage, the `N/M` pattern changes nothing, and each keyword pattern
      that matches sets the status — `installing`, or for the other three the
      first match in the text's own case — so the last one that matches
      wins. */
  function ProgressOfText(text: string): (r: WindowText.Progress)
    ensures r.percentage == FirstPercent(text)
    ensures !r.isInstalling ==> r.status == "unknown"
    ensures r.isInstalling <==>
      FindFirst(text, InstallingAlts).Some? || FindFirst(text, CopyingAlts).Some?
      || FindFirst(text, ExtractingAlts).Some? || FindFirst(text, ConfiguringAlts).Some?
    ensures FindFirst(text, ConfiguringAlts).Some? ==> r.status == FindFirst(text, ConfiguringAlts).value
    ensures r.status == "installing" ==>
      FindFirst(text, InstallingAlts).Some? || FindFirst(text, CopyingAlts).Some?
      || FindFirst(text, ExtractingAlts).Some? || FindFirst(text, ConfiguringAlts).Some?
    ensures LastPatternStatus(text, r.status)
  {
    var installing := FindFirst(text, InstallingAlts);
    var copying := FindFirst(text, CopyingAlts);
    var extracting := FindFirst(text, ExtractingAlts);
    var configuring := FindFirst(text, ConfiguringAlts);
    var s1 := if installing.Some? then "installing" else "unknown";
    var s2 := if copying.Some? then copying.value else s1;
    var s3 := if extracting.Some? then extracting.value else s2;
    var s4 := if configuring.Some? then configuring.value else s3;
    WindowText.Progress(FirstPercent(text), s4,
      installing.Some? || copying.Some? || extracting.Some? || configuring.Some?)
  }

  /** `get_installation_progress`: the progress the OCR text of the window
      reports. */
  function GetInstallationProgress(ocr: Option<string>): (r: WindowText.Progress)
    ensures ocr.None? ==> r == WindowText.Progress(None, "unknown", false)
    ensures r.percentage == FirstPercent(WindowOcrText(ocr))
    ensures r.isInstalling <==> AnyIn(WindowText.InstallKeywords, Lower(WindowOcrText(ocr)))
    ensures LastPatternStatus(WindowOcrText(ocr), r.status)
  {
    var text := WindowOcrText(ocr);
    ExtractorsAgree(text);
    if ocr.None? then
      assert FindFirst(text, InstallingAlts).None? && FindFirst(text, CopyingAlts).None?
        && FindFirst(text, ExtractingAlts).None? && FindFirst(text, ConfiguringAlts).None? by {
        assert !AnyAt(text, InstallingAlts, 0) && !AnyAt(text, CopyingAlts, 0);
        assert !AnyAt(text, ExtractingAlts, 0) && !AnyAt(text, ConfiguringAlts, 0);
      }
      assert FirstPercent(text) == None;
      ProgressOfText(text)
    else ProgressOfText(text)
  }

  /** A status other than `unknown` is, ignoring case, one of the eight
      keywords. */
  lemma StatusIsKeyword(text: string)
    requires ProgressOfText(text).isInstalling
    ensures var s := ProgressOfText(text).status;
      s == "installing" || Lower(s) in CopyingAlts || Lower(s) in ExtractingAlts || Lower(s) in ConfiguringAlts
  {
  }

  /** Both extractors call a text installing under the same condition: one
      of the same eight words occurs in it, ignoring case; and both read the
      same percentage. */
  lemma ExtractorsAgree(text: string)
    ensures ProgressOfText(text).isInstalling == WindowText.ProgressOfText(text).isInstalling
    ensures ProgressOfText(text).percentage == WindowText.ProgressOfText(text).percentage
  {
    FindFirstIffAnyIn(text, InstallingAlts);
    FindFirstIffAnyIn(text, CopyingAlts);
    FindFirstIffAnyIn(text, ExtractingAlts);
    FindFirstIffAnyIn(text, ConfiguringAlts);
    KeywordGroups(Lower(text));
  }

  /** The eight keywords are the four pairs. */
  lemma KeywordGroups(t: string)
    ensures AnyIn(WindowText.InstallKeywords, t) <==>
      AnyIn(InstallingAlts, t) || AnyIn(CopyingAlts, t) || AnyIn(ExtractingAlts, t) || AnyIn(ConfiguringAlts, t)
  {
    var ks := WindowText.InstallKeywords;
    assert ks == InstallingAlts + CopyingAlts + ExtractingAlts + ConfiguringAlts;
    if AnyIn(ks, t) {
      var k :| 0 <= k < |ks| && Contains(t, ks[k]);
      if k < 2 { assert Contains(t, InstallingAlts[k]); }
      else if k < 4 { assert Contains(t, CopyingAlts[k - 2]); }
      else if k < 6 { assert Contains(t, ExtractingAlts[k - 4]); }
      else { assert Contains(t, ConfiguringAlts[k - 6]); }
    }
    if AnyIn(InstallingAlts, t) {
      var k :| 0 <= k < 2 && Contains(t, InstallingAlts[k]);
      assert Contains(t, ks[k]);
    }
    if AnyIn(CopyingAlts, t) {
      var k :| 0 <= k < 2 && Contains(t, CopyingAlts[k]);
      assert Contains(t, ks[k + 2]);
    }
    if AnyIn(ExtractingAlts, t) {
      var k :| 0 <= k < 2 && Contains(t, ExtractingAlts[k]);
      assert Contains(t, ks[k + 4]);
    }
    if AnyIn(ConfiguringAlts, t) {
      var k :| 0 <= k < 2 && Contains(t, ConfiguringAlts[k]);
      assert Contains(t, ks[k + 6]);
    }
  }
}
