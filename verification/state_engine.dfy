/** The clicker's reading of one moment of an installation: which kinds of
    buttons are on screen, whether a progress bar is moving, and what the
    screen text says, folded by a strict priority order into one state.
    The screen, OCR and OpenCV measurements arrive as plain data. */
module StateEngine {
  import opened Wrappers
  import opened Text
  import opened Seqs
  import opened Geometry
  import opened Fusion

  datatype InstallState = ReadyToInstall | Installing | Finished | Error | Waiting | Unknown

  // ---------------------------------------------------------------------
  // Button buckets

  datatype ButtonKind = FinishKind | InstallKind | NextKind | CancelKind | OtherKind

  const FinishWords: seq<string> := ["finish", "close", "done", "finalizar", "cerrar", "terminar"]
  const InstallWords: seq<string> := ["install", "instalar", "setup"]
  const NextWords: seq<string> := ["next", "continue", "siguiente", "continuar"]
  const CancelWords: seq<string> := ["cancel", "cancelar", "exit", "salir"]

  /** The first keyword list, in the order finish, install, next, cancel,
      with a word inside the lower-cased button text; `OtherKind` if none. */
  function KindOf(text: string): ButtonKind {
    var t := Lower(text);
    if AnyIn(FinishWords, t) then FinishKind
    else if AnyIn(InstallWords, t) then InstallKind
    else if AnyIn(NextWords, t) then NextKind
    else if AnyIn(CancelWords, t) then CancelKind
    else OtherKind
  }

  function OfKind(k: ButtonKind): FlatButton -> bool {
    (b: FlatButton) => KindOf(b.text) == k
  }

  datatype Buckets = Buckets(
    finish: seq<FlatButton>, install: seq<FlatButton>, next: seq<FlatButton>,
    cancel: seq<FlatButton>, other: seq<FlatButton>)

  function Total(b: Buckets): nat {
    |b.finish| + |b.install| + |b.next| + |b.cancel| + |b.other|
  }

  /** One turn of the bucketing loop: append the button to its bucket. */
  function Place(b: Buckets, x: FlatButton): Buckets {
    match KindOf(x.text)
    case FinishKind => b.(finish := b.finish + [x])
    case InstallKind => b.(install := b.install + [x])
    case NextKind => b.(next := b.next + [x])
    case CancelKind => b.(cancel := b.cancel + [x])
    case OtherKind => b.(other := b.other + [x])
  }

  /** `_analyze_available_buttons`: every button, in order, lands in the
      bucket of its kind, so each bucket is the order-preserving selection of
      the buttons of that kind and the buckets partition the input. */
  function AnalyzeButtons(bs: seq<FlatButton>): (r: Buckets)
    ensures r.finish == Filter(bs, OfKind(FinishKind))
    ensures r.install == Filter(bs, OfKind(InstallKind))
    ensures r.next == Filter(bs, OfKind(NextKind))
    ensures r.cancel == Filter(bs, OfKind(CancelKind))
    ensures r.other == Filter(bs, OfKind(OtherKind))
    ensures Total(r) == |bs|
    decreases |bs|
  {
    if |bs| == 0 then Buckets([], [], [], [], [])
    else
      var init := bs[..|bs| - 1];
      var x := bs[|bs| - 1];
      assert bs == init + [x];
      Place(AnalyzeButtons(init), x)
  }

  // ---------------------------------------------------------------------
  // The default labels of the AI detector

  predicate LabelChar(c: char) {
    c == 'b' || c == 'u' || c == 't' || c == 'o' || c == 'n' || c == '_' || IsDigit(c)
  }

  lemma LowerLabelChars(i: nat)
    ensures forall k :: 0 <= k < |Lower(DefaultLabel(i))| ==> LabelChar(Lower(DefaultLabel(i))[k])
  {
    var s := DefaultLabel(i);
    var t := Lower(s);
    forall k | 0 <= k < |t|
      ensures LabelChar(t[k])
    {
      if k < 7 {
        assert s[k] == "Button_"[k];
      } else {
        assert IsDigit(s[k]);
      }
    }
  }

  /** A word holding a character no default label uses. */
  predicate Foreign(w: string) {
    exists j :: 0 <= j < |w| && !LabelChar(w[j])
  }

  lemma NoForeignWordIn(i: nat, words: seq<string>)
    requires forall n :: 0 <= n < |words| ==> Foreign(words[n])
    ensures !AnyIn(words, Lower(DefaultLabel(i)))
  {
    var t := Lower(DefaultLabel(i));
    LowerLabelChars(i);
    forall n | 0 <= n < |words|
      ensures !Contains(t, words[n])
    {
      var j :| 0 <= j < |words[n]| && !LabelChar(words[n][j]);
      NotContainsForeignChar(t, words[n], j);
    }
  }

  /** Every keyword of the four lists uses a letter absent from the labels. */
  lemma KeywordsForeign()
    ensures forall n :: 0 <= n < |FinishWords| ==> Foreign(FinishWords[n])
    ensures forall n :: 0 <= n < |InstallWords| ==> Foreign(InstallWords[n])
    ensures forall n :: 0 <= n < |NextWords| ==> Foreign(NextWords[n])
    ensures forall n :: 0 <= n < |CancelWords| ==> Foreign(CancelWords[n])
  {
    assert !LabelChar(FinishWords[0][0]) && !LabelChar(FinishWords[1][0]) && !LabelChar(FinishWords[2][0]);
    assert !LabelChar(FinishWords[3][0]) && !LabelChar(FinishWords[4][0]) && !LabelChar(FinishWords[5][1]);
    assert !LabelChar(InstallWords[0][0]) && !LabelChar(InstallWords[1][0]) && !LabelChar(InstallWords[2][0]);
    assert !LabelChar(NextWords[0][1]) && !LabelChar(NextWords[1][0]) && !LabelChar(NextWords[2][0]);
    assert !LabelChar(NextWords[3][0]);
    assert !LabelChar(CancelWords[0][0]) && !LabelChar(CancelWords[1][0]) && !LabelChar(CancelWords[2][0]);
    assert !LabelChar(CancelWords[3][0]);
  }

  /** A `Button_N` label matches no keyword list, so every button the AI
      detector reports is bucketed as "other". */
  lemma DefaultLabelIsOther(i: nat)
    ensures KindOf(DefaultLabel(i)) == OtherKind
  {
    KeywordsForeign();
    NoForeignWordIn(i, FinishWords);
    NoForeignWordIn(i, InstallWords);
    NoForeignWordIn(i, NextWords);
    NoForeignWordIn(i, CancelWords);
  }

  /** Labelled `Button_1`, `Button_2`, ... in order. */
  predicate DetectorLabelled(bs: seq<FlatButton>) {
    forall k :: 0 <= k < |bs| ==> bs[k].text == DefaultLabel(k)
  }

  /** On the detector's own records all keyword buckets stay empty. */
  lemma DetectorBucketsEmpty(bs: seq<FlatButton>)
    requires DetectorLabelled(bs)
    ensures var r := AnalyzeButtons(bs);
      r.finish == [] && r.install == [] && r.next == [] && r.cancel == [] && r.other == bs
  {
    forall k | 0 <= k < |bs|
      ensures KindOf(bs[k].text) == OtherKind
    {
      DefaultLabelIsOther(k);
    }
    FilterEmpty(bs, OfKind(FinishKind));
    FilterEmpty(bs, OfKind(InstallKind));
    FilterEmpty(bs, OfKind(NextKind));
    FilterEmpty(bs, OfKind(CancelKind));
    FilterAll(bs, OfKind(OtherKind));
  }

  // ---------------------------------------------------------------------
  // Screen text

  datatype TextSignals = TextSignals(installing: bool, complete: bool, error: bool, progress: bool, waiting: bool)

  const InstallingWords: seq<string> := ["installing", "instalando", "copying", "copiando", "extracting"]
  const CompleteWords: seq<string> := ["complete", "completado", "finished", "successful", "exitoso"]
  const ErrorWords: seq<string> := ["error", "failed", "falló", "problema", "warning"]
  const ProgressWords: seq<string> := ["progress", "progreso", "%", "percent"]
  const WaitingWords: seq<string> := ["waiting", "esperando", "please wait", "por favor espere"]

  /** `_analyze_screen_text` on the OCR output; `None` stands for a failed
      capture or OCR call, which leaves every flag unset. */
  function ScreenSignals(ocr: Option<string>): (r: TextSignals)
    ensures ocr.None? ==> r == TextSignals(false, false, false, false, false)
    ensures ocr.Some? ==> (r.installing <==> AnyIn(InstallingWords, Lower(ocr.value)))
    ensures ocr.Some? ==> (r.complete <==> AnyIn(CompleteWords, Lower(ocr.value)))
    ensures ocr.Some? ==> (r.error <==> AnyIn(ErrorWords, Lower(ocr.value)))
    ensures ocr.Some? ==> (r.waiting <==> AnyIn(WaitingWords, Lower(ocr.value)))
    ensures ocr.Some? ==> (r.progress <==> AnyIn(ProgressWords, Lower(ocr.value)))
    ensures ocr.Some? ==> (r.progress <== Contains(ocr.value, "%"))
  {
    match ocr
    case None => TextSignals(false, false, false, false, false)
    case Some(text) =>
      var t := Lower(text);
      PercentSurvivesLower(text);
      TextSignals(AnyIn(InstallingWords, t), AnyIn(CompleteWords, t), AnyIn(ErrorWords, t),
                  AnyIn(ProgressWords, t), AnyIn(WaitingWords, t))
  }

  /** Lower-casing keeps a percent sign where it was. */
  lemma PercentSurvivesLower(text: string)
    ensures Contains(text, "%") ==> AnyIn(ProgressWords, Lower(text))
  {
    if Contains(text, "%") {
      var i :| 0 <= i <= |text| - 1 && OccursAt(text, "%", i);
      assert text[i] == '%';
      var t := Lower(text);
      assert t[i..i + 1] == "%";
      assert OccursAt(t, ProgressWords[2], i);
    }
  }

  // ---------------------------------------------------------------------
  // Progress bars

  /** A contour the bar detector measured: its bounding box, the mean
      absolute horizontal gradient inside it, and the columns where the
      gradient of its intensity profile is significant, in increasing order. */
  datatype BarCandidate = BarCandidate(box: Box, gradient: real, changes: seq<nat>)

  /** Long and narrow (more than five times wider than tall, over 100 pixels
      wide, between 10 and 50 pixels tall) with a visible transition (a
      gradient above 10). */
  predicate IsProgressBar(c: BarCandidate) {
    var b := c.box;
    && b.h > 0 && b.w > 5 * b.h
    && b.w > 100 && 10 < b.h < 50
    && c.gradient > 10.0
  }

  datatype ProgressInfo = ProgressInfo(found: bool, active: bool, percent: real)

  /** `_estimate_progress_value`: the last significant column as a share of
      the width, clamped to [0, 100]; 0 when the region is empty or no column
      stands out. */
  function EstimateProgress(width: int, changes: seq<nat>): (r: real)
    ensures 0.0 <= r <= 100.0
    ensures width <= 0 || |changes| == 0 ==> r == 0.0
    ensures width > 0 && |changes| > 0 && changes[|changes| - 1] < width ==>
              r == (changes[|changes| - 1] as real) * 100.0 / (width as real) && r < 100.0
  {
    if width <= 0 || |changes| == 0 then 0.0
    else
      var v := (changes[|changes| - 1] as real) / (width as real) * 100.0;
      var c := if v < 0.0 then 0.0 else v;
      if c > 100.0 then 100.0 else c
  }

  /** The bar Python's `max` picks by gradient strength: the first
      candidate with the largest gradient. */
  function BestBar(cs: seq<BarCandidate>): (r: nat)
    requires |cs| > 0
    ensures r < |cs|
    ensures forall k :: 0 <= k < |cs| ==> cs[k].gradient <= cs[r].gradient
    ensures forall k :: 0 <= k < r ==> cs[k].gradient < cs[r].gradient
    decreases |cs|
  {
    if |cs| == 1 then 0
    else
      var rest := BestBar(cs[..|cs| - 1]);
      if cs[|cs| - 1].gradient > cs[rest].gradient then |cs| - 1 else rest
  }

  /** `bars[k]` is the bar `max` picks: a progress bar with the largest
      gradient of all of them, and the first such in contour order. */
  ghost predicate StrongestBar(bars: seq<BarCandidate>, k: int) {
    && 0 <= k < |bars| && IsProgressBar(bars[k])
    && (forall j :: 0 <= j < |bars| && IsProgressBar(bars[j]) ==> bars[j].gradient <= bars[k].gradient)
    && (forall j :: 0 <= j < k && IsProgressBar(bars[j]) ==> bars[j].gradient < bars[k].gradient)
  }

  /** `detect_progress_bar` on the measured contours: the percentage is the
      estimate of the strongest bar. */
  function DetectProgressBar(bars: seq<BarCandidate>): (r: ProgressInfo)
    ensures r.found <==> exists k :: 0 <= k < |bars| && IsProgressBar(bars[k])
    ensures r.active <==> r.found && 0.0 < r.percent < 100.0
    ensures 0.0 <= r.percent <= 100.0
    ensures !r.found ==> r.percent == 0.0
    ensures r.found ==> exists k :: StrongestBar(bars, k) && r.percent == EstimateProgress(bars[k].box.w, bars[k].changes)
  {
    var cands := Filter(bars, IsProgressBar);
    if |cands| == 0 then
      assert forall k :: 0 <= k < |bars| ==> !IsProgressBar(bars[k]);
      ProgressInfo(false, false, 0.0)
    else
      var m := BestBar(cands);
      StrongestPosition(bars, cands, m);
      var best := cands[m];
      assert best in bars && IsProgressBar(best);
      var p := EstimateProgress(best.box.w, best.changes);
      ProgressInfo(true, 0.0 < p < 100.0, p)
  }

  /** The candidate `BestBar` picks among the selected bars sits, in the
      whole list, where `StrongestBar` says. */
  lemma StrongestPosition(bars: seq<BarCandidate>, cands: seq<BarCandidate>, m: nat)
    requires cands == Filter(bars, IsProgressBar) && |cands| > 0
    requires m == BestBar(cands)
    ensures exists k :: StrongestBar(bars, k) && bars[k] == cands[m]
  {
    FilterSelects(bars, IsProgressBar);
    var idx :| SelectionAt(cands, bars, IsProgressBar, Id, idx);
    StrongestAt(bars, cands, idx, m);
  }

  lemma StrongestAt(bars: seq<BarCandidate>, cands: seq<BarCandidate>, idx: seq<nat>, m: nat)
    requires SelectionAt(cands, bars, IsProgressBar, Id, idx)
    requires m < |cands|
    requires forall n :: 0 <= n < |cands| ==> cands[n].gradient <= cands[m].gradient
    requires forall n :: 0 <= n < m ==> cands[n].gradient < cands[m].gradient
    ensures StrongestBar(bars, idx[m]) && bars[idx[m]] == cands[m]
  {
    var k := idx[m];
    assert cands[m] == Id(bars[k]);
    forall j | 0 <= j < |bars| && IsProgressBar(bars[j])
      ensures bars[j].gradient <= bars[k].gradient && (j < k ==> bars[j].gradient < bars[k].gradient)
    {
      var n :| 0 <= n < |idx| && idx[n] == j;
      assert cands[n] == Id(bars[j]);
      if j < k {
        assert !(m <= n);
      }
    }
  }

  // ---------------------------------------------------------------------
  // The classifier

  /** `_determine_state_from_analysis`: an active bar, then error text, then
      completion (text or finish buttons), then installing or progress text,
      then install buttons; anything else is waiting. */
  function DetermineState(b: Buckets, p: ProgressInfo, t: TextSignals): (r: InstallState)
    ensures r != Unknown
    ensures p.active ==> r == Installing || r == Finished
    ensures p.active ==> (r == Finished <==> p.percent >= 100.0)
    ensures !p.active && t.error ==> r == Error
    ensures !p.active && !t.error && (t.complete || |b.finish| > 0) ==> r == Finished
    ensures !p.active && !t.error && !t.complete && |b.finish| == 0 && (t.installing || t.progress) ==> r == Installing
    ensures r == Error ==> t.error
    ensures r == Finished ==> (p.active && p.percent >= 100.0) || t.complete || |b.finish| > 0
    ensures r == Installing ==> p.active || t.installing || t.progress
    ensures r == ReadyToInstall ==> |b.install| > 0 && !p.active && !t.error && !t.complete
    ensures !p.active && !t.error && !t.complete && |b.finish| == 0 && !t.installing && !t.progress ==>
              (r == ReadyToInstall <==> |b.install| > 0)
    ensures r == Waiting <==>
              !p.active && !t.error && !t.complete && |b.finish| == 0 && !t.installing && !t.progress
              && |b.install| == 0
  {
    if p.active then
      (if p.percent >= 100.0 then Finished else Installing)
    else if t.error then Error
    else if t.complete || |b.finish| > 0 then Finished
    else if t.installing || t.progress then Installing
    else if |b.install| > 0 then ReadyToInstall
    else Waiting
  }

  /** The next, cancel and other buckets never influence the state. */
  lemma OnlyFinishAndInstallBucketsMatter(b: Buckets, b': Buckets, p: ProgressInfo, t: TextSignals)
    requires |b.finish| > 0 <==> |b'.finish| > 0
    requires |b.install| > 0 <==> |b'.install| > 0
    ensures DetermineState(b, p, t) == DetermineState(b', p, t)
  {
  }

  /** What one call of `detect_installation_state` sees: the detector's
      buttons, the measured bar contours, and the OCR text. */
  datatype Snapshot = Snapshot(buttons: seq<FlatButton>, bars: seq<BarCandidate>, ocr: Option<string>)

  /** `detect_installation_state`; `None` stands for a call that raised, which
      the source reports as `unknown`. */
  function DetectState(s: Option<Snapshot>): (r: InstallState)
    ensures r == Unknown <==> s.None?
  {
    match s
    case None => Unknown
    case Some(snap) =>
      DetermineState(AnalyzeButtons(snap.buttons), DetectProgressBar(snap.bars), ScreenSignals(snap.ocr))
  }

  /** A moving bar always reads as installing: `is_active` already excludes
      100%, so the `finished` branch of the first priority cannot be taken. */
  lemma ActiveBarMeansInstalling(b: Buckets, bars: seq<BarCandidate>, t: TextSignals)
    ensures DetectProgressBar(bars).active ==> DetermineState(b, DetectProgressBar(bars), t) == Installing
  {
  }

  /** With the detector's `Button_N` records, buttons never decide the state:
      it is never ready-to-install, and finished only through the text. */
  lemma DetectorButtonsNeverDecide(snap: Snapshot)
    requires DetectorLabelled(snap.buttons)
    ensures DetectState(Some(snap)) != ReadyToInstall
    ensures DetectState(Some(snap)) == Finished ==> ScreenSignals(snap.ocr).complete
  {
    DetectorBucketsEmpty(snap.buttons);
  }

  // ---------------------------------------------------------------------
  // Completion score

  const InstallerWords: seq<string> := ["setup", "install", "wizard", "installer"]
  const CompletionWords: seq<string> := ["complete", "finish", "done", "success"]

  /** One entry of the `windows` list: the lower-cased title of a visible
      installer window and whether it reads as finished. */
  datatype Window = Window(title: string, isCompletion: bool)

  predicate IsCompletion(w: Window) {
    w.isCompletion
  }

  predicate IsActive(w: Window) {
    !w.isCompletion
  }

  /** The record the callback builds for one visible window. */
  function Describe(title: string, completion: seq<string>): (r: Window)
    ensures r.title == Lower(title)
    ensures r.isCompletion <==> AnyIn(completion, Lower(title))
  {
    var t := Lower(title);
    Window(t, AnyIn(completion, t))
  }

  function DescribeAll(titles: seq<string>, completion: seq<string>): (r: seq<Window>)
    ensures |r| == |titles|
    ensures forall n :: 0 <= n < |titles| ==> r[n] == Describe(titles[n], completion)
  {
    seq(|titles|, n requires 0 <= n < |titles| => Describe(titles[n], completion))
  }

  function NamesInstaller(installer: seq<string>): Window -> bool {
    (w: Window) => AnyIn(installer, w.title)
  }

  /** The `enum_windows` callback over the titles of the visible windows:
      keep, in order, the windows whose lower-cased title names an installer,
      marking those that also hold a completion word. The two keyword lists
      are `InstallerWords` and `CompletionWords`. */
  function EnumWindows(titles: seq<string>, installer: seq<string>, completion: seq<string>): (r: seq<Window>)
    ensures forall k :: 0 <= k < |r| ==> AnyIn(installer, r[k].title)
    ensures forall k :: 0 <= k < |r| ==> (r[k].isCompletion <==> AnyIn(completion, r[k].title))
    ensures IsSubseq(r, DescribeAll(titles, completion))
    ensures forall n :: 0 <= n < |titles| && AnyIn(installer, Lower(titles[n])) ==>
              Describe(titles[n], completion) in r
    ensures Selects(r, DescribeAll(titles, completion), NamesInstaller(installer), Id)
  {
    var all := DescribeAll(titles, completion);
    var r := Filter(all, NamesInstaller(installer));
    EnumFacts(titles, installer, completion, all, r);
    EnumSelects(all, installer, r);
    r
  }

  lemma EnumFacts(titles: seq<string>, installer: seq<string>, completion: seq<string>,
                  all: seq<Window>, r: seq<Window>)
    requires all == DescribeAll(titles, completion) && r == Filter(all, NamesInstaller(installer))
    ensures forall k :: 0 <= k < |r| ==> AnyIn(installer, r[k].title)
    ensures forall k :: 0 <= k < |r| ==> (r[k].isCompletion <==> AnyIn(completion, r[k].title))
    ensures IsSubseq(r, all)
    ensures forall n :: 0 <= n < |titles| && AnyIn(installer, Lower(titles[n])) ==>
              Describe(titles[n], completion) in r
  {
    assert forall k :: 0 <= k < |r| ==> r[k] in all;
  }

  lemma EnumSelects(all: seq<Window>, installer: seq<string>, r: seq<Window>)
    requires r == Filter(all, NamesInstaller(installer))
    ensures Selects(r, all, NamesInstaller(installer), Id)
  {
    FilterSelects(all, NamesInstaller(installer));
  }

  datatype Completion = Completion(
    isComplete: bool, confidence: real,
    completionWindow: bool, finishButtons: bool, stateComplete: bool, noActiveInstallers: bool)

  /** Three points for a completion window, two for finish buttons, two for
      a complete state and one for no active installer. */
  function Score(c: Completion): (r: int)
    ensures 0 <= r <= 8
  {
    (if c.completionWindow then 3 else 0) + (if c.finishButtons then 2 else 0)
    + (if c.stateComplete then 2 else 0) + (if c.noActiveInstallers then 1 else 0)
  }

  /** `is_installation_complete` on the installer windows, the detected state
      and the detector's buttons. */
  function CheckCompletion(ws: seq<Window>, state: InstallState, buttons: seq<FlatButton>): (r: Completion)
    ensures r.completionWindow <==> exists k :: 0 <= k < |ws| && ws[k].isCompletion
    ensures r.noActiveInstallers <==> forall k :: 0 <= k < |ws| ==> ws[k].isCompletion
    ensures r.finishButtons <==> |AnalyzeButtons(buttons).finish| > 0
    ensures r.stateComplete <==> state == Finished
    ensures r.isComplete <==> Score(r) >= 4
  {
    var cw := |Filter(ws, IsCompletion)| > 0;
    var na := |Filter(ws, IsActive)| == 0;
    FilterEmpty(ws, IsCompletion);
    FilterEmpty(ws, IsActive);
    var fb := |AnalyzeButtons(buttons).finish| > 0;
    var sc := state == Finished;
    var score := Score(Completion(false, 0.0, cw, fb, sc, na));
    var confidence := if (score as real) * 12.5 < 100.0 then (score as real) * 12.5 else 100.0;
    Completion(score >= 4, confidence, cw, fb, sc, na)
  }

  /** The score threshold spelled out: a completion window with any second
      indicator, or finish buttons together with a finished state. */
  lemma CompletionRule(c: Completion)
    ensures Score(c) >= 4 <==>
      (c.completionWindow && (c.finishButtons || c.stateComplete || c.noActiveInstallers))
      || (c.finishButtons && c.stateComplete)
  {
  }

  /** The only score the cap changes is the maximal one, 8, whose 100 the cap
      keeps; every complete verdict carries a confidence of at least 50. */
  lemma CompletionConfidence(ws: seq<Window>, state: InstallState, buttons: seq<FlatButton>)
    ensures var r := CheckCompletion(ws, state, buttons);
      0.0 <= r.confidence <= 100.0 && r.confidence == (Score(r) as real) * 12.5
      && (r.isComplete ==> r.confidence >= 50.0)
  {
  }
}
