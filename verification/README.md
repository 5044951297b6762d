# bot_instalador, modelled in Dafny

`bot_instalador` drives Windows software installers unattended. It looks at the screen in several ways:

- it fuses the boxes of several button detectors into ranked candidates;
- it finds coloured and edge-shaped buttons;
- it reads the installer's control texts or its OCR text;
- it looks for a progress bar.

From these it decides what state the installer is in (installing, finished, error, ready to install, waiting). Its main loop then clicks its way to the end.

This project models that decision core as pure Dafny functions over explicit inputs:

- contour boxes, OCR strings, window titles, control texts;
- the observations each loop iteration makes.

It then proves what the code promises about them.

| file | module | models |
|---|---|---|
| `wrappers.dfy` | `Wrappers` | `Option` |
| `text.dfy` | `Text` | `str.lower`, `in` on strings, `split`, `strip`, `' '.join`, decimal rendering |
| `seqs.dfy` | `Seqs` | list comprehensions as `Filter`, the first-wins de-duplication loops as `Dedup`, Python's stable `sorted` as an insertion sort |
| `geometry.dfy` | `Geometry` | boxes, overlap area, centres with `//`, `int()` truncation |
| `regex.dfy` | `Regex` | `re.search(r'(\d+)%')` and case-insensitive `a|b` searches, written as scans |
| `fusion.dfy` | `Fusion` | `ai_button_detector.py`: merging, pooling the captures, the confidence cut, the flat records |
| `state_engine.dfy` | `StateEngine` | `ui_clicker.py`: button buckets, screen-text signals, the progress-bar estimate, the state priorities, the completion score |
| `control_loop.dfy` | `ControlLoop` | `ui_clicker.py`: `wait_for_progress_completion` and `auto_install` |
| `screen_analysis.dfy` | `ScreenAnalysis` | `screenshot_analyzer.py`: colour and edge filters, the two de-duplication passes, the cut to eight |
| `window_text.dfy` | `WindowText` | `text_extractor_simple.py`: installer window lookup, button regions, position classes, templates, progress from control text |
| `ocr_text.dfy` | `OcrText` | `text_extractor.py`: text regions, text-matched buttons, progress from OCR text |

## Behaviour of the code worth knowing

- **Fusion is seeded, not transitive.** `_merge_overlapping_detections` compares every later detection with the group's *first* detection only. A chain a–b–c in which a and c do not overlap becomes two groups. `Fusion.ChainIsNotClosed` proves this on a concrete chain.
- **A stuck bar needs eleven polls.** `wait_for_progress_completion` counts a poll as stuck when the reading moved by less than one point. It gives up only when the count exceeds 10, which takes at least eleven polls with an unchanged reading. A poll without a bar leaves the count alone, so those polls need not be consecutive.
- **Part of priority 1 can never fire.** In `_determine_state_from_analysis`, the `finished` branch needs `is_active` and a progress of at least 100. `is_active` already requires progress below 100. So an active bar always means `installing` (`StateEngine.ActiveBarMeansInstalling`).
- **Detector buttons never reach the keyword buckets.** `detect_buttons` labels every record `Button_N`, because merged detections carry no text. That label contains no keyword of `_analyze_available_buttons`. Every detector button therefore lands in `other_buttons`. Only the OCR text can make the state `finished`, and the state is never `ready_to_install` (`StateEngine.DetectorButtonsNeverDecide`).

## Model

| member | source | states |
|---|---|---|
| Fusion.JoinsNeedsIntersection | ai_button_detector.py:358-367 | two boxes of positive area are fused only if they really intersect; boxes that merely touch are never fused |
| Fusion.GroupTail | ai_button_detector.py:351-369 | the inner loop collects, in index order, exactly the later unused detections whose overlap with the seed exceeds 0.3 of the smaller area, and only those |
| Fusion.Groups | ai_button_detector.py:344-390 | every group the outer loop forms is non-empty and lists valid indices |
| Fusion.GroupsPartition | ai_button_detector.py:342-390 | the groups partition the detections: each index that is not yet used lands in exactly one group |
| Fusion.GroupsSeedOnly | ai_button_detector.py:348-369 | each group is its seed followed by later indices, and each of those later indices joins the seed |
| Fusion.GroupsMaximal | ai_button_detector.py:351-369 | greedy completeness: an index that is still free when a group's seed is reached, comes after the seed and joins it, is in that group |
| Fusion.GroupsAscending | ai_button_detector.py:344-369 | the groups come in increasing order of their seeds, and each lists its members in increasing index order, as the outer and inner loops scan the indices |
| Fusion.ChainIsNotClosed | ai_button_detector.py:358-369 | fusion is not transitive: the chain a–b–c with a, c apart yields the groups [a, b] and [c] |
| Fusion.Collapse | ai_button_detector.py:372-388 | each box component of a fused detection is the truncated mean of that component over the group; it counts its group, carries the group's highest confidence and the union of its methods, and nothing else |
| Fusion.CollapseBoxBetween | ai_button_detector.py:374-377 | each coordinate of the fused box is the truncated mean of the group's values, so it lies between their minimum and maximum |
| Fusion.TruncMean | ai_button_detector.py:374-377 | the result is the exact mean truncated toward zero: for a non-negative sum, count × r ≤ sum < count × (r + 1); for a negative sum, count × (r − 1) < sum ≤ count × r; and it lies between the smallest and the largest value |
| Fusion.MergeOverlapping | ai_button_detector.py:335-393 | no input, no output; never more results than detections; the detection counts add up to the number of detections; results are ordered by decreasing confidence; as a multiset they are the collapsed groups |
| Fusion.MergeStable | ai_button_detector.py:393 | the confidence sort is stable: results of equal confidence keep the order of their seed groups, which decides their `Button_N` numbers |
| Fusion.MergedFromGroup | ai_button_detector.py:335-393 | every merged result collapses some group whose members all join its seed |
| Fusion.CollapseAllCounts | ai_button_detector.py:387 | the `detection_count`s of the collapsed groups sum to the number of grouped detections |
| Fusion.MergeKeepsSized | ai_button_detector.py:372-388 | fusing boxes of positive size gives boxes of positive size |
| Fusion.ShiftMerged | ai_button_detector.py:411-416 | the window offset moves the box and the centre by the offset and keeps its size, confidence, methods and count |
| Fusion.DetectInCapture | ai_button_detector.py:71-84 | the merged detections of one capture all have positive size |
| Fusion.Contribution | ai_button_detector.py:404-419 | a capture without pixels contributes nothing; the others contribute boxes of positive size |
| Fusion.Pool | ai_button_detector.py:402-419 | the pooled detections of all captures have positive size and area, so the fusion ratio never divides by zero |
| Fusion.FindBestButtons | ai_button_detector.py:395-429 | the result selects the fused detections whose confidence reaches the minimum: in order, each occurrence once, so repeated records stay repeated; all have positive size and come by decreasing confidence |
| Fusion.DefaultLabel | ai_button_detector.py:455 | the label of position i is `Button_` followed by decimal digits whose value is i + 1 |
| Fusion.DetectButtons | ai_button_detector.py:431-462 | one record per best detection: every confidence is at least 0.3, confidences never increase down the list, the k-th record is labelled `Button_` with digits whose value is k + 1, its box, confidence and methods are the k-th best detection's, the box of positive size, and its centre is x + w // 2, y + h // 2 |
| Fusion.FlatRecords | ai_button_detector.py:444-459 | flattening a ranked list keeps its confidences, methods, order and boxes, and numbers the labels from one |
| Fusion.MaxConfidence | ai_button_detector.py:379 | the fused confidence is one of the group's confidences, and none of them exceeds it |
| Fusion.KeepConfident | ai_button_detector.py:425 | the confidence cut keeps exactly the detections reaching the minimum, still ordered by decreasing confidence and of positive size |
| Geometry.TruncDiv | ai_button_detector.py:374-377 | `int()` of a quotient truncates toward zero: for a non-negative sum the result is the floor, for a negative sum the ceiling |
| Text.DigitsValueOfNatToString | ai_button_detector.py:455 | reading back the decimal rendering of a number gives the number |
| StateEngine.AnalyzeButtons | ui_clicker.py:382-407 | each bucket holds, in order, exactly the buttons whose lower-cased text first hits that bucket's words; the buckets together hold every button once |
| StateEngine.DefaultLabelIsOther | ui_clicker.py:393-405 | a `Button_N` label contains no keyword, so it falls in `other_buttons` |
| StateEngine.DetectorBucketsEmpty | ui_clicker.py:366-367 | on the detector's records all keyword buckets are empty and `other_buttons` is all of them |
| StateEngine.ScreenSignals | ui_clicker.py:409-430 | with no OCR text every signal is off; with text, `installing`, `complete`, `error`, `waiting` and `progress` are each on exactly when one of their words (for `progress`: progress, progreso, `%`, percent) occurs in the lower-cased text, so any `%` turns `progress` on |
| StateEngine.PercentSurvivesLower | ui_clicker.py:416-422 | a `%` in the OCR text is still there after lower-casing, so it always sets the progress signal |
| StateEngine.KeywordsForeign | ui_clicker.py:392-405 | every keyword of the finish, install, next and cancel buckets contains a character no `Button_N` label contains |
| StateEngine.EstimateProgress | ui_clicker.py:258-284 | the estimate lies in [0, 100]; it is 0 for an empty region or when no column is significant; when the last significant column lies inside the bar it is that column's share of the width |
| StateEngine.BestBar | ui_clicker.py:240 | `max` by gradient returns the first candidate with the largest gradient |
| StateEngine.DetectProgressBar | ui_clicker.py:206-256 | a bar is found exactly when some candidate passes the shape and gradient test; then the percent is the estimate of the first passing candidate with the largest gradient; it is active exactly when found with a progress strictly between 0 and 100; without a bar the progress is 0 |
| StateEngine.DetermineState | ui_clicker.py:432-460 | the strict priorities, in both directions: an active bar gives `finished` exactly when its percent is at least 100 and `installing` otherwise; else error text gives `error`; else completion text or a finish button gives `finished`; else installing or progress text gives `installing`; else an install button gives `ready_to_install`; the state is `waiting` exactly when none of these signals is present |
| StateEngine.OnlyFinishAndInstallBucketsMatter | ui_clicker.py:447-458 | the state depends on the buttons only through whether the finish and install buckets are empty |
| StateEngine.DetectState | ui_clicker.py:362-380 | the state is `unknown` exactly when detection raised |
| StateEngine.ActiveBarMeansInstalling | ui_clicker.py:435-440 | an active bar always yields `installing`, because active excludes 100 |
| StateEngine.DetectorButtonsNeverDecide | ui_clicker.py:362-376 | with the detector's records the state is never `ready_to_install`, and `finished` needs completion text |
| StateEngine.EnumWindows | ui_clicker.py:564-583 | the result selects the described windows whose lower-cased title names an installer: in enumeration order, each window once, so two windows with the same title both appear; each carries its completion flag |
| StateEngine.Score | ui_clicker.py:599-604 | the completion score lies between 0 and 8 |
| StateEngine.CheckCompletion | ui_clicker.py:560-616 | each indicator is set exactly when its condition holds, and the verdict is complete exactly when the score reaches 4 |
| StateEngine.CompletionRule | ui_clicker.py:599-607 | score at least 4 means a completion window with one more indicator, or finish buttons with a finished state |
| StateEngine.CompletionConfidence | ui_clicker.py:608 | the confidence is 12.5 times the score, within [0, 100], and at least 50 when complete |
| ControlLoop.WaitForProgress | ui_clicker.py:286-328 | completed exactly when some poll finishes, no earlier poll finished and the stuck count never passed ten up to it; stuck exactly when, before any poll finished, the count passes ten: it counts the polls showing a bar within one point of the last value that moved, a poll without a bar leaves it alone, and a move of one point or more resets it |
| ControlLoop.WaitScan | ui_clicker.py:293-328 | from any poll reached without a finish and with the count in bounds, the scan completes exactly at the first later finishing poll before the count passes ten, and is stuck exactly when the count passes ten first |
| ControlLoop.WaitForProgressLoop | ui_clicker.py:293-328 | the polling loop returns `True` exactly when the outcome is completion |
| ControlLoop.CompletedSawFinish | ui_clicker.py:301-323 | completion implies some poll met one of the two finishing conditions |
| ControlLoop.StuckNeedsPolls | ui_clicker.py:309-317 | reporting a stuck bar takes more than ten polls |
| ControlLoop.FrozenPolls | ui_clicker.py:309-328 | when every remaining poll shows the same progress, the loop reports stuck exactly when the stuck count would pass ten, and times out otherwise |
| ControlLoop.StuckAtZero | ui_clicker.py:309-317 | a bar frozen at 0 is reported stuck exactly when at least eleven polls happen, and times out otherwise |
| ControlLoop.TryActions | ui_clicker.py:506-555 | the fall-through step never succeeds, and it stops exactly when no text click works and the state did not change |
| ControlLoop.Step | ui_clicker.py:469-555 | a step succeeds exactly when the installer is finished and a finish or close click works; installing always continues; an error always stops; a finished installer never continues; in `waiting`, `unknown`, or `ready_to_install` without a working install click, the step never succeeds and stops exactly when no text click works and the state after the grace wait is unchanged |
| ControlLoop.AutoInstall | ui_clicker.py:462-558 | the run takes at most `max_steps` steps, and success takes at least one |
| ControlLoop.AutoInstallStops | ui_clicker.py:466-558 | every step before the last continued, the last step stopped unless the budget ran out, and the run succeeded exactly when the last step succeeded |
| ControlLoop.AutoInstallSuccess | ui_clicker.py:462-558 | the run succeeds exactly when some step saw `finished` and a finish or close click worked, after only continuing steps |
| ControlLoop.ErrorStops | ui_clicker.py:494-497 | an error on the first step ends the run unsuccessfully after one step |
| ControlLoop.AutoInstallLoop | ui_clicker.py:466-558 | the loop returns what the recursive definition computes |
| ScreenAnalysis.FindByColor | screenshot_analyzer.py:42-79 | an element is kept exactly when it carries the mask's colour and the box of a contour passing the size, proportion, aspect and margin filters; the kept buttons come by increasing area |
| ScreenAnalysis.FindByColorCounts | screenshot_analyzer.py:59-79 | each passing contour is kept as often as it occurs among the contours, and a failing one never |
| ScreenAnalysis.FindByColorTies | screenshot_analyzer.py:78 | the sort by area is stable: the kept buttons of any one area are the passing contours of that area, in contour order, once each |
| ScreenAnalysis.EdgeButtons | screenshot_analyzer.py:186-233 | no edge image gives no buttons; otherwise the result selects, in contour order and once each, the `edge_detected` element of every contour passing the size, aspect, margin and 60 % fill tests, and nothing else |
| ScreenAnalysis.ColorCandidates | screenshot_analyzer.py:135-142 | every colour candidate passed the colour filter and is not an edge element |
| ScreenAnalysis.FirstPass | screenshot_analyzer.py:145-163 | the first pass keeps candidates none of which is within 30 px of or overlaps another; every dropped candidate is near or overlaps an earlier kept one, so the first of a clashing run wins |
| ScreenAnalysis.SecondPass | screenshot_analyzer.py:169-184 | the second pass keeps elements at least 50 px apart; every dropped element lies within 50 px of an earlier kept one, so the first wins |
| ScreenAnalysis.FinalElements | screenshot_analyzer.py:166-183 | the final list is in reading order (y, then x) and its elements are pairwise at least 50 px apart |
| ScreenAnalysis.FinalElementsCover | screenshot_analyzer.py:168-180 | every final element is a colour or an edge element, and every colour or edge element is final or within 50 px of a final one |
| ScreenAnalysis.DetectUiElements | screenshot_analyzer.py:112-184 | no screenshot gives nothing; otherwise exactly the first min(8, n) of the n final elements, so at most eight, in reading order and pairwise at least 50 px apart |
| ScreenAnalysis.DetectedPassFilters | screenshot_analyzer.py:112-217 | every reported element passed the colour filter, or is an edge element whose contour passed the edge filter |
| ScreenAnalysis.FewSurvivorsAllReported | screenshot_analyzer.py:183-184 | when at most eight elements survive, nothing is cut: every colour or edge element is reported or lies within 50 px of a reported one |
| ScreenAnalysis.TakeKeeps | screenshot_analyzer.py:184 | cutting the list to its first elements keeps the reading order and the 50 px separation |
| Seqs.Sort | screenshot_analyzer.py:78 | sorting returns a permutation of its input |
| Seqs.SortSorted | screenshot_analyzer.py:78 | under a total preorder the sorted list is ordered |
| Seqs.SortStable | screenshot_analyzer.py:163 | the insertion sort used for every `sort`/`sorted` is stable: elements that all tie keep their input order |
| Seqs.DedupThenSort | screenshot_analyzer.py:145-163 | de-duplicating and then sorting keeps only input elements, none clashing with another, and covers every input element |
| Seqs.DedupFirstWins | screenshot_analyzer.py:145-163 | the de-duplication keeps the first of clashing elements: every input element is kept or clashes with an earlier kept one |
| Text.Strip | text_extractor.py:59 | the result starts right after the input's leading white space and is followed only by white space; it neither starts nor ends with white space, and is empty exactly when the input is blank |
| Text.StripUnique | text_extractor.py:59 | any string without white space at its ends that fills the input up to white space on both sides is the stripped text, so the description above fixes `strip()` |
| Text.StripIdempotent | text_extractor.py:59-96 | stripping twice is stripping once, so `text.strip()` of an extracted text changes nothing |
| Text.Split | text_extractor.py:118 | `split()` yields non-empty words, free of white space, each occurring in the input |
| Text.SplitLayout | text_extractor.py:118 | `split()`'s words, with non-empty white-space runs between them and optional white space before and after, make up the input exactly |
| Text.SplitOfLayout | text_extractor.py:118 | any way of writing the input as words separated by white-space runs has `split()`'s words, in order, so the layout fixes the result |
| Text.SplitNonEmpty | text_extractor.py:118 | `split()` yields some word exactly when the input is not blank |
| Text.Lower | text_extractor.py:111 | lower-casing keeps the length, leaves no capital, moves each capital to its small letter and leaves every other character unchanged |
| Text.JoinContainsParts | text_extractor_simple.py:316 | the joined text contains every one of its parts |
| Text.LowerOfLowerCase | text_extractor.py:111 | lower-casing text that is already lower case changes nothing |
| Text.LowerIdempotent | text_extractor.py:111 | lower-casing twice is lower-casing once |
| Text.SplitJoin | text_extractor_simple.py:316 | splitting words joined by single spaces gives back the words |
| Regex.FirstPercent | text_extractor_simple.py:340-342 | the percentage is absent exactly when no `digits%` occurs; otherwise it is the value of the leftmost match |
| Regex.PercentStartsRun | text_extractor_simple.py:340 | the leftmost match starts a maximal run of digits |
| Regex.RenderedPercent | text_extractor_simple.py:340-342 | a number rendered as `n%` after text without digits is read back as `n` |
| Regex.PercentAfter | text_extractor_simple.py:340-342 | after text without digits, the first `digits%` starts right after that text and its value is the value of its digits |
| Regex.MatchesIffContains | text_extractor.py:176-178 | a lower-case word matches somewhere, ignoring case, exactly when it occurs in the lower-cased text |
| Regex.FindFirst | text_extractor.py:176-186 | no match exactly when no alternative occurs anywhere, ignoring case; otherwise the match is taken at the leftmost position where some alternative matches, and there by the first alternative in list order; it occurs in the text |
| Regex.FindFirstIffAnyIn | text_extractor.py:177-178 | a match exists exactly when the lower-cased text contains some alternative |
| WindowText.ListAllWindows | text_extractor_simple.py:36-52 | exactly the visible windows with a non-empty title, each once, in enumeration order |
| WindowText.FindInstallationWindow | text_extractor_simple.py:54-70 | no handle exactly when no listed title contains an installation word; otherwise the handle of the first such window |
| WindowText.WindowTexts | text_extractor_simple.py:110-143 | none when the Win32 calls fail; otherwise exactly the non-empty texts among the window title followed by its child controls, in that order, the title first when it is non-empty |
| WindowText.AllTextSplits | text_extractor_simple.py:316-331 | the texts are joined by single spaces: when no text holds white space, splitting the joined text gives back exactly the non-empty texts, in order |
| WindowText.DetectButtonRegions | text_extractor_simple.py:236-267 | no screenshot gives nothing; otherwise, in contour order and once each, the region of every four-cornered contour of button size, and no other; each has its centre |
| WindowText.PositionTypeIsRatioType | text_extractor_simple.py:284-301 | the integer comparisons give the same class as the ratio comparisons of the source |
| WindowText.PositionBands | text_extractor_simple.py:288-301 | the class is `next`, `back` or `accept` exactly when the centre lies below 80 % of the height, and `browse` or `install` exactly when it lies strictly between 30 % and 70 % of the height |
| WindowText.ClassifyByPosition | text_extractor_simple.py:269-306 | one classified region per region, in order, without a text match, with its position class |
| WindowText.TextMatch | text_extractor_simple.py:319-324 | no match exactly when no template word occurs in the lower-cased text; otherwise the first template type, in declaration order, with a hit |
| WindowText.FindInstallationElements | text_extractor_simple.py:308-326 | the classified regions of the screenshot, all carrying the same text match, which the joined control text decides |
| WindowText.NextWins | text_extractor_simple.py:16-324 | any text containing `next` is classified `next`, the first template |
| WindowText.ProgressOfText | text_extractor_simple.py:333-352 | the percentage is the first `digits%`; installing exactly when a keyword occurs, ignoring case; the status is then the first keyword in list order that occurs, else `unknown` |
| WindowText.FirstKeyword | text_extractor_simple.py:345-352 | the keyword found is the first one in list order that occurs in the text; none is found only when none occurs |
| WindowText.GetInstallationProgress | text_extractor_simple.py:328-354 | on the joined control text: the percentage is the first `digits%`; installing exactly when, ignoring case, one of the eight keywords occurs; the status is the first keyword in list order that occurs, else `unknown` |
| WindowText.NoTextNoProgress | text_extractor_simple.py:141-337 | when the Win32 calls fail, there is no percentage, the status is `unknown`, and nothing is installing |
| OcrText.ExtractText | text_extractor.py:54-62 | no OCR text gives `""`; otherwise the OCR text without its leading and trailing white space: it starts right after the leading white space, only white space follows it, it has none at either end, and it is empty exactly when the OCR text is blank |
| OcrText.FindTextRegions | text_extractor.py:72-99 | in contour order and once each, the region of every contour of text size with non-blank OCR text, and no other; each has text size and non-empty text |
| OcrText.RegionTextIsOcrText | text_extractor.py:93-97 | a region's text is the stripped OCR text of its contour |
| OcrText.ReportedIffSomeTargetMatches | text_extractor.py:113-121 | a region is matched exactly when one of the targets matches its lower-cased text |
| OcrText.TargetMatchesWords | text_extractor.py:118 | a non-blank target matches exactly when one of its words occurs in the text (the whole target is one of its words' superstrings) |
| OcrText.BlankTarget | text_extractor.py:118 | a blank target matches exactly when it occurs in the text; the empty target matches everything |
| OcrText.MatchRegions | text_extractor.py:113-121 | the matched regions keep their order; each is tagged with the first target in list order that matches it; every region with a matching target is reported; the result selects the tagged regions in order, each occurrence once |
| OcrText.FindButtonsWithText | text_extractor.py:101-123 | no screenshot gives nothing; otherwise text regions in order, each tagged with the first lower-cased target in list order that matches its lower-cased text |
| OcrText.FoundIffSomeTargetMatches | text_extractor.py:113-121 | a text region is reported exactly when some lower-cased target matches its lower-cased text |
| OcrText.FindInstallationElements | text_extractor.py:142-154 | no screenshot gives nothing; otherwise text regions in order, each tagged with the first of the common installer words, lower-cased and in list order, that matches it |
| OcrText.InstallationElementsFound | text_extractor.py:142-154 | a text region is reported exactly when one of the common installer words, lower-cased, matches its lower-cased text |
| OcrText.ProgressOfText | text_extractor.py:156-188 | the percentage is the first `digits%`; installing exactly when one of the four keyword patterns matches; the status is `unknown` when none matches and otherwise comes from the last matching pattern: `installing` for the installing pattern, and the matched text for the copying, extracting and configuring patterns |
| OcrText.GetInstallationProgress | text_extractor.py:156-188 | without window text there is no percentage, the status is `unknown` and nothing is installing; otherwise, on the stripped OCR text, the percentage is the first `digits%`, it is installing exactly when one of the eight keywords occurs ignoring case, and the status comes from the last matching pattern |
| OcrText.StatusIsKeyword | text_extractor.py:181-186 | when installing, the status is `installing` or, ignoring case, one of the other six keywords |
| OcrText.ExtractorsAgree | text_extractor.py:164-167 | the OCR extractor and the Win32 extractor agree on whether a text shows installation and on its percentage |

## Left out

- Screen capture, `win32gui`, `pyautogui`, `ctypes` and the clicks. They become inputs: contour boxes, OCR strings, window titles and control texts, and the success of each click as a boolean.
- OpenCV and Tesseract internals are not modelled: Canny, `findContours`, `approxPolyDP`, HSV masks, Sobel, `np.gradient`, `np.std` and OCR. Their results are inputs: a contour's box, its fill, its corner count, a bar's gradient strength, the significant columns of a bar, and OCR text.
- The six detectors inside `detect_buttons_ai` (edges, templates, colour clusters, text, contours, gradients) are not modelled. Their output is the list of candidates of a capture.
- Sleeps and the wall clock are left out. `wait_for_progress_completion` and `auto_install` are given the finite sequence of observations they make. Running out of observations is the timeout, or the end of `max_steps`.
- Exceptions are not raised. A failing call is `None` (`Option`). This covers the screenshot, the Win32 text, the OCR text and detection as a whole, each turned into the empty or `unknown` result the source's handler returns.
- Floating point is replaced by exact arithmetic. Confidences and progress are `real`. The fusion ratio, the colour and edge aspect ratios, the position ratios and the distances are compared through cross-multiplication and squares. The integer mean of a box component is the exact mean truncated toward zero.
- Fusion.MergeOverlapping: requires every box to have positive area. With a zero-area box the source divides by zero (`ai_button_detector.py:366`) and raises. The detectors filter boxes by a positive minimum width and height, and the model takes that as given for each capture (`CapturesSized`), from which `Fusion.Pool` proves the precondition.
- Fusion.Collapse: the `method` string is modelled as the set of method names. The hash order in which the source joins them with `+`, and the splitting of a joined name when it is fused again, are not represented.
- Text.Lower: lower-casing covers ASCII and Latin-1 letters only. The rest of Unicode is unchanged, and IGNORECASE's full case folding is not modelled.
- Regex.FirstPercent: `\d` is read as the ASCII digits, not all Unicode decimal digits.
- OcrText.ProgressOfText: the `(\d+)/(\d+)` pattern is not modelled. It matches no branch of the source's `if`, so it changes nothing.
- WindowText.ClassifyByPosition: the source raises when the screen height or width is 0, or when the screenshot is missing. The model does not raise there: it applies the cross-multiplied comparisons to any size. `WindowText.PositionTypeIsRatioType` ties them to the source's ratios only for a positive size.
- The debug drawing (`save_detection_debug`, `save_analysis`, `visualize_detected_controls`, `generate_button_diagnostic`) and `test_ai_detection.py` are left out. They only write images or print.
