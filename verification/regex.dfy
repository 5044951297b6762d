/** The two regular-expression searches the text extractors run, written
    out as scans: the first run of digits followed by a percent sign, and a
    case-insensitive search for the first occurrence of any of a few literal
    words, as the first result of a `findall` over their alternation reports
    it. Digits are the ASCII digits. */
module Regex {
  import opened Wrappers
  import opened Text

  // ---------------------------------------------------------------------
  // (\d+)%

  /** End of the run of digits that starts at `i`. */
  function DigitRunEnd(s: string, i: nat): (e: nat)
    requires i <= |s|
    ensures i <= e <= |s|
    ensures forall k :: i <= k < e ==> IsDigit(s[k])
    ensures e < |s| ==> !IsDigit(s[e])
    decreases |s| - i
  {
    if i == |s| || !IsDigit(s[i]) then i else DigitRunEnd(s, i + 1)
  }

  /** A digits-then-percent pattern matches at `i`: the greedy digit run from `i` is non-empty and
      followed by a percent sign (a shorter run would be followed by a
      digit, so backtracking finds nothing else). */
  predicate PercentAt(s: string, i: int) {
    0 <= i < |s| && IsDigit(s[i]) && DigitRunEnd(s, i) < |s| && s[DigitRunEnd(s, i)] == '%'
  }

  /** The number the group captures at a match. */
  function PercentValue(s: string, i: int): nat
    requires PercentAt(s, i)
  {
    DigitsValue(s[i..DigitRunEnd(s, i)])
  }

  /** Leftmost match at or after `i`. */
  function SearchPercent(s: string, i: nat): (r: Option<nat>)
    requires i <= |s|
    ensures r.Some? ==> i <= r.value < |s| && PercentAt(s, r.value)
    ensures r.Some? ==> forall j :: i <= j < r.value ==> !PercentAt(s, j)
    ensures r.None? ==> forall j :: i <= j < |s| ==> !PercentAt(s, j)
    decreases |s| - i
  {
    if i == |s| then None
    else if PercentAt(s, i) then Some(i)
    else SearchPercent(s, i + 1)
  }

  /** The value of the digits of the first digits-then-percent match, or
      `None` without a match. */
  function FirstPercent(s: string): (r: Option<nat>)
    ensures r.None? <==> forall j :: 0 <= j < |s| ==> !PercentAt(s, j)
    ensures r.Some? ==> exists i :: PercentAt(s, i) && r.value == PercentValue(s, i)
                                    && forall j :: 0 <= j < i ==> !PercentAt(s, j)
  {
    match SearchPercent(s, 0)
    case None => None
    case Some(i) => Some(PercentValue(s, i))
  }

  /** Digits before a match would extend it, so the leftmost match starts a
      maximal run of digits. */
  lemma PercentStartsRun(s: string)
    requires SearchPercent(s, 0).Some?
    ensures var i := SearchPercent(s, 0).value; i == 0 || !IsDigit(s[i - 1])
  {
    var i := SearchPercent(s, 0).value;
    if i > 0 && IsDigit(s[i - 1]) {
      assert DigitRunEnd(s, i - 1) == DigitRunEnd(s, i);
      assert PercentAt(s, i - 1);
    }
  }

  /** The run of digits of a rendered number ends where the number ends. */
  lemma {:induction false} RunOverDigits(s: string, i: nat, d: nat)
    requires i <= d <= |s|
    requires forall k :: i <= k < d ==> IsDigit(s[k])
    requires d < |s| ==> !IsDigit(s[d])
    ensures DigitRunEnd(s, i) == d
    decreases d - i
  {
    if i < d {
      RunOverDigits(s, i + 1, d);
    }
  }

  /** A number printed as `n%` after text without digits is read back as
      `n`: rendering and searching round-trip. */
  lemma RenderedPercent(prefix: string, n: nat, suffix: string)
    requires forall k :: 0 <= k < |prefix| ==> !IsDigit(prefix[k])
    ensures FirstPercent(prefix + NatToString(n) + "%" + suffix) == Some(n)
  {
    var d := NatToString(n);
    var s := prefix + d + "%" + suffix;
    PercentAfter(s, prefix, d, suffix);
    DigitsValueOfNatToString(n);
  }

  lemma PercentAfter(s: string, prefix: string, d: string, suffix: string)
    requires s == prefix + d + "%" + suffix
    requires forall k :: 0 <= k < |prefix| ==> !IsDigit(prefix[k])
    requires |d| > 0 && forall k :: 0 <= k < |d| ==> IsDigit(d[k])
    ensures SearchPercent(s, 0) == Some(|prefix|)
    ensures PercentAt(s, |prefix|) && PercentValue(s, |prefix|) == DigitsValue(d)
  {
    var p := |prefix|;
    assert forall k :: 0 <= k < |d| ==> s[p + k] == d[k];
    assert s[p + |d|] == '%';
    RunOverDigits(s, p, p + |d|);
    assert s[p..p + |d|] == d;
    assert PercentAt(s, p);
    forall j | 0 <= j < p
      ensures !PercentAt(s, j)
    {
      assert s[j] == prefix[j];
    }
    SearchFrom(s, 0, p);
  }

  /** With no match in `[i, p)` and a match at `p`, the search finds `p`. */
  lemma {:induction false} SearchFrom(s: string, i: nat, p: nat)
    requires i <= p < |s| && PercentAt(s, p)
    requires forall j :: i <= j < p ==> !PercentAt(s, j)
    ensures SearchPercent(s, i) == Some(p)
    decreases p - i
  {
    if i < p {
      SearchFrom(s, i + 1, p);
    }
  }

  // ---------------------------------------------------------------------
  // Case-insensitive alternatives

  /** The lower-case word `w` matches `text` at `i`, ignoring case. */
  predicate MatchesAt(text: string, w: string, i: int) {
    0 <= i && i + |w| <= |text| && Lower(text[i..i + |w|]) == w
  }

  /** Lower-casing commutes with slicing. */
  lemma LowerSlice(text: string, i: int, j: int)
    requires 0 <= i <= j <= |text|
    ensures Lower(text)[i..j] == Lower(text[i..j])
  {
  }

  /** Ignoring case, `w` matches somewhere exactly when the lower-cased text
      contains it. */
  lemma MatchesIffContains(text: string, w: string)
    ensures (exists i :: 0 <= i <= |text| - |w| && MatchesAt(text, w, i)) <==> Contains(Lower(text), w)
  {
    if Contains(Lower(text), w) {
      var i :| 0 <= i <= |text| - |w| && OccursAt(Lower(text), w, i);
      LowerSlice(text, i, i + |w|);
      assert MatchesAt(text, w, i);
    }
    if exists i :: 0 <= i <= |text| - |w| && MatchesAt(text, w, i) {
      var i :| 0 <= i <= |text| - |w| && MatchesAt(text, w, i);
      LowerSlice(text, i, i + |w|);
      assert OccursAt(Lower(text), w, i);
    }
  }

  /** Some alternative matches at `i`. */
  predicate AnyAt(text: string, alts: seq<string>, i: int) {
    exists k :: 0 <= k < |alts| && MatchesAt(text, alts[k], i)
  }

  /** The first alternative, from `k` on, that matches at `i`. */
  function AltAt(text: string, alts: seq<string>, i: int, k: nat): (r: nat)
    requires k <= |alts|
    requires exists j :: k <= j < |alts| && MatchesAt(text, alts[j], i)
    ensures k <= r < |alts| && MatchesAt(text, alts[r], i)
    ensures forall j :: k <= j < r ==> !MatchesAt(text, alts[j], i)
    decreases |alts| - k
  {
    if MatchesAt(text, alts[k], i) then k else AltAt(text, alts, i, k + 1)
  }

  /** Leftmost position at or after `i` where an alternative matches. */
  function SearchAlts(text: string, alts: seq<string>, i: nat): (r: Option<nat>)
    requires i <= |text|
    ensures r.Some? ==> i <= r.value < |text| + 1 && AnyAt(text, alts, r.value)
    ensures r.Some? ==> forall j :: i <= j < r.value ==> !AnyAt(text, alts, j)
    ensures r.None? ==> forall j :: i <= j <= |text| ==> !AnyAt(text, alts, j)
    decreases |text| - i
  {
    if AnyAt(text, alts, i) then Some(i)
    else if i == |text| then None
    else SearchAlts(text, alts, i + 1)
  }

  /** `w` is the text at `i` matched by alternative `k`, where `i` is the
      leftmost position at which any alternative matches and `k` the first
      alternative that matches there. */
  ghost predicate LeftmostFirst(text: string, alts: seq<string>, i: int, k: int, w: string) {
    && 0 <= k < |alts| && MatchesAt(text, alts[k], i)
    && w == text[i..i + |alts[k]|]
    && (forall j :: 0 <= j < i ==> !AnyAt(text, alts, j))
    && (forall m :: 0 <= m < k ==> !MatchesAt(text, alts[m], i))
  }

  /** The first match, in the text's own case: the leftmost position, and
      there the first alternative in pattern order. */
  function FindFirst(text: string, alts: seq<string>): (r: Option<string>)
    ensures r.None? <==> forall j :: 0 <= j <= |text| ==> !AnyAt(text, alts, j)
    ensures r.Some? ==> exists k :: 0 <= k < |alts| && Lower(r.value) == alts[k]
    ensures r.Some? ==> Contains(text, r.value)
    ensures r.Some? ==> exists i, k :: LeftmostFirst(text, alts, i, k, r.value)
  {
    match SearchAlts(text, alts, 0)
    case None => None
    case Some(i) =>
      var k := AltAt(text, alts, i, 0);
      assert OccursAt(text, text[i..i + |alts[k]|], i);
      assert LeftmostFirst(text, alts, i, k, text[i..i + |alts[k]|]);
      Some(text[i..i + |alts[k]|])
  }

  /** A match exists exactly when the lower-cased text contains one of the
      alternatives, so the search agrees with a plain keyword test on the
      lower-cased text. */
  lemma FindFirstIffAnyIn(text: string, alts: seq<string>)
    ensures FindFirst(text, alts).Some? <==> AnyIn(alts, Lower(text))
  {
    if FindFirst(text, alts).Some? {
      var i :| 0 <= i <= |text| && AnyAt(text, alts, i);
      var k :| 0 <= k < |alts| && MatchesAt(text, alts[k], i);
      MatchesIffContains(text, alts[k]);
    }
    if AnyIn(alts, Lower(text)) {
      var k :| 0 <= k < |alts| && Contains(Lower(text), alts[k]);
      MatchesIffContains(text, alts[k]);
      var i :| 0 <= i <= |text| - |alts[k]| && MatchesAt(text, alts[k], i);
      assert AnyAt(text, alts, i);
    }
  }
}
