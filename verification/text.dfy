/** String operations the installer helpers take from Python's `str`:
    lower-casing, substring search, whitespace splitting and stripping,
    joining, and decimal rendering of naturals. Strings are `seq<char>`. */
module Text {

  predicate IsDigit(c: char) {
    '0' <= c <= '9'
  }

  /** Characters that `str.lower()` changes, restricted to ASCII and Latin-1
      (which covers the Spanish accented capitals the keyword lists use). */
  predicate IsUpper(c: char) {
    ('A' <= c <= 'Z') || (0xC0 <= c as int <= 0xDE && c as int != 0xD7)
  }

  /** A capital moves 32 code points down to its small letter, which is
      not a capital; every other character is left alone. */
  function LowerChar(c: char): (r: char)
    ensures !IsUpper(c) ==> r == c
    ensures IsUpper(c) ==> r as int == c as int + 32
    ensures !IsUpper(r)
  {
    if IsUpper(c) then (c as int + 32) as char else c
  }

  /** `str.lower()`: no capital remains, each capital is replaced by its
      small letter in place, and every other character is kept. */
  function Lower(s: string): (r: string)
    ensures |r| == |s|
    ensures IsLowerCase(r)
    ensures forall i :: 0 <= i < |s| && !IsUpper(s[i]) ==> r[i] == s[i]
    ensures forall i :: 0 <= i < |s| && IsUpper(s[i]) ==> r[i] as int == s[i] as int + 32
  {
    seq(|s|, i requires 0 <= i < |s| => LowerChar(s[i]))
  }

  /** A string that `Lower` leaves unchanged, as every keyword table here is. */
  predicate IsLowerCase(s: string) {
    forall i :: 0 <= i < |s| ==> !IsUpper(s[i])
  }

  lemma {:induction false} LowerOfLowerCase(s: string)
    requires IsLowerCase(s)
    ensures Lower(s) == s
  {
    assert forall i :: 0 <= i < |s| ==> Lower(s)[i] == s[i];
  }

  /** Lower-casing twice is lower-casing once. */
  lemma LowerIdempotent(s: string)
    ensures Lower(Lower(s)) == Lower(s)
  {
    LowerOfLowerCase(Lower(s));
  }

  /** The characters `str.isspace()` accepts, which is what `str.split()` and
      `str.strip()` without arguments cut on. */
  predicate IsSpace(c: char) {
    var n := c as int;
    (0x09 <= n <= 0x0D) || (0x1C <= n <= 0x20) || n == 0x85 || n == 0xA0
    || n == 0x1680 || (0x2000 <= n <= 0x200A) || n == 0x2028 || n == 0x2029
    || n == 0x202F || n == 0x205F || n == 0x3000
  }

  /** `w` occurs in `text` starting at index `i`. */
  predicate OccursAt(text: string, w: string, i: int) {
    0 <= i && i + |w| <= |text| && text[i..i + |w|] == w
  }

  /** Python's `w in text`. */
  predicate Contains(text: string, w: string) {
    exists i :: 0 <= i <= |text| - |w| && OccursAt(text, w, i)
  }

  /** Some word of the list occurs in the text. */
  predicate AnyIn(words: seq<string>, text: string) {
    exists k :: 0 <= k < |words| && Contains(text, words[k])
  }

  /** A substring of a substring is a substring. */
  lemma ContainsTrans(text: string, mid: string, w: string)
    requires Contains(text, mid) && Contains(mid, w)
    ensures Contains(text, w)
  {
    var i :| 0 <= i <= |text| - |mid| && OccursAt(text, mid, i);
    var j :| 0 <= j <= |mid| - |w| && OccursAt(mid, w, j);
    assert text[i..i + |mid|] == mid;
    assert forall t :: 0 <= t < |w| ==> text[i + j + t] == mid[j + t] == w[t];
    assert text[i + j..i + j + |w|] == w;
    assert OccursAt(text, w, i + j);
  }

  /** A word holding a character the text never uses does not occur in it. */
  lemma NotContainsForeignChar(text: string, w: string, k: int)
    requires 0 <= k < |w|
    requires forall i :: 0 <= i < |text| ==> text[i] != w[k]
    ensures !Contains(text, w)
  {
    forall i | 0 <= i <= |text| - |w|
      ensures !OccursAt(text, w, i)
    {
      assert text[i..i + |w|][k] == text[i + k];
    }
  }

  /** The parts with `sep` between neighbours, as Python's `str.join`. */
  function Join(sep: string, parts: seq<string>): (r: string)
    ensures |parts| == 1 ==> r == parts[0]
    decreases |parts|
  {
    if |parts| == 0 then ""
    else if |parts| == 1 then parts[0]
    else parts[0] + sep + Join(sep, parts[1..])
  }

  /** Every part is a substring of the joined string. */
  lemma {:induction false} JoinContainsParts(sep: string, parts: seq<string>, k: int)
    requires 0 <= k < |parts|
    ensures Contains(Join(sep, parts), parts[k])
    decreases |parts|
  {
    if |parts| == 1 {
      ContainsPrefix(parts[0], "");
      assert parts[0] + "" == parts[0];
    } else if k == 0 {
      ContainsPrefix(parts[0], sep + Join(sep, parts[1..]));
      assert Join(sep, parts) == parts[0] + (sep + Join(sep, parts[1..]));
    } else {
      JoinContainsParts(sep, parts[1..], k - 1);
      ContainsSuffix(parts[0] + sep, Join(sep, parts[1..]), parts[k]);
      assert Join(sep, parts) == (parts[0] + sep) + Join(sep, parts[1..]);
      assert parts[1..][k - 1] == parts[k];
    }
  }

  /** A string occurs in any extension of it. */
  lemma ContainsPrefix(w: string, rest: string)
    ensures Contains(w + rest, w)
  {
    assert (w + rest)[0..|w|] == w;
    assert OccursAt(w + rest, w, 0);
  }

  /** What occurs in a suffix occurs in the whole. */
  lemma ContainsSuffix(pre: string, rest: string, w: string)
    requires Contains(rest, w)
    ensures Contains(pre + rest, w)
  {
    var i :| 0 <= i <= |rest| - |w| && OccursAt(rest, w, i);
    assert (pre + rest)[|pre| + i..|pre| + i + |w|] == rest[i..i + |w|];
    assert OccursAt(pre + rest, w, |pre| + i);
  }

  /** Length of the leading run of non-space characters. */
  function WordLen(s: string): (n: nat)
    ensures n <= |s|
    ensures forall i :: 0 <= i < n ==> !IsSpace(s[i])
    ensures n < |s| ==> IsSpace(s[n])
    decreases |s|
  {
    if |s| == 0 || IsSpace(s[0]) then 0 else 1 + WordLen(s[1..])
  }

  /** `gaps[0] + words[0] + gaps[1] + ... + words[n - 1] + gaps[n]`. */
  function Interleave(gaps: seq<string>, words: seq<string>): string
    requires |gaps| == |words| + 1
    decreases |words|
  {
    if |words| == 0 then gaps[0] else gaps[0] + words[0] + Interleave(gaps[1..], words[1..])
  }

  /** `s` is the words in order, separated by non-empty runs of white space,
      with optional white space before the first and after the last. */
  predicate Layout(s: string, gaps: seq<string>, words: seq<string>) {
    && |gaps| == |words| + 1
    && (forall k :: 0 <= k < |words| ==> IsWord(words[k]))
    && (forall k :: 0 <= k < |gaps| ==> AllSpace(gaps[k]))
    && (forall k :: 0 < k < |words| ==> |gaps[k]| > 0)
    && s == Interleave(gaps, words)
  }

  /** Python's `s.split()`: the maximal runs of non-space characters, in order. */
  function Split(s: string): (r: seq<string>)
    ensures forall k :: 0 <= k < |r| ==> |r[k]| > 0 && Contains(s, r[k])
    ensures forall k, i :: 0 <= k < |r| && 0 <= i < |r[k]| ==> !IsSpace(r[k][i])
    decreases |s|
  {
    if |s| == 0 then []
    else if IsSpace(s[0]) then
      var rest := Split(s[1..]);
      SplitShift(s, 1, rest);
      rest
    else
      var n := WordLen(s);
      var rest := Split(s[n..]);
      assert OccursAt(s, s[..n], 0);
      SplitShift(s, n, rest);
      [s[..n]] + rest
  }

  /** The words of `split()` make up the input, separated by white space. */
  lemma {:induction false} SplitLayout(s: string)
    ensures exists gaps :: Layout(s, gaps, Split(s))
    decreases |s|
  {
    if |s| == 0 {
      assert Split(s) == [] && Interleave([s], []) == s;
      assert Layout(s, [s], []);
    } else if IsSpace(s[0]) {
      SplitLayout(s[1..]);
      LayoutSpace(s, Split(s[1..]));
      assert Split(s) == Split(s[1..]);
    } else {
      var n := WordLen(s);
      SplitLayout(s[n..]);
      LayoutWord(s, n, Split(s[n..]));
      assert Split(s) == [s[..n]] + Split(s[n..]);
    }
  }

  /** A leading space joins the first gap. */
  lemma LayoutSpace(s: string, words: seq<string>)
    requires |s| > 0 && IsSpace(s[0])
    requires exists gaps :: Layout(s[1..], gaps, words)
    ensures exists gaps :: Layout(s, gaps, words)
  {
    var g :| Layout(s[1..], g, words);
    var g' := [[s[0]] + g[0]] + g[1..];
    InterleaveHead(g, g', words, [s[0]]);
    assert s == [s[0]] + s[1..];
    assert AllSpace(g'[0]) by {
      assert forall j :: 0 < j < |g'[0]| ==> g'[0][j] == g[0][j - 1];
    }
    assert forall k :: 0 < k < |g'| ==> g'[k] == g[k];
    assert Layout(s, g', words);
  }

  /** Putting `pre` before the first gap puts it before the whole layout. */
  lemma InterleaveHead(g: seq<string>, g': seq<string>, words: seq<string>, pre: string)
    requires |g| == |words| + 1 && g' == [pre + g[0]] + g[1..]
    ensures Interleave(g', words) == pre + Interleave(g, words)
  {
    assert g'[1..] == g[1..];
  }

  /** A leading word, followed by nothing or by white space, opens the layout
      with an empty gap. */
  lemma LayoutWord(s: string, n: nat, words: seq<string>)
    requires 0 < n <= |s| && IsWord(s[..n]) && (n == |s| || IsSpace(s[n]))
    requires exists gaps :: Layout(s[n..], gaps, words)
    ensures exists gaps :: Layout(s, gaps, [s[..n]] + words)
  {
    var g :| Layout(s[n..], g, words);
    var ws := [s[..n]] + words;
    var g' := [""] + g;
    assert g'[1..] == g && ws[1..] == words;
    assert Interleave(g', ws) == "" + s[..n] + Interleave(g, words);
    assert s == s[..n] + s[n..];
    assert forall k :: 0 < k < |ws| ==> |g'[k]| > 0;
    assert Layout(s, g', ws);
  }

  /** Substrings of a suffix are substrings of the whole string. */
  lemma SplitShift(s: string, n: nat, words: seq<string>)
    requires n <= |s|
    requires forall k :: 0 <= k < |words| ==> Contains(s[n..], words[k])
    ensures forall k :: 0 <= k < |words| ==> Contains(s, words[k])
  {
    forall k | 0 <= k < |words|
      ensures Contains(s, words[k])
    {
      var i :| 0 <= i <= |s[n..]| - |words[k]| && OccursAt(s[n..], words[k], i);
      assert s[n + i..n + i + |words[k]|] == s[n..][i..i + |words[k]|];
      assert OccursAt(s, words[k], n + i);
    }
  }

  predicate NonEmpty(t: string) {
    |t| > 0
  }

  /** A word of `str.split()`: non-empty, with no space character. */
  predicate IsWord(w: string) {
    |w| > 0 && forall i :: 0 <= i < |w| ==> !IsSpace(w[i])
  }

  lemma {:induction false} WordLenOfWord(w: string, rest: string)
    requires forall i :: 0 <= i < |w| ==> !IsSpace(w[i])
    requires |rest| == 0 || IsSpace(rest[0])
    ensures WordLen(w + rest) == |w|
    decreases |w|
  {
    if |w| > 0 {
      assert (w + rest)[1..] == w[1..] + rest;
      WordLenOfWord(w[1..], rest);
    } else {
      assert w + rest == rest;
    }
  }

  lemma SplitWord(w: string, rest: string)
    requires IsWord(w) && (|rest| == 0 || IsSpace(rest[0]))
    ensures Split(w + rest) == [w] + Split(rest)
  {
    WordLenOfWord(w, rest);
    var s := w + rest;
    assert !IsSpace(s[0]);
    assert s[..|w|] == w && s[|w|..] == rest;
  }

  /** Splitting a space-joined list of words gives the words back. */
  lemma {:induction false} SplitJoin(parts: seq<string>)
    requires forall k :: 0 <= k < |parts| ==> IsWord(parts[k])
    ensures Split(Join(" ", parts)) == parts
    decreases |parts|
  {
    if |parts| == 1 {
      SplitWord(parts[0], "");
      assert parts[0] + "" == parts[0];
    } else if |parts| > 1 {
      var tail := Join(" ", parts[1..]);
      SplitJoin(parts[1..]);
      var rest := " " + tail;
      assert Join(" ", parts) == parts[0] + rest;
      SplitWord(parts[0], rest);
      assert rest[1..] == tail;
      assert Split(rest) == Split(tail);
      assert [parts[0]] + parts[1..] == parts;
    }
  }

  /** The layout pins the split: any way of writing `s` as words separated
      by white space has exactly `Split(s)` as its words. */
  lemma {:induction false} SplitOfLayout(s: string, gaps: seq<string>, words: seq<string>)
    requires Layout(s, gaps, words)
    ensures Split(s) == words
    decreases |s|
  {
    if |gaps[0]| > 0 {
      var g' := [gaps[0][1..]] + gaps[1..];
      assert [gaps[0][0]] + g'[0] == gaps[0];
      assert g'[1..] == gaps[1..];
      assert gaps == [[gaps[0][0]] + g'[0]] + g'[1..];
      InterleaveHead(g', gaps, words, [gaps[0][0]]);
      assert s[0] == gaps[0][0] && s[1..] == Interleave(g', words);
      assert forall k :: 0 < k < |g'| ==> g'[k] == gaps[k];
      assert Layout(s[1..], g', words);
      SplitOfLayout(s[1..], g', words);
    } else if |words| > 0 {
      var rest := Interleave(gaps[1..], words[1..]);
      assert s == words[0] + rest;
      if |words| > 1 {
        assert rest[0] == gaps[1][0];
      }
      SplitWord(words[0], rest);
      assert Layout(rest, gaps[1..], words[1..]);
      SplitOfLayout(rest, gaps[1..], words[1..]);
      assert [words[0]] + words[1..] == words;
    }
  }

  /** `s` holds some non-space character, so stripping leaves it non-empty. */
  predicate HasNonSpace(s: string) {
    exists i :: 0 <= i < |s| && !IsSpace(s[i])
  }

  /** Splitting yields a word exactly when the string is not blank. */
  lemma {:induction false} SplitNonEmpty(s: string)
    ensures |Split(s)| > 0 <==> HasNonSpace(s)
    decreases |s|
  {
    if |s| == 0 {
    } else if IsSpace(s[0]) {
      SplitNonEmpty(s[1..]);
      if HasNonSpace(s) {
        var i :| 0 <= i < |s| && !IsSpace(s[i]);
        assert s[1..][i - 1] == s[i];
      }
      if HasNonSpace(s[1..]) {
        var i :| 0 <= i < |s[1..]| && !IsSpace(s[1..][i]);
        assert s[i + 1] == s[1..][i];
      }
    } else {
      assert !IsSpace(s[0]);
    }
  }

  /** Number of leading space characters. */
  function LeadingSpaces(s: string): (n: nat)
    ensures n <= |s|
    ensures forall i :: 0 <= i < n ==> IsSpace(s[i])
    ensures n < |s| ==> !IsSpace(s[n])
    decreases |s|
  {
    if |s| == 0 || !IsSpace(s[0]) then 0 else 1 + LeadingSpaces(s[1..])
  }

  /** Number of trailing space characters. */
  function TrailingSpaces(s: string): (n: nat)
    ensures n <= |s|
    ensures forall i :: |s| - n <= i < |s| ==> IsSpace(s[i])
    ensures n < |s| ==> !IsSpace(s[|s| - n - 1])
    decreases |s|
  {
    if |s| == 0 || !IsSpace(s[|s| - 1]) then 0 else 1 + TrailingSpaces(s[..|s| - 1])
  }

  /** Every character of `t` is white space. */
  predicate AllSpace(t: string) {
    forall j :: 0 <= j < |t| ==> IsSpace(t[j])
  }

  /** `r` sits at index `i` of `s` with only white space before and after it. */
  predicate PaddedAt(s: string, r: string, i: int) {
    OccursAt(s, r, i) && AllSpace(s[..i]) && AllSpace(s[i + |r|..])
  }

  /** `r` neither starts nor ends with white space. */
  predicate Trimmed(r: string) {
    |r| > 0 ==> !IsSpace(r[0]) && !IsSpace(r[|r| - 1])
  }

  /** Python's `s.strip()`: drop leading and trailing white space. */
  function Strip(s: string): (r: string)
    ensures Contains(s, r)
    ensures |r| > 0 <==> HasNonSpace(s)
    ensures |r| > 0 ==> !IsSpace(r[0]) && !IsSpace(r[|r| - 1])
    ensures OccursAt(s, r, LeadingSpaces(s))
    ensures forall j :: LeadingSpaces(s) + |r| <= j < |s| ==> IsSpace(s[j])
  {
    var a := LeadingSpaces(s);
    var t := s[a..];
    var r := t[..|t| - TrailingSpaces(t)];
    StripCore(s, a, r);
    r
  }

  lemma StripCore(s: string, a: nat, r: string)
    requires a == LeadingSpaces(s)
    requires r == s[a..][..|s[a..]| - TrailingSpaces(s[a..])]
    ensures Contains(s, r)
    ensures |r| > 0 <==> HasNonSpace(s)
    ensures |r| > 0 ==> !IsSpace(r[0]) && !IsSpace(r[|r| - 1])
    ensures OccursAt(s, r, a)
    ensures forall j :: a + |r| <= j < |s| ==> IsSpace(s[j])
  {
    var t := s[a..];
    var m := |t| - TrailingSpaces(t);
    assert |r| == m;
    assert OccursAt(s, r, a) by {
      assert s[a..a + m] == t[..m];
    }
    StripPadding(s, a, t, m);
    if HasNonSpace(s) {
      StripKeepsNonSpace(s, a, t, m);
    }
    if m > 0 {
      StripEnds(s, a, t, m, r);
    }
  }

  lemma StripPadding(s: string, a: nat, t: string, m: nat)
    requires a == LeadingSpaces(s) && t == s[a..] && m == |t| - TrailingSpaces(t)
    ensures forall j :: a + m <= j < |s| ==> IsSpace(s[j])
  {
    forall j | a + m <= j < |s|
      ensures IsSpace(s[j])
    {
      assert s[j] == t[j - a];
    }
  }

  lemma StripEnds(s: string, a: nat, t: string, m: nat, r: string)
    requires a == LeadingSpaces(s) && t == s[a..] && m == |t| - TrailingSpaces(t)
    requires r == t[..m] && m > 0
    ensures HasNonSpace(s) && !IsSpace(r[0]) && !IsSpace(r[|r| - 1])
  {
    assert r[0] == s[a];
    assert r[m - 1] == t[|t| - TrailingSpaces(t) - 1];
  }

  /** A non-space character lies between the leading and the trailing
      spaces. */
  lemma StripKeepsNonSpace(s: string, a: nat, t: string, m: nat)
    requires a == LeadingSpaces(s) && t == s[a..] && m == |t| - TrailingSpaces(t)
    requires HasNonSpace(s)
    ensures m > 0
  {
    var i :| 0 <= i < |s| && !IsSpace(s[i]);
    assert a <= i;
    assert t[i - a] == s[i];
    assert i - a < m;
  }

  /** The description pins the result: a trimmed string padded into `s` by
      white space alone is `Strip(s)`. */
  lemma StripUnique(s: string, r: string, i: int)
    requires PaddedAt(s, r, i) && Trimmed(r)
    ensures r == Strip(s)
  {
    var q := Strip(s);
    var j := LeadingSpaces(s);
    assert PaddedAt(s, q, j);
    if |r| == 0 {
      BlankPadding(s, r, i);
      assert |q| == 0;
    } else if |q| == 0 {
      BlankPadding(s, q, j);
    } else {
      PaddedSame(s, r, i, q, j);
    }
  }

  /** Padding an empty string into `s` needs `s` to be blank. */
  lemma BlankPadding(s: string, r: string, i: int)
    requires PaddedAt(s, r, i) && |r| == 0
    ensures !HasNonSpace(s)
  {
  }

  /** Two non-empty trimmed strings padded into the same `s` coincide. */
  lemma PaddedSame(s: string, r: string, i: int, q: string, j: int)
    requires PaddedAt(s, r, i) && Trimmed(r) && |r| > 0
    requires PaddedAt(s, q, j) && Trimmed(q) && |q| > 0
    ensures r == q
  {
    assert s[i] == r[0] by { assert s[i..i + |r|][0] == r[0]; }
    assert s[j] == q[0] by { assert s[j..j + |q|][0] == q[0]; }
    SpaceBefore(s, i, j);
    SpaceBefore(s, j, i);
    var e, f := i + |r|, j + |q|;
    assert s[e - 1] == r[|r| - 1] by { assert s[i..e][|r| - 1] == r[|r| - 1]; }
    assert s[f - 1] == q[|q| - 1] by { assert s[j..f][|q| - 1] == q[|q| - 1]; }
    SpaceAfter(s, e, f);
    SpaceAfter(s, f, e);
  }

  /** A non-space character cannot lie inside blank leading padding. */
  lemma SpaceBefore(s: string, i: int, j: int)
    requires 0 <= i < |s| && !IsSpace(s[i]) && 0 <= j <= |s| && AllSpace(s[..j])
    ensures j <= i
  {
  }

  /** A non-space character cannot lie inside blank trailing padding. */
  lemma SpaceAfter(s: string, e: int, f: int)
    requires 0 < f <= |s| && !IsSpace(s[f - 1]) && 0 <= e <= |s| && AllSpace(s[e..])
    ensures f <= e
  {
  }

  /** Stripping twice is stripping once. */
  lemma StripIdempotent(s: string)
    ensures Strip(Strip(s)) == Strip(s)
  {
    var r := Strip(s);
    if |r| > 0 {
      assert LeadingSpaces(r) == 0;
      assert r[0..] == r;
      assert TrailingSpaces(r) == 0;
    }
  }

  /** Decimal digits of `n`, most significant first, as `str(n)` renders them. */
  function NatToString(n: nat): (r: string)
    ensures |r| > 0
    ensures forall i :: 0 <= i < |r| ==> IsDigit(r[i])
    decreases n
  {
    var d := ['0' + (n % 10) as char];
    if n < 10 then d else NatToString(n / 10) + d
  }

  /** Value of a string of decimal digits, as Python's `int()` reads it. */
  predicate AllDigits(d: string) {
    forall i :: 0 <= i < |d| ==> IsDigit(d[i])
  }

  function DigitsValue(d: string): nat
    requires forall i :: 0 <= i < |d| ==> IsDigit(d[i])
    decreases |d|
  {
    if |d| == 0 then 0
    else
      var c := d[|d| - 1];
      assert IsDigit(c);
      10 * DigitsValue(d[..|d| - 1]) + (c as int - '0' as int)
  }

  /** Rendering a natural in decimal and reading it back is the identity. */
  lemma {:induction false} DigitsValueOfNatToString(n: nat)
    ensures DigitsValue(NatToString(n)) == n
    decreases n
  {
    var r := NatToString(n);
    if n >= 10 {
      DigitsValueOfNatToString(n / 10);
      assert r[..|r| - 1] == NatToString(n / 10);
    }
  }
}
