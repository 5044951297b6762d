/** Generic list operations shared by the detectors: order-preserving
    filtering, greedy first-wins de-duplication, Python's stable `sort`, and
    sums. Each is written the way the Python loops build their result lists:
    by appending to the end of what the earlier elements produced. */
module Seqs {

  /** `a` is an order-preserving subsequence of `b`. */
  ghost predicate IsSubseq<T>(a: seq<T>, b: seq<T>)
    decreases |b|
  {
    if |a| == 0 then true
    else if |b| == 0 then false
    else (a[|a| - 1] == b[|b| - 1] && IsSubseq(a[..|a| - 1], b[..|b| - 1]))
         || IsSubseq(a, b[..|b| - 1])
  }

  lemma {:induction false} SubseqElements<T>(a: seq<T>, b: seq<T>)
    requires IsSubseq(a, b)
    ensures forall x :: x in a ==> x in b
    decreases |b|
  {
    if |a| > 0 {
      var b' := b[..|b| - 1];
      if a[|a| - 1] == b[|b| - 1] && IsSubseq(a[..|a| - 1], b') {
        SubseqElements(a[..|a| - 1], b');
        assert a == a[..|a| - 1] + [a[|a| - 1]];
      } else {
        SubseqElements(a, b');
      }
    }
  }

  lemma SubseqSnoc<T>(a: seq<T>, b: seq<T>, x: T)
    requires IsSubseq(a, b)
    ensures IsSubseq(a, b + [x]) && IsSubseq(a + [x], b + [x])
  {
    assert (b + [x])[..|b|] == b;
    assert (a + [x])[..|a|] == a;
  }

  /** The elements of `s` that pass `p`, in order. */
  function Filter<T>(s: seq<T>, p: T -> bool): (r: seq<T>)
    ensures |r| <= |s|
    ensures forall k :: 0 <= k < |r| ==> r[k] in s && p(r[k])
    ensures forall k :: 0 <= k < |s| && p(s[k]) ==> s[k] in r
    ensures IsSubseq(r, s)
    decreases |s|
  {
    if |s| == 0 then []
    else
      var init := s[..|s| - 1];
      var x := s[|s| - 1];
      assert s == init + [x];
      var kept := Filter(init, p);
      SubseqSnoc(kept, init, x);
      if p(x) then kept + [x] else kept
  }

  lemma {:induction false} FilterAppend<T>(a: seq<T>, b: seq<T>, p: T -> bool)
    ensures Filter(a + b, p) == Filter(a, p) + Filter(b, p)
    decreases |b|
  {
    if |b| == 0 {
      assert a + b == a;
    } else {
      var b' := b[..|b| - 1];
      var x := b[|b| - 1];
      assert (a + b)[..|a + b| - 1] == a + b';
      assert (a + b)[|a + b| - 1] == x;
      FilterAppend(a, b', p);
      var tail := if p(x) then [x] else [];
      assert Filter(a + b, p) == Filter(a + b', p) + tail;
      assert Filter(b, p) == Filter(b', p) + tail;
    }
  }

  /** The selection is empty exactly when no element qualifies. */
  lemma FilterEmpty<T>(s: seq<T>, p: T -> bool)
    ensures |Filter(s, p)| == 0 <==> forall k :: 0 <= k < |s| ==> !p(s[k])
  {
    var r := Filter(s, p);
    if |r| > 0 {
      assert r[0] in s && p(r[0]);
    }
  }

  /** When every element qualifies nothing is dropped. */
  lemma {:induction false} FilterAll<T>(s: seq<T>, p: T -> bool)
    requires forall k :: 0 <= k < |s| ==> p(s[k])
    ensures Filter(s, p) == s
    decreases |s|
  {
    if |s| > 0 {
      var init := s[..|s| - 1];
      FilterAll(init, p);
      assert s == init + [s[|s| - 1]];
    }
  }

  /** `f` applied to each element of `s`, in order. */
  function Map<A, B>(s: seq<A>, f: A -> B): (r: seq<B>)
    ensures |r| == |s| && forall k :: 0 <= k < |s| ==> r[k] == f(s[k])
  {
    seq(|s|, k requires 0 <= k < |s| => f(s[k]))
  }

  lemma MapMember<A, B>(s: seq<A>, f: A -> B, x: A)
    requires x in s
    ensures f(x) in Map(s, f)
  {
    var j :| 0 <= j < |s| && s[j] == x;
    assert Map(s, f)[j] == f(x);
  }

  function Id<T>(x: T): T {
    x
  }

  ghost predicate Ascending(idx: seq<nat>) {
    forall i, j :: 0 <= i < j < |idx| ==> idx[i] < idx[j]
  }

  /** `idx` lists, in increasing order, exactly the positions of `s` whose
      element satisfies `p`, and `r` holds `f` of those elements in turn. */
  ghost predicate SelectionAt<A, B>(r: seq<B>, s: seq<A>, p: A -> bool, f: A -> B, idx: seq<nat>) {
    && |idx| == |r|
    && Ascending(idx)
    && (forall k :: 0 <= k < |idx| ==> idx[k] < |s| && r[k] == f(s[idx[k]]))
    && (forall j :: 0 <= j < |s| ==> (p(s[j]) <==> j in idx))
  }

  /** `r` maps `f` over the elements of `s` that pass `p`, described by
      positions: `f` of
      every qualifying element, once each, in input order, and nothing else. */
  ghost predicate Selects<A, B>(r: seq<B>, s: seq<A>, p: A -> bool, f: A -> B) {
    exists idx :: SelectionAt(r, s, p, f, idx)
  }

  /** The positions of the qualifying elements, in increasing order. */
  function Positions<T>(s: seq<T>, p: T -> bool): (r: seq<nat>)
    ensures forall k :: 0 <= k < |r| ==> r[k] < |s|
    decreases |s|
  {
    if |s| == 0 then []
    else
      var init := Positions(s[..|s| - 1], p);
      if p(s[|s| - 1]) then init + [|s| - 1] else init
  }

  lemma SelectionKeep<A, B>(r: seq<B>, s: seq<A>, p: A -> bool, f: A -> B, idx: seq<nat>, x: A)
    requires SelectionAt(r, s, p, f, idx) && p(x)
    ensures SelectionAt(r + [f(x)], s + [x], p, f, idx + [|s|])
  {
    var s', idx', r' := s + [x], idx + [|s|], r + [f(x)];
    forall j | 0 <= j < |s'|
      ensures p(s'[j]) <==> j in idx'
    {
      if j < |s| {
        assert s'[j] == s[j];
        assert j in idx' <==> j in idx;
      }
    }
    forall k | 0 <= k < |idx'|
      ensures idx'[k] < |s'| && r'[k] == f(s'[idx'[k]])
    {
      if k < |idx| {
        assert s'[idx[k]] == s[idx[k]];
      }
    }
  }

  lemma SelectionSkip<A, B>(r: seq<B>, s: seq<A>, p: A -> bool, f: A -> B, idx: seq<nat>, x: A)
    requires SelectionAt(r, s, p, f, idx) && !p(x)
    ensures SelectionAt(r, s + [x], p, f, idx)
  {
    var s' := s + [x];
    forall j | 0 <= j < |s'|
      ensures p(s'[j]) <==> j in idx
    {
      if j < |s| {
        assert s'[j] == s[j];
      } else {
        assert forall k :: 0 <= k < |idx| ==> idx[k] != j;
      }
    }
    forall k | 0 <= k < |idx|
      ensures r[k] == f(s'[idx[k]])
    {
      assert s'[idx[k]] == s[idx[k]];
    }
  }

  lemma {:induction false} MapFilterPositions<A, B>(s: seq<A>, p: A -> bool, f: A -> B)
    ensures SelectionAt(Map(Filter(s, p), f), s, p, f, Positions(s, p))
    decreases |s|
  {
    if |s| > 0 {
      var init := s[..|s| - 1];
      assert s == init + [s[|s| - 1]];
      MapFilterPositions(init, p, f);
      PositionsStep(s, init, s[|s| - 1], p, f);
    }
  }

  lemma PositionsStep<A, B>(s: seq<A>, init: seq<A>, x: A, p: A -> bool, f: A -> B)
    requires s == init + [x]
    requires SelectionAt(Map(Filter(init, p), f), init, p, f, Positions(init, p))
    ensures SelectionAt(Map(Filter(s, p), f), s, p, f, Positions(s, p))
  {
    var kept := Filter(init, p);
    FilterSnoc(init, x, p);
    PositionsSnoc(init, x, p);
    if p(x) {
      MapSnoc(kept, x, f);
      SelectionKeep(Map(kept, f), init, p, f, Positions(init, p), x);
    } else {
      SelectionSkip(Map(kept, f), init, p, f, Positions(init, p), x);
    }
  }

  lemma MapSnoc<A, B>(s: seq<A>, x: A, f: A -> B)
    ensures Map(s + [x], f) == Map(s, f) + [f(x)]
  {
  }

  lemma FilterSnoc<T>(init: seq<T>, x: T, p: T -> bool)
    ensures Filter(init + [x], p) == if p(x) then Filter(init, p) + [x] else Filter(init, p)
  {
    assert (init + [x])[..|init|] == init;
  }

  lemma PositionsSnoc<T>(init: seq<T>, x: T, p: T -> bool)
    ensures Positions(init + [x], p) == if p(x) then Positions(init, p) + [|init|] else Positions(init, p)
  {
    assert (init + [x])[..|init|] == init;
  }

  /** Filtering and then mapping selects. */
  lemma MapFilterSelects<A, B>(s: seq<A>, p: A -> bool, f: A -> B)
    ensures Selects(Map(Filter(s, p), f), s, p, f)
  {
    MapFilterPositions(s, p, f);
  }

  lemma FilterSelects<T>(s: seq<T>, p: T -> bool)
    ensures Selects(Filter(s, p), s, p, Id)
  {
    MapFilterPositions(s, p, Id);
    assert Map(Filter(s, p), Id) == Filter(s, p);
  }

  lemma HeadIn(b: seq<nat>)
    ensures |b| > 0 ==> b[0] in b
  {
  }

  /** Two increasing index lists with the same members are the same list. */
  lemma {:induction false} AscendingSame(a: seq<nat>, b: seq<nat>)
    requires Ascending(a) && Ascending(b)
    requires forall x :: x in a <==> x in b
    ensures a == b
    decreases |a|
  {
    if |a| == 0 {
      HeadIn(b);
      assert |b| == 0;
    } else {
      assert a[0] in b;
      assert |b| > 0;
      assert b[0] in a;
      assert forall k :: 0 <= k < |a| ==> a[0] <= a[k];
      assert forall k :: 0 <= k < |b| ==> b[0] <= b[k];
      assert a[0] == b[0];
      var a', b' := a[1..], b[1..];
      forall x
        ensures x in a' <==> x in b'
      {
        TailMember(a, b, x);
        TailMember(b, a, x);
      }
      AscendingSame(a', b');
      assert a == [a[0]] + a' && b == [b[0]] + b';
    }
  }

  /** Past a shared head, a member of one list's tail is in the other's tail. */
  lemma TailMember(a: seq<nat>, b: seq<nat>, x: nat)
    requires Ascending(a) && Ascending(b) && |a| > 0 && |b| > 0 && a[0] == b[0]
    requires forall y :: y in a <==> y in b
    ensures x in a[1..] ==> x in b[1..]
  {
    if x in a[1..] {
      var k :| 0 <= k < |a| - 1 && a[k + 1] == x;
      assert a[0] < x && x in a;
      var m :| 0 <= m < |b| && b[m] == x;
      assert m != 0;
      assert b[1..][m - 1] == x;
    }
  }

  /** The description is complete: at most one list selects `f` of the
      qualifying elements of `s`. */
  lemma SelectsUnique<A, B>(r1: seq<B>, r2: seq<B>, s: seq<A>, p: A -> bool, f: A -> B)
    requires Selects(r1, s, p, f) && Selects(r2, s, p, f)
    ensures r1 == r2
  {
    var i1 :| SelectionAt(r1, s, p, f, i1);
    var i2 :| SelectionAt(r2, s, p, f, i2);
    forall x
      ensures x in i1 <==> x in i2
    {
      if x in i1 {
        var k :| 0 <= k < |i1| && i1[k] == x;
        assert x < |s| && p(s[x]);
      }
      if x in i2 {
        var k :| 0 <= k < |i2| && i2[k] == x;
        assert x < |s| && p(s[x]);
      }
    }
    AscendingSame(i1, i2);
  }

  /** The test that passes what both `p` and `q` pass. */
  function Both<T>(p: T -> bool, q: T -> bool): T -> bool
  {
    x => p(x) && q(x)
  }

  /** Filtering twice is filtering by both tests. */
  lemma {:induction false} FilterFilter<T>(s: seq<T>, p: T -> bool, q: T -> bool)
    ensures Filter(Filter(s, p), q) == Filter(s, Both(p, q))
    decreases |s|
  {
    if |s| > 0 {
      var init, x := s[..|s| - 1], s[|s| - 1];
      assert s == init + [x];
      FilterFilter(init, p, q);
      FilterFilterStep(init, x, p, q);
    }
  }

  lemma FilterFilterStep<T>(init: seq<T>, x: T, p: T -> bool, q: T -> bool)
    requires Filter(Filter(init, p), q) == Filter(init, Both(p, q))
    ensures Filter(Filter(init + [x], p), q) == Filter(init + [x], Both(p, q))
  {
    FilterSnoc(init, x, p);
    FilterSnoc(init, x, Both(p, q));
    FilterSnoc(Filter(init, p), x, q);
  }

  /** Filtering a mapped list is mapping the filtered list. */
  lemma {:induction false} FilterMap<A, B>(s: seq<A>, g: A -> B, q: B -> bool, qg: A -> bool)
    requires forall x :: qg(x) == q(g(x))
    ensures Filter(Map(s, g), q) == Map(Filter(s, qg), g)
    decreases |s|
  {
    if |s| > 0 {
      var init := s[..|s| - 1];
      FilterMap(init, g, q, qg);
      assert s == init + [s[|s| - 1]];
      FilterMapStep(init, s[|s| - 1], g, q, qg);
    }
  }

  lemma FilterMapStep<A, B>(init: seq<A>, x: A, g: A -> B, q: B -> bool, qg: A -> bool)
    requires forall x :: qg(x) == q(g(x))
    requires Filter(Map(init, g), q) == Map(Filter(init, qg), g)
    ensures Filter(Map(init + [x], g), q) == Map(Filter(init + [x], qg), g)
  {
    MapSnoc(init, x, g);
    FilterSnoc(Map(init, g), g(x), q);
    FilterSnoc(init, x, qg);
    MapSnoc(Filter(init, qg), x, g);
  }

  /** Mapping keeps the count of every value of an injective map. */
  lemma {:induction false} MapCount<A, B>(s: seq<A>, g: A -> B, x: A)
    requires forall a, b :: g(a) == g(b) ==> a == b
    ensures multiset(Map(s, g))[g(x)] == multiset(s)[x]
    decreases |s|
  {
    if |s| > 0 {
      var init := s[..|s| - 1];
      MapCount(init, g, x);
      assert s == init + [s[|s| - 1]];
      MapSnoc(init, s[|s| - 1], g);
    }
  }

  /** Filtering keeps every copy of a qualifying element and none of the
      others. */
  lemma {:induction false} FilterCount<T>(s: seq<T>, p: T -> bool, x: T)
    ensures multiset(Filter(s, p))[x] == if p(x) then multiset(s)[x] else 0
    decreases |s|
  {
    if |s| > 0 {
      var init := s[..|s| - 1];
      FilterCount(init, p, x);
      assert s == init + [s[|s| - 1]];
    }
  }

  /** No later element clashes with an earlier one. */
  ghost predicate Separated<T>(s: seq<T>, clash: (T, T) -> bool) {
    forall i, j :: 0 <= i < j < |s| ==> !clash(s[j], s[i])
  }

  /** `x` is in `r` or clashes with an element of it. */
  ghost predicate CoveredBy<T>(x: T, r: seq<T>, clash: (T, T) -> bool) {
    exists e :: e in r && (e == x || clash(x, e))
  }

  lemma CoveredGrow<T>(x: T, a: seq<T>, b: seq<T>, clash: (T, T) -> bool)
    requires CoveredBy(x, a, clash)
    requires forall y :: y in a ==> y in b
    ensures CoveredBy(x, b, clash)
  {
    var e :| e in a && (e == x || clash(x, e));
    assert e in b;
  }

  /** The Python de-duplication loop: walk the list, and append an element
      only when it clashes with none of the elements appended so far. */
  function Dedup<T(==)>(s: seq<T>, clash: (T, T) -> bool): (r: seq<T>)
    ensures |r| <= |s|
    decreases |s|
  {
    if |s| == 0 then []
    else
      var kept := Dedup(s[..|s| - 1], clash);
      var x := s[|s| - 1];
      if exists e :: e in kept && clash(x, e) then kept else kept + [x]
  }

  /** The survivors are drawn from the input, in input order. */
  lemma {:induction false} DedupSubseq<T>(s: seq<T>, clash: (T, T) -> bool)
    ensures IsSubseq(Dedup(s, clash), s)
    decreases |s|
  {
    if |s| > 0 {
      var init := s[..|s| - 1];
      DedupSubseq(init, clash);
      assert s == init + [s[|s| - 1]];
      SubseqSnoc(Dedup(init, clash), init, s[|s| - 1]);
    }
  }

  /** No survivor clashes with an earlier one. */
  lemma {:induction false} DedupSeparated<T>(s: seq<T>, clash: (T, T) -> bool)
    ensures Separated(Dedup(s, clash), clash)
    decreases |s|
  {
    if |s| > 0 {
      var kept := Dedup(s[..|s| - 1], clash);
      var x := s[|s| - 1];
      DedupSeparated(s[..|s| - 1], clash);
      if !exists e :: e in kept && clash(x, e) {
        var r := kept + [x];
        forall i, j | 0 <= i < j < |r|
          ensures !clash(r[j], r[i])
        {
          if j == |kept| {
            assert r[i] in kept;
          } else {
            assert r[j] == kept[j] && r[i] == kept[i];
          }
        }
      }
    }
  }

  /** Every input element survives or clashes with a survivor. */
  lemma {:induction false} DedupCovers<T>(s: seq<T>, clash: (T, T) -> bool)
    ensures forall k :: 0 <= k < |s| ==> CoveredBy(s[k], Dedup(s, clash), clash)
    decreases |s|
  {
    if |s| > 0 {
      var init := s[..|s| - 1];
      var kept := Dedup(init, clash);
      var r := Dedup(s, clash);
      var x := s[|s| - 1];
      DedupCovers(init, clash);
      assert s[..|s| - 1] == init;
      assert r == if exists e :: e in kept && clash(x, e) then kept else kept + [x];
      assert forall y :: y in kept ==> y in r;
      forall k | 0 <= k < |s|
        ensures CoveredBy(s[k], r, clash)
      {
        if k < |init| {
          assert s[k] == init[k];
          assert CoveredBy(init[k], kept, clash);
          CoveredGrow(s[k], kept, r, clash);
        } else {
          assert s[k] == x;
          if exists e :: e in kept && clash(x, e) {
            var e :| e in kept && clash(x, e);
            assert e in r;
            assert CoveredBy(x, r, clash);
          } else {
            assert r[|kept|] == x;
            assert x in r;
          }
        }
      }
    }
  }

  /** First come, first kept: an element is dropped only for clashing with
      an earlier element of the input that survives. */
  lemma {:induction false} DedupFirstWins<T>(s: seq<T>, clash: (T, T) -> bool)
    ensures forall k :: 0 <= k < |s| ==>
              s[k] in Dedup(s, clash) || exists j :: 0 <= j < k && s[j] in Dedup(s, clash) && clash(s[k], s[j])
    decreases |s|
  {
    if |s| > 0 {
      var init := s[..|s| - 1];
      var kept := Dedup(init, clash);
      var x := s[|s| - 1];
      var r := Dedup(s, clash);
      DedupFirstWins(init, clash);
      assert forall y :: y in kept ==> y in r;
      forall k | 0 <= k < |s|
        ensures s[k] in r || exists j :: 0 <= j < k && s[j] in r && clash(s[k], s[j])
      {
        if k < |init| {
          assert s[k] == init[k];
          if init[k] !in kept {
            var j :| 0 <= j < k && init[j] in kept && clash(init[k], init[j]);
            assert s[j] == init[j];
          }
        } else if exists e :: e in kept && clash(x, e) {
          var e :| e in kept && clash(x, e);
          DedupSubseq(init, clash);
          SubseqElements(kept, init);
          var j :| 0 <= j < |init| && init[j] == e;
          assert s[j] == e && s[k] == x;
        } else {
          assert r == kept + [x];
          assert s[k] == x;
        }
      }
    }
  }

  /** A list that is already separated passes de-duplication unchanged, so
      de-duplicating twice is the same as once. */
  lemma {:induction false} DedupOfSeparated<T>(s: seq<T>, clash: (T, T) -> bool)
    requires Separated(s, clash)
    ensures Dedup(s, clash) == s
    decreases |s|
  {
    if |s| > 0 {
      var init := s[..|s| - 1];
      var x := s[|s| - 1];
      assert Separated(init, clash);
      DedupOfSeparated(init, clash);
      forall e | e in init
        ensures !clash(x, e)
      {
        var i :| 0 <= i < |init| && init[i] == e;
        assert s[i] == e;
      }
      assert s == init + [x];
    }
  }

  lemma DedupIdempotent<T>(s: seq<T>, clash: (T, T) -> bool)
    ensures Dedup(Dedup(s, clash), clash) == Dedup(s, clash)
  {
    DedupSeparated(s, clash);
    DedupOfSeparated(Dedup(s, clash), clash);
  }

  /** Any two elements at different positions are related by `rel`. */
  ghost predicate Pairwise<T>(s: seq<T>, rel: (T, T) -> bool) {
    forall i, j :: 0 <= i < |s| && 0 <= j < |s| && i != j ==> rel(s[i], s[j])
  }

  ghost predicate Symmetric<T(!new)>(rel: (T, T) -> bool) {
    forall a, b :: rel(a, b) ==> rel(b, a)
  }

  /** With a symmetric clash test, a separated list keeps every pair apart. */
  lemma SeparatedPairwise<T(!new)>(s: seq<T>, clash: (T, T) -> bool)
    requires Symmetric(clash)
    requires Separated(s, clash)
    ensures Pairwise(s, (a, b) => !clash(a, b))
  {
    forall i, j | 0 <= i < |s| && 0 <= j < |s| && i != j
      ensures !clash(s[i], s[j])
    {
      if i < j {
        assert !clash(s[j], s[i]);
      }
    }
  }

  ghost predicate TotalPreorder<T(!new)>(le: (T, T) -> bool) {
    && (forall a, b :: le(a, b) || le(b, a))
    && (forall a, b, c :: le(a, b) && le(b, c) ==> le(a, c))
  }

  ghost predicate SortedBy<T>(s: seq<T>, le: (T, T) -> bool) {
    forall i, j :: 0 <= i < j < |s| ==> le(s[i], s[j])
  }

  /** Position at which `x` goes: after every element it does not precede. */
  function InsertPos<T>(x: T, s: seq<T>, le: (T, T) -> bool): (k: nat)
    ensures k <= |s|
    ensures forall i :: 0 <= i < k ==> !le(x, s[i])
    ensures k < |s| ==> le(x, s[k])
    decreases |s|
  {
    if |s| == 0 || le(x, s[0]) then 0 else 1 + InsertPos(x, s[1..], le)
  }

  function Insert<T>(x: T, s: seq<T>, le: (T, T) -> bool): (r: seq<T>)
    ensures |r| == |s| + 1
    ensures multiset(r) == multiset(s) + multiset{x}
  {
    var k := InsertPos(x, s, le);
    assert s == s[..k] + s[k..];
    s[..k] + [x] + s[k..]
  }

  /** Python's stable `sorted`: insertion sort that places each element before
      the later elements it precedes or ties with, so ties keep input order. */
  function Sort<T>(s: seq<T>, le: (T, T) -> bool): (r: seq<T>)
    ensures |r| == |s|
    ensures multiset(r) == multiset(s)
    decreases |s|
  {
    if |s| == 0 then []
    else
      assert s == [s[0]] + s[1..];
      Insert(s[0], Sort(s[1..], le), le)
  }

  /** Selecting from a one-element list. */
  lemma FilterSingle<T>(x: T, p: T -> bool)
    ensures Filter([x], p) == if p(x) then [x] else []
  {
    assert [x][..0] == [];
  }

  /** Nothing ahead of the insertion point ties with `x`. */
  lemma NoTieBeforeInsert<T>(x: T, t: seq<T>, le: (T, T) -> bool, p: T -> bool)
    requires forall a, b :: p(a) && p(b) ==> le(a, b)
    requires p(x)
    ensures Filter(t[..InsertPos(x, t, le)], p) == []
  {
    var front := t[..InsertPos(x, t, le)];
    forall i | 0 <= i < |front|
      ensures !p(front[i])
    {
      assert !le(x, t[i]);
    }
    FilterEmpty(front, p);
  }

  /** Selecting from a list with one element spliced in. */
  lemma FilterSplice<T>(front: seq<T>, x: T, back: seq<T>, p: T -> bool)
    ensures Filter(front + [x] + back, p) == Filter(front, p) + Filter([x], p) + Filter(back, p)
    ensures Filter(front + back, p) == Filter(front, p) + Filter(back, p)
  {
    FilterAppend(front + [x], back, p);
    FilterAppend(front, [x], p);
    FilterAppend(front, back, p);
  }

  /** `Insert` splices `x` in at its insertion point. */
  lemma InsertSplits<T>(x: T, t: seq<T>, le: (T, T) -> bool)
    ensures var k := InsertPos(x, t, le); Insert(x, t, le) == t[..k] + [x] + t[k..] && t == t[..k] + t[k..]
  {
  }

  /** Inserting `x` puts it ahead of every element it ties with. */
  lemma InsertFilterTie<T>(x: T, t: seq<T>, le: (T, T) -> bool, p: T -> bool)
    requires forall a, b :: p(a) && p(b) ==> le(a, b)
    requires p(x)
    ensures Filter(Insert(x, t, le), p) == [x] + Filter(t, p)
  {
    var k := InsertPos(x, t, le);
    InsertSplits(x, t, le);
    NoTieBeforeInsert(x, t, le, p);
    FilterSingle(x, p);
    SpliceTie(t[..k], x, t[k..], p);
  }

  lemma SpliceTie<T>(front: seq<T>, x: T, back: seq<T>, p: T -> bool)
    requires Filter(front, p) == [] && Filter([x], p) == [x]
    ensures Filter(front + [x] + back, p) == [x] + Filter(front + back, p)
  {
    FilterSplice(front, x, back, p);
    var fb := Filter(back, p);
    assert [] + fb == fb;
    assert [] + [x] + fb == [x] + fb;
  }

  /** Inserting an element outside the class leaves the class's order alone. */
  lemma InsertFilterOther<T>(x: T, t: seq<T>, le: (T, T) -> bool, p: T -> bool)
    requires !p(x)
    ensures Filter(Insert(x, t, le), p) == Filter(t, p)
  {
    var k := InsertPos(x, t, le);
    InsertSplits(x, t, le);
    FilterSingle(x, p);
    SpliceOther(t[..k], x, t[k..], p);
  }

  lemma SpliceOther<T>(front: seq<T>, x: T, back: seq<T>, p: T -> bool)
    requires Filter([x], p) == []
    ensures Filter(front + [x] + back, p) == Filter(front + back, p)
  {
    FilterSplice(front, x, back, p);
    assert Filter(front, p) + [] == Filter(front, p);
  }

  /** Selecting from a list by its head and its tail. */
  lemma FilterCons<T>(s: seq<T>, p: T -> bool)
    requires |s| > 0
    ensures Filter(s, p) == if p(s[0]) then [s[0]] + Filter(s[1..], p) else Filter(s[1..], p)
  {
    var t := s[1..];
    assert s == [s[0]] + t;
    FilterAppend([s[0]], t, p);
    FilterSingle(s[0], p);
    var ft := Filter(t, p);
    if !p(s[0]) {
      assert [] + ft == ft;
    }
  }

  /** The sort is stable: elements that all tie with each other come out in
      their input order. */
  lemma {:induction false} SortStable<T>(s: seq<T>, le: (T, T) -> bool, p: T -> bool)
    requires forall a, b :: p(a) && p(b) ==> le(a, b)
    ensures Filter(Sort(s, le), p) == Filter(s, p)
    decreases |s|
  {
    if |s| > 0 {
      var rest := Sort(s[1..], le);
      assert Sort(s, le) == Insert(s[0], rest, le);
      SortStable(s[1..], le, p);
      FilterCons(s, p);
      if p(s[0]) {
        InsertFilterTie(s[0], rest, le, p);
      } else {
        InsertFilterOther(s[0], rest, le, p);
      }
    }
  }

  /** Sorting neither adds nor drops elements. */
  lemma SortElements<T>(s: seq<T>, le: (T, T) -> bool)
    ensures forall x :: x in Sort(s, le) <==> x in s
  {
    var r := Sort(s, le);
    forall x
      ensures x in r <==> x in s
    {
      assert x in r <==> x in multiset(r);
      assert x in s <==> x in multiset(s);
    }
  }

  /** An order-preserving subsequence of an ordered list is ordered. */
  lemma {:induction false} SubseqSorted<T>(a: seq<T>, b: seq<T>, le: (T, T) -> bool)
    requires IsSubseq(a, b)
    requires SortedBy(b, le)
    ensures SortedBy(a, le)
    decreases |b|
  {
    if |a| > 0 {
      var a' := a[..|a| - 1];
      var b' := b[..|b| - 1];
      assert SortedBy(b', le);
      if a[|a| - 1] == b[|b| - 1] && IsSubseq(a', b') {
        SubseqSorted(a', b', le);
        SubseqElements(a', b');
        forall i | 0 <= i < |a'|
          ensures le(a'[i], a[|a| - 1])
        {
          assert a'[i] in b';
          var p :| 0 <= p < |b'| && b'[p] == a'[i];
          assert b[p] == a'[i];
        }
      } else {
        SubseqSorted(a, b', le);
      }
    }
  }

  lemma InsertSorted<T(!new)>(x: T, s: seq<T>, le: (T, T) -> bool)
    requires TotalPreorder(le)
    requires SortedBy(s, le)
    ensures SortedBy(Insert(x, s, le), le)
  {
    var k := InsertPos(x, s, le);
    var r := Insert(x, s, le);
    forall i, j | 0 <= i < j < |r|
      ensures le(r[i], r[j])
    {
      if j < k {
        assert r[i] == s[i] && r[j] == s[j];
      } else if j == k {
        assert r[i] == s[i] && r[j] == x;
        assert !le(x, s[i]);
      } else if i < k {
        assert r[i] == s[i] && r[j] == s[j - 1];
      } else if i == k {
        assert r[i] == x && r[j] == s[j - 1];
        assert le(x, s[k]);
        if j - 1 > k {
          assert le(s[k], s[j - 1]);
        }
      } else {
        assert r[i] == s[i - 1] && r[j] == s[j - 1];
      }
    }
  }

  /** The output of `Sort` is ordered by `le` whenever `le` is a total preorder. */
  lemma {:induction false} SortSorted<T(!new)>(s: seq<T>, le: (T, T) -> bool)
    requires TotalPreorder(le)
    ensures SortedBy(Sort(s, le), le)
    decreases |s|
  {
    if |s| > 0 {
      SortSorted(s[1..], le);
      InsertSorted(s[0], Sort(s[1..], le), le);
    }
  }

  lemma InsertPairwise<T(!new)>(x: T, s: seq<T>, le: (T, T) -> bool, rel: (T, T) -> bool)
    requires Pairwise(s, rel)
    requires forall e :: e in s ==> rel(x, e) && rel(e, x)
    ensures Pairwise(Insert(x, s, le), rel)
  {
    var k := InsertPos(x, s, le);
    var r := Insert(x, s, le);
    InsertAt(x, s, le);
    forall i, j | 0 <= i < |r| && 0 <= j < |r| && i != j
      ensures rel(r[i], r[j])
    {
      if i == k {
        assert r[j] in s;
      } else if j == k {
        assert r[i] in s;
      } else {
        var si := if i < k then i else i - 1;
        var sj := if j < k then j else j - 1;
        assert r[i] == s[si] && r[j] == s[sj];
      }
    }
  }

  /** Where each element of `Insert` comes from. */
  lemma InsertAt<T>(x: T, s: seq<T>, le: (T, T) -> bool)
    ensures var k := InsertPos(x, s, le); var r := Insert(x, s, le);
      && r[k] == x
      && (forall i :: 0 <= i < k ==> r[i] == s[i])
      && (forall i :: k < i < |r| ==> r[i] == s[i - 1])
  {
  }

  /** Sorting never brings two related elements into a relation they lacked:
      a property of every pair of positions survives the permutation. */
  lemma {:induction false} SortPairwise<T(!new)>(s: seq<T>, le: (T, T) -> bool, rel: (T, T) -> bool)
    requires Pairwise(s, rel)
    ensures Pairwise(Sort(s, le), rel)
    decreases |s|
  {
    if |s| > 0 {
      var tail := s[1..];
      assert Pairwise(tail, rel) by {
        forall i, j | 0 <= i < |tail| && 0 <= j < |tail| && i != j
          ensures rel(tail[i], tail[j])
        {
          assert tail[i] == s[i + 1] && tail[j] == s[j + 1];
        }
      }
      SortPairwise(tail, le, rel);
      var t := Sort(tail, le);
      forall e | e in t
        ensures rel(s[0], e) && rel(e, s[0])
      {
        assert e in multiset(t);
        assert e in tail;
        var i :| 0 <= i < |tail| && tail[i] == e;
        assert s[i + 1] == e;
      }
      InsertPairwise(s[0], t, le, rel);
    }
  }

  /** De-duplicating with a symmetric clash test and then sorting: the result
      draws from the input, keeps every pair apart, and every input element
      is in it or clashes with an element of it. */
  lemma DedupThenSort<T(!new)>(s: seq<T>, clash: (T, T) -> bool, le: (T, T) -> bool)
    requires Symmetric(clash)
    ensures var r := Sort(Dedup(s, clash), le);
      && (forall x :: x in r ==> x in s)
      && (forall i, j :: 0 <= i < |r| && 0 <= j < |r| && i != j ==> !clash(r[i], r[j]))
      && (forall k :: 0 <= k < |s| ==> CoveredBy(s[k], r, clash))
  {
    var kept := Dedup(s, clash);
    DedupSubseq(s, clash);
    SubseqElements(kept, s);
    DedupCovers(s, clash);
    SortCovers(s, kept, clash, le);
    DedupSortApart(s, clash, le);
  }

  /** Sorting does not change which elements survived, so the first-wins
      rule still holds of the sorted survivors. */
  lemma DedupSortFirstWins<T>(s: seq<T>, clash: (T, T) -> bool, le: (T, T) -> bool)
    ensures var r := Sort(Dedup(s, clash), le);
      forall k :: 0 <= k < |s| ==> s[k] in r || exists j :: 0 <= j < k && s[j] in r && clash(s[k], s[j])
  {
    DedupFirstWins(s, clash);
    SortElements(Dedup(s, clash), le);
  }

  lemma DedupSortApart<T(!new)>(s: seq<T>, clash: (T, T) -> bool, le: (T, T) -> bool)
    requires Symmetric(clash)
    ensures Pairwise(Sort(Dedup(s, clash), le), (a, b) => !clash(a, b))
  {
    var kept := Dedup(s, clash);
    DedupSeparated(s, clash);
    SeparatedPairwise(kept, clash);
    SortPairwise(kept, le, (a: T, b: T) => !clash(a, b));
  }

  /** Sorting the survivors keeps them drawn from the input and covering it. */
  lemma SortCovers<T>(s: seq<T>, kept: seq<T>, clash: (T, T) -> bool, le: (T, T) -> bool)
    requires forall x :: x in kept ==> x in s
    requires forall k :: 0 <= k < |s| ==> CoveredBy(s[k], kept, clash)
    ensures var r := Sort(kept, le);
      && (forall x :: x in r ==> x in s)
      && (forall k :: 0 <= k < |s| ==> CoveredBy(s[k], r, clash))
  {
    var r := Sort(kept, le);
    SortElements(kept, le);
    forall x | x in r
      ensures x in s
    {
      assert x in multiset(r);
      assert x in kept;
    }
    forall k | 0 <= k < |s|
      ensures CoveredBy(s[k], r, clash)
    {
      CoveredGrow(s[k], kept, r, clash);
    }
  }

  /** The sum of `f` over the elements of `s`. */
  function SumOf<T>(s: seq<T>, f: T -> int): int
    decreases |s|
  {
    if |s| == 0 then 0 else f(s[0]) + SumOf(s[1..], f)
  }

  lemma {:induction false} SumOfAppend<T>(a: seq<T>, b: seq<T>, f: T -> int)
    ensures SumOf(a + b, f) == SumOf(a, f) + SumOf(b, f)
    decreases |a|
  {
    if |a| > 0 {
      assert (a + b)[1..] == a[1..] + b;
      SumOfAppend(a[1..], b, f);
    } else {
      assert a + b == b;
    }
  }

  /** Sorting leaves a sum over the list unchanged. */
  lemma {:induction false} SortSum<T>(s: seq<T>, le: (T, T) -> bool, f: T -> int)
    ensures SumOf(Sort(s, le), f) == SumOf(s, f)
    decreases |s|
  {
    if |s| > 0 {
      SortSum(s[1..], le, f);
      InsertSum(s[0], Sort(s[1..], le), le, f);
    }
  }

  lemma InsertSum<T>(x: T, t: seq<T>, le: (T, T) -> bool, f: T -> int)
    ensures SumOf(Insert(x, t, le), f) == f(x) + SumOf(t, f)
  {
    var k := InsertPos(x, t, le);
    var a, b := t[..k], t[k..];
    assert Insert(x, t, le) == (a + [x]) + b;
    SumOfAppend(a + [x], b, f);
    SumOfAppend(a, [x], f);
    SumOfAppend(a, b, f);
    assert t == a + b;
    assert SumOf([x], f) == f(x);
  }
}
