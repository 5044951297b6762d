/** Detection fusion of the AI button detector: candidates from the six
    generators are grouped greedily around seeds by overlap, every group is
    collapsed into one merged detection, and the merged list is ranked by
    confidence. The generators themselves (OpenCV and Tesseract numerics) are
    outside the model: their output arrives as a list of candidates. */
module Fusion {
  import opened Wrappers
  import opened Text
  import opened Geometry
  import opened Seqs

  /** One raw detection. `methods` is the set of generator tags; a raw
      candidate carries the one tag of the generator that produced it. */
  datatype Candidate = Candidate(bbox: Box, confidence: real, methods: set<string>)

  /** One fused detection; `count` is the source's `detection_count`. Its
      center is always `Center(bbox)`, so it is not stored. */
  datatype Merged = Merged(bbox: Box, confidence: real, methods: set<string>, count: nat)

  /** The fusion test of a later candidate against the seed of a group:
      the shared area is more than 30% of the smaller box's area, read on
      integers without division (the source divides by the smaller area,
      so it must be positive; see `PositiveAreas`). */
  predicate Joins(seed: Box, other: Box) {
    10 * OverlapArea(seed, other) > 3 * Min(Area(seed), Area(other))
  }

  predicate PositiveAreas(cs: seq<Candidate>) {
    forall k :: 0 <= k < |cs| ==> Area(cs[k].bbox) > 0
  }

  /** A candidate joins a seed only through a non-empty intersection with
      that seed, however close the two boxes are. */
  lemma JoinsNeedsIntersection(seed: Box, other: Box)
    requires Area(seed) > 0 && Area(other) > 0
    ensures Joins(seed, other) ==> OverlapArea(seed, other) > 0
    ensures OverlapArea(seed, other) == 0 ==> !Joins(seed, other)
  {
  }

  // ---------------------------------------------------------------------
  // Grouping

  /** The members the inner loop adds to the group of seed `i`, scanning the
      indices `j..` in order: every unused `j` that joins the seed. */
  function GroupTail(cs: seq<Candidate>, used: set<nat>, i: nat, j: nat, joins: (Box, Box) -> bool): (g: seq<nat>)
    requires i < |cs|
    ensures forall a :: 0 <= a < |g| ==> j <= g[a] < |cs| && g[a] !in used
    ensures forall a, b :: 0 <= a < b < |g| ==> g[a] < g[b]
    ensures forall a :: 0 <= a < |g| ==> joins(cs[i].bbox, cs[g[a]].bbox)
    ensures forall k: nat :: j <= k < |cs| && k !in used && joins(cs[i].bbox, cs[k].bbox) ==> k in g
    decreases |cs| - j
  {
    if j >= |cs| then []
    else
      var rest := GroupTail(cs, used, i, j + 1, joins);
      if j !in used && joins(cs[i].bbox, cs[j].bbox) then [j] + rest else rest
  }

  /** The outer loop from index `i` on: every unused index seeds a group of
      itself followed by its `GroupTail`, and all of them become used. */
  function Groups(cs: seq<Candidate>, used: set<nat>, i: nat, joins: (Box, Box) -> bool): (gs: seq<seq<nat>>)
    ensures forall n :: 0 <= n < |gs| ==> ValidGroup(cs, gs[n])
    decreases |cs| - i
  {
    if i >= |cs| then []
    else if i in used then Groups(cs, used, i + 1, joins)
    else
      var g := [i] + GroupTail(cs, used, i, i + 1, joins);
      [g] + Groups(cs, used + ElemSet(g), i + 1, joins)
  }

  /** The indices listed in `s`, as a set. */
  function ElemSet(s: seq<nat>): (r: set<nat>)
    ensures forall k :: k in r <==> k in s
    decreases |s|
  {
    if |s| == 0 then {} else ElemSet(s[..|s| - 1]) + {s[|s| - 1]}
  }

  /** The indices below `n`, as a set of exactly `n` elements. */
  function RangeSet(n: nat): (r: set<nat>)
    ensures forall k: int :: k in r <==> 0 <= k < n
    ensures |r| == n
  {
    if n == 0 then {} else RangeSet(n - 1) + {n - 1}
  }

  function Flatten(gs: seq<seq<nat>>): seq<nat>
    decreases |gs|
  {
    if |gs| == 0 then [] else gs[0] + Flatten(gs[1..])
  }

  predicate NoDup(s: seq<nat>) {
    forall a, b :: 0 <= a < b < |s| ==> s[a] != s[b]
  }

  predicate ValidGroup(cs: seq<Candidate>, g: seq<nat>) {
    |g| > 0 && forall a :: 0 <= a < |g| ==> g[a] < |cs|
  }

  /** Every later member of a group joins the group's seed (its first index). */
  predicate SeedGroup(cs: seq<Candidate>, g: seq<nat>, joins: (Box, Box) -> bool) {
    && ValidGroup(cs, g)
    && forall a :: 1 <= a < |g| ==> g[0] < g[a] && joins(cs[g[0]].bbox, cs[g[a]].bbox)
  }

  lemma NoDupAppend(a: seq<nat>, b: seq<nat>)
    requires NoDup(a) && NoDup(b)
    requires forall x :: x in a ==> x !in b
    ensures NoDup(a + b)
  {
    var s := a + b;
    forall p, q | 0 <= p < q < |s|
      ensures s[p] != s[q]
    {
      if q < |a| {
        assert s[p] == a[p] && s[q] == a[q];
      } else if p < |a| {
        assert s[p] == a[p] && s[q] == b[q - |a|];
        assert a[p] in a;
      } else {
        assert s[p] == b[p - |a|] && s[q] == b[q - |a|];
      }
    }
  }

  lemma FlattenCons(g: seq<nat>, rest: seq<seq<nat>>)
    ensures Flatten([g] + rest) == g + Flatten(rest)
  {
    assert ([g] + rest)[1..] == rest;
  }

  /** A new group lists fresh indices at or after its seed, each once. */
  lemma NewGroupFresh(cs: seq<Candidate>, used: set<nat>, i: nat, tail: seq<nat>)
    requires i < |cs| && i !in used
    requires forall a :: 0 <= a < |tail| ==> i + 1 <= tail[a] < |cs| && tail[a] !in used
    requires forall a, b :: 0 <= a < b < |tail| ==> tail[a] < tail[b]
    ensures NoDup([i] + tail)
    ensures forall k: nat :: k in [i] + tail ==> i <= k < |cs| && k !in used
  {
    var g := [i] + tail;
    forall p, q | 0 <= p < q < |g|
      ensures g[p] != g[q]
    {
      if p == 0 {
        assert g[q] == tail[q - 1];
      } else {
        assert g[p] == tail[p - 1] && g[q] == tail[q - 1];
      }
    }
    forall k: nat | k in g && k != i
      ensures i <= k < |cs| && k !in used
    {
      var a :| 0 <= a < |g| && g[a] == k;
      assert tail[a - 1] == k;
    }
  }

  /** The groups list every index below `|cs|` outside `used` exactly once,
      and nothing else. */
  ghost predicate Partitions(cs: seq<Candidate>, used: set<nat>, gs: seq<seq<nat>>) {
    && (forall k: nat :: k in Flatten(gs) <==> k < |cs| && k !in used)
    && NoDup(Flatten(gs))
  }

  /** The groups partition the unused indices: every unused index of the
      input lies in exactly one group, and no used one lies in any. */
  lemma {:induction false} GroupsPartition(cs: seq<Candidate>, used: set<nat>, i: nat, joins: (Box, Box) -> bool)
    requires i <= |cs|
    requires forall k: nat :: k < i ==> k in used
    ensures Partitions(cs, used, Groups(cs, used, i, joins))
    decreases |cs| - i, 1
  {
    if i >= |cs| {
    } else if i in used {
      GroupsPartition(cs, used, i + 1, joins);
      assert Groups(cs, used, i, joins) == Groups(cs, used, i + 1, joins);
    } else {
      PartitionNewGroup(cs, used, i, joins);
    }
  }

  /** The step of the partition proof at an unused seed: its group, then
      the partition of what remains. */
  lemma {:induction false} PartitionNewGroup(cs: seq<Candidate>, used: set<nat>, i: nat, joins: (Box, Box) -> bool)
    requires i < |cs| && i !in used
    requires forall k: nat :: k < i ==> k in used
    ensures Partitions(cs, used, Groups(cs, used, i, joins))
    decreases |cs| - i, 0
  {
    var g := [i] + GroupTail(cs, used, i, i + 1, joins);
    var used' := used + ElemSet(g);
    assert forall k: nat :: k < i + 1 ==> k in used' by {
      assert i == g[0] && i in ElemSet(g);
    }
    GroupsPartition(cs, used', i + 1, joins);
    var rest := Groups(cs, used', i + 1, joins);
    GroupsUnfold(cs, used, i, joins);
    FlattenCons(g, rest);
    NewGroupFresh(cs, used, i, GroupTail(cs, used, i, i + 1, joins));
    NoDupAppend(g, Flatten(rest));
    PartitionStep(cs, used, g, Flatten(rest));
  }

  /** The new group and the indices the later groups cover make up exactly
      the free indices. */
  lemma PartitionStep(cs: seq<Candidate>, used: set<nat>, g: seq<nat>, later: seq<nat>)
    requires forall k: nat :: k in g ==> k < |cs| && k !in used
    requires forall k: nat :: k in later <==> k < |cs| && k !in used + ElemSet(g)
    ensures forall k: nat :: k in g + later <==> k < |cs| && k !in used
  {
    forall k: nat
      ensures k in g + later <==> k < |cs| && k !in used
    {
      if k in g {
      } else {
        assert k !in ElemSet(g);
      }
    }
  }

  /** Each group is a seed followed by later candidates that join that seed:
      membership is decided against the seed only, never against members
      added before. */
  lemma {:induction false} GroupsSeedOnly(cs: seq<Candidate>, used: set<nat>, i: nat, joins: (Box, Box) -> bool)
    ensures forall n :: 0 <= n < |Groups(cs, used, i, joins)| ==> SeedGroup(cs, Groups(cs, used, i, joins)[n], joins)
    decreases |cs| - i
  {
    if i >= |cs| {
    } else if i in used {
      GroupsSeedOnly(cs, used, i + 1, joins);
    } else {
      var tail := GroupTail(cs, used, i, i + 1, joins);
      var g := [i] + tail;
      var rest := Groups(cs, used + ElemSet(g), i + 1, joins);
      GroupsSeedOnly(cs, used + ElemSet(g), i + 1, joins);
      GroupsUnfold(cs, used, i, joins);
      NewGroupIsSeedGroup(cs, used, i, joins);
      var gs := Groups(cs, used, i, joins);
      forall n | 0 <= n < |gs|
        ensures SeedGroup(cs, gs[n], joins)
      {
        if n > 0 {
          assert gs[n] == rest[n - 1];
        }
      }
    }
  }

  /** Every group's seed is at least `i`, and within a group the indices
      ascend. */
  ghost predicate SeedsFrom(gs: seq<seq<nat>>, i: nat) {
    forall n :: 0 <= n < |gs| ==> |gs[n]| > 0 && i <= gs[n][0]
  }

  /** Later groups have later seeds, as the outer loop visits the seeds in
      index order. */
  ghost predicate SeedsAscending(gs: seq<seq<nat>>) {
    forall n, m :: 0 <= n < m < |gs| ==> |gs[n]| > 0 && |gs[m]| > 0 && gs[n][0] < gs[m][0]
  }

  /** Inside every group the indices ascend, as the inner loop scans them. */
  ghost predicate MembersAscending(gs: seq<seq<nat>>) {
    forall n, a, b :: 0 <= n < |gs| && 0 <= a < b < |gs[n]| ==> gs[n][a] < gs[n][b]
  }

  /** The groups come out in the order of their seeds, and each lists its
      members in index order. */
  lemma {:induction false} GroupsAscending(cs: seq<Candidate>, used: set<nat>, i: nat, joins: (Box, Box) -> bool)
    ensures SeedsFrom(Groups(cs, used, i, joins), i)
    ensures SeedsAscending(Groups(cs, used, i, joins))
    ensures MembersAscending(Groups(cs, used, i, joins))
    decreases |cs| - i, 1
  {
    if i >= |cs| {
    } else if i in used {
      GroupsAscending(cs, used, i + 1, joins);
      assert Groups(cs, used, i, joins) == Groups(cs, used, i + 1, joins);
    } else {
      AscendingNewGroup(cs, used, i, joins);
    }
  }

  /** The step of the ordering proof at an unused seed. */
  lemma {:induction false} AscendingNewGroup(cs: seq<Candidate>, used: set<nat>, i: nat, joins: (Box, Box) -> bool)
    requires i < |cs| && i !in used
    ensures SeedsFrom(Groups(cs, used, i, joins), i)
    ensures SeedsAscending(Groups(cs, used, i, joins))
    ensures MembersAscending(Groups(cs, used, i, joins))
    decreases |cs| - i, 0
  {
    var tail := GroupTail(cs, used, i, i + 1, joins);
    var used' := used + ElemSet([i] + tail);
    GroupsAscending(cs, used', i + 1, joins);
    GroupsUnfold(cs, used, i, joins);
    AscendingCons(i, tail, Groups(cs, used', i + 1, joins));
  }

  /** Putting a group seeded at `i`, with ascending members, before groups
      seeded after `i` keeps both orders. */
  lemma AscendingCons(i: nat, tail: seq<nat>, rest: seq<seq<nat>>)
    requires forall a :: 0 <= a < |tail| ==> i < tail[a]
    requires forall a, b :: 0 <= a < b < |tail| ==> tail[a] < tail[b]
    requires SeedsFrom(rest, i + 1) && SeedsAscending(rest) && MembersAscending(rest)
    ensures var gs := [[i] + tail] + rest;
      SeedsFrom(gs, i) && SeedsAscending(gs) && MembersAscending(gs)
  {
    var g := [i] + tail;
    var gs := [g] + rest;
    assert forall a, b :: 0 <= a < b < |g| ==> g[a] < g[b] by {
      assert forall a :: 0 < a < |g| ==> g[a] == tail[a - 1];
    }
    assert forall n :: 0 < n < |gs| ==> gs[n] == rest[n - 1];
  }

  lemma NewGroupIsSeedGroup(cs: seq<Candidate>, used: set<nat>, i: nat, joins: (Box, Box) -> bool)
    requires i < |cs|
    ensures SeedGroup(cs, [i] + GroupTail(cs, used, i, i + 1, joins), joins)
  {
    var tail := GroupTail(cs, used, i, i + 1, joins);
    var g := [i] + tail;
    forall a | 1 <= a < |g|
      ensures g[0] < g[a] && joins(cs[g[0]].bbox, cs[g[a]].bbox)
    {
      assert g[a] == tail[a - 1];
    }
  }

  /** The outer loop at an unused seed: the seed's group comes first, and the
      rest is the loop from the next index with the group marked used. */
  lemma GroupsUnfold(cs: seq<Candidate>, used: set<nat>, i: nat, joins: (Box, Box) -> bool)
    requires i < |cs| && i !in used
    ensures var g := [i] + GroupTail(cs, used, i, i + 1, joins);
      Groups(cs, used, i, joins) == [g] + Groups(cs, used + ElemSet(g), i + 1, joins)
  {
  }

  lemma ChainFirstJoins()
    ensures Joins(Box(0, 0, 10, 10), Box(6, 0, 10, 10))
  {
    assert Overlap1(0, 10, 6, 10) == 4 && Overlap1(0, 10, 0, 10) == 10;
  }

  lemma ChainSecondJoins()
    ensures Joins(Box(6, 0, 10, 10), Box(12, 0, 10, 10))
  {
    assert Overlap1(6, 10, 12, 10) == 4 && Overlap1(0, 10, 0, 10) == 10;
  }

  lemma ChainEndsApart()
    ensures !Joins(Box(0, 0, 10, 10), Box(12, 0, 10, 10))
  {
    assert Overlap1(0, 10, 12, 10) == 0;
  }

  /** Three boxes in a row, each overlapping its neighbours by 40% and the
      outer two not at all: the middle one joins the first seed, and the last
      one starts a group of its own because it never meets that seed, although
      it overlaps the middle one as much. Fusion is not the transitive closure
      of the overlap relation. */
  lemma ChainIsNotClosed(a: Candidate, b: Candidate, c: Candidate)
    requires a.bbox == Box(0, 0, 10, 10)
    requires b.bbox == Box(6, 0, 10, 10)
    requires c.bbox == Box(12, 0, 10, 10)
    ensures Joins(a.bbox, b.bbox) && Joins(b.bbox, c.bbox)
    ensures Groups([a, b, c], {}, 0, Joins) == [[0, 1], [2]]
  {
    var cs := [a, b, c];
    ChainFirstJoins();
    ChainSecondJoins();
    ChainEndsApart();
    assert GroupTail(cs, {}, 0, 3, Joins) == [];
    assert GroupTail(cs, {}, 0, 2, Joins) == [];
    assert GroupTail(cs, {}, 0, 1, Joins) == [1];
    var used := ElemSet([0, 1]);
    assert used == {0, 1};
    assert GroupTail(cs, used, 2, 3, Joins) == [];
    GroupsUnfold(cs, used, 2, Joins);
    assert [2] + GroupTail(cs, used, 2, 3, Joins) == [2];
    assert Groups(cs, used + ElemSet([2]), 3, Joins) == [];
    assert Groups(cs, used, 2, Joins) == [[2]];
    assert Groups(cs, used, 1, Joins) == [[2]];
    assert [0] + GroupTail(cs, {}, 0, 1, Joins) == [0, 1];
    assert {} + ElemSet([0, 1]) == used;
    assert Groups(cs, {}, 0, Joins) == [[0, 1]] + Groups(cs, used, 1, Joins);
  }

  /** Greedy completeness: once `j` is still free when a group's seed is
      reached, `j` comes after the seed and joins it, `j` lands in that group. */
  lemma GroupsMaximal(cs: seq<Candidate>, used: set<nat>, i: nat, n: nat, j: nat, joins: (Box, Box) -> bool)
    ensures FreeAndJoining(cs, Groups(cs, used, i, joins), n, j, used, joins) ==> j in Groups(cs, used, i, joins)[n]
  {
    if FreeAndJoining(cs, Groups(cs, used, i, joins), n, j, used, joins) {
      MaximalFrom(cs, used, i, n, j, joins);
    }
  }

  /** `j` is free when group `n` of `gs` is formed, comes after its seed and
      joins it. */
  ghost predicate FreeAndJoining(cs: seq<Candidate>, gs: seq<seq<nat>>, n: nat, j: nat, used: set<nat>, joins: (Box, Box) -> bool) {
    && n < |gs| && 0 < |gs[n]| && gs[n][0] < j < |cs|
    && j !in used && j !in Flatten(gs[..n])
    && joins(cs[gs[n][0]].bbox, cs[j].bbox)
  }

  lemma {:induction false} MaximalFrom(cs: seq<Candidate>, used: set<nat>, i: nat, n: nat, j: nat, joins: (Box, Box) -> bool)
    requires FreeAndJoining(cs, Groups(cs, used, i, joins), n, j, used, joins)
    ensures j in Groups(cs, used, i, joins)[n]
    decreases |cs| - i, 1
  {
    if i >= |cs| {
    } else if i in used {
      MaximalFrom(cs, used, i + 1, n, j, joins);
    } else {
      GroupsUnfold(cs, used, i, joins);
      if n == 0 {
        FirstGroupMaximal(cs, used, i, j, joins);
      } else {
        MaximalLater(cs, used, i, n, j, joins);
      }
    }
  }

  lemma FirstGroupMaximal(cs: seq<Candidate>, used: set<nat>, i: nat, j: nat, joins: (Box, Box) -> bool)
    requires i < j < |cs| && j !in used
    requires joins(cs[i].bbox, cs[j].bbox)
    ensures j in [i] + GroupTail(cs, used, i, i + 1, joins)
  {
    assert j in GroupTail(cs, used, i, i + 1, joins);
  }

  lemma MaximalLater(cs: seq<Candidate>, used: set<nat>, i: nat, n: nat, j: nat, joins: (Box, Box) -> bool)
    requires i < |cs| && i !in used && 0 < n
    requires FreeAndJoining(cs, Groups(cs, used, i, joins), n, j, used, joins)
    ensures j in Groups(cs, used, i, joins)[n]
    decreases |cs| - i, 0
  {
    var g := [i] + GroupTail(cs, used, i, i + 1, joins);
    var used' := used + ElemSet(g);
    GroupsUnfold(cs, used, i, joins);
    ShiftFree(cs, Groups(cs, used, i, joins), g, Groups(cs, used', i + 1, joins), n, j, used, joins);
    MaximalFrom(cs, used', i + 1, n - 1, j, joins);
  }

  /** Past the first group, the `n`-th group is the `n - 1`-th of the rest,
      and an index free at the `n`-th is free at the `n - 1`-th of the rest
      once the first group's members are used. */
  lemma ShiftFree(cs: seq<Candidate>, gs: seq<seq<nat>>, g: seq<nat>, rest: seq<seq<nat>>, n: nat, j: nat, used: set<nat>, joins: (Box, Box) -> bool)
    requires gs == [g] + rest && 0 < n
    requires FreeAndJoining(cs, gs, n, j, used, joins)
    ensures n - 1 < |rest| && rest[n - 1] == gs[n]
    ensures FreeAndJoining(cs, rest, n - 1, j, used + ElemSet(g), joins)
  {
    FlattenPrefix(g, rest, n);
  }

  /** The groups before the `n`-th, flattened, start with the first group. */
  lemma FlattenPrefix(g: seq<nat>, rest: seq<seq<nat>>, n: nat)
    requires 0 < n <= |rest| + 1
    ensures Flatten(([g] + rest)[..n]) == g + Flatten(rest[..n - 1])
  {
    assert ([g] + rest)[..n] == [g] + rest[..n - 1];
    FlattenCons(g, rest[..n - 1]);
  }

  lemma {:induction false} CardOfNoDup(s: seq<nat>)
    requires NoDup(s)
    ensures |ElemSet(s)| == |s|
    decreases |s|
  {
    if |s| > 0 {
      var p := s[..|s| - 1];
      assert NoDup(p);
      CardOfNoDup(p);
      assert s[|s| - 1] !in p;
    }
  }

  /** A duplicate-free list of exactly the indices below `n` has length `n`. */
  lemma NoDupRangeLength(s: seq<nat>, n: nat)
    requires NoDup(s)
    requires forall k: nat :: k in s <==> k < n
    ensures |s| == n
  {
    CardOfNoDup(s);
    assert ElemSet(s) == RangeSet(n);
  }

  // ---------------------------------------------------------------------
  // Collapsing a group

  function SumInts(s: seq<int>): int
    decreases |s|
  {
    if |s| == 0 then 0 else s[0] + SumInts(s[1..])
  }

  /** A sum below `|s| * (r + 1)` has a term of at most `r`. */
  lemma {:induction false} SomeTermAtMost(s: seq<int>, r: int)
    requires |s| > 0 && SumInts(s) < |s| * r + |s|
    ensures exists k :: 0 <= k < |s| && s[k] <= r
    decreases |s|
  {
    if s[0] > r {
      var rest := s[1..];
      assert |s| * r + |s| == |rest| * r + |rest| + r + 1;
      SomeTermAtMost(rest, r);
      var k :| 0 <= k < |rest| && rest[k] <= r;
      assert s[k + 1] <= r;
    }
  }

  /** A sum above `|s| * (r - 1)` has a term of at least `r`. */
  lemma {:induction false} SomeTermAtLeast(s: seq<int>, r: int)
    requires |s| > 0 && |s| * r - |s| < SumInts(s)
    ensures exists k :: 0 <= k < |s| && r <= s[k]
    decreases |s|
  {
    if s[0] < r {
      var rest := s[1..];
      assert |s| * r - |s| == |rest| * r - |rest| + r - 1;
      SomeTermAtLeast(rest, r);
      var k :| 0 <= k < |rest| && r <= rest[k];
      assert r <= s[k + 1];
    }
  }

  /** The mean of a component, converted to an integer the way Python
      does: the sum divided by the count, truncated toward zero. It therefore lies between the least and the greatest value. */
  function TruncMean(vals: seq<int>): (r: int)
    requires |vals| > 0
    ensures SumInts(vals) >= 0 ==> |vals| * r <= SumInts(vals) < |vals| * r + |vals|
    ensures SumInts(vals) < 0 ==> |vals| * r - |vals| < SumInts(vals) <= |vals| * r
    ensures exists k :: 0 <= k < |vals| && vals[k] <= r
    ensures exists k :: 0 <= k < |vals| && r <= vals[k]
  {
    var r := TruncDiv(SumInts(vals), |vals|);
    SomeTermAtMost(vals, r);
    SomeTermAtLeast(vals, r);
    r
  }

  /** The greatest of the members' confidences. */
  function MaxConfidence(s: seq<real>): (r: real)
    requires |s| > 0
    ensures exists k :: 0 <= k < |s| && s[k] == r
    ensures forall k :: 0 <= k < |s| ==> s[k] <= r
    decreases |s|
  {
    if |s| == 1 then s[0]
    else
      var m := MaxConfidence(s[1..]);
      assert forall k :: 1 <= k < |s| ==> s[k] == s[1..][k - 1];
      if s[0] >= m then s[0] else m
  }

  /** The four components of a bounding box. */
  datatype Component = Left | Top | Width | Height

  function Get(b: Box, c: Component): int {
    match c
    case Left => b.x
    case Top => b.y
    case Width => b.w
    case Height => b.h
  }

  /** The members' values of one bounding-box component. */
  function Field(cs: seq<Candidate>, g: seq<nat>, c: Component): (r: seq<int>)
    requires ValidGroup(cs, g)
    ensures |r| == |g|
    ensures forall a :: 0 <= a < |g| ==> r[a] == Get(cs[g[a]].bbox, c)
  {
    seq(|g|, a requires 0 <= a < |g| => Get(cs[g[a]].bbox, c))
  }

  /** The members' confidences. */
  function Confidences(cs: seq<Candidate>, g: seq<nat>): (r: seq<real>)
    requires ValidGroup(cs, g)
    ensures |r| == |g|
    ensures forall a :: 0 <= a < |g| ==> r[a] == cs[g[a]].confidence
  {
    seq(|g|, a requires 0 <= a < |g| => cs[g[a]].confidence)
  }

  /** Every method tag of the members, kept as a set: the source joins the
      distinct tags with `+` in Python's hash order, which the model does not
      fix. */
  function MethodsUnion(cs: seq<Candidate>, g: seq<nat>): (r: set<string>)
    requires ValidGroup(cs, g)
    ensures forall a :: 0 <= a < |g| ==> cs[g[a]].methods <= r
    ensures forall t :: t in r ==> exists a :: 0 <= a < |g| && t in cs[g[a]].methods
  {
    set a, t | 0 <= a < |g| && t in cs[g[a]].methods :: t
  }

  /** One group collapsed into one merged detection: component-wise truncated
      mean box, best confidence, all method tags, number of members. */
  function Collapse(cs: seq<Candidate>, g: seq<nat>): (m: Merged)
    requires ValidGroup(cs, g)
    ensures m.count == |g|
    ensures forall c :: Get(m.bbox, c) == TruncMean(Field(cs, g, c))
    ensures forall a :: 0 <= a < |g| ==> cs[g[a]].confidence <= m.confidence
    ensures exists a :: 0 <= a < |g| && cs[g[a]].confidence == m.confidence
    ensures forall a :: 0 <= a < |g| ==> cs[g[a]].methods <= m.methods
    ensures forall t :: t in m.methods ==> exists a :: 0 <= a < |g| && t in cs[g[a]].methods
  {
    var box := Box(TruncMean(Field(cs, g, Left)), TruncMean(Field(cs, g, Top)),
                   TruncMean(Field(cs, g, Width)), TruncMean(Field(cs, g, Height)));
    var confs := Confidences(cs, g);
    var best := MaxConfidence(confs);
    assert exists a :: 0 <= a < |g| && confs[a] == best;
    Merged(box, best, MethodsUnion(cs, g), |g|)
  }

  /** Every component of a merged box lies between the least and greatest
      value of that component among the members, so a group of boxes with
      positive sides collapses to a box with positive sides. */
  lemma CollapseBoxBetween(cs: seq<Candidate>, g: seq<nat>)
    requires ValidGroup(cs, g)
    ensures var b := Collapse(cs, g).bbox;
      && (exists a :: 0 <= a < |g| && cs[g[a]].bbox.x <= b.x)
      && (exists a :: 0 <= a < |g| && b.x <= cs[g[a]].bbox.x)
      && (exists a :: 0 <= a < |g| && cs[g[a]].bbox.y <= b.y)
      && (exists a :: 0 <= a < |g| && b.y <= cs[g[a]].bbox.y)
      && (exists a :: 0 <= a < |g| && cs[g[a]].bbox.w <= b.w)
      && (exists a :: 0 <= a < |g| && b.w <= cs[g[a]].bbox.w)
      && (exists a :: 0 <= a < |g| && cs[g[a]].bbox.h <= b.h)
      && (exists a :: 0 <= a < |g| && b.h <= cs[g[a]].bbox.h)
    ensures (forall a :: 0 <= a < |g| ==> PositiveSize(cs[g[a]].bbox)) ==> PositiveSize(Collapse(cs, g).bbox)
  {
    var mb := Collapse(cs, g).bbox;
    var xs := Field(cs, g, Left);
    var ys := Field(cs, g, Top);
    var ws := Field(cs, g, Width);
    var hs := Field(cs, g, Height);
    var a1 :| 0 <= a1 < |g| && xs[a1] <= mb.x;
    var a2 :| 0 <= a2 < |g| && mb.x <= xs[a2];
    var a3 :| 0 <= a3 < |g| && ys[a3] <= mb.y;
    var a4 :| 0 <= a4 < |g| && mb.y <= ys[a4];
    var a5 :| 0 <= a5 < |g| && ws[a5] <= mb.w;
    var a6 :| 0 <= a6 < |g| && mb.w <= ws[a6];
    var a7 :| 0 <= a7 < |g| && hs[a7] <= mb.h;
    var a8 :| 0 <= a8 < |g| && mb.h <= hs[a8];
  }

  lemma CollapseKeepsSized(cs: seq<Candidate>, g: seq<nat>)
    requires ValidGroup(cs, g)
    requires forall a :: 0 <= a < |g| ==> PositiveSize(cs[g[a]].bbox)
    ensures PositiveSize(Collapse(cs, g).bbox)
  {
    var mb := Collapse(cs, g).bbox;
    var ws := Field(cs, g, Width);
    var hs := Field(cs, g, Height);
    var a5 :| 0 <= a5 < |g| && ws[a5] <= mb.w;
    var a7 :| 0 <= a7 < |g| && hs[a7] <= mb.h;
    assert PositiveSize(cs[g[a5]].bbox) && PositiveSize(cs[g[a7]].bbox);
  }

  function CollapseAll(cs: seq<Candidate>, gs: seq<seq<nat>>): (r: seq<Merged>)
    requires forall n :: 0 <= n < |gs| ==> ValidGroup(cs, gs[n])
    ensures |r| == |gs|
    decreases |gs|
  {
    if |gs| == 0 then [] else [Collapse(cs, gs[0])] + CollapseAll(cs, gs[1..])
  }

  lemma {:induction false} CollapseAllAt(cs: seq<Candidate>, gs: seq<seq<nat>>, n: nat)
    requires forall n :: 0 <= n < |gs| ==> ValidGroup(cs, gs[n])
    requires n < |gs|
    ensures CollapseAll(cs, gs)[n] == Collapse(cs, gs[n])
    decreases |gs|
  {
    if n > 0 {
      CollapseAllAt(cs, gs[1..], n - 1);
    }
  }

  function CountOf(m: Merged): int {
    m.count
  }

  lemma {:induction false} CollapseAllCounts(cs: seq<Candidate>, gs: seq<seq<nat>>)
    requires forall n :: 0 <= n < |gs| ==> ValidGroup(cs, gs[n])
    ensures SumOf(CollapseAll(cs, gs), CountOf) == |Flatten(gs)|
    ensures |gs| <= |Flatten(gs)|
    decreases |gs|
  {
    if |gs| > 0 {
      CollapseAllCounts(cs, gs[1..]);
      assert CollapseAll(cs, gs)[1..] == CollapseAll(cs, gs[1..]);
    }
  }

  /** The ranking order: most confident first. */
  predicate ByConfidence(a: Merged, b: Merged) {
    a.confidence >= b.confidence
  }

  lemma ByConfidenceTotal()
    ensures TotalPreorder(ByConfidence)
  {
  }

  /** `_merge_overlapping_detections`. */
  function MergeOverlapping(cs: seq<Candidate>): (r: seq<Merged>)
    requires PositiveAreas(cs)
    ensures |cs| == 0 ==> r == []
    ensures |r| <= |cs|
    ensures SumOf(r, CountOf) == |cs|
    ensures SortedBy(r, ByConfidence)
    ensures multiset(r) == multiset(CollapseAll(cs, Groups(cs, {}, 0, Joins)))
  {
    var gs := Groups(cs, {}, 0, Joins);
    GroupsPartition(cs, {}, 0, Joins);
    GroupsSeedOnly(cs, {}, 0, Joins);
    NoDupRangeLength(Flatten(gs), |cs|);
    var merged := CollapseAll(cs, gs);
    CollapseAllCounts(cs, gs);
    SortSum(merged, ByConfidence, CountOf);
    ByConfidenceTotal();
    SortSorted(merged, ByConfidence);
    Sort(merged, ByConfidence)
  }

  function ConfidenceIs(c: real): Merged -> bool {
    (m: Merged) => m.confidence == c
  }

  /** The ranking is stable: detections of equal confidence keep the order
      of their seed groups, which decides their `Button_N` numbers. */
  lemma MergeStable(cs: seq<Candidate>, c: real)
    requires PositiveAreas(cs)
    ensures Filter(MergeOverlapping(cs), ConfidenceIs(c)) == Filter(CollapseAll(cs, Groups(cs, {}, 0, Joins)), ConfidenceIs(c))
  {
    GroupsPartition(cs, {}, 0, Joins);
    SortStable(CollapseAll(cs, Groups(cs, {}, 0, Joins)), ByConfidence, ConfidenceIs(c));
  }

  /** Each merged detection is the collapse of one seed group, so it is at
      least as confident as every member of that group and as confident as
      one of them: fusion never loses certainty. */
  lemma MergedFromGroup(cs: seq<Candidate>, m: Merged)
    requires PositiveAreas(cs)
    ensures m in MergeOverlapping(cs) ==>
              exists n :: 0 <= n < |Groups(cs, {}, 0, Joins)| && SeedGroup(cs, Groups(cs, {}, 0, Joins)[n], Joins)
                          && m == Collapse(cs, Groups(cs, {}, 0, Joins)[n])
  {
    if m !in MergeOverlapping(cs) { return; }
    var gs := Groups(cs, {}, 0, Joins);
    var all := CollapseAll(cs, gs);
    SortElements(all, ByConfidence);
    assert m in all;
    var n :| 0 <= n < |all| && all[n] == m;
    CollapseAllAt(cs, gs, n);
    GroupsSeedOnly(cs, {}, 0, Joins);
    assert SeedGroup(cs, gs[n], Joins) && m == Collapse(cs, gs[n]);
  }

  // ---------------------------------------------------------------------
  // Captures, offsets and the final list

  /** One screen capture: whether it produced pixels, the pooled candidates
      of the six generators on it (a failing generator contributes none), and
      the window offset of a window-relative capture. */
  datatype Capture = Capture(hasPixels: bool, candidates: seq<Candidate>, offset: Option<(int, int)>)

  /** The offset moves a detection's origin and nothing else. */
  function ShiftMerged(m: Merged, dx: int, dy: int): (r: Merged)
    ensures r.bbox.x == m.bbox.x + dx && r.bbox.y == m.bbox.y + dy
    ensures r.bbox.w == m.bbox.w && r.bbox.h == m.bbox.h
    ensures r.confidence == m.confidence && r.methods == m.methods && r.count == m.count
    ensures Center(r.bbox) == (Center(m.bbox).0 + dx, Center(m.bbox).1 + dy)
  {
    m.(bbox := m.bbox.(x := m.bbox.x + dx, y := m.bbox.y + dy))
  }

  /** A merged record re-enters fusion as a candidate. */
  function AsCandidate(m: Merged): Candidate {
    Candidate(m.bbox, m.confidence, m.methods)
  }

  predicate CandidatesSized(cs: seq<Candidate>) {
    forall k :: 0 <= k < |cs| ==> PositiveSize(cs[k].bbox)
  }

  predicate CapturesSized(caps: seq<Capture>) {
    forall c :: 0 <= c < |caps| ==> CandidatesSized(caps[c].candidates)
  }

  lemma SizedHasArea(cs: seq<Candidate>)
    requires CandidatesSized(cs)
    ensures PositiveAreas(cs)
  {
    forall k | 0 <= k < |cs|
      ensures Area(cs[k].bbox) > 0
    {
      var b := cs[k].bbox;
      assert b.w > 0 && b.h > 0;
      MulMono(b.w, 1, b.h);
    }
  }

  lemma {:induction false} CollapseAllSized(cs: seq<Candidate>, gs: seq<seq<nat>>)
    requires CandidatesSized(cs)
    requires forall n :: 0 <= n < |gs| ==> ValidGroup(cs, gs[n])
    ensures forall n :: 0 <= n < |gs| ==> PositiveSize(CollapseAll(cs, gs)[n].bbox)
  {
    forall n | 0 <= n < |gs|
      ensures PositiveSize(CollapseAll(cs, gs)[n].bbox)
    {
      CollapseAllAt(cs, gs, n);
      CollapseKeepsSized(cs, gs[n]);
    }
  }

  /** Fusing boxes with positive sides yields boxes with positive sides. */
  lemma MergeKeepsSized(cs: seq<Candidate>)
    requires CandidatesSized(cs)
    ensures PositiveAreas(cs)
    ensures forall m :: m in MergeOverlapping(cs) ==> PositiveSize(m.bbox)
  {
    SizedHasArea(cs);
    var gs := Groups(cs, {}, 0, Joins);
    var all := CollapseAll(cs, gs);
    var r := MergeOverlapping(cs);
    assert r == Sort(all, ByConfidence);
    CollapseAllSized(cs, gs);
    SortElements(all, ByConfidence);
    forall m | m in r
      ensures PositiveSize(m.bbox)
    {
      assert m in all;
      var n :| 0 <= n < |all| && all[n] == m;
    }
  }

  function ShiftAll(ms: seq<Merged>, dx: int, dy: int): (r: seq<Merged>)
    ensures |r| == |ms|
    ensures forall k :: 0 <= k < |ms| ==> r[k] == ShiftMerged(ms[k], dx, dy)
  {
    seq(|ms|, k requires 0 <= k < |ms| => ShiftMerged(ms[k], dx, dy))
  }

  /** `detect_buttons_ai` on one capture, with the capture's offset applied. */
  function DetectInCapture(c: Capture): (r: seq<Merged>)
    requires CandidatesSized(c.candidates)
    ensures forall k :: 0 <= k < |r| ==> PositiveSize(r[k].bbox)
  {
    MergeKeepsSized(c.candidates);
    var merged := MergeOverlapping(c.candidates);
    match c.offset
    case None => merged
    case Some((dx, dy)) => ShiftAll(merged, dx, dy)
  }

  function AsCandidates(ms: seq<Merged>): (r: seq<Candidate>)
    ensures |r| == |ms|
    ensures forall k :: 0 <= k < |ms| ==> r[k] == AsCandidate(ms[k])
  {
    seq(|ms|, k requires 0 <= k < |ms| => AsCandidate(ms[k]))
  }

  /** What one capture contributes to the pool: its detections as
      candidates, or nothing when the capture came back empty. */
  function Contribution(c: Capture): (r: seq<Candidate>)
    requires CandidatesSized(c.candidates)
    ensures CandidatesSized(r)
    ensures !c.hasPixels ==> r == []
  {
    if c.hasPixels then AsCandidates(DetectInCapture(c)) else []
  }

  lemma SizedAppend(a: seq<Candidate>, b: seq<Candidate>)
    requires CandidatesSized(a) && CandidatesSized(b)
    ensures CandidatesSized(a + b)
  {
    assert forall k :: |a| <= k < |a + b| ==> (a + b)[k] == b[k - |a|];
  }

  /** All detections of all captures with pixels, in capture order. */
  function Pool(caps: seq<Capture>): (r: seq<Candidate>)
    requires CapturesSized(caps)
    ensures CandidatesSized(r)
    ensures PositiveAreas(r)
    decreases |caps|
  {
    if |caps| == 0 then []
    else
      var here := Contribution(caps[0]);
      var rest := Pool(caps[1..]);
      SizedAppend(here, rest);
      SizedHasArea(here + rest);
      here + rest
  }

  function AtLeast(minConfidence: real): Merged -> bool {
    (m: Merged) => m.confidence >= minConfidence
  }

  /** The confidence cut keeps order, sizes, and exactly the confident
      detections. */
  lemma KeepConfident(fused: seq<Merged>, minConfidence: real)
    requires SortedBy(fused, ByConfidence)
    requires forall m :: m in fused ==> PositiveSize(m.bbox)
    ensures var r := Filter(fused, AtLeast(minConfidence));
      && (forall k :: 0 <= k < |r| ==> r[k].confidence >= minConfidence && PositiveSize(r[k].bbox))
      && SortedBy(r, ByConfidence)
      && (forall m :: m in fused && m.confidence >= minConfidence ==> m in r)
  {
    var keep := AtLeast(minConfidence);
    assert forall m :: keep(m) <==> m.confidence >= minConfidence;
    var r := Filter(fused, keep);
    SubseqSorted(r, fused, ByConfidence);
  }

  /** `find_best_buttons`: fuse every capture, pool, fuse again, and keep the
      detections at or above `min_confidence` (0.3 by default). */
  function FindBestButtons(caps: seq<Capture>, minConfidence: real): (r: seq<Merged>)
    requires CapturesSized(caps)
    ensures forall k :: 0 <= k < |r| ==> r[k].confidence >= minConfidence
    ensures forall k :: 0 <= k < |r| ==> PositiveSize(r[k].bbox)
    ensures SortedBy(r, ByConfidence)
    ensures IsSubseq(r, MergeOverlapping(Pool(caps)))
    ensures forall m :: m in MergeOverlapping(Pool(caps)) && m.confidence >= minConfidence ==> m in r
    ensures Selects(r, MergeOverlapping(Pool(caps)), AtLeast(minConfidence), Id)
  {
    var pooled := Pool(caps);
    MergeKeepsSized(pooled);
    var fused := MergeOverlapping(pooled);
    KeepConfident(fused, minConfidence);
    FilterSelects(fused, AtLeast(minConfidence));
    Filter(fused, AtLeast(minConfidence))
  }

  /** The flat record `detect_buttons` hands to the clicker. */
  datatype FlatButton = FlatButton(
    x: int, y: int, width: int, height: int,
    confidence: real, methods: set<string>, text: string,
    centerX: int, centerY: int)

  /** `Button_{i+1}`: merged detections carry no text, so every record gets
      this default label. */
  function DefaultLabel(i: nat): (r: string)
    ensures |r| > 7 && r[..7] == "Button_"
    ensures forall k :: 7 <= k < |r| ==> IsDigit(r[k])
    ensures DigitsValue(r[7..]) == i + 1
  {
    DigitsValueOfNatToString(i + 1);
    var r := "Button_" + NatToString(i + 1);
    assert r[7..] == NatToString(i + 1);
    r
  }

  /** One record: the box, its center, and the label of position `i`. */
  function ToFlat(m: Merged, i: nat): (f: FlatButton)
    ensures f.x == m.bbox.x && f.y == m.bbox.y && f.width == m.bbox.w && f.height == m.bbox.h
    ensures f.confidence == m.confidence && f.methods == m.methods
    ensures f.text == DefaultLabel(i)
    ensures f.centerX == f.x + f.width / 2 && f.centerY == f.y + f.height / 2
  {
    FlatButton(m.bbox.x, m.bbox.y, m.bbox.w, m.bbox.h, m.confidence, m.methods,
               DefaultLabel(i), Center(m.bbox).0, Center(m.bbox).1)
  }

  /** The records of a ranked list, in order. */
  function FlatAll(best: seq<Merged>): (r: seq<FlatButton>)
    ensures |r| == |best|
    ensures forall k :: 0 <= k < |r| ==> r[k] == ToFlat(best[k], k)
  {
    seq(|best|, k requires 0 <= k < |best| => ToFlat(best[k], k))
  }

  /** `detect_buttons`: the best detections at confidence 0.3, most
      confident first, as flat records labelled `Button_1`, `Button_2`, ...
      in rank order, with the merged box, confidence and methods, a positive
      size and the box's center. */
  function DetectButtons(caps: seq<Capture>): (r: seq<FlatButton>)
    requires CapturesSized(caps)
    ensures |r| == |FindBestButtons(caps, 0.3)|
    ensures forall k :: 0 <= k < |r| ==> r[k].confidence >= 0.3
    ensures forall i, j :: 0 <= i < j < |r| ==> r[i].confidence >= r[j].confidence
    ensures forall k :: 0 <= k < |r| ==>
              |r[k].text| > 7 && r[k].text[..7] == "Button_" && AllDigits(r[k].text[7..]) && DigitsValue(r[k].text[7..]) == k + 1
    ensures forall k :: 0 <= k < |r| ==> r[k].width > 0 && r[k].height > 0
    ensures forall k :: 0 <= k < |r| ==> var b := FindBestButtons(caps, 0.3)[k].bbox;
              r[k].x == b.x && r[k].y == b.y && r[k].width == b.w && r[k].height == b.h
    ensures forall k :: 0 <= k < |r| ==> var m := FindBestButtons(caps, 0.3)[k];
              r[k].confidence == m.confidence && r[k].methods == m.methods
    ensures forall k :: 0 <= k < |r| ==>
              r[k].centerX == r[k].x + r[k].width / 2 && r[k].centerY == r[k].y + r[k].height / 2
  {
    var best := FindBestButtons(caps, 0.3);
    FlatRecords(best, 0.3);
    FlatAll(best)
  }

  /** The records of a ranked, sized, confident list keep its ranking, its
      boxes and its confidences, and are numbered from one. */
  lemma FlatRecords(best: seq<Merged>, minConfidence: real)
    requires forall k :: 0 <= k < |best| ==> best[k].confidence >= minConfidence && PositiveSize(best[k].bbox)
    requires SortedBy(best, ByConfidence)
    ensures var r := FlatAll(best);
      && (forall k :: 0 <= k < |r| ==> r[k].confidence >= minConfidence)
      && (forall i, j :: 0 <= i < j < |r| ==> r[i].confidence >= r[j].confidence)
      && (forall k :: 0 <= k < |r| ==>
            |r[k].text| > 7 && r[k].text[..7] == "Button_" && AllDigits(r[k].text[7..]) && DigitsValue(r[k].text[7..]) == k + 1)
      && (forall k :: 0 <= k < |r| ==> r[k].width > 0 && r[k].height > 0)
      && (forall k :: 0 <= k < |r| ==>
            r[k].x == best[k].bbox.x && r[k].y == best[k].bbox.y && r[k].width == best[k].bbox.w && r[k].height == best[k].bbox.h)
      && (forall k :: 0 <= k < |r| ==> r[k].confidence == best[k].confidence && r[k].methods == best[k].methods)
      && (forall k :: 0 <= k < |r| ==>
            r[k].centerX == r[k].x + r[k].width / 2 && r[k].centerY == r[k].y + r[k].height / 2)
  {
    var r := FlatAll(best);
    forall i, j | 0 <= i < j < |r|
      ensures r[i].confidence >= r[j].confidence
    {
      assert ByConfidence(best[i], best[j]);
    }
  }
}
