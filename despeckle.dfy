/** The speckle filter: per genomic distance, entries above a cutoff computed from that
    distance's distribution are set to zero, counted and listed. */
module Despeckle {
  import opened Grid
  import DistanceLaw

  /** A matrix coordinate (row, column), as listed for each speckle. */
  type Coord = (nat, nat)

  /** The statistics behind a cutoff: `median` and `std` of a distribution and the
      multiplier `th2`, giving the cutoff median + th2 · std. */
  datatype Stats = Stats(median: seq<real> -> real, std: seq<real> -> real, th2: real) {
    function Cutoff(group: seq<real>): real {
      median(group) + th2 * std(group)
    }
  }

  /** `dist`: for each distance nw, the entries A[j][j + nw] (the nw-th upper diagonal). */
  function Groups(m: Matrix): (g: seq<seq<real>>)
    requires IsSquare(m)
    ensures |g| == |m|
    ensures forall nw :: 0 <= nw < |m| ==> g[nw] == DistanceLaw.UpperDiagonal(m, nw)
  {
    seq(|m|, nw requires 0 <= nw < |m| => DistanceLaw.UpperDiagonal(m, nw))
  }

  /** The cutoff of cell (r, c): that of the upper-diagonal group at its distance,
      for cells below the diagonal as well as above. */
  function CellCutoff(m: Matrix, st: Stats, r: nat, c: nat): real
    requires IsSquare(m) && r < |m| && c < |m|
  {
    st.Cutoff(DistanceLaw.UpperDiagonal(m, Distance(r, c)))
  }

  predicate IsSpeckle(m: Matrix, st: Stats, r: nat, c: nat)
    requires IsSquare(m) && r < |m| && c < |m|
  {
    m[r][c] > CellCutoff(m, st, r, c)
  }

  /** Cell (r, c) after despeckling: 0 for a speckle, its value otherwise. */
  function DespeckledCell(m: Matrix, st: Stats, r: nat, c: nat): real
    requires IsSquare(m) && r < |m| && c < |m|
  {
    if IsSpeckle(m, st, r, c) then 0.0 else m[r][c]
  }

  /** The despeckled matrix: every speckle of `m` replaced by 0, all else kept. */
  function Despeckled(m: Matrix, st: Stats): (d: Matrix)
    requires IsSquare(m)
    ensures IsSquare(d) && |d| == |m|
    ensures forall r, c :: 0 <= r < |m| && 0 <= c < |m| ==> d[r][c] == DespeckledCell(m, st, r, c)
  {
    seq(|m|, r requires 0 <= r < |m| => seq(|m|, c requires 0 <= c < |m| => DespeckledCell(m, st, r, c)))
  }

  /** How often a coordinate is listed. A speckle off the diagonal is listed once. A
      diagonal cell is examined twice at distance 0 (as A[j, j + 0] and as A[j, j - 0]);
      the second look sees the value already set to 0, so it is listed again exactly
      when the cutoff is negative. */
  function Multiplicity(m: Matrix, st: Stats, p: Coord): nat
    requires IsSquare(m)
  {
    if p.0 < |m| && p.1 < |m| && IsSpeckle(m, st, p.0, p.1) then
      (if p.0 == p.1 && CellCutoff(m, st, p.0, p.1) < 0.0 then 2 else 1)
    else 0
  }

  /** Cell (r, c) is examined at step (Distance(r, c), r) of the second pass; it has been
      examined before step (nw, j) when that step comes earlier. */
  predicate ExaminedBefore(nw: nat, j: nat, r: nat, c: nat) {
    Distance(r, c) < nw || (Distance(r, c) == nw && r < j)
  }

  /** `cur` is `m0` with every entry examined before step (nw, j) despeckled. */
  ghost predicate ClippedUpTo(cur: Matrix, m0: Matrix, st: Stats, nw: nat, j: nat)
    requires IsSquare(m0)
  {
    IsMatrix(cur, |m0|, |m0|) &&
    forall r, c :: 0 <= r < |m0| && 0 <= c < |m0| ==>
      cur[r][c] == if ExaminedBefore(nw, j, r, c) then DespeckledCell(m0, st, r, c) else m0[r][c]
  }

  /** `outlier` lists exactly the speckles examined before step (nw, j), each as often as
      its multiplicity. */
  ghost predicate ListedUpTo(outlier: seq<Coord>, m0: Matrix, st: Stats, nw: nat, j: nat)
    requires IsSquare(m0)
  {
    forall p: Coord :: multiset(outlier)[p] ==
      if p.0 < |m0| && p.1 < |m0| && ExaminedBefore(nw, j, p.0, p.1) then Multiplicity(m0, st, p) else 0
  }

  lemma AppendAssoc<T>(a: seq<T>, b: seq<T>, c: seq<T>)
    ensures a + b + c == a + (b + c)
  {
  }

  /** `[x]` when `b` holds, else nothing. */
  function Listing(b: bool, x: Coord): (s: seq<Coord>)
    ensures forall p: Coord :: multiset(s)[p] == if b && p == x then 1 else 0
  {
    if b then [x] else []
  }

  /** The first test of step (nw, j) lists A[j, j + nw] if it is a speckle. */
  function FirstListing(m0: Matrix, st: Stats, nw: nat, j: nat): seq<Coord>
    requires IsSquare(m0) && j < |m0|
  {
    Listing(j + nw < |m0| && IsSpeckle(m0, st, j, j + nw), (j, j + nw))
  }

  /** The second test of step (nw, j) lists A[j, j - nw] if it is a speckle. At distance 0
      it sees the value left by the first test, so it lists a diagonal speckle again only
      when the cutoff is below 0. */
  function SecondListing(m0: Matrix, st: Stats, nw: nat, j: nat): seq<Coord>
    requires IsSquare(m0) && j < |m0|
  {
    if j < nw then []
    else if nw == 0 then Listing(IsSpeckle(m0, st, j, j) && CellCutoff(m0, st, j, j) < 0.0, (j, j))
    else Listing(IsSpeckle(m0, st, j, j - nw), (j, j - nw))
  }

  /** What step (nw, j) appends to the outlier list. */
  function StepList(m0: Matrix, st: Stats, nw: nat, j: nat): seq<Coord>
    requires IsSquare(m0) && nw < |m0| && j < |m0|
  {
    FirstListing(m0, st, nw, j) + SecondListing(m0, st, nw, j)
  }

  lemma StepListSplits(m0: Matrix, st: Stats, nw: nat, j: nat, p: Coord)
    requires IsSquare(m0) && nw < |m0| && j < |m0|
    ensures multiset(StepList(m0, st, nw, j))[p] ==
      multiset(FirstListing(m0, st, nw, j))[p] + multiset(SecondListing(m0, st, nw, j))[p]
  {
  }

  /** A diagonal cell is listed by both tests of step (0, j). */
  lemma StepListDiagonal(m0: Matrix, st: Stats, j: nat)
    requires IsSquare(m0) && j < |m0|
    ensures multiset(StepList(m0, st, 0, j))[(j, j)] == Multiplicity(m0, st, (j, j))
  {
    StepListSplits(m0, st, 0, j, (j, j));
  }

  /** Off the diagonal, the cell to the right is listed by the first test only. */
  lemma StepListRight(m0: Matrix, st: Stats, nw: nat, j: nat)
    requires IsSquare(m0) && 0 < nw && j + nw < |m0|
    ensures multiset(StepList(m0, st, nw, j))[(j, j + nw)] == Multiplicity(m0, st, (j, j + nw))
  {
    StepListSplits(m0, st, nw, j, (j, j + nw));
    assert multiset(SecondListing(m0, st, nw, j))[(j, j + nw)] == 0;
  }

  /** Off the diagonal, the cell to the left is listed by the second test only. */
  lemma StepListLeft(m0: Matrix, st: Stats, nw: nat, j: nat)
    requires IsSquare(m0) && 0 < nw <= j < |m0|
    ensures multiset(StepList(m0, st, nw, j))[(j, j - nw)] == Multiplicity(m0, st, (j, j - nw))
  {
    StepListSplits(m0, st, nw, j, (j, j - nw));
    assert multiset(FirstListing(m0, st, nw, j))[(j, j - nw)] == 0;
  }

  /** No other coordinate is listed by step (nw, j). */
  lemma StepListElsewhere(m0: Matrix, st: Stats, nw: nat, j: nat, p: Coord)
    requires IsSquare(m0) && nw < |m0| && j < |m0|
    requires !(p.0 == j && p.1 < |m0| && Distance(p.0, p.1) == nw)
    ensures multiset(StepList(m0, st, nw, j))[p] == 0
  {
    StepListSplits(m0, st, nw, j, p);
    assert multiset(FirstListing(m0, st, nw, j))[p] == 0;
  }

  /** Step (nw, j) lists each cell it examines as often as its multiplicity, and nothing else. */
  lemma StepListCounts(m0: Matrix, st: Stats, nw: nat, j: nat, p: Coord)
    requires IsSquare(m0) && nw < |m0| && j < |m0|
    ensures multiset(StepList(m0, st, nw, j))[p] ==
      if p.0 == j && p.1 < |m0| && Distance(p.0, p.1) == nw then Multiplicity(m0, st, p) else 0
  {
    if p.0 == j && p.1 < |m0| && Distance(p.0, p.1) == nw {
      if nw == 0 {
        StepListDiagonal(m0, st, j);
      } else if p.1 == j + nw {
        StepListRight(m0, st, nw, j);
      } else {
        StepListLeft(m0, st, nw, j);
      }
    } else {
      StepListElsewhere(m0, st, nw, j, p);
    }
  }

  lemma ListedStep(outlier: seq<Coord>, m0: Matrix, st: Stats, nw: nat, j: nat)
    requires IsSquare(m0) && nw < |m0| && j < |m0|
    requires ListedUpTo(outlier, m0, st, nw, j)
    ensures ListedUpTo(outlier + StepList(m0, st, nw, j), m0, st, nw, j + 1)
  {
    var n := |m0|;
    var step := StepList(m0, st, nw, j);
    forall p: Coord
      ensures multiset(outlier + step)[p] ==
        if p.0 < n && p.1 < n && ExaminedBefore(nw, j + 1, p.0, p.1) then Multiplicity(m0, st, p) else 0
    {
      assert multiset(outlier + step)[p] == multiset(outlier)[p] + multiset(step)[p];
      StepListCounts(m0, st, nw, j, p);
    }
  }

  /** Pass one of despeckles: the group of every distance, read from the unmodified matrix. */
  method CollectGroups(A: array2<real>) returns (dist: seq<seq<real>>)
    requires A.Length0 == A.Length1
    ensures dist == Groups(Snapshot(A))
  {
    var n := A.Length0;
    ghost var m0 := Snapshot(A);
    dist := [];
    var nw := 0;
    while nw < n
      invariant 0 <= nw <= n
      invariant |dist| == nw
      invariant forall k :: 0 <= k < nw ==> dist[k] == DistanceLaw.UpperDiagonal(m0, k)
    {
      var group := [];
      var j := 0;
      while j < n
        invariant 0 <= j <= n
        invariant group == DistanceLaw.UpperDiagonal(m0, nw)[..if j <= n - nw then j else n - nw]
      {
        var lp := j + nw;
        if lp < n {
          group := group + [A[j, lp]];
        }
        j := j + 1;
      }
      dist := dist + [group];
      nw := nw + 1;
    }
  }

  /** `m` with entry (r, c) set to 0 when it exceeds `cutoff`. */
  function Clip(m: Matrix, r: nat, c: nat, cutoff: real): (m': Matrix)
    requires IsSquare(m) && r < |m| && c < |m|
    ensures IsSquare(m') && |m'| == |m|
    ensures forall i, k :: 0 <= i < |m| && 0 <= k < |m| ==>
      m'[i][k] == if i == r && k == c && m[r][c] > cutoff then 0.0 else m[i][k]
  {
    if m[r][c] > cutoff then m[r := m[r][c := 0.0]] else m
  }

  /** The matrix after step (nw, j) of pass two has tested A[j, j + nw]. */
  function FirstClip(m: Matrix, cutoff: real, nw: nat, j: nat): Matrix
    requires IsSquare(m) && j < |m|
    ensures IsSquare(FirstClip(m, cutoff, nw, j)) && |FirstClip(m, cutoff, nw, j)| == |m|
  {
    if j + nw < |m| then Clip(m, j, j + nw, cutoff) else m
  }

  /** The matrix after step (nw, j) of pass two has also tested A[j, j - nw]. */
  function StepClip(m: Matrix, cutoff: real, nw: nat, j: nat): Matrix
    requires IsSquare(m) && j < |m|
  {
    var mid := FirstClip(m, cutoff, nw, j);
    if nw <= j then Clip(mid, j, j - nw, cutoff) else mid
  }

  /** What step (nw, j) appends, read off the matrix it works on. */
  function StepListOf(m: Matrix, cutoff: real, nw: nat, j: nat): seq<Coord>
    requires IsSquare(m) && j < |m|
  {
    Listing(j + nw < |m| && m[j][j + nw] > cutoff, (j, j + nw)) +
    if nw <= j then Listing(FirstClip(m, cutoff, nw, j)[j][j - nw] > cutoff, (j, j - nw)) else []
  }

  /** Step (nw, j), run on a matrix despeckled up to that step, despeckles exactly the
      cells at distance nw in row j. */
  lemma ClippedStep(cur: Matrix, m0: Matrix, st: Stats, cutoff: real, nw: nat, j: nat)
    requires IsSquare(m0) && nw < |m0| && j < |m0|
    requires cutoff == st.Cutoff(DistanceLaw.UpperDiagonal(m0, nw))
    requires ClippedUpTo(cur, m0, st, nw, j)
    ensures ClippedUpTo(StepClip(cur, cutoff, nw, j), m0, st, nw, j + 1)
  {
    var n := |m0|;
    var mid := FirstClip(cur, cutoff, nw, j);
    if j + nw < n {
      assert CellCutoff(m0, st, j, j + nw) == cutoff;
    }
    if nw <= j {
      assert CellCutoff(m0, st, j, j - nw) == cutoff;
    }
  }

  /** What step (nw, j) lists, read off a matrix despeckled up to that step, is what
      `StepList` says. */
  lemma ListedStepOf(cur: Matrix, m0: Matrix, st: Stats, cutoff: real, nw: nat, j: nat)
    requires IsSquare(m0) && nw < |m0| && j < |m0|
    requires cutoff == st.Cutoff(DistanceLaw.UpperDiagonal(m0, nw))
    requires ClippedUpTo(cur, m0, st, nw, j)
    ensures StepListOf(cur, cutoff, nw, j) == StepList(m0, st, nw, j)
  {
    var n := |m0|;
    var mid := FirstClip(cur, cutoff, nw, j);
    if j + nw < n {
      assert cur[j][j + nw] == m0[j][j + nw];
      assert CellCutoff(m0, st, j, j + nw) == cutoff;
    }
    if nw <= j {
      assert CellCutoff(m0, st, j, j - nw) == cutoff;
      assert mid[j][j - nw] == if nw == 0 then DespeckledCell(m0, st, j, j) else m0[j][j - nw];
    }
  }

  /** One test of pass two: an entry above the cutoff is set to 0, counted and listed.
      `m` is the array's contents before the test. */
  method ClipCell(A: array2<real>, ghost m: Matrix, r: nat, c: nat, cutoff: real,
                  nSpeckles: nat, outlier: seq<Coord>)
    returns (nSpeckles': nat, outlier': seq<Coord>)
    requires A.Length0 == A.Length1 && r < A.Length0 && c < A.Length1 && Snapshot(A) == m
    modifies A
    ensures Snapshot(A) == Clip(m, r, c, cutoff)
    ensures outlier' == outlier + Listing(m[r][c] > cutoff, (r, c))
    ensures nSpeckles' == nSpeckles + |outlier'| - |outlier|
  {
    nSpeckles', outlier' := nSpeckles, outlier;
    if A[r, c] > cutoff {
      A[r, c] := 0.0;
      nSpeckles' := nSpeckles' + 1;
      outlier' := outlier' + [(r, c)];
    }
    SnapshotIs(A, Clip(m, r, c, cutoff));
  }

  /** Step (nw, j) of pass two: the entries A[j, j + nw] and A[j, j - nw], where they exist,
      are compared with the cutoff of distance nw. `cur` is the array's contents before
      the step. */
  method ClipStep(A: array2<real>, ghost cur: Matrix, cutoff: real, nw: nat, j: nat,
                  nSpeckles: nat, outlier: seq<Coord>)
    returns (nSpeckles': nat, outlier': seq<Coord>)
    requires A.Length0 == A.Length1 && j < A.Length0 && Snapshot(A) == cur
    modifies A
    ensures Snapshot(A) == StepClip(cur, cutoff, nw, j)
    ensures outlier' == outlier + StepListOf(cur, cutoff, nw, j)
    ensures nSpeckles' == nSpeckles + |outlier'| - |outlier|
  {
    var n := A.Length0;
    ghost var mid := FirstClip(cur, cutoff, nw, j);
    ghost var first := Listing(j + nw < n && cur[j][j + nw] > cutoff, (j, j + nw));
    ghost var second: seq<Coord> := if nw <= j then Listing(mid[j][j - nw] > cutoff, (j, j - nw)) else [];
    nSpeckles', outlier' := nSpeckles, outlier;
    if j + nw < n {
      nSpeckles', outlier' := ClipCell(A, cur, j, j + nw, cutoff, nSpeckles', outlier');
    }
    assert Snapshot(A) == mid && outlier' == outlier + first;
    if nw <= j {
      nSpeckles', outlier' := ClipCell(A, mid, j, j - nw, cutoff, nSpeckles', outlier');
      assert StepClip(cur, cutoff, nw, j) == Clip(mid, j, j - nw, cutoff);
    } else {
      assert StepClip(cur, cutoff, nw, j) == mid;
    }
    assert StepListOf(cur, cutoff, nw, j) == first + second;
    AppendAssoc(outlier, first, second);
  }

  /** Pass two of despeckles: distance by distance and row by row, every entry is compared
      with the cutoff of its distance's group, taken from the snapshot `dist`. */
  method ClipAll(A: array2<real>, ghost m0: Matrix, st: Stats, dist: seq<seq<real>>)
    returns (nSpeckles: nat, outlier: seq<Coord>)
    requires IsSquare(m0) && A.Length0 == A.Length1 == |m0| && Snapshot(A) == m0
    requires dist == Groups(m0)
    modifies A
    ensures nSpeckles == |outlier|
    ensures ClippedUpTo(Snapshot(A), m0, st, |m0|, 0)
    ensures ListedUpTo(outlier, m0, st, |m0|, 0)
  {
    var n := A.Length0;
    nSpeckles, outlier := 0, [];
    var nw := 0;
    while nw < n
      invariant 0 <= nw <= n
      invariant nSpeckles == |outlier|
      invariant ClippedUpTo(Snapshot(A), m0, st, nw, 0)
      invariant ListedUpTo(outlier, m0, st, nw, 0)
    {
      var cutoff := st.Cutoff(dist[nw]);
      var j := 0;
      while j < n
        invariant 0 <= j <= n
        invariant nSpeckles == |outlier|
        invariant ClippedUpTo(Snapshot(A), m0, st, nw, j)
        invariant ListedUpTo(outlier, m0, st, nw, j)
      {
        ListedStep(outlier, m0, st, nw, j);
        ClippedStep(Snapshot(A), m0, st, cutoff, nw, j);
        ListedStepOf(Snapshot(A), m0, st, cutoff, nw, j);
        nSpeckles, outlier := ClipStep(A, Snapshot(A), cutoff, nw, j, nSpeckles, outlier);
        j := j + 1;
      }
      nw := nw + 1;
    }
  }

  /** Once every step has run, every cell has been examined: the matrix is despeckled. */
  lemma AllClipped(cur: Matrix, m0: Matrix, st: Stats)
    requires IsSquare(m0) && ClippedUpTo(cur, m0, st, |m0|, 0)
    ensures cur == Despeckled(m0, st)
  {
    var d := Despeckled(m0, st);
    forall r | 0 <= r < |m0|
      ensures cur[r] == d[r]
    {
      assert forall c :: 0 <= c < |m0| ==> ExaminedBefore(|m0|, 0, r, c);
    }
  }

  /** Once every step has run, every speckle is listed with its multiplicity, and every
      listed coordinate is in range and despeckled to 0. */
  lemma AllListed(outlier: seq<Coord>, m0: Matrix, st: Stats)
    requires IsSquare(m0) && ListedUpTo(outlier, m0, st, |m0|, 0)
    ensures forall p: Coord :: multiset(outlier)[p] == Multiplicity(m0, st, p)
    ensures forall k :: 0 <= k < |outlier| ==>
      outlier[k].0 < |m0| && outlier[k].1 < |m0| && DespeckledCell(m0, st, outlier[k].0, outlier[k].1) == 0.0
  {
    forall p: Coord
      ensures multiset(outlier)[p] == Multiplicity(m0, st, p)
    {
      if p.0 < |m0| && p.1 < |m0| {
        assert ExaminedBefore(|m0|, 0, p.0, p.1);
      }
    }
    forall k | 0 <= k < |outlier|
      ensures outlier[k].0 < |m0| && outlier[k].1 < |m0| && DespeckledCell(m0, st, outlier[k].0, outlier[k].1) == 0.0
    {
      assert multiset(outlier)[outlier[k]] > 0;
    }
  }

  /** despeckles: pass one snapshots every distance's group; pass two, distance by
      distance and row by row, zeroes, counts and lists every entry above its cutoff. */
  method Despeckles(A: array2<real>, st: Stats)
    returns (dist: seq<seq<real>>, nSpeckles: nat, outlier: seq<Coord>)
    requires A.Length0 == A.Length1
    modifies A
    ensures dist == Groups(old(Snapshot(A)))
    ensures Snapshot(A) == Despeckled(old(Snapshot(A)), st)
    ensures nSpeckles == |outlier|
    ensures forall p: Coord :: multiset(outlier)[p] == Multiplicity(old(Snapshot(A)), st, p)
    ensures forall k :: 0 <= k < |outlier| ==>
      outlier[k].0 < A.Length0 && outlier[k].1 < A.Length1 && A[outlier[k].0, outlier[k].1] == 0.0
  {
    ghost var m0 := Snapshot(A);
    dist := CollectGroups(A);
    nSpeckles, outlier := ClipAll(A, m0, st, dist);
    AllClipped(Snapshot(A), m0, st);
    AllListed(outlier, m0, st);
  }

  /** Lower cells are judged by the group of the upper diagonal at the same distance, so
      despeckling a symmetric map leaves it symmetric. */
  lemma DespeckledSymmetric(m: Matrix, st: Stats)
    requires IsSquare(m) && DistanceLaw.Symmetric(m)
    ensures DistanceLaw.Symmetric(Despeckled(m, st))
  {
    var d := Despeckled(m, st);
    forall r, c | 0 <= r < |m| && 0 <= c < |m|
      ensures d[r][c] == d[c][r]
    {
      assert Distance(r, c) == Distance(c, r);
      assert CellCutoff(m, st, r, c) == CellCutoff(m, st, c, r);
    }
  }

  /** Where a cutoff is not negative, no entry of the despeckled map exceeds it. */
  lemma DespeckledBelowCutoff(m: Matrix, st: Stats, r: nat, c: nat)
    requires IsSquare(m) && r < |m| && c < |m| && 0.0 <= CellCutoff(m, st, r, c)
    ensures Despeckled(m, st)[r][c] <= CellCutoff(m, st, r, c)
    ensures Despeckled(m, st)[r][c] == 0.0 || Despeckled(m, st)[r][c] == m[r][c]
  {
  }

  /** Despeckling only ever replaces an entry by 0, so a non-negative map stays
      non-negative. */
  lemma DespeckledNonNegative(m: Matrix, st: Stats)
    requires IsSquare(m) && NonNegative(m)
    ensures NonNegative(Despeckled(m, st))
  {
  }
}
