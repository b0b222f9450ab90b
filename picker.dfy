/** The loop picker: from a probability map, one pixel per blob of high-probability
    pixels — the first pixel of maximal probability of each 4-connected component of
    above-threshold pixels that has at least two pixels. */
module Picker {
  import opened Grid
  import opened Labelling

  datatype PickError = AboveOne | BelowZero

  /** The three outcomes: a range error, the "NA" sentinel when no pixel is above the
      threshold, or the picked coordinates. */
  datatype Picked = Invalid(error: PickError) | NotAvailable | Peaks(ijs: seq<Pixel>)

  predicate InGrid(probas: Matrix, p: Pixel) {
    0 <= p.0 < |probas| && 0 <= p.1 < Cols(probas)
  }

  /** The probability at a pixel (0 off the map; components never leave it). */
  function Prob(probas: Matrix, p: Pixel): real
    requires IsRect(probas)
  {
    if InGrid(probas, p) then probas[p.0][p.1] else 0.0
  }

  predicate AnyAbove(probas: Matrix, x: real)
    requires IsRect(probas)
  {
    exists i, j :: 0 <= i < |probas| && 0 <= j < Cols(probas) && probas[i][j] > x
  }

  predicate AnyBelow(probas: Matrix, x: real)
    requires IsRect(probas)
  {
    exists i, j :: 0 <= i < |probas| && 0 <= j < Cols(probas) && probas[i][j] < x
  }

  /** The pixels strictly above the threshold. */
  function Candidates(probas: Matrix, thres: real): (M: set<Pixel>)
    requires IsRect(probas)
    ensures forall p :: p in M <==> InGrid(probas, p) && probas[p.0][p.1] > thres
  {
    set i, j | 0 <= i < |probas| && 0 <= j < Cols(probas) && probas[i][j] > thres :: (i, j)
  }

  /** The candidate map over the bounding box [0, I] x [0, J]. */
  function BoxMask(probas: Matrix, thres: real, I: nat, J: nat): (mask: seq<seq<bool>>)
    requires IsRect(probas) && I < |probas| && J < Cols(probas)
    ensures IsMatrix(mask, I + 1, J + 1)
    ensures forall i, j :: 0 <= i <= I && 0 <= j <= J ==> (mask[i][j] <==> probas[i][j] > thres)
  {
    seq(I + 1, i requires 0 <= i <= I => seq(J + 1, j requires 0 <= j <= J => probas[i][j] > thres))
  }

  /** A box holding every candidate loses none of them. */
  lemma BoxMaskHoldsCandidates(probas: Matrix, thres: real, I: nat, J: nat)
    requires IsRect(probas) && I < |probas| && J < Cols(probas)
    requires forall p :: p in Candidates(probas, thres) ==> p.0 <= I && p.1 <= J
    ensures MaskSet(BoxMask(probas, thres, I, J)) == Candidates(probas, thres)
  {
  }

  /** A component is dropped when it holds no candidate or is a single pixel. */
  predicate Dropped(C: set<Pixel>, M: set<Pixel>) {
    C * M == {} || |C| == 1
  }

  function DropFlags(comps: seq<set<Pixel>>, M: set<Pixel>): (drop: seq<bool>)
    ensures |drop| == |comps| && forall k :: 0 <= k < |comps| ==> (drop[k] <==> Dropped(comps[k], M))
  {
    seq(|comps|, k requires 0 <= k < |comps| => Dropped(comps[k], M))
  }

  /** The entries of xs whose flag is not set, in order (numpy's `xs[~drop]`). */
  function Select<T>(xs: seq<T>, drop: seq<bool>): seq<T>
    requires |xs| == |drop|
  {
    if xs == [] then []
    else Select(xs[..|xs| - 1], drop[..|drop| - 1]) + (if drop[|drop| - 1] then [] else [xs[|xs| - 1]])
  }

  /** p is the first pixel of C, in raster order, of maximal probability (numpy's
      `argmax` over the pixels of C listed row by row). */
  predicate IsFirstMax(probas: Matrix, C: set<Pixel>, p: Pixel)
    requires IsRect(probas)
  {
    p in C &&
    (forall q :: q in C ==> Prob(probas, q) <= Prob(probas, p)) &&
    (forall q :: q in C && Before(q, p) ==> Prob(probas, q) < Prob(probas, p))
  }

  /** ijs holds, in order, the first maximum of each component of cs. */
  predicate PeaksOf(probas: Matrix, cs: seq<set<Pixel>>, ijs: seq<Pixel>)
    requires IsRect(probas)
  {
    |ijs| == |cs| && forall t :: 0 <= t < |cs| ==> IsFirstMax(probas, cs[t], ijs[t])
  }

  /** A set has only one first maximum. */
  lemma FirstMaxUnique(probas: Matrix, C: set<Pixel>, p: Pixel, q: Pixel)
    requires IsRect(probas) && IsFirstMax(probas, C, p) && IsFirstMax(probas, C, q)
    ensures p == q
  {
  }

  /** Filtering the components and their maxima with the same flags keeps them paired. */
  lemma {:induction false} SelectPeaks(probas: Matrix, comps: seq<set<Pixel>>, all: seq<Pixel>, drop: seq<bool>)
    requires IsRect(probas) && |comps| == |all| == |drop|
    requires forall t :: 0 <= t < |comps| && !drop[t] ==> IsFirstMax(probas, comps[t], all[t])
    ensures PeaksOf(probas, Select(comps, drop), Select(all, drop))
  {
    if comps != [] {
      var n := |comps| - 1;
      SelectPeaks(probas, comps[..n], all[..n], drop[..n]);
    }
  }

  /** In a labelling of the candidates, a component is kept exactly when it has at least
      two pixels: it is never empty and never free of candidates. */
  lemma DroppedMeansSingle(M: set<Pixel>, comps: seq<set<Pixel>>, seeds: seq<Pixel>, k: int)
    requires IsLabelling(M, comps, seeds) && 0 <= k < |comps|
    ensures Dropped(comps[k], M) <==> |comps[k]| < 2
  {
    var C := comps[k];
    assert seeds[k] in C * M;
    assert C * M == C;
    if |C| < 2 {
      assert |C| == 1;
    }
  }

  /** The bounding box of the candidates: I and J are the largest row and the largest
      column holding a candidate. */
  method BoundingBox(probas: Matrix, thres: real) returns (I: nat, J: nat)
    requires IsRect(probas) && Candidates(probas, thres) != {}
    ensures I < |probas| && J < Cols(probas)
    ensures forall p :: p in Candidates(probas, thres) ==> p.0 <= I && p.1 <= J
    ensures exists j :: 0 <= j < Cols(probas) && probas[I][j] > thres
    ensures exists i :: 0 <= i < |probas| && probas[i][J] > thres
  {
    var rows, cols := |probas|, Cols(probas);
    var top, right := -1, -1;
    var i := 0;
    while i < rows
      invariant 0 <= i <= rows
      invariant -1 <= top < i && -1 <= right < cols
      invariant forall i', j' :: 0 <= i' < i && 0 <= j' < cols && probas[i'][j'] > thres ==> i' <= top && j' <= right
      invariant top >= 0 ==> exists j :: 0 <= j < cols && probas[top][j] > thres
      invariant right >= 0 ==> exists i' :: 0 <= i' < rows && probas[i'][right] > thres
    {
      var j := 0;
      while j < cols
        invariant 0 <= j <= cols
        invariant -1 <= top <= i && -1 <= right < cols
        invariant forall i', j' :: 0 <= i' < i && 0 <= j' < cols && probas[i'][j'] > thres ==> i' <= top && j' <= right
        invariant forall j' :: 0 <= j' < j && probas[i][j'] > thres ==> i <= top && j' <= right
        invariant top >= 0 ==> exists j :: 0 <= j < cols && probas[top][j] > thres
        invariant right >= 0 ==> exists i' :: 0 <= i' < rows && probas[i'][right] > thres
      {
        if probas[i][j] > thres {
          if i > top {
            top := i;
          }
          if j > right {
            right := j;
          }
        }
        j := j + 1;
      }
      i := i + 1;
    }
    ghost var p :| p in Candidates(probas, thres);
    I, J := top, right;
  }

  /** The first pixel of maximal probability of C, scanning the box row by row. */
  method FirstMax(probas: Matrix, C: set<Pixel>, I: nat, J: nat) returns (best: Pixel)
    requires IsRect(probas) && C != {}
    requires forall q :: q in C ==> 0 <= q.0 <= I && 0 <= q.1 <= J
    ensures IsFirstMax(probas, C, best)
  {
    var found := false;
    best := (0, 0);
    var i := 0;
    while i <= I
      invariant 0 <= i <= I + 1
      invariant ScannedMax(probas, C, found, best, (i, 0))
    {
      var j := 0;
      while j <= J
        invariant 0 <= j <= J + 1
        invariant ScannedMax(probas, C, found, best, (i, j))
      {
        if (i, j) in C && (!found || Prob(probas, (i, j)) > Prob(probas, best)) {
          found, best := true, (i, j);
        }
        j := j + 1;
      }
      NextRowMax(probas, C, found, best, i, J);
      i := i + 1;
    }
    var q :| q in C;
    assert Before(q, (I + 1, 0));
  }

  /** Scan state of FirstMax at `pos`: best is the first maximum of the pixels of C
      before `pos`, if there are any. */
  predicate ScannedMax(probas: Matrix, C: set<Pixel>, found: bool, best: Pixel, pos: Pixel)
    requires IsRect(probas)
  {
    (found ==> best in C && Before(best, pos)) &&
    (!found ==> forall q :: q in C ==> !Before(q, pos)) &&
    (found ==> forall q :: q in C && Before(q, pos) ==>
       Prob(probas, q) <= Prob(probas, best) && (Before(q, best) ==> Prob(probas, q) < Prob(probas, best)))
  }

  lemma NextRowMax(probas: Matrix, C: set<Pixel>, found: bool, best: Pixel, i: int, J: int)
    requires IsRect(probas) && ScannedMax(probas, C, found, best, (i, J + 1))
    requires forall q :: q in C ==> 0 <= q.1 <= J
    ensures ScannedMax(probas, C, found, best, (i + 1, 0))
  {
  }

  /** picker: range check (values above 1 are reported first), "NA" when nothing is
      above the threshold, otherwise the first maximum of every component of at least
      two candidates, in label order. */
  method Pick(probas: Matrix, thres: real := 0.8) returns (r: Picked)
    requires IsRect(probas)
    ensures r == Invalid(AboveOne) <==> AnyAbove(probas, 1.0)
    ensures r == Invalid(BelowZero) <==> !AnyAbove(probas, 1.0) && AnyBelow(probas, 0.0)
    ensures r == NotAvailable <==>
      !AnyAbove(probas, 1.0) && !AnyBelow(probas, 0.0) && Candidates(probas, thres) == {}
    ensures r.Peaks? ==> exists comps, seeds ::
      IsLabelling(Candidates(probas, thres), comps, seeds) &&
      PeaksOf(probas, Select(comps, DropFlags(comps, Candidates(probas, thres))), r.ijs)
  {
    var rows, cols := |probas|, Cols(probas);
    if exists i, j :: 0 <= i < rows && 0 <= j < cols && probas[i][j] > 1.0 {
      return Invalid(AboveOne);
    }
    if exists i, j :: 0 <= i < rows && 0 <= j < cols && probas[i][j] < 0.0 {
      return Invalid(BelowZero);
    }
    var M := Candidates(probas, thres);
    if M == {} {
      return NotAvailable;
    }
    var I, J := BoundingBox(probas, thres);
    var mask := BoxMask(probas, thres, I, J);
    BoxMaskHoldsCandidates(probas, thres, I, J);
    var comps, seeds := Label(mask);
    var ijs := CollectPeaks(probas, M, comps, seeds, I, J);
    r := Peaks(ijs);
  }

  /** The per-label loop: flags the components to remove and records the first maximum
      of the others, then keeps the coordinates of the unflagged ones. */
  method CollectPeaks(probas: Matrix, M: set<Pixel>, comps: seq<set<Pixel>>, ghost seeds: seq<Pixel>,
                      I: nat, J: nat) returns (ijs: seq<Pixel>)
    requires IsRect(probas) && IsLabelling(M, comps, seeds)
    requires forall q :: q in M ==> 0 <= q.0 <= I && 0 <= q.1 <= J
    ensures PeaksOf(probas, Select(comps, DropFlags(comps, M)), ijs)
  {
    var all: seq<Pixel> := [];
    var remove: seq<bool> := [];
    var ff := 0;
    while ff < |comps|
      invariant 0 <= ff <= |comps|
      invariant |all| == |remove| == ff
      invariant forall t :: 0 <= t < ff ==> (remove[t] <==> Dropped(comps[t], M))
      invariant forall t :: 0 <= t < ff && !remove[t] ==> IsFirstMax(probas, comps[t], all[t])
    {
      var C := comps[ff];
      if |C * M| == 0 || |C| == 1 {
        all, remove := all + [(0, 0)], remove + [true];
      } else {
        assert IsComponent(M, seeds[ff], C);
        var peak := FirstMax(probas, C, I, J);
        all, remove := all + [peak], remove + [false];
      }
      ff := ff + 1;
    }
    assert remove == DropFlags(comps, M);
    SelectPeaks(probas, comps, all, remove);
    ijs := Select(all, remove);
  }
}
