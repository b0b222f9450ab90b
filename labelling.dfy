/** Four-connected labelling of a boolean mask, the grouping step of the peak picker
    (scipy's `measurements.label` with its default cross-shaped structure). Components
    are numbered in raster order of their first pixel, as scipy numbers them. */
module Labelling {
  import opened Grid

  /** (row, column) of a pixel. */
  type Pixel = (int, int)

  /** Raster (row-major) order: p is visited before q. */
  predicate Before(p: Pixel, q: Pixel) {
    p.0 < q.0 || (p.0 == q.0 && p.1 < q.1)
  }

  /** p and q share an edge (the cross-shaped structuring element). */
  predicate Adjacent(p: Pixel, q: Pixel) {
    (p.0 == q.0 && (p.1 == q.1 + 1 || q.1 == p.1 + 1)) ||
    (p.1 == q.1 && (p.0 == q.0 + 1 || q.0 == p.0 + 1))
  }

  /** The pixels set in a mask. */
  function MaskSet(mask: seq<seq<bool>>): (M: set<Pixel>)
    ensures forall p :: p in M <==> 0 <= p.0 < |mask| && 0 <= p.1 < |mask[p.0]| && mask[p.0][p.1]
  {
    set i, j | 0 <= i < |mask| && 0 <= j < |mask[i]| && mask[i][j] :: (i, j)
  }

  /** D is closed under stepping to an adjacent pixel of M. */
  ghost predicate Closed(M: set<Pixel>, D: set<Pixel>) {
    forall p, q :: p in D && q in M && Adjacent(p, q) ==> q in D
  }

  /** C is the connected component of s in M: the least closed subset of M holding s. */
  ghost predicate IsComponent(M: set<Pixel>, s: Pixel, C: set<Pixel>) {
    s in C && C <= M && Closed(M, C) &&
    forall D {:trigger Closed(M, D)} :: s in D && Closed(M, D) ==> C <= D
  }

  /** C together with every pixel of M adjacent to it. */
  function Expand(M: set<Pixel>, C: set<Pixel>): (E: set<Pixel>)
    ensures C <= E
    ensures forall q :: q in E <==> q in C || (q in M && exists p :: p in C && Adjacent(p, q))
  {
    C + set p, q | p in C && q in M && Adjacent(p, q) :: q
  }

  lemma SubsetCardinality(A: set<Pixel>, B: set<Pixel>)
    requires A < B
    ensures |A| < |B|
  {
    assert B == A + (B - A);
  }

  lemma {:induction false} SubsetNotLarger(A: set<Pixel>, B: set<Pixel>)
    requires A <= B
    ensures |A| <= |B|
    decreases |A|
  {
    if A != {} {
      var x :| x in A;
      SubsetNotLarger(A - {x}, B - {x});
    }
  }

  /** Grows the component of s by repeated expansion until nothing changes. */
  method ComponentOf(M: set<Pixel>, s: Pixel) returns (C: set<Pixel>)
    requires s in M
    ensures IsComponent(M, s, C)
  {
    C := {s};
    SubsetNotLarger(C, M);
    while Expand(M, C) != C
      invariant s in C && C <= M
      invariant forall D :: s in D && Closed(M, D) ==> C <= D
      decreases |M| - |C|
    {
      var E := Expand(M, C);
      SubsetCardinality(C, E);
      SubsetNotLarger(E, M);
      forall D | s in D && Closed(M, D)
        ensures E <= D
      {
      }
      C := E;
    }
  }

  /** Any pixel of a component generates the same component (adjacency is symmetric,
      so the part of C outside a closed set holding t would be closed as well). */
  lemma ComponentOfMember(M: set<Pixel>, s: Pixel, C: set<Pixel>, t: Pixel)
    requires IsComponent(M, s, C) && t in C
    ensures IsComponent(M, t, C)
  {
    forall D | t in D && Closed(M, D)
      ensures C <= D
    {
      if s !in D {
        var rest := C - D;
        assert Closed(M, rest) by {
          forall p, q | p in rest && q in M && Adjacent(p, q)
            ensures q in rest
          {
            assert Adjacent(q, p);
          }
        }
      }
    }
  }

  /** Two components that meet are the same component. */
  lemma ComponentsMeet(M: set<Pixel>, s1: Pixel, C1: set<Pixel>, s2: Pixel, C2: set<Pixel>, q: Pixel)
    requires IsComponent(M, s1, C1) && IsComponent(M, s2, C2)
    requires q in C1 && q in C2
    ensures C1 == C2
  {
    ComponentOfMember(M, s1, C1, q);
    ComponentOfMember(M, s2, C2, q);
  }

  /** All pixels of a list of components. */
  function Union(comps: seq<set<Pixel>>): (U: set<Pixel>)
  {
    if comps == [] then {} else Union(comps[..|comps| - 1]) + comps[|comps| - 1]
  }

  lemma {:induction false} UnionMember(comps: seq<set<Pixel>>, p: Pixel)
    ensures p in Union(comps) <==> exists k :: 0 <= k < |comps| && p in comps[k]
  {
    if comps != [] {
      var n := |comps| - 1;
      UnionMember(comps[..n], p);
      if p in Union(comps[..n]) {
        var k :| 0 <= k < n && p in comps[..n][k];
        assert p in comps[k];
      }
      if exists k :: 0 <= k < |comps| && p in comps[k] {
        var k :| 0 <= k < |comps| && p in comps[k];
        if k < n {
          assert p in comps[..n][k];
        }
      }
    }
  }

  /** A labelling of M: component k is generated by seeds[k], which is its raster-first
      pixel; seeds strictly increase in raster order; every pixel of M is labelled. */
  ghost predicate IsLabelling(M: set<Pixel>, comps: seq<set<Pixel>>, seeds: seq<Pixel>) {
    |comps| == |seeds| &&
    (forall k :: 0 <= k < |comps| ==> IsComponent(M, seeds[k], comps[k])) &&
    (forall k, q :: 0 <= k < |comps| && q in comps[k] ==> !Before(q, seeds[k])) &&
    (forall k, l :: 0 <= k < l < |seeds| ==> Before(seeds[k], seeds[l])) &&
    Union(comps) == M
  }

  /** The state of the raster scan on reaching `pos`: the components found so far form
      the labelling of everything before `pos`, and `covered` is their union. */
  ghost predicate Scanned(M: set<Pixel>, comps: seq<set<Pixel>>, seeds: seq<Pixel>,
                          covered: set<Pixel>, pos: Pixel) {
    |comps| == |seeds| &&
    (forall k :: 0 <= k < |comps| ==> IsComponent(M, seeds[k], comps[k])) &&
    (forall k, q :: 0 <= k < |comps| && q in comps[k] ==> !Before(q, seeds[k])) &&
    (forall k, l :: 0 <= k < l < |seeds| ==> Before(seeds[k], seeds[l])) &&
    (forall k :: 0 <= k < |seeds| ==> Before(seeds[k], pos)) &&
    covered == Union(comps) && covered <= M &&
    (forall p :: p in M && Before(p, pos) ==> p in covered)
  }

  /** A pixel reached uncovered starts a new component, and it is that component's
      raster-first pixel: an earlier pixel of it would already have been labelled. */
  lemma NewComponent(M: set<Pixel>, comps: seq<set<Pixel>>, seeds: seq<Pixel>,
                     covered: set<Pixel>, pos: Pixel, C: set<Pixel>)
    requires Scanned(M, comps, seeds, covered, pos)
    requires pos !in covered && IsComponent(M, pos, C)
    ensures Scanned(M, comps + [C], seeds + [pos], covered + C, (pos.0, pos.1 + 1))
  {
    var comps', seeds' := comps + [C], seeds + [pos];
    forall q | q in C
      ensures !Before(q, pos)
    {
      if Before(q, pos) {
        UnionMember(comps, q);
        var k :| 0 <= k < |comps| && q in comps[k];
        ComponentsMeet(M, pos, C, seeds[k], comps[k], q);
        UnionMember(comps, pos);
      }
    }
    assert (comps + [C])[..|comps|] == comps;
    forall p | p in M && Before(p, (pos.0, pos.1 + 1))
      ensures p in covered + C
    {
      if p == pos {
        assert p in C;
      }
    }
  }

  /** Passing a pixel that is unset or already labelled changes nothing. */
  lemma SkipPixel(M: set<Pixel>, comps: seq<set<Pixel>>, seeds: seq<Pixel>,
                  covered: set<Pixel>, pos: Pixel)
    requires Scanned(M, comps, seeds, covered, pos)
    requires pos !in M || pos in covered
    ensures Scanned(M, comps, seeds, covered, (pos.0, pos.1 + 1))
  {
  }

  /** The end of a row is the start of the next one, as M has no pixel past column `cols`. */
  lemma NextRow(M: set<Pixel>, comps: seq<set<Pixel>>, seeds: seq<Pixel>,
                covered: set<Pixel>, i: int, cols: int)
    requires Scanned(M, comps, seeds, covered, (i, cols))
    requires forall p :: p in M ==> 0 <= p.1 < cols
    ensures Scanned(M, comps, seeds, covered, (i + 1, 0))
  {
  }

  /** Once the scan is past the last row, every mask pixel is covered: the scan state is
      a labelling. */
  lemma ScanDone(M: set<Pixel>, comps: seq<set<Pixel>>, seeds: seq<Pixel>,
                 covered: set<Pixel>, rows: int)
    requires Scanned(M, comps, seeds, covered, (rows, 0))
    requires forall p :: p in M ==> p.0 < rows
    ensures IsLabelling(M, comps, seeds)
  {
    assert covered == M by {
      forall p | p in M
        ensures p in covered
      {
        assert Before(p, (rows, 0));
      }
    }
  }

  /** One row of the raster scan: each set pixel of row i not yet labelled seeds a new
      component. */
  method ScanRow(mask: seq<seq<bool>>, M: set<Pixel>, i: nat, comps: seq<set<Pixel>>, seeds: seq<Pixel>,
                 covered: set<Pixel>)
    returns (comps': seq<set<Pixel>>, seeds': seq<Pixel>, covered': set<Pixel>)
    requires IsRect(mask) && M == MaskSet(mask) && i < |mask|
    requires Scanned(M, comps, seeds, covered, (i, 0))
    ensures Scanned(M, comps', seeds', covered', (i, Cols(mask)))
  {
    comps', seeds', covered' := comps, seeds, covered;
    var j := 0;
    while j < Cols(mask)
      invariant 0 <= j <= Cols(mask)
      invariant Scanned(M, comps', seeds', covered', (i, j))
    {
      if mask[i][j] && (i, j) !in covered' {
        var C := ComponentOf(M, (i, j));
        NewComponent(M, comps', seeds', covered', (i, j), C);
        comps', seeds', covered' := comps' + [C], seeds' + [(i, j)], covered' + C;
      } else {
        SkipPixel(M, comps', seeds', covered', (i, j));
      }
      j := j + 1;
    }
  }

  /** Raster-scan labelling: each set pixel not yet labelled seeds a new component. */
  method Label(mask: seq<seq<bool>>) returns (comps: seq<set<Pixel>>, seeds: seq<Pixel>)
    requires IsRect(mask)
    ensures IsLabelling(MaskSet(mask), comps, seeds)
  {
    var M := MaskSet(mask);
    comps, seeds := [], [];
    var covered: set<Pixel> := {};
    var i := 0;
    while i < |mask|
      invariant 0 <= i <= |mask|
      invariant Scanned(M, comps, seeds, covered, (i, 0))
    {
      comps, seeds, covered := ScanRow(mask, M, i, comps, seeds, covered);
      NextRow(M, comps, seeds, covered, i, Cols(mask));
      i := i + 1;
    }
    ScanDone(M, comps, seeds, covered, |mask|);
  }

  /** A component is determined by any one of its generators. */
  lemma ComponentUnique(M: set<Pixel>, s: Pixel, C1: set<Pixel>, C2: set<Pixel>)
    requires IsComponent(M, s, C1) && IsComponent(M, s, C2)
    ensures C1 == C2
  {
  }

  /** Every seed of one labelling is, with its component, a seed of any other. */
  lemma SeedOfOther(M: set<Pixel>, c1: seq<set<Pixel>>, s1: seq<Pixel>,
                    c2: seq<set<Pixel>>, s2: seq<Pixel>, k: int)
    requires IsLabelling(M, c1, s1) && IsLabelling(M, c2, s2) && 0 <= k < |s1|
    ensures exists l :: 0 <= l < |s2| && s2[l] == s1[k]
  {
    var s := s1[k];
    UnionMember(c1, s);
    UnionMember(c2, s);
    var l :| 0 <= l < |c2| && s in c2[l];
    ComponentsMeet(M, s, c1[k], s2[l], c2[l], s);
    assert !Before(s2[l], s) && !Before(s, s2[l]);
  }

  /** Two raster-increasing sequences with the same elements are equal. */
  lemma {:induction false} IncreasingUnique(a: seq<Pixel>, b: seq<Pixel>)
    requires forall k, l :: 0 <= k < l < |a| ==> Before(a[k], a[l])
    requires forall k, l :: 0 <= k < l < |b| ==> Before(b[k], b[l])
    requires forall x :: x in a <==> x in b
    ensures a == b
  {
    if a != [] {
      assert a[0] in b;
    }
    if b != [] {
      assert b[0] in a;
    }
    if a != [] && b != [] {
      assert a[0] == b[0];
      assert a == [a[0]] + a[1..] && b == [b[0]] + b[1..];
      forall x
        ensures x in a[1..] <==> x in b[1..]
      {
        if x in a[1..] {
          var i :| 0 <= i < |a| - 1 && a[1..][i] == x;
          assert Before(a[0], a[i + 1]);
          assert x in b && x != b[0];
        }
        if x in b[1..] {
          var i :| 0 <= i < |b| - 1 && b[1..][i] == x;
          assert Before(b[0], b[i + 1]);
          assert x in a && x != a[0];
        }
      }
      IncreasingUnique(a[1..], b[1..]);
    }
  }

  /** There is only one labelling of a set of pixels: the grouping and the numbering
      are both determined by the mask. */
  lemma LabellingUnique(M: set<Pixel>, c1: seq<set<Pixel>>, s1: seq<Pixel>,
                        c2: seq<set<Pixel>>, s2: seq<Pixel>)
    requires IsLabelling(M, c1, s1) && IsLabelling(M, c2, s2)
    ensures s1 == s2 && c1 == c2
  {
    forall x
      ensures x in s1 <==> x in s2
    {
      if x in s1 {
        var k :| 0 <= k < |s1| && s1[k] == x;
        SeedOfOther(M, c1, s1, c2, s2, k);
      }
      if x in s2 {
        var k :| 0 <= k < |s2| && s2[k] == x;
        SeedOfOther(M, c2, s2, c1, s1, k);
      }
    }
    IncreasingUnique(s1, s2);
    forall k | 0 <= k < |c1|
      ensures c1[k] == c2[k]
    {
      ComponentUnique(M, s1[k], c1[k], c2[k]);
    }
  }
}
