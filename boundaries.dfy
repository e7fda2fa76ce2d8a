/** `center_to_boundaries` (topo/modele_pism_inputs.py:271-276) and the
    grid description `write_gridspec_xy` builds from it
    (topo/modele_pism_inputs.py:278-301): the cell boundaries of a line of
    cell centres are the midpoints between neighbours, and at each end the
    centre pushed out by half the neighbouring cell. */
module Boundaries {
  import opened Wrappers
  import opened GridIdentity

  /** The boundaries of the centres `c`, one more than there are centres. */
  function BoundariesOf(c: seq<real>): (b: seq<real>)
    requires |c| >= 2
    ensures |b| == |c| + 1
  {
    var n := |c|;
    seq(n + 1, k requires 0 <= k <= n =>
      if k == 0 then 1.5 * c[0] - 0.5 * c[1]
      else if k == n then 1.5 * c[n - 1] - 0.5 * c[n - 2]
      else (c[k - 1] + c[k]) * 0.5)
  }

  /** `xc[0]` or `xc[1]` read past the end of fewer than two centres. */
  datatype BoundaryError = TooFewCenters(count: nat)

  /** The function at lines 271-276: a zeroed array of `n + 1` entries,
      the first set, the interior filled by one slice assignment, the last
      set. */
  method CenterToBoundaries(xc: array<real>) returns (r: Result<seq<real>, BoundaryError>)
    ensures r.Err? <==> xc.Length < 2
    ensures r.Err? ==> r.error == TooFewCenters(xc.Length)
    ensures r.Ok? ==> r.value == BoundariesOf(xc[..])
  {
    var n := xc.Length;
    if n < 2 {
      return Err(TooFewCenters(n));
    }
    var xb := new real[n + 1](_ => 0.0);
    xb[0] := 1.5 * xc[0] - 0.5 * xc[1];
    forall k | 1 <= k < n {
      xb[k] := (xc[k - 1] + xc[k]) * 0.5;
    }
    xb[n] := 1.5 * xc[n - 1] - 0.5 * xc[n - 2];
    return Ok(xb[..]);
  }

  /** Inside, each boundary lies halfway between the two centres it separates. */
  lemma InteriorMidpoints(c: seq<real>, k: nat)
    requires |c| >= 2 && 0 < k < |c|
    ensures BoundariesOf(c)[k] - c[k - 1] == c[k] - BoundariesOf(c)[k]
  {
  }

  /** At each end the outer half cell is as wide as the inner one. */
  lemma EndsExtrapolate(c: seq<real>)
    requires |c| >= 2
    ensures var b := BoundariesOf(c); var n := |c|;
      c[0] - b[0] == b[1] - c[0] && b[n] - c[n - 1] == c[n - 1] - b[n - 1]
  {
  }

  /** Strictly increasing centres are separated by strictly increasing
      boundaries, each centre lying between its two. */
  lemma BoundariesBracket(c: seq<real>)
    requires |c| >= 2
    requires forall k :: 0 <= k < |c| - 1 ==> c[k] < c[k + 1]
    ensures forall k :: 0 <= k < |c| ==> BoundariesOf(c)[k] < c[k] < BoundariesOf(c)[k + 1]
    ensures forall i, j :: 0 <= i < j <= |c| ==> BoundariesOf(c)[i] < BoundariesOf(c)[j]
  {
    var b := BoundariesOf(c);
    var n := |c|;
    forall k | 0 <= k < n ensures b[k] < c[k] < b[k + 1] {
      BracketAt(c, k);
    }
    assert forall k :: 0 <= k < |b| - 1 ==> b[k] < b[k + 1] by {
      forall k | 0 <= k < |b| - 1 ensures b[k] < b[k + 1] {
        assert b[k] < c[k] < b[k + 1];
      }
    }
    IncreasingBySteps(b);
  }

  /** One centre between its two boundaries, from the order of its neighbours. */
  lemma BracketAt(c: seq<real>, k: nat)
    requires |c| >= 2 && k < |c|
    requires c[0] < c[1] && c[|c| - 2] < c[|c| - 1]
    requires (k > 0 ==> c[k - 1] < c[k]) && (k + 1 < |c| ==> c[k] < c[k + 1])
    ensures BoundariesOf(c)[k] < c[k] < BoundariesOf(c)[k + 1]
  {
  }

  /** The same for strictly decreasing centres. */
  lemma BoundariesBracketDecreasing(c: seq<real>)
    requires |c| >= 2
    requires forall k :: 0 <= k < |c| - 1 ==> c[k] > c[k + 1]
    ensures forall k :: 0 <= k < |c| ==> BoundariesOf(c)[k] > c[k] > BoundariesOf(c)[k + 1]
    ensures forall i, j :: 0 <= i < j <= |c| ==> BoundariesOf(c)[i] > BoundariesOf(c)[j]
  {
    var b := BoundariesOf(c);
    var n := |c|;
    forall k | 0 <= k < n ensures b[k] > c[k] > b[k + 1] {
      BracketAtDecreasing(c, k);
    }
    assert forall k :: 0 <= k < |b| - 1 ==> b[k] > b[k + 1] by {
      forall k | 0 <= k < |b| - 1 ensures b[k] > b[k + 1] {
        assert b[k] > c[k] > b[k + 1];
      }
    }
    DecreasingBySteps(b);
  }

  /** A sequence whose every step goes down is strictly decreasing. */
  lemma {:induction false} DecreasingBySteps(r: seq<real>)
    requires forall k :: 0 <= k < |r| - 1 ==> r[k] > r[k + 1]
    ensures forall i, j :: 0 <= i < j < |r| ==> r[i] > r[j]
    decreases |r|
  {
    if |r| >= 2 {
      var front := r[..|r| - 1];
      assert forall k :: 0 <= k < |front| - 1 ==> front[k] > front[k + 1];
      DecreasingBySteps(front);
      forall i, j | 0 <= i < j < |r| ensures r[i] > r[j] {
        if j < |r| - 1 {
          assert r[i] == front[i] && r[j] == front[j];
        } else if i < |r| - 2 {
          assert r[i] == front[i] && r[|r| - 2] == front[|r| - 2];
        }
      }
    }
  }

  lemma BracketAtDecreasing(c: seq<real>, k: nat)
    requires |c| >= 2 && k < |c|
    requires c[0] > c[1] && c[|c| - 2] > c[|c| - 1]
    requires (k > 0 ==> c[k - 1] > c[k]) && (k + 1 < |c| ==> c[k] > c[k + 1])
    ensures BoundariesOf(c)[k] > c[k] > BoundariesOf(c)[k + 1]
  {
  }

  /** Evenly spaced centres get evenly spaced boundaries, half a step
      outside the centres, so that the midpoints of the cells give the
      centres back. */
  lemma EvenlySpacedBoundaries(c: seq<real>, d: real)
    requires |c| >= 2
    requires forall k :: 0 <= k < |c| ==> c[k] == c[0] + (k as real) * d
    ensures forall k :: 0 <= k <= |c| ==> BoundariesOf(c)[k] == c[0] + (k as real) * d - 0.5 * d
    ensures forall k :: 0 <= k < |c| ==> (BoundariesOf(c)[k] + BoundariesOf(c)[k + 1]) * 0.5 == c[k]
  {
    var b := BoundariesOf(c);
    var n := |c|;
    forall k | 0 <= k <= n ensures b[k] == c[0] + (k as real) * d - 0.5 * d {
      if k == 0 {
        EvenBoundaryFirst(c, d);
      } else if k == n {
        EvenBoundaryLast(c, d);
      } else {
        EvenBoundaryInside(c, d, k);
      }
    }
    forall k | 0 <= k < n ensures (b[k] + b[k + 1]) * 0.5 == c[k] {
      MidpointOfEven(c[0], d, k, b[k], b[k + 1]);
    }
  }

  lemma EvenBoundaryFirst(c: seq<real>, d: real)
    requires |c| >= 2 && c[1] == c[0] + (1 as real) * d
    ensures BoundariesOf(c)[0] == c[0] + (0 as real) * d - 0.5 * d
  {
  }

  lemma EvenBoundaryLast(c: seq<real>, d: real)
    requires |c| >= 2
    requires c[|c| - 2] == c[0] + ((|c| - 2) as real) * d
    requires c[|c| - 1] == c[0] + ((|c| - 1) as real) * d
    ensures BoundariesOf(c)[|c|] == c[0] + (|c| as real) * d - 0.5 * d
  {
    var n := |c| as real;
    assert (n - 1.0) * d == (n - 2.0) * d + d;
    assert n * d == (n - 1.0) * d + d;
  }

  lemma EvenBoundaryInside(c: seq<real>, d: real, k: nat)
    requires 0 < k < |c|
    requires c[k - 1] == c[0] + ((k - 1) as real) * d
    requires c[k] == c[0] + (k as real) * d
    ensures BoundariesOf(c)[k] == c[0] + (k as real) * d - 0.5 * d
  {
    var kr := k as real;
    assert kr * d == (kr - 1.0) * d + d;
  }

  lemma MidpointOfEven(c0: real, d: real, k: nat, bk: real, bk1: real)
    requires bk == c0 + (k as real) * d - 0.5 * d
    requires bk1 == c0 + ((k + 1) as real) * d - 0.5 * d
    ensures (bk + bk1) * 0.5 == c0 + (k as real) * d
  {
    var kr := k as real;
    assert (kr + 1.0) * d == kr * d + d;
  }

  lemma ExampleBoundaries()
    ensures BoundariesOf([0.0, 1.0, 2.0, 3.0]) == [-0.5, 0.5, 1.5, 2.5, 3.5]
  {
  }

  /** The grid description at lines 282-301. */
  datatype GridSpec = GridSpec(
    name: string,
    gridType: string,
    indices: (int, int),
    sproj: string,
    nx: int, ny: int,
    xBoundaries: seq<real>, yBoundaries: seq<real>)

  /** The grid description of what `snoop_pism` found. */
  function GridSpecOf(info: PismInfo): (r: Result<GridSpec, BoundaryError>)
    ensures r.Err? <==> |info.xCenters| < 2 || |info.yCenters| < 2
    ensures r.Ok? ==>
      && r.value.nx == |info.xCenters| && r.value.ny == |info.yCenters|
      && |r.value.xBoundaries| == r.value.nx + 1 && |r.value.yBoundaries| == r.value.ny + 1
      && r.value.name == info.name && r.value.indices == info.indexOrder && r.value.sproj == info.proj4
      && r.value.gridType == "XY"
      && r.value.xBoundaries == BoundariesOf(info.xCenters) && r.value.yBoundaries == BoundariesOf(info.yCenters)
  {
    if |info.xCenters| < 2 then Err(TooFewCenters(|info.xCenters|))
    else if |info.yCenters| < 2 then Err(TooFewCenters(|info.yCenters|))
    else
      Ok(GridSpec(info.name, "XY", info.indexOrder, info.proj4,
                  |info.xCenters|, |info.yCenters|,
                  BoundariesOf(info.xCenters), BoundariesOf(info.yCenters)))
  }

  /** Whatever `snoop_pism` returns can be described: the description has
      `Mx` by `My` cells, bounded by the native first and last centres
      pushed out by half a resampled cell. */
  lemma SnoopedGridSpec(cmd: seq<string>, mx: int, my: int, proj4: string,
                        xNative: seq<real>, yNative: seq<real>)
    requires Snoop(cmd, mx, my, proj4, xNative, yNative).Ok?
    ensures var info := Snoop(cmd, mx, my, proj4, xNative, yNative).value;
      var dx := Spacing(xNative[0], xNative[|xNative| - 1], mx);
      var dy := Spacing(yNative[0], yNative[|yNative| - 1], my);
      && GridSpecOf(info).Ok?
      && GridSpecOf(info).value.nx == mx && GridSpecOf(info).value.ny == my
      && GridSpecOf(info).value.xBoundaries[0] == xNative[0] - 0.5 * dx
      && GridSpecOf(info).value.xBoundaries[mx] == xNative[|xNative| - 1] + 0.5 * dx
      && GridSpecOf(info).value.yBoundaries[0] == yNative[0] - 0.5 * dy
      && GridSpecOf(info).value.yBoundaries[my] == yNative[|yNative| - 1] + 0.5 * dy
  {
    ResampledBoundaries(xNative[0], xNative[|xNative| - 1], mx);
    ResampledBoundaries(yNative[0], yNative[|yNative| - 1], my);
  }

  /** A resampled line is bounded half a cell outside its first and last
      centres. */
  lemma ResampledBoundaries(first: real, last: real, m: int)
    requires m >= 2
    ensures BoundariesOf(Resample(first, last, m))[0] == first - 0.5 * Spacing(first, last, m)
    ensures BoundariesOf(Resample(first, last, m))[m] == last + 0.5 * Spacing(first, last, m)
  {
    var c := Resample(first, last, m);
    var d := Spacing(first, last, m);
    assert c[1] - c[0] == d;
    assert c[m - 1] - c[m - 2] == d;
  }
}
