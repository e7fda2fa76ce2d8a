/** What `snoop_pism` (topo/modele_pism_inputs.py:174-237) learns about the
    grid of a PISM run once the file reads are done: the cell centres
    resampled to the run's resolution, the resolution in whole kilometres,
    and the name the grid is given. The values read from the state file and
    from the `-i` file (`grid.Mx`, `grid.My`, `proj4`, the native `x1`/`y1`
    centres, the command line) are parameters. */
module GridIdentity {
  import opened Wrappers
  import opened Strings
  import opened PosixPath
  import opened ArgMaps
  import opened CommandLine

  /** The comprehension at lines 216-217: `m` centres, evenly spaced from
      `first` to `last` inclusive. */
  function Resample(first: real, last: real, m: int): (r: seq<real>)
    requires m >= 2
    ensures |r| == m
    ensures r[0] == first && r[m - 1] == last
    ensures forall i, j :: 0 <= i && j == i + 1 && j < m ==> r[j] - r[i] == Spacing(first, last, m)
  {
    var c := seq(m, k requires 0 <= k < m => Point(first, last, k, m - 1));
    forall i, j | 0 <= i && j == i + 1 && j < m ensures c[j] - c[i] == Spacing(first, last, m) {
      StepOfLine(first, last, i, m - 1);
    }
    EndsOfLine(first, last, m - 1);
    c
  }

  /** The distance between neighbouring centres of `m` evenly spaced ones. */
  function Spacing(first: real, last: real, m: int): real
    requires m >= 2
  {
    (last - first) / ((m - 1) as real)
  }

  /** Centre `k` of `n + 1`, computed as line 216 does. */
  function Point(first: real, last: real, k: int, n: int): real
    requires n >= 1
  {
    first + (last - first) * (k as real) / (n as real)
  }

  lemma StepOfLine(first: real, last: real, k: int, n: int)
    requires n >= 1
    ensures Point(first, last, k + 1, n) - Point(first, last, k, n) == (last - first) / (n as real)
  {
    var d := last - first;
    var nr := n as real;
    assert d * ((k + 1) as real) == d * (k as real) + d;
    assert (d * (k as real) + d) / nr == d * (k as real) / nr + d / nr;
  }

  lemma EndsOfLine(first: real, last: real, n: int)
    requires n >= 1
    ensures Point(first, last, 0, n) == first && Point(first, last, n, n) == last
  {
    var d := last - first;
    assert d * (n as real) / (n as real) == d;
  }

  /** The centres of the resampled grid, with a position each: centre `k`
      lies `k` steps from the first. */
  lemma {:induction false} ResampleClosedForm(first: real, last: real, m: int, k: nat)
    requires m >= 2 && k < m
    ensures Resample(first, last, m)[k] == first + (k as real) * Spacing(first, last, m)
    decreases k
  {
    var r := Resample(first, last, m);
    var d := Spacing(first, last, m);
    if k > 0 {
      ResampleClosedForm(first, last, m, k - 1);
      assert r[k] == r[k - 1] + d;
      assert ((k - 1) as real) * d + d == (k as real) * d;
    }
  }

  /** Increasing native centres resample to strictly increasing centres. */
  lemma ResampleIncreasing(first: real, last: real, m: int)
    requires m >= 2 && first < last
    ensures forall i, j :: 0 <= i < j < m ==> Resample(first, last, m)[i] < Resample(first, last, m)[j]
  {
    var r := Resample(first, last, m);
    assert Spacing(first, last, m) > 0.0;
    forall k | 0 <= k < m - 1 ensures r[k] < r[k + 1] {
      assert r[k + 1] - r[k] == Spacing(first, last, m);
    }
    IncreasingBySteps(r);
  }

  /** A sequence whose every step goes up is strictly increasing. */
  lemma {:induction false} IncreasingBySteps(r: seq<real>)
    requires forall k :: 0 <= k < |r| - 1 ==> r[k] < r[k + 1]
    ensures forall i, j :: 0 <= i < j < |r| ==> r[i] < r[j]
    decreases |r|
  {
    if |r| >= 2 {
      var front := r[..|r| - 1];
      assert forall k :: 0 <= k < |front| - 1 ==> front[k] < front[k + 1];
      IncreasingBySteps(front);
      forall i, j | 0 <= i < j < |r| ensures r[i] < r[j] {
        if j < |r| - 1 {
          assert r[i] == front[i] && r[j] == front[j];
        } else if i < |r| - 2 {
          assert r[i] == front[i] && r[|r| - 2] == front[|r| - 2];
        }
      }
    }
  }

  /** Native centres that are already evenly spaced with `m` entries come
      back unchanged: resampling to the native resolution is the identity. */
  lemma ResampleReproduces(native: seq<real>, d: real)
    requires |native| >= 2
    requires forall k :: 0 <= k < |native| ==> native[k] == native[0] + (k as real) * d
    ensures Resample(native[0], native[|native| - 1], |native|) == native
  {
    var m := |native|;
    var r := Resample(native[0], native[m - 1], m);
    var last := native[m - 1];
    var n := (m - 1) as real;
    assert last - native[0] == d * n;
    Cancel(d, n);
    assert Spacing(native[0], last, m) == d;
    forall k | 0 <= k < m ensures r[k] == native[k] {
      ResampleClosedForm(native[0], last, m, k);
    }
  }

  lemma Cancel(d: real, n: real)
    requires n >= 1.0
    ensures d * n / n == d
  {
  }

  /** Python's `int(x)` on a float: the integer part, truncated toward zero. */
  function Trunc(x: real): (n: int)
    ensures x >= 0.0 ==> n as real <= x < n as real + 1.0
    ensures x < 0.0 ==> n as real - 1.0 < x <= n as real
  {
    if x >= 0.0 then x.Floor else -((-x).Floor)
  }

  /** `int(.5 + d/1000.)` at lines 224-225: a spacing in metres as whole
      kilometres. */
  function KmRound(d: real): int {
    Trunc(0.5 + d / 1000.0)
  }

  /** For a non-negative spacing this is rounding to the nearest kilometre,
      halves rounded up. */
  lemma KmRoundNearest(d: real)
    requires d >= 0.0
    ensures (KmRound(d) as real) - 0.5 <= d / 1000.0 < (KmRound(d) as real) + 0.5
  {
  }

  /** For a negative spacing (centres stored in decreasing order) it is not:
      -1.6 km comes out as -1, not -2. */
  lemma KmRoundNegative()
    ensures KmRound(-1600.0) == -1
    ensures KmRound(1600.0) == 2
  {
    assert 0.5 + -1600.0 / 1000.0 == -1.1;
    assert (1.1).Floor == 1;
    assert 0.5 + 1600.0 / 1000.0 == 2.1;
    assert (2.1).Floor == 2;
  }

  /** `dxdy` at lines 226-229: one number for a square grid, `idx_idy` otherwise. */
  function ResToken(idx: int, idy: int): (s: string)
    ensures |s| >= 1
  {
    if idx == idy then IntToString(idx) else IntToString(idx) + "_" + IntToString(idy)
  }

  /** Reading a resolution token back. */
  function ParseResToken(s: string): Option<(int, int)> {
    var pieces := Split(s, '_');
    if |pieces| == 1 then
      match ParseInt(pieces[0])
      case Some(n) => Some((n, n))
      case None => None
    else if |pieces| == 2 then
      match (ParseInt(pieces[0]), ParseInt(pieces[1]))
      case (Some(x), Some(y)) => Some((x, y))
      case _ => None
    else None
  }

  /** The resolution token loses nothing: both spacings can be read back. */
  lemma ResTokenRoundTrip(idx: int, idy: int)
    ensures ParseResToken(ResToken(idx, idy)) == Some((idx, idy))
  {
    IntToStringLacks(idx, '_');
    IntToStringLacks(idy, '_');
    IntToStringRoundTrip(idx);
    IntToStringRoundTrip(idy);
    if idx == idy {
      SplitPlain(IntToString(idx), '_');
    } else {
      SplitAfterPiece(IntToString(idx), '_', IntToString(idy));
      SplitPlain(IntToString(idy), '_');
      assert IntToString(idx) + "_" + IntToString(idy) == IntToString(idx) + ['_'] + IntToString(idy);
    }
  }

  /** The index order recorded for the grid (line 221): SeaRISE order. */
  const IndexOrder: (int, int) := (1, 0)

  const GreenlandPrefix := "pism_Greenland"

  /** The grid name at lines 231-235. A Greenland input file gives
      `pism_g<res>km_<o0><o1>`; any other gives the root of its leaf name,
      then `<res>km_<o0>`, the second index being passed to a format string
      with no slot for it. */
  function GridName(iname: string, idx: int, idy: int, order: (int, int)): (name: string)
    ensures StartsWith(iname, GreenlandPrefix) ==> StartsWith(name, "pism_g")
    ensures !StartsWith(iname, GreenlandPrefix) ==> StartsWith(name, SplitExtRoot(iname))
  {
    if StartsWith(iname, GreenlandPrefix) then
      "pism_g" + ResToken(idx, idy) + "km_" + IntToString(order.0) + IntToString(order.1)
    else
      SplitExtRoot(iname) + ResToken(idx, idy) + "km_" + IntToString(order.0)
  }

  /** A Greenland grid's name determines its resolution: it can be read
      back from between the fixed prefix and suffix. */
  lemma GreenlandNameResolution(iname: string, idx: int, idy: int)
    requires StartsWith(iname, GreenlandPrefix)
    ensures var name := GridName(iname, idx, idy, IndexOrder);
      |name| >= 11 && ParseResToken(name[6..|name| - 5]) == Some((idx, idy))
  {
    var name := GridName(iname, idx, idy, IndexOrder);
    assert IntToString(1) == "1" && IntToString(0) == "0";
    assert name == "pism_g" + ResToken(idx, idy) + "km_10";
    assert name[6..|name| - 5] == ResToken(idx, idy);
    ResTokenRoundTrip(idx, idy);
  }

  /** So two Greenland grids of different resolution never share a name. */
  lemma GreenlandNamesDistinct(a: string, b: string, idx: int, idy: int, idx': int, idy': int)
    requires StartsWith(a, GreenlandPrefix) && StartsWith(b, GreenlandPrefix)
    requires GridName(a, idx, idy, IndexOrder) == GridName(b, idx', idy', IndexOrder)
    ensures idx == idx' && idy == idy'
  {
    GreenlandNameResolution(a, idx, idy);
    GreenlandNameResolution(b, idx', idy');
  }

  /** Outside Greenland the second index of the order does not reach the name. */
  lemma OtherNameIgnoresSecondIndex(iname: string, idx: int, idy: int, o0: int, o1: int, o1': int)
    requires !StartsWith(iname, GreenlandPrefix)
    ensures GridName(iname, idx, idy, (o0, o1)) == GridName(iname, idx, idy, (o0, o1'))
  {
  }

  /** Nor is the resolution always recoverable there: a digit at the end of
      the file's root runs into the resolution. */
  lemma OtherNamesCollide()
    ensures GridName("g2.nc", 0, 0, IndexOrder) == GridName("g.nc", 20, 20, IndexOrder) == "g20km_1"
  {
    assert "g2"[0] != '.' && "g"[0] != '.';
    SplitExtRootOfExtended("g2", "nc");
    SplitExtRootOfExtended("g", "nc");
    assert "g2.nc" == "g2" + "." + "nc";
    assert "g.nc" == "g" + "." + "nc";
    assert !StartsWith("g2.nc", GreenlandPrefix) && !StartsWith("g.nc", GreenlandPrefix);
    assert IntToString(0) == "0" && IntToString(1) == "1";
    assert NatToString(20) == NatToString(2) + [DigitChar(0)];
    assert IntToString(20) == "20";
  }

  lemma ExampleGreenlandName()
    ensures GridName("pism_Greenland_5km_v1.1.nc", 20, 20, IndexOrder) == "pism_g20km_10"
    ensures GridName("pism_Greenland_5km_v1.1.nc", 20, 10, IndexOrder) == "pism_g20_10km_10"
  {
    assert StartsWith("pism_Greenland_5km_v1.1.nc", GreenlandPrefix);
    assert IntToString(0) == "0" && IntToString(1) == "1";
    assert NatToString(20) == NatToString(2) + [DigitChar(0)];
    assert NatToString(10) == NatToString(1) + [DigitChar(0)];
    assert IntToString(20) == "20" && IntToString(10) == "10";
  }

  /** What `snoop_pism` returns. */
  datatype PismInfo = PismInfo(
    mx: int, my: int,
    args: ArgMap,
    proj4: string,
    xCenters: seq<real>, yCenters: seq<real>,
    indexOrder: (int, int),
    name: string)

  /** The exceptions `snoop_pism` can raise once its files are read. */
  datatype SnoopError =
    | BadCommandLine(e: TokenizeError)  // IndexError in the tokenizer loop
    | NoInputFile                       // KeyError: no `-i` (line 209)
    | InputNotText                      // TypeError: `-i` without a value joined to a path (line 209)
    | NoNativeX                         // IndexError: `xc5[0]` of no native centres (line 216)
    | NoNativeY                         // the same for `yc5` (line 217)
    | TooFewX                           // IndexError: `xc[1]` with fewer than two centres (line 224)
    | TooFewY                           // the same for `yc` (line 225)

  /** `snoop_pism` after its reads: `cmd` is the split command line, `mx`
      and `my` the configured grid size, `proj4` and the native centres
      what the `-i` file holds. */
  function Snoop(cmd: seq<string>, mx: int, my: int, proj4: string,
                 xNative: seq<real>, yNative: seq<real>): (r: Result<PismInfo, SnoopError>)
    ensures r.Ok? <==>
      && Parse(cmd).Ok? && "i" in Parse(cmd).value.vals && Parse(cmd).value.vals["i"].Some?
      && |xNative| >= 1 && |yNative| >= 1 && mx >= 2 && my >= 2
    ensures r.Ok? ==>
      && r.value.args == Parse(cmd).value && r.value.mx == mx && r.value.my == my
      && r.value.proj4 == proj4 && r.value.indexOrder == IndexOrder
    ensures r.Ok? ==>
      && r.value.xCenters == Resample(xNative[0], xNative[|xNative| - 1], mx)
      && r.value.yCenters == Resample(yNative[0], yNative[|yNative| - 1], my)
    ensures r.Ok? ==>
      r.value.name == GridName(Basename(Parse(cmd).value.vals["i"].value),
                               KmRound(Spacing(xNative[0], xNative[|xNative| - 1], mx)),
                               KmRound(Spacing(yNative[0], yNative[|yNative| - 1], my)),
                               IndexOrder)
  {
    match Parse(cmd)
    case Err(e) => Err(BadCommandLine(e))
    case Ok(args) =>
      if "i" !in args.vals then Err(NoInputFile)
      else if args.vals["i"].None? then Err(InputNotText)
      else if mx >= 1 && |xNative| == 0 then Err(NoNativeX)
      else if my >= 1 && |yNative| == 0 then Err(NoNativeY)
      else if mx < 2 then Err(TooFewX)
      else if my < 2 then Err(TooFewY)
      else Ok(Describe(args, args.vals["i"].value, mx, my, proj4, xNative, yNative))
  }

  /** Lines 216-235, once every read has succeeded: the centres resampled
      to `mx` by `my`, and the grid named after the leaf of `input` and the
      first step of each line of centres in kilometres. */
  function Describe(args: ArgMap, input: string, mx: int, my: int, proj4: string,
                    xNative: seq<real>, yNative: seq<real>): (info: PismInfo)
    requires |xNative| >= 1 && |yNative| >= 1 && mx >= 2 && my >= 2
    ensures info.xCenters == Resample(xNative[0], xNative[|xNative| - 1], mx)
    ensures info.yCenters == Resample(yNative[0], yNative[|yNative| - 1], my)
    ensures info.name == GridName(Basename(input),
                                  KmRound(Spacing(xNative[0], xNative[|xNative| - 1], mx)),
                                  KmRound(Spacing(yNative[0], yNative[|yNative| - 1], my)),
                                  IndexOrder)
  {
    var xc := Resample(xNative[0], xNative[|xNative| - 1], mx);
    var yc := Resample(yNative[0], yNative[|yNative| - 1], my);
    ResampledStep(xNative[0], xNative[|xNative| - 1], mx);
    ResampledStep(yNative[0], yNative[|yNative| - 1], my);
    var idx := KmRound(FirstStep(xc));
    var idy := KmRound(FirstStep(yc));
    PismInfo(mx, my, args, proj4, xc, yc, IndexOrder, GridName(Basename(input), idx, idy, IndexOrder))
  }

  /** `xc[1] - xc[0]` at lines 224-225: the width of the first cell. */
  function FirstStep(c: seq<real>): real
    requires |c| >= 2
  {
    c[1] - c[0]
  }

  /** The first cell of a resampled line is as wide as every other. */
  lemma ResampledStep(first: real, last: real, m: int)
    requires m >= 2
    ensures FirstStep(Resample(first, last, m)) == Spacing(first, last, m)
  {
    var r := Resample(first, last, m);
    assert r[1] - r[0] == Spacing(first, last, m);
  }

  /** The exceptions come in the order the statements run. */
  lemma SnoopErrors(cmd: seq<string>, mx: int, my: int, proj4: string, xNative: seq<real>, yNative: seq<real>)
    ensures var r := Snoop(cmd, mx, my, proj4, xNative, yNative);
      && (Parse(cmd).Err? ==> r == Err(BadCommandLine(Parse(cmd).error)))
      && (Parse(cmd).Ok? && "i" !in Parse(cmd).value.vals ==> r == Err(NoInputFile))
      && (Parse(cmd).Ok? && "i" in Parse(cmd).value.vals && Parse(cmd).value.vals["i"].None? ==> r == Err(InputNotText))
      && (r.Err? && mx == 1 && |xNative| >= 1 && Parse(cmd).Ok? ==> r.error in {NoInputFile, InputNotText, NoNativeY, TooFewX})
  {
  }

  /** A Greenland run at its native resolution is named after that
      resolution: a 5 km grid of 301 by 561 centres. */
  lemma ExampleSnoop()
    ensures var r := Snoop(["pismr", "-i", "pism_Greenland_5km_v1.1.nc", "-o", "out.nc"],
                           301, 561, "+proj=stere", [-800000.0, 700000.0], [-3400000.0, -600000.0]);
      r.Ok? && r.value.name == "pism_g5km_10"
  {
    ExampleSnoopArgs();
    ExampleSnoopSpacing();
    ExampleSnoopName();
  }

  lemma ExampleSnoopName()
    ensures GridName(Basename("pism_Greenland_5km_v1.1.nc"), 5, 5, IndexOrder) == "pism_g5km_10"
  {
    BasenameOfLeaf("pism_Greenland_5km_v1.1.nc");
    assert StartsWith("pism_Greenland_5km_v1.1.nc", GreenlandPrefix);
    assert IntToString(5) == "5" && IntToString(1) == "1" && IntToString(0) == "0";
  }

  lemma ExampleSnoopArgs()
    ensures var p := Parse(["pismr", "-i", "pism_Greenland_5km_v1.1.nc", "-o", "out.nc"]);
      p.Ok? && "i" in p.value.vals && p.value.vals["i"] == Some("pism_Greenland_5km_v1.1.nc")
  {
    var cmd := ["pismr", "-i", "pism_Greenland_5km_v1.1.nc", "-o", "out.nc"];
    assert cmd[1][1..] == "i" && cmd[3][1..] == "o";
    var m1 := Empty().Set("i", Some("pism_Greenland_5km_v1.1.nc"));
    var m2 := m1.Set("o", Some("out.nc"));
    RunSkipsWord(cmd, 0, Empty());
    RunTakesValue(cmd, 1, Empty());
    RunTakesValue(cmd, 3, m1);
    assert Run(cmd, 5, m2) == Ok(m2);
    assert "o" != "i";
  }

  lemma ExampleSnoopSpacing()
    ensures KmRound(Spacing(-800000.0, 700000.0, 301)) == 5
    ensures KmRound(Spacing(-3400000.0, -600000.0, 561)) == 5
  {
    assert Spacing(-800000.0, 700000.0, 301) == 5000.0;
    assert Spacing(-3400000.0, -600000.0, 561) == 5000.0;
    assert (5.5).Floor == 5;
  }

  /** A name with no separator is its own leaf. */
  lemma {:induction false} BasenameOfLeaf(p: string)
    requires '/' !in p
    ensures Basename(p) == p
    decreases |p|
  {
    if p != [] {
      assert p[|p| - 1] in p;
      BasenameOfLeaf(p[..|p| - 1]);
      assert p[..|p| - 1] + [p[|p| - 1]] == p;
    }
  }
}
