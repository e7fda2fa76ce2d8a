/** `make_pism_args` (topo/modele_pism_inputs.py:239-268): the arguments of
    the original bootstrap run turned into the arguments of the coupled
    run, and the configuration lines they are written out as
    (topo/modele_pism_inputs.py:360-363). */
module PismArgs {
  import opened Wrappers
  import opened Strings
  import opened PosixPath
  import opened ArgMaps

  /** The grid and run-length arguments of the bootstrap run, dropped
      (lines 247-249). */
  const BootstrapKeys: seq<string> :=
    ["bootstrap", "Mx", "My", "Mz", "Mbz", "z_spacing", "Lz", "Lbz", "ys", "ye"]

  /** The file arguments made absolute (line 257). */
  const PathKeys: seq<string> := ["i", "surface_given_file", "ocean_kill_file"]

  const ExtraVarsKey := "extra_vars"

  /** The keys the transformer reads, in the order it reads them. */
  const RequiredKeys: seq<string> := PathKeys + [ExtraVarsKey]

  /** The variables every coupled run writes out (line 263), in their order. */
  const Vocabulary: seq<string> :=
    ["climatic_mass_balance", "ice_surface_temp", "diffusivity", "temppabase",
     "tempicethk_basal", "bmelt", "tillwat", "csurf", "mask", "thk", "topg", "usurf"]

  ghost function KeySet(xs: seq<string>): set<string> {
    set x | x in xs
  }

  /** The exceptions the transformer can raise. */
  datatype ArgsError =
    | MissingKey(key: string)  // KeyError reading `args[key]`
    | NotText(key: string)     // a flag given without a value where a text is needed:
                               // TypeError in `os.path.join`, AttributeError in `.split`

  /** What reading `key` raises, if anything. */
  function Problem(vals: map<string, Option<string>>, key: string): Option<ArgsError> {
    if key !in vals then Some(MissingKey(key))
    else if vals[key].None? then Some(NotText(key))
    else None
  }

  /** The first exception met when the keys are read in turn. */
  function FirstProblem(vals: map<string, Option<string>>, keys: seq<string>): (p: Option<ArgsError>)
    ensures p.Some? ==> p.value.key in keys && Problem(vals, p.value.key) == p
    decreases |keys|
  {
    if keys == [] then None
    else if Problem(vals, keys[0]).Some? then Problem(vals, keys[0])
    else FirstProblem(vals, keys[1..])
  }

  /** Reading the keys raises nothing exactly when each is there with a text. */
  lemma {:induction false} NoProblem(vals: map<string, Option<string>>, keys: seq<string>)
    ensures FirstProblem(vals, keys).None? <==> forall k :: k in keys ==> k in vals && vals[k].Some?
    decreases |keys|
  {
    if keys != [] {
      NoProblem(vals, keys[1..]);
      assert forall k :: k in keys <==> k == keys[0] || k in keys[1..];
    }
  }

  /** The entries of `v` not in `xs`, in the order of `v`. */
  function Missing(v: seq<string>, xs: seq<string>): (m: seq<string>)
    ensures forall x :: x in m <==> x in v && x !in xs
    ensures |m| <= |v|
    decreases |v|
  {
    if v == [] then []
    else Missing(v[..|v| - 1], xs) + (if v[|v| - 1] in xs then [] else [v[|v| - 1]])
  }

  /** `Missing` keeps the order of `v`: it is `v` read at the increasing
      positions `f`, and those are exactly the positions whose name is
      absent from `xs`. */
  lemma {:induction false} MissingInOrder(v: seq<string>, xs: seq<string>) returns (f: seq<nat>)
    ensures |f| == |Missing(v, xs)|
    ensures forall k :: 0 <= k < |f| ==> f[k] < |v| && v[f[k]] == Missing(v, xs)[k]
    ensures forall a, b :: 0 <= a < b < |f| ==> f[a] < f[b]
    ensures forall i :: 0 <= i < |v| ==> (i in f <==> v[i] !in xs)
    decreases |v|
  {
    if v == [] {
      f := [];
    } else {
      var front := v[..|v| - 1];
      var last := |v| - 1;
      var g := MissingInOrder(front, xs);
      var keep := v[last] !in xs;
      assert Missing(v, xs) == Missing(front, xs) + (if keep then [v[last]] else []);
      f := g + (if keep then [last] else []);
      PicksSnoc(v, g, Missing(front, xs), keep);
      IncreasingSnoc(g, last, keep);
      MarksSnoc(v, xs, g);
    }
  }

  /** One step of `MissingInOrder`: the positions picked from the front
      still pick the same names from the whole list. */
  lemma PicksSnoc(v: seq<string>, g: seq<nat>, m: seq<string>, keep: bool)
    requires |v| >= 1 && |g| == |m|
    requires forall k :: 0 <= k < |g| ==> g[k] < |v| - 1 && v[..|v| - 1][g[k]] == m[k]
    ensures var f := g + (if keep then [|v| - 1] else []);
      var n := m + (if keep then [v[|v| - 1]] else []);
      |f| == |n| && forall k :: 0 <= k < |f| ==> f[k] < |v| && v[f[k]] == n[k]
  {
  }

  /** One step of `MissingInOrder`: a position past all others keeps them increasing. */
  lemma IncreasingSnoc(g: seq<nat>, last: nat, keep: bool)
    requires forall k :: 0 <= k < |g| ==> g[k] < last
    requires forall a, b :: 0 <= a < b < |g| ==> g[a] < g[b]
    ensures var f := g + (if keep then [last] else []);
      forall a, b :: 0 <= a < b < |f| ==> f[a] < f[b]
  {
  }

  /** One step of `MissingInOrder`: the last position is picked exactly
      when its name is absent from `xs`. */
  lemma MarksSnoc(v: seq<string>, xs: seq<string>, g: seq<nat>)
    requires |v| >= 1
    requires forall k :: 0 <= k < |g| ==> g[k] < |v| - 1
    requires forall i :: 0 <= i < |v| - 1 ==> (i in g <==> v[..|v| - 1][i] !in xs)
    ensures var f := g + (if v[|v| - 1] !in xs then [|v| - 1] else []);
      forall i :: 0 <= i < |v| ==> (i in f <==> v[i] !in xs)
  {
    var last := |v| - 1;
    var f := g + (if v[last] !in xs then [last] else []);
    forall i | 0 <= i < |v| ensures (i in f <==> v[i] !in xs) {
      assert i in f <==> i in g || (v[last] !in xs && i == last);
      if i < last {
        assert v[i] == v[..last][i];
      } else {
        assert i !in g by {
          forall k | 0 <= k < |g| ensures g[k] != last {
          }
        }
      }
    }
  }

  /** `Missing` is the order-keeping filter `Without` of the ordered map,
      dropping the names of `xs`. */
  lemma {:induction false} MissingIsWithout(v: seq<string>, xs: seq<string>)
    ensures Missing(v, xs) == Without(v, set x | x in xs)
    decreases |v|
  {
    if v != [] {
      var front := v[..|v| - 1];
      MissingIsWithout(front, xs);
      FrontLast(v);
      WithoutSnoc(front, v[|v| - 1], set x | x in xs);
    }
  }

  /** The list of `-extra_vars` after lines 262-265. */
  function ExtendVars(xs: seq<string>): seq<string> {
    xs + Missing(Vocabulary, xs)
  }

  /** The text of `-extra_vars` after lines 262-266. */
  function ExtendList(s: string): string {
    Join(ExtendVars(Split(s, ',')), ',')
  }

  /** Every vocabulary variable is requested afterwards. */
  lemma ExtendVarsComplete(xs: seq<string>)
    ensures forall v :: v in Vocabulary ==> v in ExtendVars(xs)
  {
  }

  /** What is added is new: no entry is added twice and none was there
      before, while the entries that were there, duplicates included, stay
      first and in order. */
  lemma ExtendVarsAddsOnlyNew(xs: seq<string>)
    ensures ExtendVars(xs)[..|xs|] == xs
    ensures forall j :: |xs| <= j < |ExtendVars(xs)| ==> ExtendVars(xs)[j] in Vocabulary && ExtendVars(xs)[j] !in xs
    ensures Distinct(ExtendVars(xs)[|xs|..])
  {
    VocabularyDistinct();
    MissingDistinct(Vocabulary, xs);
    assert ExtendVars(xs)[|xs|..] == Missing(Vocabulary, xs);
    forall j | |xs| <= j < |ExtendVars(xs)|
      ensures ExtendVars(xs)[j] in Vocabulary && ExtendVars(xs)[j] !in xs
    {
      assert ExtendVars(xs)[j] == Missing(Vocabulary, xs)[j - |xs|];
    }
  }

  lemma VocabularyPlain()
    ensures forall v :: v in Vocabulary ==> ',' !in v
  {
  }

  lemma VocabularyDistinct()
    ensures Distinct(Vocabulary)
  {
  }

  lemma {:induction false} MissingDistinct(v: seq<string>, xs: seq<string>)
    requires Distinct(v)
    ensures Distinct(Missing(v, xs))
    decreases |v|
  {
    if v != [] {
      var front := v[..|v| - 1];
      assert Distinct(front) by {
        forall i, j | 0 <= i < j < |front| ensures front[i] != front[j] {
          assert front[i] == v[i] && front[j] == v[j];
        }
      }
      MissingDistinct(front, xs);
      var last := v[|v| - 1];
      assert last !in front by {
        forall i | 0 <= i < |front| ensures front[i] != last {
          assert front[i] == v[i];
        }
      }
    }
  }

  /** Nothing is missing from a list that already holds all of the vocabulary. */
  lemma {:induction false} MissingNothing(v: seq<string>, xs: seq<string>)
    requires forall x :: x in v ==> x in xs
    ensures Missing(v, xs) == []
    decreases |v|
  {
    if v != [] {
      assert v[|v| - 1] in v;
      MissingNothing(v[..|v| - 1], xs);
    }
  }

  /** Extending twice is extending once. */
  lemma ExtendVarsIdempotent(xs: seq<string>)
    ensures ExtendVars(ExtendVars(xs)) == ExtendVars(xs)
  {
    ExtendVarsComplete(xs);
    MissingNothing(Vocabulary, ExtendVars(xs));
  }

  /** And on the text: a run made from a coupled run's arguments asks for
      no more variables. */
  lemma ExtendListIdempotent(s: string)
    ensures ExtendList(ExtendList(s)) == ExtendList(s)
  {
    var ys := ExtendVars(Split(s, ','));
    ExtendedPiecesPlain(Split(s, ','));
    SplitJoin(ys, ',');
    assert Split(ExtendList(s), ',') == ys;
    ExtendVarsIdempotent(Split(s, ','));
  }

  /** Extending a list of comma-free names keeps it comma-free. */
  lemma ExtendedPiecesPlain(xs: seq<string>)
    requires forall j :: 0 <= j < |xs| ==> ',' !in xs[j]
    ensures |ExtendVars(xs)| >= |xs|
    ensures forall j :: 0 <= j < |ExtendVars(xs)| ==> ',' !in ExtendVars(xs)[j]
  {
    var ys := ExtendVars(xs);
    var m := Missing(Vocabulary, xs);
    VocabularyPlain();
    forall j | 0 <= j < |ys| ensures ',' !in ys[j] {
      if j >= |xs| {
        assert ys[j] == m[j - |xs|];
        assert m[j - |xs|] in m;
      } else {
        assert ys[j] == xs[j];
      }
    }
  }

  /** The deletions at lines 247-253: each of the keys `drop` that is
      there goes, and a missing one is passed over. */
  method DropKeys(args: ArgMap, drop: seq<string>) returns (a: ArgMap)
    requires args.Valid()
    ensures a.Valid()
    ensures a.keys == Without(args.keys, KeySet(drop))
    ensures a.vals == args.vals - KeySet(drop)
  {
    a := args;
    assert KeySet(drop[..0]) == {};
    assert args.vals - {} == args.vals;
    WithoutAbsent(args.keys, {});
    for j := 0 to |drop|
      invariant a.Valid()
      invariant a.keys == Without(args.keys, KeySet(drop[..j]))
      invariant a.vals == args.vals - KeySet(drop[..j])
    {
      var key := drop[j];
      var d := a.Delete(key);
      KeySetStep(drop, j);
      DeleteStep(args, a, KeySet(drop[..j]), key);
      a := if d.Some? then d.value else a;
    }
    assert drop[..|drop|] == drop;
  }

  lemma KeySetStep(xs: seq<string>, j: nat)
    requires j < |xs|
    ensures KeySet(xs[..j + 1]) == KeySet(xs[..j]) + {xs[j]}
  {
    assert xs[..j + 1] == xs[..j] + [xs[j]];
  }

  /** One deletion, whether or not the key is there. */
  lemma DeleteStep(args: ArgMap, a: ArgMap, done: set<string>, key: string)
    requires args.Valid() && a.Valid()
    requires a.keys == Without(args.keys, done) && a.vals == args.vals - done
    ensures var next := if a.Delete(key).Some? then a.Delete(key).value else a;
      next.keys == Without(args.keys, done + {key}) && next.vals == args.vals - (done + {key})
  {
    WithoutWithout(args.keys, done, {key});
    MapMinusMinus(args.vals, done, key);
    if key in a.vals {
      assert a.Delete(key).value.vals == a.vals - {key};
    } else {
      assert a.vals - {key} == a.vals;
      assert forall x :: x in {key} ==> x !in a.keys;
      WithoutAbsent(a.keys, {key});
    }
  }

  lemma MapMinusMinus(m: map<string, Option<string>>, done: set<string>, key: string)
    ensures m - done - {key} == m - (done + {key})
  {
  }

  /** The loop at lines 257-258: each of the distinct keys `paths` is
      read, raising as `Problem` says, and its value made absolute
      against `dir`. */
  method MakePathsAbsolute(dir: string, args: ArgMap, paths: seq<string>) returns (r: Result<ArgMap, ArgsError>)
    requires args.Valid() && Distinct(paths)
    ensures r.Err? <==> FirstProblem(args.vals, paths).Some?
    ensures r.Err? ==> r.error == FirstProblem(args.vals, paths).value
    ensures r.Ok? ==> r.value.Valid() && r.value.keys == args.keys
    ensures r.Ok? ==> forall k :: k in r.value.vals <==> k in args.vals
    ensures r.Ok? ==> forall k :: k in paths ==>
      && k in args.vals && args.vals[k].Some?
      && r.value.vals[k] == Some(AbsPath(dir, args.vals[k].value))
    ensures r.Ok? ==> forall k :: k in args.vals && k !in paths ==> r.value.vals[k] == args.vals[k]
  {
    var a := args;
    for j := 0 to |paths|
      invariant a.Valid() && a.keys == args.keys && a.vals.Keys == args.vals.Keys
      invariant Done(dir, args.vals, paths[..j], a.vals)
      invariant Untouched(args.vals, paths[..j], a.vals)
      invariant FirstProblem(args.vals, paths[..j]).None?
    {
      var key := paths[j];
      TakeOneMore(paths, j);
      NotYetDone(paths, j);
      SameProblem(args.vals, paths[..j], key, a.vals);
      ProblemAt(args.vals, paths, j);
      if key !in a.vals {
        return Err(MissingKey(key));
      }
      var v := a.vals[key];
      if v.None? {
        return Err(NotText(key));
      }
      DoneStep(dir, args.vals, paths[..j], key, a.vals);
      UntouchedStep(args.vals, paths[..j], key, a.vals, Some(AbsPath(dir, v.value)));
      a := a.Set(key, Some(AbsPath(dir, v.value)));
    }
    assert paths[..|paths|] == paths;
    AllDone(dir, args.vals, paths, a.vals);
    return Ok(a);
  }

  /** The keys in `done` are present in `orig` with a value, and `cur`
      holds that value made absolute. */
  ghost predicate Done(dir: string, orig: map<string, Option<string>>, done: seq<string>,
                       cur: map<string, Option<string>>) {
    forall k :: k in done ==>
      && k in orig && orig[k].Some?
      && k in cur && cur[k] == Some(AbsPath(dir, orig[k].value))
  }

  /** Every key of `cur` outside `done` still holds its value in `orig`. */
  ghost predicate Untouched(orig: map<string, Option<string>>, done: seq<string>,
                            cur: map<string, Option<string>>) {
    forall k :: k in cur && k !in done ==> k in orig && cur[k] == orig[k]
  }

  /** The prefix one longer is the prefix and the next key. */
  lemma TakeOneMore(s: seq<string>, j: nat)
    requires j < |s|
    ensures s[..j + 1] == s[..j] + [s[j]]
  {
  }

  /** A key of a list without repetitions is not among those before it. */
  lemma NotYetDone(paths: seq<string>, j: nat)
    requires Distinct(paths) && j < |paths|
    ensures paths[j] !in paths[..j]
  {
    forall i | 0 <= i < j ensures paths[..j][i] != paths[j] {
      assert paths[..j][i] == paths[i];
    }
  }

  /** The next key reads as it did in `orig`. */
  lemma SameProblem(orig: map<string, Option<string>>, done: seq<string>, key: string,
                    cur: map<string, Option<string>>)
    requires cur.Keys == orig.Keys && Untouched(orig, done, cur) && key !in done
    ensures Problem(cur, key) == Problem(orig, key)
  {
  }

  /** With no exception from the keys before `j`, the first exception
      of all the keys is the one the key at `j` raises, if any. */
  lemma ProblemAt(vals: map<string, Option<string>>, paths: seq<string>, j: nat)
    requires j < |paths| && FirstProblem(vals, paths[..j]).None?
    ensures Problem(vals, paths[j]).Some? ==> FirstProblem(vals, paths) == Problem(vals, paths[j])
    ensures Problem(vals, paths[j]).None? ==> FirstProblem(vals, paths[..j + 1]).None?
  {
    assert paths == paths[..j] + paths[j..];
    FirstProblemAppend(vals, paths[..j], paths[j..]);
    assert paths[..j + 1] == paths[..j] + [paths[j]];
    FirstProblemAppend(vals, paths[..j], [paths[j]]);
    assert paths[j..][0] == paths[j];
  }

  /** With every key done, the map states the method's result. */
  lemma AllDone(dir: string, orig: map<string, Option<string>>, paths: seq<string>,
                cur: map<string, Option<string>>)
    requires cur.Keys == orig.Keys && Done(dir, orig, paths, cur) && Untouched(orig, paths, cur)
    ensures forall k :: k in paths ==>
      && k in orig && orig[k].Some? && cur[k] == Some(AbsPath(dir, orig[k].value))
    ensures forall k :: k in orig && k !in paths ==> cur[k] == orig[k]
  {
  }

  lemma DoneStep(dir: string, orig: map<string, Option<string>>, done: seq<string>, key: string,
                 cur: map<string, Option<string>>)
    requires Done(dir, orig, done, cur) && Untouched(orig, done, cur) && key !in done
    requires key in cur && cur[key].Some?
    ensures Done(dir, orig, done + [key], cur[key := Some(AbsPath(dir, cur[key].value))])
  {
  }

  lemma UntouchedStep(orig: map<string, Option<string>>, done: seq<string>, key: string,
                      cur: map<string, Option<string>>, v: Option<string>)
    requires Untouched(orig, done, cur)
    ensures Untouched(orig, done + [key], cur[key := v])
  {
  }

  /** The loop at lines 263-265: the entries of `vocab` not in the
      original list, checked against a set made of it once, are appended in
      turn. */
  method AppendMissing(extraVars: seq<string>, vocab: seq<string>) returns (extended: seq<string>)
    ensures extended == extraVars + Missing(vocab, extraVars)
  {
    extended := extraVars;
    var evset := set x | x in extraVars;
    for n := 0 to |vocab|
      invariant extended == extraVars + Missing(vocab[..n], extraVars)
    {
      var name := vocab[n];
      assert vocab[..n + 1][..n] == vocab[..n];
      if name !in evset {
        extended := extended + [name];
      }
    }
    assert vocab[..|vocab|] == vocab;
  }

  /** Lines 262-266 on the text of `-extra_vars`. */
  method ExtendExtraVars(text: string) returns (extended: string)
    ensures extended == ExtendList(text)
  {
    var extraVars := Split(text, ',');
    extraVars := AppendMissing(extraVars, Vocabulary);
    extended := Join(extraVars, ',');
  }

  /** The first exception among two runs of reads is the first in the
      first run, or else the first in the second. */
  lemma {:induction false} FirstProblemAppend(vals: map<string, Option<string>>, ks: seq<string>, ks': seq<string>)
    ensures FirstProblem(vals, ks + ks')
      == if FirstProblem(vals, ks).Some? then FirstProblem(vals, ks) else FirstProblem(vals, ks')
    decreases |ks|
  {
    if ks != [] {
      assert (ks + ks')[0] == ks[0] && (ks + ks')[1..] == ks[1..] + ks';
      FirstProblemAppend(vals, ks[1..], ks');
    } else {
      assert ks + ks' == ks';
    }
  }

  /** Reads of keys that two maps hold alike raise alike. */
  lemma {:induction false} FirstProblemAgree(v1: map<string, Option<string>>, v2: map<string, Option<string>>, ks: seq<string>)
    requires forall k :: k in ks ==> (k in v1 <==> k in v2) && (k in v1 ==> v1[k] == v2[k])
    ensures FirstProblem(v1, ks) == FirstProblem(v2, ks)
    decreases |ks|
  {
    if ks != [] {
      assert ks[0] in ks;
      assert forall k :: k in ks[1..] ==> k in ks;
      FirstProblemAgree(v1, v2, ks[1..]);
    }
  }

  /** No key the transformer reads is one it deletes. */
  lemma RequiredKeysKept()
    ensures forall k :: k in RequiredKeys ==> k !in KeySet(BootstrapKeys)
    ensures Distinct(PathKeys) && ExtraVarsKey !in PathKeys
    ensures RequiredKeys == PathKeys + [ExtraVarsKey]
  {
  }

  /** The transformer. `args` is the tokenizer's map; it is copied, so the
      caller's map is left as it was. */
  method MakePismArgs(pismDir: string, args: ArgMap) returns (r: Result<ArgMap, ArgsError>)
    requires args.Valid()
    ensures r.Err? <==> FirstProblem(args.vals, RequiredKeys).Some?
    ensures r.Err? ==> r.error == FirstProblem(args.vals, RequiredKeys).value
    ensures r.Ok? ==> r.value.Valid() && r.value.keys == Without(args.keys, KeySet(BootstrapKeys))
    ensures r.Ok? ==> forall k :: k in r.value.vals <==> k in args.vals && k !in KeySet(BootstrapKeys)
    ensures r.Ok? ==> forall k :: k in PathKeys ==>
      && k in args.vals && args.vals[k].Some? && k in r.value.vals
      && r.value.vals[k] == Some(AbsPath(pismDir, args.vals[k].value))
    ensures r.Ok? ==>
      && ExtraVarsKey in args.vals && args.vals[ExtraVarsKey].Some? && ExtraVarsKey in r.value.vals
      && r.value.vals[ExtraVarsKey] == Some(ExtendList(args.vals[ExtraVarsKey].value))
    ensures r.Ok? ==> forall k :: k in args.vals && k !in KeySet(BootstrapKeys) && k !in RequiredKeys ==>
      k in r.value.vals && r.value.vals[k] == args.vals[k]
  {
    RequiredKeysKept();
    var dropped := DropKeys(args, BootstrapKeys);
    FirstProblemAgree(args.vals, dropped.vals, RequiredKeys);
    FirstProblemAppend(args.vals, PathKeys, [ExtraVarsKey]);
    FirstProblemAgree(args.vals, dropped.vals, PathKeys);
    var p := MakePathsAbsolute(pismDir, dropped, PathKeys);
    if p.Err? {
      return Err(p.error);
    }
    var a := p.value;
    if ExtraVarsKey !in a.vals {
      return Err(MissingKey(ExtraVarsKey));
    }
    var ev := a.vals[ExtraVarsKey];
    if ev.None? {
      return Err(NotText(ExtraVarsKey));
    }
    var extended := ExtendExtraVars(ev.value);
    a := a.Set(ExtraVarsKey, Some(extended));
    return Ok(a);
  }

  /** A bootstrap map that gives no `-surface_given_file` is refused with
      a `KeyError` for that key, after `-i` was found. */
  lemma ExampleMissingSurfaceFile()
    ensures FirstProblem(map["bootstrap" := None, "Mx" := Some("76"), "i" := Some("rel/in.nc"),
                             "extra_vars" := Some("thk,topg")], RequiredKeys)
      == Some(MissingKey("surface_given_file"))
  {
  }

  /** The text a value is written as: `'{}'.format(None)` is `None`. */
  function ValueText(v: Option<string>): string {
    match v
    case Some(s) => s
    case None => "None"
  }

  const LinePrefix := "        m.greenland.pism:"
  const LineMiddle := " = \""
  const LineSuffix := "\" ;"

  /** One line of the `greenland_pism_args` block (line 362). */
  function ConfigLine(key: string, v: Option<string>): string {
    LinePrefix + key + LineMiddle + ValueText(v) + LineSuffix
  }

  /** The lines at 360-362, one per argument in the map's order. */
  method ConfigLines(args: ArgMap) returns (lines: seq<string>)
    requires args.Valid()
    ensures |lines| == |args.keys|
    ensures forall j :: 0 <= j < |lines| ==> lines[j] == ConfigLine(args.keys[j], args.vals[args.keys[j]])
  {
    lines := [];
    for j := 0 to |args.keys|
      invariant |lines| == j
      invariant forall i :: 0 <= i < j ==> lines[i] == ConfigLine(args.keys[i], args.vals[args.keys[i]])
    {
      var key := args.keys[j];
      lines := lines + [ConfigLine(key, args.vals[key])];
    }
  }

  /** Reading a configuration line back: the key runs to the first blank. */
  function ParseConfigLine(line: string): Option<(string, string)> {
    if |line| >= |LinePrefix| + |LineSuffix| && line[..|LinePrefix|] == LinePrefix
       && line[|line| - |LineSuffix|..] == LineSuffix then
      var body := line[|LinePrefix|..|line| - |LineSuffix|];
      var blank := FirstIndex(body, ' ');
      if 0 <= blank && blank + |LineMiddle| <= |body| && body[blank..blank + |LineMiddle|] == LineMiddle then
        Some((body[..blank], body[blank + |LineMiddle|..]))
      else None
    else None
  }

  /** The index of the first `c` in `s`, or -1. */
  function FirstIndex(s: string, c: char): (k: int)
    ensures -1 <= k < |s|
    ensures k >= 0 ==> s[k] == c
    ensures forall j :: 0 <= j < |s| && (k < 0 || j < k) ==> s[j] != c
    decreases |s|
  {
    if s == [] then -1
    else if s[0] == c then 0
    else
      var k := FirstIndex(s[1..], c);
      if k < 0 then -1 else k + 1
  }

  /** A line gives back its key and its value's text, for a key without
      blanks. */
  lemma ConfigLineRoundTrip(key: string, v: Option<string>)
    requires ' ' !in key
    ensures ParseConfigLine(ConfigLine(key, v)) == Some((key, ValueText(v)))
  {
    var line := ConfigLine(key, v);
    var text := ValueText(v);
    var body := key + LineMiddle + text;
    assert line == LinePrefix + body + LineSuffix;
    assert line[..|LinePrefix|] == LinePrefix;
    assert line[|line| - |LineSuffix|..] == LineSuffix;
    assert line[|LinePrefix|..|line| - |LineSuffix|] == body;
    assert body[|key|] == ' ';
    assert forall j :: 0 <= j < |key| ==> body[j] == key[j];
    assert FirstIndex(body, ' ') == |key|;
    assert body[|key|..|key| + |LineMiddle|] == LineMiddle;
    assert body[..|key|] == key;
    assert body[|key| + |LineMiddle|..] == text;
  }

  /** A configuration line holds no newline of its own. */
  lemma ConfigLineOneLine(key: string, v: Option<string>)
    requires '\n' !in key && '\n' !in ValueText(v)
    ensures '\n' !in ConfigLine(key, v)
  {
    assert '\n' !in LinePrefix && '\n' !in LineMiddle && '\n' !in LineSuffix;
  }

  /** The block of line 363, for the lines `ConfigLines` writes from a
      non-empty map: it splits back into those lines, and line `j` reads
      back as the `j`-th key and its value's text, when no key holds a
      blank or a newline and no value a newline. */
  lemma ConfigBlockRoundTrip(args: ArgMap, lines: seq<string>)
    requires args.Valid() && |args.keys| >= 1
    requires |lines| == |args.keys|
    requires forall j :: 0 <= j < |lines| ==> lines[j] == ConfigLine(args.keys[j], args.vals[args.keys[j]])
    requires forall k :: k in args.keys ==> ' ' !in k && '\n' !in k
    requires forall k :: k in args.vals ==> '\n' !in ValueText(args.vals[k])
    ensures Split(Join(lines, '\n'), '\n') == lines
    ensures forall j :: 0 <= j < |lines| ==>
      ParseConfigLine(Split(Join(lines, '\n'), '\n')[j]) == Some((args.keys[j], ValueText(args.vals[args.keys[j]])))
  {
    forall j | 0 <= j < |lines| ensures '\n' !in lines[j] {
      assert args.keys[j] in args.keys;
      ConfigLineOneLine(args.keys[j], args.vals[args.keys[j]]);
    }
    SplitJoin(lines, '\n');
    forall j | 0 <= j < |lines|
      ensures ParseConfigLine(lines[j]) == Some((args.keys[j], ValueText(args.vals[args.keys[j]])))
    {
      assert args.keys[j] in args.keys;
      ConfigLineRoundTrip(args.keys[j], args.vals[args.keys[j]]);
    }
  }
}
