/** The command-line tokenizer of `snoop_pism`
    (topo/modele_pism_inputs.py:195-206): it walks the whitespace-split
    command line stored in a PISM state file with a cursor and records each
    `-name` token with the token after it as its value, or with no value. */
module CommandLine {
  import opened Wrappers
  import opened Strings
  import opened ArgMaps

  /** Both ways the loop fails are `IndexError`s raised at line 201. */
  datatype TokenizeError =
    | MissingValue(flag: nat)   // `cmd[i+1]` read past the end: the flag at `flag` is the last token
    | ShortDashToken(at: nat)   // `cmd[i+1][2]` read on a two-character token such as `-b` or `-5`

  /** `t.startswith('-')` */
  predicate IsDash(t: string) {
    |t| > 0 && t[0] == '-'
  }

  /** What the loop does with the dash token at cursor `i`, given the token
      after it: take that token as the value (it does not start with a dash,
      or its third character is a digit, as in `-100`), record the flag with
      no value (`-1.5`, `-Mx`, a lone `-`), or fail. */
  datatype Step = Skip | Flag | FlagWithValue | Fail(error: TokenizeError)

  function StepAt(cmd: seq<string>, i: nat): Step
    requires i < |cmd|
  {
    if !IsDash(cmd[i]) then Skip
    else if i + 1 == |cmd| then Fail(MissingValue(i))
    else
      var next := cmd[i + 1];
      if !IsDash(next) then FlagWithValue
      else if |next| <= 1 then Flag
      else if |next| == 2 then Fail(ShortDashToken(i + 1))
      else if IsDigit(next[2]) then FlagWithValue
      else Flag
  }

  /** Some dash token at or after `i` names the key `k`. */
  ghost predicate FlagNamed(cmd: seq<string>, i: nat, k: string) {
    exists j :: i <= j < |cmd| && IsDash(cmd[j]) && cmd[j][1..] == k
  }

  /** The loop from cursor `i` on, with `acc` the map built so far. */
  function Run(cmd: seq<string>, i: nat, acc: ArgMap): (r: Result<ArgMap, TokenizeError>)
    requires i <= |cmd| && acc.Valid()
    ensures r.Ok? ==> r.value.Valid() && acc.keys <= r.value.keys
    ensures r.Err? && r.error.MissingValue? ==> r.error.flag == |cmd| - 1 && IsDash(cmd[|cmd| - 1])
    ensures r.Err? && r.error.ShortDashToken? ==>
      var at := r.error.at;
      0 < at < |cmd| && IsDash(cmd[at - 1]) && IsDash(cmd[at]) && |cmd[at]| == 2
    decreases |cmd| - i
  {
    if i == |cmd| then Ok(acc)
    else
      match StepAt(cmd, i)
      case Skip => Run(cmd, i + 1, acc)
      case Flag => Run(cmd, i + 1, acc.Set(cmd[i][1..], None))
      case FlagWithValue => Run(cmd, i + 2, acc.Set(cmd[i][1..], Some(cmd[i + 1])))
      case Fail(e) => Err(e)
  }

  lemma {:induction false} RunKeysAreFlags(cmd: seq<string>, i: nat, acc: ArgMap, k: string)
    requires i <= |cmd| && acc.Valid()
    requires Run(cmd, i, acc).Ok? && k in Run(cmd, i, acc).value.vals && k !in acc.vals
    ensures FlagNamed(cmd, i, k)
    decreases |cmd| - i
  {
    match StepAt(cmd, i)
    case Skip =>
      RunKeysAreFlags(cmd, i + 1, acc, k);
    case Flag =>
      if k != cmd[i][1..] {
        RunKeysAreFlags(cmd, i + 1, acc.Set(cmd[i][1..], None), k);
      }
    case FlagWithValue =>
      if k != cmd[i][1..] {
        RunKeysAreFlags(cmd, i + 2, acc.Set(cmd[i][1..], Some(cmd[i + 1])), k);
      }
  }

  /** Every key of a parsed command line is the name of one of its dash
      tokens, without the dash: no key is made up. */
  lemma ParsedKeysAreFlags(cmd: seq<string>, k: string)
    requires Parse(cmd).Ok? && k in Parse(cmd).value.vals
    ensures exists j :: 0 <= j < |cmd| && IsDash(cmd[j]) && cmd[j][1..] == k
  {
    RunKeysAreFlags(cmd, 0, Empty(), k);
  }

  /** The argument map a command line parses to. */
  function Parse(cmd: seq<string>): Result<ArgMap, TokenizeError> {
    Run(cmd, 0, Empty())
  }

  /** The loop at lines 196-206, building the `OrderedDict` in place. */
  method Tokenize(cmd: seq<string>) returns (r: Result<ArgMap, TokenizeError>)
    ensures r == Parse(cmd)
    ensures r.Ok? ==> r.value.Valid()
  {
    var args := Empty();
    var i := 0;
    while i < |cmd|
      invariant 0 <= i <= |cmd|
      invariant args.Valid()
      invariant Run(cmd, i, args) == Parse(cmd)
    {
      if IsDash(cmd[i]) {
        if i + 1 >= |cmd| {
          RunStops(cmd, i, args);
          return Err(MissingValue(i));
        }
        var next := cmd[i + 1];
        var takesValue: bool;
        if !IsDash(next) {
          takesValue := true;
        } else if |next| > 1 {
          if |next| <= 2 {
            RunStops(cmd, i, args);
            return Err(ShortDashToken(i + 1));
          }
          takesValue := IsDigit(next[2]);
        } else {
          takesValue := false;
        }
        var key := cmd[i][1..];
        if takesValue {
          RunTakesValue(cmd, i, args);
          args := args.Set(key, Some(next));
          i := i + 2;
        } else {
          RunRecordsFlag(cmd, i, args);
          args := args.Set(key, None);
          i := i + 1;
        }
      } else {
        RunSkipsWord(cmd, i, args);
        i := i + 1;
      }
    }
    return Ok(args);
  }

  /** A dash token that the loop reads as a flag when it follows another flag. */
  predicate ReadAsFlag(t: string) {
    IsDash(t) && (|t| == 1 || (|t| > 2 && !IsDigit(t[2])))
  }

  /** A token that the loop takes as the value of the flag before it. */
  predicate TakenAsValue(t: string) {
    !IsDash(t) || (|t| > 2 && IsDigit(t[2]))
  }

  /** Every token after a flag is taken as its value, read as the next flag,
      or makes the loop fail, and only one of these. */
  lemma NextTokenTrichotomy(cmd: seq<string>, i: nat)
    requires i + 1 < |cmd| && IsDash(cmd[i])
    ensures StepAt(cmd, i) == FlagWithValue <==> TakenAsValue(cmd[i + 1])
    ensures StepAt(cmd, i) == Flag <==> ReadAsFlag(cmd[i + 1])
    ensures StepAt(cmd, i).Fail? <==> IsDash(cmd[i + 1]) && |cmd[i + 1]| == 2
  {
  }

  lemma {:induction false} RunFailsBeforeTrailingFlag(cmd: seq<string>, i: nat, acc: ArgMap)
    requires i < |cmd| && acc.Valid()
    requires IsDash(cmd[|cmd| - 1]) && !TakenAsValue(cmd[|cmd| - 1])
    ensures Run(cmd, i, acc).Err?
    decreases |cmd| - i
  {
    match StepAt(cmd, i)
    case Skip =>
      RunFailsBeforeTrailingFlag(cmd, i + 1, acc);
    case Flag =>
      RunFailsBeforeTrailingFlag(cmd, i + 1, acc.Set(cmd[i][1..], None));
    case FlagWithValue =>
      if i + 2 < |cmd| {
        RunFailsBeforeTrailingFlag(cmd, i + 2, acc.Set(cmd[i][1..], Some(cmd[i + 1])));
      } else {
        assert false;
      }
    case Fail(_) =>
  }

  /** A command line whose last token is a flag that could not be a value
      (`-o`, `-bootstrap`, `-1.5`) never parses: the cursor reaches that
      token, or fails earlier, and `cmd[i+1]` is read past the end. */
  lemma TrailingFlagFails(cmd: seq<string>)
    requires |cmd| > 0 && IsDash(cmd[|cmd| - 1]) && !TakenAsValue(cmd[|cmd| - 1])
    ensures Parse(cmd).Err?
  {
    RunFailsBeforeTrailingFlag(cmd, 0, Empty());
  }

  /** One argument as it appears on a command line. */
  datatype Entry = Entry(name: string, value: Option<string>)

  /** The tokens of a list of arguments: `-name` and, when there is one, the value. */
  function Render(es: seq<Entry>): seq<string>
    decreases |es|
  {
    if es == [] then []
    else ["-" + es[0].name] + (if es[0].value.Some? then [es[0].value.value] else []) + Render(es[1..])
  }

  /** The map the arguments give when stored one after the other. */
  function Build(acc: ArgMap, es: seq<Entry>): (m: ArgMap)
    requires acc.Valid()
    ensures m.Valid()
    decreases |es|
  {
    if es == [] then acc else Build(acc.Set(es[0].name, es[0].value), es[1..])
  }

  /** The arguments render to tokens the loop reads back as written: every
      value is taken as a value, and every flag without a value is followed
      by another flag that the loop reads as a flag. */
  ghost predicate Unambiguous(es: seq<Entry>) {
    forall j :: 0 <= j < |es| ==> ReadsBack(es, j)
  }

  ghost predicate ReadsBack(es: seq<Entry>, j: nat)
    requires j < |es|
  {
    && (es[j].value.Some? ==> TakenAsValue(es[j].value.value))
    && (es[j].value.None? ==> j + 1 < |es| && ReadAsFlag("-" + es[j + 1].name))
  }

  lemma UnambiguousTail(es: seq<Entry>)
    requires es != [] && Unambiguous(es)
    ensures Unambiguous(es[1..])
  {
    var tail := es[1..];
    forall j | 0 <= j < |tail| ensures ReadsBack(tail, j) {
      assert ReadsBack(es, j + 1);
      assert tail[j] == es[j + 1];
      if j + 1 < |tail| {
        assert tail[j + 1] == es[j + 2];
      }
    }
  }

  lemma {:induction false} RunRendered(cmd: seq<string>, i: nat, es: seq<Entry>, acc: ArgMap)
    requires i <= |cmd| && cmd[i..] == Render(es)
    requires Unambiguous(es) && acc.Valid()
    ensures Run(cmd, i, acc) == Ok(Build(acc, es))
    decreases |es|
  {
    if es == [] {
      assert |cmd[i..]| == 0;
    } else {
      var e := es[0];
      assert ReadsBack(es, 0);
      UnambiguousTail(es);
      var next := acc.Set(e.name, e.value);
      if e.value.Some? {
        RenderedWithValue(cmd, i, es);
        RunTakesValue(cmd, i, acc);
        RunRendered(cmd, i + 2, es[1..], next);
      } else {
        RenderedWithoutValue(cmd, i, es);
        RunRecordsFlag(cmd, i, acc);
        RunRendered(cmd, i + 1, es[1..], next);
      }
    }
  }

  /** The tokens of an argument with a value: the flag, the value, the rest. */
  lemma RenderedWithValue(cmd: seq<string>, i: nat, es: seq<Entry>)
    requires i <= |cmd| && cmd[i..] == Render(es)
    requires es != [] && es[0].value.Some?
    ensures i + 2 <= |cmd| && cmd[i + 2..] == Render(es[1..])
    ensures cmd[i] == "-" + es[0].name && cmd[i][1..] == es[0].name && IsDash(cmd[i])
    ensures cmd[i + 1] == es[0].value.value
  {
    var flag := "-" + es[0].name;
    var v := es[0].value.value;
    assert cmd[i..] == [flag, v] + Render(es[1..]);
    assert cmd[i] == cmd[i..][0];
    assert cmd[i + 1] == cmd[i..][1];
    assert cmd[i + 2..] == cmd[i..][2..];
    assert flag[1..] == es[0].name;
  }

  /** The tokens of a flag without a value: the flag, then the next flag. */
  lemma RenderedWithoutValue(cmd: seq<string>, i: nat, es: seq<Entry>)
    requires i <= |cmd| && cmd[i..] == Render(es)
    requires |es| >= 2 && es[0].value.None?
    ensures i + 1 < |cmd| && cmd[i + 1..] == Render(es[1..])
    ensures cmd[i] == "-" + es[0].name && cmd[i][1..] == es[0].name && IsDash(cmd[i])
    ensures cmd[i + 1] == "-" + es[1].name
  {
    var flag := "-" + es[0].name;
    var rest := Render(es[1..]);
    assert cmd[i..] == [flag] + rest;
    assert cmd[i] == cmd[i..][0];
    assert cmd[i + 1..] == cmd[i..][1..];
    assert rest[0] == "-" + es[1].name;
    assert flag[1..] == es[0].name;
  }

  lemma {:induction false} RunSkipsWords(cmd: seq<string>, i: nat, j: nat, acc: ArgMap)
    requires i <= j <= |cmd| && acc.Valid()
    requires forall k :: i <= k < j ==> !IsDash(cmd[k])
    ensures Run(cmd, i, acc) == Run(cmd, j, acc)
    decreases j - i
  {
    if i < j {
      RunSkipsWords(cmd, i + 1, j, acc);
    }
  }

  /** Words that are not flags (the program name first) are skipped, and the
      arguments after them are read back exactly as they were written. */
  lemma ParseRendered(words: seq<string>, es: seq<Entry>)
    requires forall k :: 0 <= k < |words| ==> !IsDash(words[k])
    requires Unambiguous(es)
    ensures Parse(words + Render(es)) == Ok(Build(Empty(), es))
  {
    var cmd := words + Render(es);
    assert forall k :: 0 <= k < |words| ==> cmd[k] == words[k];
    RunSkipsWords(cmd, 0, |words|, Empty());
    assert cmd[|words|..] == Render(es);
    RunRendered(cmd, |words|, es, Empty());
  }

  function Names(es: seq<Entry>): (ns: seq<string>)
    ensures |ns| == |es|
    decreases |es|
  {
    if es == [] then [] else [es[0].name] + Names(es[1..])
  }

  predicate DistinctNames(es: seq<Entry>) {
    forall i, j :: 0 <= i < j < |es| ==> es[i].name != es[j].name
  }

  /** The names are those of the arguments, position by position. */
  lemma {:induction false} NamesAt(es: seq<Entry>, j: nat)
    requires j < |es|
    ensures Names(es)[j] == es[j].name
    decreases |es|
  {
    if j > 0 {
      NamesAt(es[1..], j - 1);
    }
  }

  lemma DistinctNamesDistinct(es: seq<Entry>)
    requires DistinctNames(es)
    ensures Distinct(Names(es))
  {
    forall i, j | 0 <= i < j < |es| ensures Names(es)[i] != Names(es)[j] {
      NamesAt(es, i);
      NamesAt(es, j);
    }
  }

  /** Arguments whose names are distinct and new to the map are appended
      to the keys in their order. */
  lemma {:induction false} BuildKeys(acc: ArgMap, es: seq<Entry>)
    requires acc.Valid() && Distinct(acc.keys + Names(es))
    ensures Build(acc, es).keys == acc.keys + Names(es)
    decreases |es|
  {
    if es != [] {
      var all := acc.keys + Names(es);
      var n := es[0].name;
      assert all[|acc.keys|] == n;
      assert n !in acc.vals by {
        forall i | 0 <= i < |acc.keys| ensures acc.keys[i] != n {
          assert all[i] == acc.keys[i];
        }
      }
      var next := acc.Set(n, es[0].value);
      assert next.keys + Names(es[1..]) == all;
      BuildKeys(next, es[1..]);
    }
  }

  /** The round trip of the tokenizer on a well-formed command line: the
      names come back in their order, each with the value written after it. */
  lemma ParseRenderedDistinct(words: seq<string>, es: seq<Entry>)
    requires forall k :: 0 <= k < |words| ==> !IsDash(words[k])
    requires Unambiguous(es) && DistinctNames(es)
    ensures Parse(words + Render(es)).Ok?
    ensures Parse(words + Render(es)).value.keys == Names(es)
    ensures forall j :: 0 <= j < |es| ==>
      es[j].name in Parse(words + Render(es)).value.vals && Parse(words + Render(es)).value.vals[es[j].name] == es[j].value
  {
    ParseRendered(words, es);
    DistinctNamesDistinct(es);
    assert Empty().keys + Names(es) == Names(es);
    BuildKeys(Empty(), es);
    forall j | 0 <= j < |es|
      ensures es[j].name in Build(Empty(), es).vals && Build(Empty(), es).vals[es[j].name] == es[j].value
    {
      BuildLast(Empty(), es, j);
    }
  }

  /** The names of `ns` that are not in `seen`, each once, where it first
      occurs: the keys an `OrderedDict` ends with when the names are assigned
      in turn to one that already holds `seen`. */
  function Firsts(seen: seq<string>, ns: seq<string>): seq<string>
    decreases |ns|
  {
    if ns == [] then []
    else if ns[0] in seen then Firsts(seen, ns[1..])
    else [ns[0]] + Firsts(seen + [ns[0]], ns[1..])
  }

  /** The first occurrences hold every new name, and each only once. */
  lemma {:induction false} FirstsOnce(seen: seq<string>, ns: seq<string>)
    ensures forall x :: x in Firsts(seen, ns) <==> x in ns && x !in seen
    ensures Distinct(Firsts(seen, ns))
    decreases |ns|
  {
    if ns != [] {
      var h := ns[0];
      assert forall x :: x in ns <==> x == h || x in ns[1..];
      if h in seen {
        FirstsOnce(seen, ns[1..]);
      } else {
        var rest := Firsts(seen + [h], ns[1..]);
        FirstsOnce(seen + [h], ns[1..]);
        assert forall i :: 0 <= i < |rest| ==> rest[i] != h by {
          forall i | 0 <= i < |rest| ensures rest[i] != h {
            assert rest[i] in rest;
          }
        }
        assert Firsts(seen, ns) == [h] + rest;
      }
    }
  }

  /** Storing arguments appends the keys of their names that are new, in
      the order they first occur. */
  lemma {:induction false} BuildKeysFirsts(acc: ArgMap, es: seq<Entry>)
    requires acc.Valid()
    ensures Build(acc, es).keys == acc.keys + Firsts(acc.keys, Names(es))
    decreases |es|
  {
    if es != [] {
      var rest := Names(es[1..]);
      BuildKeysFirsts(acc.Set(es[0].name, es[0].value), es[1..]);
      assert Names(es) == [es[0].name] + rest;
      FirstsAfterSet(acc, es[0].name, es[0].value, rest);
    }
  }

  /** Storing one name, then the rest, gives the first occurrences of all. */
  lemma FirstsAfterSet(acc: ArgMap, n: string, v: Option<string>, rest: seq<string>)
    requires acc.Valid()
    ensures acc.Set(n, v).keys + Firsts(acc.Set(n, v).keys, rest) == acc.keys + Firsts(acc.keys, [n] + rest)
  {
    FirstsCons(acc.keys, n, rest);
    assert n in acc.vals <==> n in acc.keys;
    if n !in acc.keys {
      var later := Firsts(acc.keys + [n], rest);
      assert acc.keys + [n] + later == acc.keys + ([n] + later);
    }
  }

  lemma FirstsCons(seen: seq<string>, n: string, ns: seq<string>)
    ensures Firsts(seen, [n] + ns)
      == if n in seen then Firsts(seen, ns) else [n] + Firsts(seen + [n], ns)
  {
    assert ([n] + ns)[0] == n && ([n] + ns)[1..] == ns;
  }

  /** A name that already occurred does not move or add a key. */
  lemma {:induction false} FirstsSkipRepeat(seen: seq<string>, xs: seq<string>, x: string, ys: seq<string>)
    requires x in seen + xs
    ensures Firsts(seen, xs + [x] + ys) == Firsts(seen, xs + ys)
    decreases |xs|
  {
    if xs == [] {
      assert xs + [x] + ys == [x] + ys && xs + ys == ys;
      assert ([x] + ys)[1..] == ys;
    } else {
      var h := xs[0];
      assert (xs + [x] + ys)[0] == h && (xs + [x] + ys)[1..] == xs[1..] + [x] + ys;
      assert (xs + ys)[0] == h && (xs + ys)[1..] == xs[1..] + ys;
      if h in seen {
        FirstsSkipRepeat(seen, xs[1..], x, ys);
      } else {
        assert x in (seen + [h]) + xs[1..];
        FirstsSkipRepeat(seen + [h], xs[1..], x, ys);
      }
    }
  }

  /** Leaving out a name that occurred before changes no first occurrence. */
  lemma FirstsDropRepeat(ns: seq<string>, j: nat, j': nat)
    requires j < j' < |ns| && ns[j] == ns[j']
    ensures Firsts([], ns) == Firsts([], ns[..j'] + ns[j' + 1..])
  {
    var xs := ns[..j'];
    var ys := ns[j' + 1..];
    assert xs[j] == ns[j'];
    assert [] + xs == xs;
    SplitAtIndex(ns, j');
    FirstsSkipRepeat([], xs, ns[j'], ys);
  }

  /** A sequence is its part before `k`, its element at `k` and its part after. */
  lemma SplitAtIndex(ns: seq<string>, k: nat)
    requires k < |ns|
    ensures ns[..k] + [ns[k]] + ns[k + 1..] == ns
  {
  }

  /** A flag given twice keeps the place of its first occurrence and the
      value of its last: the keys are the names in order of first
      occurrence, and they stay the same when the later occurrence is left
      out. */
  lemma RepeatedFlag(words: seq<string>, es: seq<Entry>, j: nat, j': nat)
    requires forall k :: 0 <= k < |words| ==> !IsDash(words[k])
    requires Unambiguous(es) && j < j' < |es| && es[j].name == es[j'].name
    requires forall k :: j' < k < |es| ==> es[k].name != es[j'].name
    ensures Parse(words + Render(es)).Ok?
    ensures es[j].name in Parse(words + Render(es)).value.vals
    ensures Parse(words + Render(es)).value.vals[es[j].name] == es[j'].value
    ensures Parse(words + Render(es)).value.keys == Firsts([], Names(es))
    ensures Firsts([], Names(es)) == Firsts([], Names(es)[..j'] + Names(es)[j' + 1..])
  {
    ParseRendered(words, es);
    BuildLast(Empty(), es, j');
    BuildKeysFirsts(Empty(), es);
    NamesAt(es, j);
    NamesAt(es, j');
    FirstsDropRepeat(Names(es), j, j');
  }

  lemma {:induction false} BuildLast(acc: ArgMap, es: seq<Entry>, j: nat)
    requires acc.Valid() && j < |es|
    requires forall k :: j < k < |es| ==> es[k].name != es[j].name
    ensures es[j].name in Build(acc, es).vals && Build(acc, es).vals[es[j].name] == es[j].value
    decreases |es|
  {
    var next := acc.Set(es[0].name, es[0].value);
    if j == 0 {
      BuildKeeps(next, es[1..], es[0].name);
    } else {
      BuildLast(next, es[1..], j - 1);
    }
  }

  lemma {:induction false} BuildKeeps(acc: ArgMap, es: seq<Entry>, k: string)
    requires acc.Valid() && k in acc.vals
    requires forall j :: 0 <= j < |es| ==> es[j].name != k
    ensures k in Build(acc, es).vals && Build(acc, es).vals[k] == acc.vals[k]
    decreases |es|
  {
    if es != [] {
      BuildKeeps(acc.Set(es[0].name, es[0].value), es[1..], k);
    }
  }

  /** At a step that fails, the loop stops with that error. */
  lemma RunStops(cmd: seq<string>, i: nat, acc: ArgMap)
    requires i < |cmd| && acc.Valid() && StepAt(cmd, i).Fail?
    ensures Run(cmd, i, acc) == Err(StepAt(cmd, i).error)
  {
  }

  /** The value rule of line 201, at a cursor on a dash token: the next
      token is taken as the value, and the cursor moves past both. */
  lemma RunTakesValue(cmd: seq<string>, i: nat, acc: ArgMap)
    requires i + 1 < |cmd| && acc.Valid()
    requires IsDash(cmd[i]) && TakenAsValue(cmd[i + 1])
    ensures Run(cmd, i, acc) == Run(cmd, i + 2, acc.Set(cmd[i][1..], Some(cmd[i + 1])))
  {
  }

  /** Otherwise, when the next token reads as a flag, the flag is stored
      with no value and the cursor moves on by one. */
  lemma RunRecordsFlag(cmd: seq<string>, i: nat, acc: ArgMap)
    requires i + 1 < |cmd| && acc.Valid()
    requires IsDash(cmd[i]) && ReadAsFlag(cmd[i + 1])
    ensures Run(cmd, i, acc) == Run(cmd, i + 1, acc.Set(cmd[i][1..], None))
  {
  }

  /** A word that does not start with a dash is skipped. */
  lemma RunSkipsWord(cmd: seq<string>, i: nat, acc: ArgMap)
    requires i < |cmd| && acc.Valid() && !IsDash(cmd[i])
    ensures Run(cmd, i, acc) == Run(cmd, i + 1, acc)
  {
  }

  /** A PISM command line: `-bootstrap` before `-ys` is a flag without a
      value, and `-100` after `-ys` is a value because its third character
      is a digit. */
  lemma ExampleNegativeValue()
    ensures Parse(["pismr", "-bootstrap", "-ys", "-100", "-o", "out.nc"])
      == Ok(ArgMap(["bootstrap", "ys", "o"],
                   map["bootstrap" := None, "ys" := Some("-100"), "o" := Some("out.nc")]))
  {
    ExampleNegativeValueRun();
    ExampleNegativeValueMap();
  }

  lemma ExampleNegativeValueRun()
    ensures Parse(["pismr", "-bootstrap", "-ys", "-100", "-o", "out.nc"])
      == Ok(Empty().Set("bootstrap", None).Set("ys", Some("-100")).Set("o", Some("out.nc")))
  {
    var cmd := ["pismr", "-bootstrap", "-ys", "-100", "-o", "out.nc"];
    assert cmd[1][1..] == "bootstrap" && cmd[2][1..] == "ys" && cmd[4][1..] == "o";
    var m1 := Empty().Set("bootstrap", None);
    var m2 := m1.Set("ys", Some("-100"));
    RunSkipsWord(cmd, 0, Empty());
    RunRecordsFlag(cmd, 1, Empty());
    RunTakesValue(cmd, 2, m1);
    RunTakesValue(cmd, 4, m2);
  }

  lemma ExampleNegativeValueMap()
    ensures Empty().Set("bootstrap", None).Set("ys", Some("-100")).Set("o", Some("out.nc"))
      == ArgMap(["bootstrap", "ys", "o"],
                map["bootstrap" := None, "ys" := Some("-100"), "o" := Some("out.nc")])
  {
    assert "ys" != "bootstrap" && "o" != "bootstrap" && "o" != "ys";
  }

  /** `-1.5` is not a value: it is recorded as a flag named `1.5`. */
  lemma ExampleDecimalIsAFlag()
    ensures Parse(["pismr", "-x", "-1.5", "-yy", "3"])
      == Ok(ArgMap(["x", "1.5", "yy"], map["x" := None, "1.5" := None, "yy" := Some("3")]))
  {
    ExampleDecimalRun();
    ExampleDecimalMap();
  }

  lemma ExampleDecimalRun()
    ensures Parse(["pismr", "-x", "-1.5", "-yy", "3"])
      == Ok(Empty().Set("x", None).Set("1.5", None).Set("yy", Some("3")))
  {
    var cmd := ["pismr", "-x", "-1.5", "-yy", "3"];
    assert cmd[1][1..] == "x" && cmd[2][1..] == "1.5" && cmd[3][1..] == "yy";
    var m1 := Empty().Set("x", None);
    var m2 := m1.Set("1.5", None);
    RunSkipsWord(cmd, 0, Empty());
    RunRecordsFlag(cmd, 1, Empty());
    RunRecordsFlag(cmd, 2, m1);
    RunTakesValue(cmd, 3, m2);
  }

  lemma ExampleDecimalMap()
    ensures Empty().Set("x", None).Set("1.5", None).Set("yy", Some("3"))
      == ArgMap(["x", "1.5", "yy"], map["x" := None, "1.5" := None, "yy" := Some("3")])
  {
    assert "1.5" != "x" && "yy" != "x" && "yy" != "1.5";
  }

  /** A flag read as a flag at the end of the line makes the loop read past the end. */
  lemma ExampleTrailingDecimal()
    ensures Parse(["pismr", "-x", "-1.5"]) == Err(MissingValue(2))
  {
    var short := ["pismr", "-x", "-1.5"];
    assert short[1][1..] == "x";
    RunSkipsWord(short, 0, Empty());
    RunRecordsFlag(short, 1, Empty());
    assert Run(short, 2, Empty().Set("x", None)) == Err(MissingValue(2));
  }

  /** A one-letter flag after a flag makes the loop index past its end. */
  lemma ExampleShortFlagFails()
    ensures Parse(["pismr", "-bootstrap", "-i", "in.nc"]) == Err(ShortDashToken(2))
    ensures Parse(["pismr", "-dt", "-5"]) == Err(ShortDashToken(2))
  {
  }
}
