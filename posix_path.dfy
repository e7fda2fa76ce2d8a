/** The parts of Python's `posixpath` that the modelled code calls:
    `join` of two components, `normpath`, the tail of `split` and the root
    of `splitext`. They work on text only; no file system is consulted. */
module PosixPath {
  import opened Strings

  /** `os.path.join(a, b)`: an absolute `b` replaces `a`; otherwise one
      separator is put between them unless `a` is empty or already ends
      with one. */
  function JoinPath(a: string, b: string): (p: string)
    ensures StartsWith(b, "/") ==> p == b
    ensures !StartsWith(b, "/") ==> StartsWith(p, a) && |b| <= |p| && p[|p| - |b|..] == b
  {
    if StartsWith(b, "/") then b
    else if a == "" || a[|a| - 1] == '/' then a + b
    else a + "/" + b
  }

  /** Number of leading separators `normpath` keeps: POSIX gives exactly
      two leading slashes a meaning of their own, and three or more mean one. */
  function InitialSlashes(p: string): (n: nat)
    ensures n <= 2
    ensures n > 0 <==> StartsWith(p, "/")
  {
    if StartsWith(p, "/") then
      if StartsWith(p, "//") && !StartsWith(p, "///") then 2 else 1
    else 0
  }

  function Slashes(n: nat): (s: string)
    ensures |s| == n && forall j :: 0 <= j < n ==> s[j] == '/'
  {
    seq(n, _ => '/')
  }

  /** A list of components is normal when no component is empty, `.` or
      holds a separator, and `..` occurs only as a leading run (and, in an
      absolute path, not at all). */
  ghost predicate NormalComponents(comps: seq<string>, absolute: bool) {
    && (forall j :: 0 <= j < |comps| ==> comps[j] != "" && comps[j] != "." && '/' !in comps[j])
    && (forall j :: 0 <= j < |comps| && comps[j] == ".." ==> !absolute)
    && (forall i, j :: 0 <= i < j < |comps| && comps[j] == ".." ==> comps[i] == "..")
  }

  /** The component loop of `normpath`: empty and `.` components vanish,
      `..` removes the component before it unless there is nothing to
      remove (kept in a relative path, dropped at the root of an absolute
      one) or the one before is itself `..`. */
  function Collapse(comps: seq<string>, absolute: bool, kept: seq<string>): (r: seq<string>)
    requires forall j :: 0 <= j < |comps| ==> '/' !in comps[j]
    requires NormalComponents(kept, absolute)
    ensures NormalComponents(r, absolute)
    decreases |comps|
  {
    if comps == [] then kept
    else
      var c := comps[0];
      var next :=
        if c == "" || c == "." then kept
        else if c != ".." || (!absolute && kept == []) || (kept != [] && kept[|kept| - 1] == "..") then kept + [c]
        else if kept != [] then kept[..|kept| - 1]
        else kept;
      Collapse(comps[1..], absolute, next)
  }

  /** `os.path.normpath(p)` */
  function NormPath(p: string): (r: string)
    ensures r != ""
    ensures StartsWith(r, "/") <==> StartsWith(p, "/")
  {
    if p == "" then
      assert "."[0] != '/';
      "."
    else
      var slashes := InitialSlashes(p);
      var comps := Collapse(Split(p, '/'), slashes > 0, []);
      var r := Slashes(slashes) + Join(comps, '/');
      assert slashes > 0 ==> r[0] == '/';
      assert "."[0] != '/';
      if r == "" then "." else r
  }

  /** `os.path.normpath(os.path.join(dir, p))`, how relative paths are made
      absolute against the directory of the state file. */
  function AbsPath(dir: string, p: string): (r: string)
    ensures StartsWith(dir, "/") || StartsWith(p, "/") ==> StartsWith(r, "/")
  {
    NormPath(JoinPath(dir, p))
  }

  /** A normal list of components comes out of the loop unchanged. */
  lemma {:induction false} CollapseNormal(comps: seq<string>, absolute: bool, kept: seq<string>)
    requires forall j :: 0 <= j < |comps| ==> '/' !in comps[j]
    requires NormalComponents(kept + comps, absolute)
    ensures NormalComponents(kept, absolute)
    ensures Collapse(comps, absolute, kept) == kept + comps
    decreases |comps|
  {
    assert forall j :: 0 <= j < |kept| ==> kept[j] == (kept + comps)[j];
    if comps != [] {
      var c := comps[0];
      assert c == (kept + comps)[|kept|];
      assert (kept + [c]) + comps[1..] == kept + comps;
      if c == ".." && kept != [] {
        assert kept[|kept| - 1] == (kept + comps)[|kept| - 1];
      }
      CollapseNormal(comps[1..], absolute, kept + [c]);
    }
  }

  /** `n` empty components, what leading separators split into. */
  function Empties(n: nat): (e: seq<string>)
    ensures |e| == n && forall j :: 0 <= j < n ==> e[j] == ""
  {
    if n == 0 then [] else [""] + Empties(n - 1)
  }

  lemma {:induction false} CollapseEmpties(n: nat, rest: seq<string>, absolute: bool)
    requires forall j :: 0 <= j < |rest| ==> '/' !in rest[j]
    ensures forall j :: 0 <= j < |Empties(n) + rest| ==> '/' !in (Empties(n) + rest)[j]
    ensures Collapse(Empties(n) + rest, absolute, []) == Collapse(rest, absolute, [])
    decreases n
  {
    var all := Empties(n) + rest;
    forall j | 0 <= j < |all| ensures '/' !in all[j] {
      if j >= n { assert all[j] == rest[j - n]; }
    }
    if n > 0 {
      assert all[0] == "";
      assert all[1..] == Empties(n - 1) + rest;
      CollapseEmpties(n - 1, rest, absolute);
      assert Collapse(all, absolute, []) == Collapse(all[1..], absolute, []);
    } else {
      assert all == rest;
    }
  }

  lemma {:induction false} SplitSlashes(n: nat, rest: string)
    ensures Split(Slashes(n) + rest, '/') == Empties(n) + Split(rest, '/')
    decreases n
  {
    if n > 0 {
      var s := Slashes(n) + rest;
      assert s[0] == '/';
      assert s[1..] == Slashes(n - 1) + rest;
      SplitSlashes(n - 1, rest);
      assert Split(s, '/') == [""] + Split(s[1..], '/');
    } else {
      assert Slashes(n) + rest == rest;
    }
  }

  /** Normalising twice is normalising once. */
  lemma NormPathIdempotent(p: string)
    ensures NormPath(NormPath(p)) == NormPath(p)
  {
    var r := NormPath(p);
    if p == "" || r == "." {
      SplitPlain(".", '/');
      assert NormPath(".") == ".";
    } else {
      var slashes := InitialSlashes(p);
      var comps := Collapse(Split(p, '/'), slashes > 0, []);
      KeptSlashes(p);
      NormalComponentsKept(p);
    }
  }

  /** The components of a normalised path collapse to themselves. */
  lemma NormalComponentsKept(p: string)
    requires p != "" && NormPath(p) != "."
    ensures var slashes := InitialSlashes(p);
      Collapse(Split(NormPath(p), '/'), slashes > 0, []) == Collapse(Split(p, '/'), slashes > 0, [])
  {
    var r := NormPath(p);
    var slashes := InitialSlashes(p);
    var comps := Collapse(Split(p, '/'), slashes > 0, []);
    assert r == Slashes(slashes) + Join(comps, '/');
    RejoinedComponents(slashes, comps);
  }

  /** Normal components joined after some separators split and collapse
      back to themselves. */
  lemma RejoinedComponents(slashes: nat, comps: seq<string>)
    requires NormalComponents(comps, slashes > 0)
    ensures Collapse(Split(Slashes(slashes) + Join(comps, '/'), '/'), slashes > 0, []) == comps
  {
    var body := Join(comps, '/');
    // the components are the normal ones, after some empty ones
    SplitSlashes(slashes, body);
    if comps == [] {
      assert Split(body, '/') == [""];
      CollapseEmpties(slashes, [""], slashes > 0);
    } else {
      SplitJoin(comps, '/');
      CollapseEmpties(slashes, comps, slashes > 0);
      CollapseNormal(comps, slashes > 0, []);
      assert [] + comps == comps;
    }
  }

  /** A normalised path keeps the leading separators it was given. */
  lemma KeptSlashes(p: string)
    requires p != "" && NormPath(p) != "."
    ensures InitialSlashes(NormPath(p)) == InitialSlashes(p)
  {
    var r := NormPath(p);
    var slashes := InitialSlashes(p);
    var comps := Collapse(Split(p, '/'), slashes > 0, []);
    var body := Join(comps, '/');
    assert r == Slashes(slashes) + body;
    if comps != [] {
      assert comps[0] != "" && '/' !in comps[0];
      JoinHead(comps);
      assert body[0] == comps[0][0] != '/';
    } else {
      assert body == "";
    }
    assert slashes == 0 ==> r == body && body != "";
    assert slashes > 0 ==> r[0] == '/';
    assert slashes == 2 ==> r[..2] == "//" && (|r| == 2 || r[2] != '/');
    assert slashes == 1 ==> |r| == 1 || r[1] != '/';
  }

  lemma JoinHead(comps: seq<string>)
    requires |comps| >= 1 && |comps[0]| >= 1
    ensures |Join(comps, '/')| >= 1 && Join(comps, '/')[0] == comps[0][0]
  {
  }

  /** The tail of `os.path.split(p)`: everything after the last separator. */
  function Basename(p: string): (r: string)
    ensures '/' !in r
    ensures |r| <= |p| && p[|p| - |r|..] == r
    ensures |r| < |p| ==> p[|p| - |r| - 1] == '/'
    decreases |p|
  {
    if p == [] || p[|p| - 1] == '/' then []
    else
      var q := p[..|p| - 1];
      var b := Basename(q);
      assert p[|p| - |b| - 1..] == q[|q| - |b|..] + [p[|p| - 1]];
      assert |b| < |q| ==> p[|p| - |b| - 2] == q[|q| - |b| - 1];
      b + [p[|p| - 1]]
  }

  /** The index of the last occurrence of `c` in `s`, or -1. */
  function LastIndex(s: string, c: char): (k: int)
    ensures -1 <= k < |s|
    ensures k >= 0 ==> s[k] == c
    ensures forall j :: k < j < |s| ==> s[j] != c
    decreases |s|
  {
    if s == [] then -1
    else if s[|s| - 1] == c then |s| - 1
    else LastIndex(s[..|s| - 1], c)
  }

  /** The root of `os.path.splitext(p)`: `p` without the text from its last
      dot on, provided that dot follows a character of the last component
      that is not itself a dot (so `.bashrc` has no extension). */
  function SplitExtRoot(p: string): (root: string)
    ensures root == p || (|root| < |p| && p[|root|] == '.' && p[..|root|] == root)
  {
    var dot := LastIndex(p, '.');
    var sep := LastIndex(p, '/');
    if dot > sep && exists j | sep + 1 <= j < dot :: p[j] != '.' then p[..dot] else p
  }

  /** Adding an extension and taking it off again gives the name back, for
      any name that is not made of dots only. */
  lemma SplitExtRootOfExtended(name: string, ext: string)
    requires '/' !in name && '.' !in ext && '/' !in ext
    requires exists j :: 0 <= j < |name| && name[j] != '.'
    ensures SplitExtRoot(name + "." + ext) == name
  {
    var p := name + "." + ext;
    var dot := LastIndex(p, '.');
    assert p[|name|] == '.';
    assert forall j :: |name| < j < |p| ==> p[j] == ext[j - |name| - 1];
    assert dot == |name|;
    assert LastIndex(p, '/') == -1 by {
      assert forall j :: 0 <= j < |p| ==> p[j] != '/' by {
        forall j | 0 <= j < |p| ensures p[j] != '/' {
          if j < |name| { assert p[j] == name[j]; }
        }
      }
    }
    var w :| 0 <= w < |name| && name[w] != '.';
    assert p[w] == name[w];
    assert p[..dot] == name;
  }
}
