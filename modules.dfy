/** The module counts of `update_repos_modules_weights`
    (backend/update_data.py): every changed file of every commit adds one
    to the count of the module its path belongs to. */
module ModuleCounts {
  import opened Text
  import opened Records

  /** The module of a path: its first two `/`-segments joined by `/` when
      it has more than two segments, its first segment otherwise. */
  function ModuleKey(filename: string): string {
    var parts := SplitOn(filename, '/');
    if |parts| > 2 then JoinOn(parts[..2], '/') else parts[0]
  }

  /** A path of three or more segments belongs to its first two directories. */
  lemma ModuleKeyDeep(a: string, b: string, rest: string)
    requires '/' !in a && '/' !in b
    ensures ModuleKey(a + "/" + b + "/" + rest) == a + "/" + b
  {
    var f := a + "/" + b + "/" + rest;
    var tail := SplitOn(rest, '/');
    assert SplitOn(f, '/') == [a] + ([b] + tail) by {
      SplitOnCons(b, '/', rest);
      assert f == a + "/" + (b + "/" + rest);
      SplitOnCons(a, '/', b + "/" + rest);
    }
    assert JoinOn([a, b], '/') == a + "/" + b by {
      assert [a, b][1..] == [b];
    }
    ModuleKeyOfParts(f, [a] + ([b] + tail));
  }

  lemma ModuleKeyOfParts(f: string, parts: seq<string>)
    requires SplitOn(f, '/') == parts && |parts| > 2
    ensures ModuleKey(f) == JoinOn([parts[0], parts[1]], '/')
  {
    assert parts[..2] == [parts[0], parts[1]];
  }

  /** A path of two segments belongs to its first one. */
  lemma ModuleKeyTwo(a: string, b: string)
    requires '/' !in a && '/' !in b
    ensures ModuleKey(a + "/" + b) == a
  {
    SplitOnCons(a, '/', b);
  }

  /** A top-level file is its own module. */
  lemma ModuleKeyTop(a: string)
    requires '/' !in a
    ensures ModuleKey(a) == a
  {
  }

  /** The changed paths of a commit list, commit by commit, file by file. */
  function Paths(commits: seq<Commit>): seq<string> {
    if commits == [] then [] else Paths(commits[..|commits| - 1]) + commits[|commits| - 1].files
  }

  /** How many of `paths` belong to module `m`. */
  function Touches(paths: seq<string>, m: string): nat {
    if paths == [] then 0
    else Touches(paths[..|paths| - 1], m) + (if ModuleKey(paths[|paths| - 1]) == m then 1 else 0)
  }

  lemma {:induction false} TouchesAppend(a: seq<string>, b: seq<string>, m: string)
    ensures Touches(a + b, m) == Touches(a, m) + Touches(b, m)
  {
    if b == [] {
      assert a + b == a;
    } else {
      assert (a + b)[..|a + b| - 1] == a + b[..|b| - 1];
      TouchesAppend(a, b[..|b| - 1], m);
    }
  }

  /** The counts grow by exactly the touches of each added commit. */
  lemma PathsTouches(commits: seq<Commit>, c: Commit, m: string)
    ensures Touches(Paths(commits + [c]), m) == Touches(Paths(commits), m) + Touches(c.files, m)
  {
    assert (commits + [c])[..|commits|] == commits;
    TouchesAppend(Paths(commits), c.files, m);
  }

  /** A module is counted when some path belongs to it, never otherwise. */
  lemma {:induction false} TouchesPositive(paths: seq<string>, m: string)
    ensures Touches(paths, m) > 0 <==> exists p :: p in paths && ModuleKey(p) == m
  {
    if paths != [] {
      var init := paths[..|paths| - 1];
      var last := paths[|paths| - 1];
      TouchesPositive(init, m);
      assert paths == init + [last];
      if ModuleKey(last) == m {
        assert last in paths;
      } else if exists p :: p in paths && ModuleKey(p) == m {
        var p :| p in paths && ModuleKey(p) == m;
        assert p in init;
      }
    }
  }

  /** The counter dict after `paths`, one `get(k, 0) + 1` per path. */
  function Tally(paths: seq<string>): map<string, nat> {
    if paths == [] then map[] else Bump(Tally(paths[..|paths| - 1]), ModuleKey(paths[|paths| - 1]))
  }

  /** `modules[k] = modules.get(k, 0) + 1`. */
  function Bump(t: map<string, nat>, k: string): map<string, nat> {
    t[k := (if k in t then t[k] else 0) + 1]
  }

  lemma TallySnoc(paths: seq<string>, p: string)
    ensures Tally(paths + [p]) == Bump(Tally(paths), ModuleKey(p))
  {
    assert (paths + [p])[..|paths|] == paths;
  }

  /** The counter holds a module exactly when some path belongs to it, with
      the number of paths that do. */
  lemma {:induction false} TallyCounts(paths: seq<string>, m: string)
    ensures m in Tally(paths) <==> Touches(paths, m) > 0
    ensures m in Tally(paths) ==> Tally(paths)[m] == Touches(paths, m)
  {
    if paths != [] {
      TallyCounts(paths[..|paths| - 1], m);
    }
  }

  /** The inner loop over one commit's files, on a counter that holds the
      tally of the paths before them. */
  method CountFiles(modules0: map<string, nat>, ghost before: seq<string>, files: seq<string>)
    returns (modules: map<string, nat>)
    requires modules0 == Tally(before)
    ensures modules == Tally(before + files)
  {
    modules := modules0;
    assert before + files[..0] == before;
    for j := 0 to |files|
      invariant modules == Tally(before + files[..j])
    {
      assert before + files[..j + 1] == (before + files[..j]) + [files[j]];
      TallySnoc(before + files[..j], files[j]);
      var key := ModuleKey(files[j]);
      modules := Bump(modules, key);
    }
    assert files[..|files|] == files;
  }

  /** The `modules` dict of one repository: for each commit, for each of its
      files, `modules[module] = modules.get(module, 0) + 1`. */
  method CountModules(commits: seq<Commit>) returns (modules: map<string, nat>)
    ensures modules == Tally(Paths(commits))
    ensures forall m :: m in modules <==> Touches(Paths(commits), m) > 0
    ensures forall m :: m in modules ==> modules[m] == Touches(Paths(commits), m)
  {
    modules := map[];
    for i := 0 to |commits|
      invariant modules == Tally(Paths(commits[..i]))
    {
      modules := CountFiles(modules, Paths(commits[..i]), commits[i].files);
      assert (commits[..i + 1])[..i] == commits[..i];
    }
    assert commits[..|commits|] == commits;
    forall m
      ensures m in modules <==> Touches(Paths(commits), m) > 0
      ensures m in modules ==> modules[m] == Touches(Paths(commits), m)
    {
      TallyCounts(Paths(commits), m);
    }
  }
}
