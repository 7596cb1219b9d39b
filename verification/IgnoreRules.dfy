/** Ignore rules: the last rule that matches a path decides. */
module IgnoreRules {
  import opened Glob
  import opened GlobHalting

  datatype Rule = Rule(raw: string, dirOnly: bool, negate: bool)

  /** The path without its trailing slashes. */
  function Trimmed(path: string): string {
    if path != "" && path[|path| - 1] == '/' then Trimmed(path[..|path| - 1]) else path
  }

  function AfterLastSlash(path: string): (name: string)
    ensures '/' !in name
  {
    if path == "" || path[|path| - 1] == '/' then "" else AfterLastSlash(path[..|path| - 1]) + [path[|path| - 1]]
  }

  /** `filepath.Base`. */
  function BaseName(path: string): string {
    if path == "" then "."
    else
      var name := AfterLastSlash(Trimmed(path));
      if name == "" then "/" else name
  }

  /** What a rule's pattern is matched against: with a slash in it the whole path, else the base name. */
  function Pattern(r: Rule): string {
    if '/' in r.raw && r.raw[0] == '/' then r.raw[1..] else r.raw
  }

  function Subject(r: Rule, path: string): string {
    if '/' in r.raw then path else BaseName(path)
  }

  function Slashes(n: nat): (s: string)
    ensures |s| == n && forall i :: 0 <= i < n ==> s[i] == '/'
  {
    seq(n, _ => '/')
  }

  /** A last component, what comes before it up to a slash, and slashes behind it. */
  ghost predicate EndsIn(path: string, dir: string, name: string, slashes: nat) {
    path == dir + name + Slashes(slashes) && name != "" && '/' !in name && (dir == "" || dir[|dir| - 1] == '/')
  }

  lemma {:induction false} TrimmedIs(stem: string, slashes: nat)
    requires stem == "" || stem[|stem| - 1] != '/'
    ensures Trimmed(stem + Slashes(slashes)) == stem
  {
    var path := stem + Slashes(slashes);
    if slashes > 0 {
      assert path[..|path| - 1] == stem + Slashes(slashes - 1);
      TrimmedIs(stem, slashes - 1);
    } else {
      assert path == stem;
    }
  }

  lemma {:induction false} AfterSlashIs(dir: string, name: string)
    requires '/' !in name && (dir == "" || dir[|dir| - 1] == '/')
    ensures AfterLastSlash(dir + name) == name
    decreases |name|
  {
    var path := dir + name;
    if name == "" {
      assert path == dir;
    } else {
      var n := |name| - 1;
      assert path[|path| - 1] == name[n] && name[n] in name;
      assert path[..|path| - 1] == dir + name[..n];
      AfterSlashIs(dir, name[..n]);
      assert name == name[..n] + [name[n]];
    }
  }

  /** The base name of a path is its last component, whatever slashes follow it. */
  lemma BaseNameIs(path: string, dir: string, name: string, slashes: nat)
    requires EndsIn(path, dir, name, slashes)
    ensures BaseName(path) == name
  {
    hide Trimmed, AfterLastSlash;
    assert (dir + name)[|dir + name| - 1] == name[|name| - 1] && name[|name| - 1] in name;
    TrimmedIs(dir + name, slashes);
    AfterSlashIs(dir, name);
  }

  /** Every path has a last component but the empty one and those of slashes only. */
  lemma {:induction false} HasLastComponent(path: string) returns (dir: string, name: string, slashes: nat)
    ensures EndsIn(path, dir, name, slashes) || (name == "" && path == Slashes(slashes))
    ensures name == "" ==> BaseName(path) == if path == "" then "." else "/"
    decreases |path|
  {
    if path == "" {
      dir, name, slashes := "", "", 0;
    } else {
      var n := |path| - 1;
      var init, c := path[..n], path[n];
      assert path == init + [c];
      if c == '/' {
        dir, name, slashes := HasLastComponent(init);
        assert Slashes(slashes + 1) == Slashes(slashes) + "/";
        slashes := slashes + 1;
        if name == "" {
          TrimmedIs("", slashes);
          assert "" + Slashes(slashes) == path;
        }
      } else {
        dir, name := BehindSlash(path);
        slashes := 0;
        assert path == dir + name + Slashes(0);
      }
    }
  }

  /** The part of a path behind its last slash. */
  lemma {:induction false} BehindSlash(path: string) returns (dir: string, name: string)
    requires path != "" && path[|path| - 1] != '/'
    ensures path == dir + name && name != "" && '/' !in name && (dir == "" || dir[|dir| - 1] == '/')
    decreases |path|
  {
    var n := |path| - 1;
    var init, c := path[..n], path[n];
    assert path == init + [c];
    if init == "" || init[n - 1] == '/' {
      dir, name := init, [c];
    } else {
      var rest;
      dir, rest := BehindSlash(init);
      name := rest + [c];
      assert dir + name == dir + rest + [c];
    }
  }

  ghost predicate Fires(r: Rule, path: string, isDir: bool) {
    (r.dirOnly ==> isDir) && Matches(Pattern(r), Subject(r, path))
  }

  /** A rule without a slash is matched against the last component of the path alone; one with a slash
      against the whole path, its own leading slash dropped. A rule for directories fires on them only. */
  lemma FiresOn(r: Rule, path: string, isDir: bool, dir: string, name: string, slashes: nat)
    requires EndsIn(path, dir, name, slashes)
    ensures '/' !in r.raw ==> (Fires(r, path, isDir) <==> (!r.dirOnly || isDir) && Matches(r.raw, name))
    ensures '/' in r.raw && r.raw[0] != '/' ==>
              (Fires(r, path, isDir) <==> (!r.dirOnly || isDir) && Matches(r.raw, path))
    ensures forall rest: string :: r.raw == "/" + rest ==>
              (Fires(r, path, isDir) <==> (!r.dirOnly || isDir) && Matches(rest, path))
  {
    hide Matches, BaseName;
    BaseNameIs(path, dir, name, slashes);
    forall rest: string | r.raw == "/" + rest
      ensures Pattern(r) == rest && Subject(r, path) == path
    {
      assert r.raw[0] == '/' && r.raw[1..] == rest;
    }
  }

  /** Rule i fires and none after it does; -1 if none fires at all. */
  ghost predicate LastFiring(rules: seq<Rule>, path: string, isDir: bool, i: int) {
    -1 <= i < |rules| && (i >= 0 ==> Fires(rules[i], path, isDir)) &&
    forall j :: i < j < |rules| ==> !Fires(rules[j], path, isDir)
  }

  lemma OneLast(rules: seq<Rule>, path: string, isDir: bool, i: int, j: int)
    requires LastFiring(rules, path, isDir, i) && LastFiring(rules, path, isDir, j)
    ensures i == j
  {
  }

  lemma NoRule(path: string, isDir: bool)
    ensures LastFiring([], path, isDir, -1)
  {
  }

  lemma NextRule(rules: seq<Rule>, path: string, isDir: bool, i: nat, last: int)
    requires i < |rules| && LastFiring(rules[..i], path, isDir, last)
    ensures LastFiring(rules[..i + 1], path, isDir, if Fires(rules[i], path, isDir) then i else last)
  {
    hide Fires;
    var now := rules[..i + 1];
    assert forall j :: 0 <= j < i ==> now[j] == rules[..i][j];
  }

  /** Ignored exactly if some rule fires and the last one that does is not negated. */
  method IsIgnored(rules: seq<Rule>, path: string, isDir: bool) returns (ignored: bool)
    requires forall i :: 0 <= i < |rules| && (rules[i].dirOnly ==> isDir) ==>
               Halts(Pattern(rules[i]), Subject(rules[i], path))
    ensures ignored <==> exists last :: LastFiring(rules, path, isDir, last) && last >= 0 && !rules[last].negate
  {
    hide Halts, Matches, Pattern, Subject, LastFiring;
    NoRule(path, isDir);
    ignored := false;
    ghost var last := -1;
    for i := 0 to |rules|
      invariant LastFiring(rules[..i], path, isDir, last)
      invariant -1 <= last < i && (ignored <==> last >= 0 && !rules[last].negate)
    {
      var p := rules[i];
      NextRule(rules, path, isDir, i, last);
      if p.dirOnly && !isDir {
        continue;
      }
      var matched := GlobMatch(Pattern(p), Subject(p, path));
      if matched {
        ignored, last := !p.negate, i;
      }
    }
    assert rules[..|rules|] == rules;
    forall i | LastFiring(rules, path, isDir, i)
      ensures i == last
    {
      OneLast(rules, path, isDir, i, last);
    }
  }

  /** Rules whose doubled stars the matcher can handle give an answer for every path. */
  lemma SafeRulesAnswer(rules: seq<Rule>, path: string, isDir: bool)
    requires forall i :: 0 <= i < |rules| ==> SafeStars(Pattern(rules[i]), 0)
    ensures forall i :: 0 <= i < |rules| && (rules[i].dirOnly ==> isDir) ==>
               Halts(Pattern(rules[i]), Subject(rules[i], path))
  {
    hide Halts, SafeStars, Pattern, Subject;
    forall i | 0 <= i < |rules|
      ensures Halts(Pattern(rules[i]), Subject(rules[i], path))
    {
      HaltsExactlyOnSafe(Pattern(rules[i]));
    }
  }
}
