/**
 Platform types: a table of parents, and the list of a platform's ancestors that a recursive walk appends to. On any
 acyclic table the walk ends and lists exactly the platforms that can be reached, each once.
 */
module Platforms {
  import opened CharTables
  import opened Strings
  import opened Stripping
  import ConfigMeaning

  type Table = map<string, seq<string>>

  function ParentsOf(table: Table, name: string): seq<string>
  {
    if name in table then table[name] else []
  }

  /** Each platform ranks above its parents. */
  ghost predicate Ranked(table: Table, rank: string -> nat)
  {
    forall name, i :: name in table && 0 <= i < |table[name]| ==> rank(table[name][i]) < rank(name)
  }

  /** The table can be ranked; `AcyclicIff` says that this is the absence of cycles. */
  ghost predicate Acyclic(table: Table)
  {
    exists rank :: Ranked(table, rank)
  }

  // ----- reachability -----

  /** Every name on the path is a parent of the one before. */
  ghost predicate IsPath(table: Table, path: seq<string>)
  {
    forall i :: 0 < i < |path| ==> path[i] in ParentsOf(table, path[i - 1])
  }

  ghost predicate PathBetween(table: Table, path: seq<string>, a: string, b: string)
  {
    |path| >= 1 && path[0] == a && path[|path| - 1] == b && IsPath(table, path)
  }

  ghost predicate Reaches(table: Table, a: string, b: string)
  {
    exists path :: PathBetween(table, path, a, b)
  }

  lemma ReachesSelf(table: Table, a: string)
    ensures Reaches(table, a, a)
  {
    assert PathBetween(table, [a], a, a);
  }

  lemma ReachesUp(table: Table, a: string, parent: string, b: string)
    requires parent in ParentsOf(table, a) && Reaches(table, parent, b)
    ensures Reaches(table, a, b)
  {
    var path :| PathBetween(table, path, parent, b);
    var longer := [a] + path;
    forall i | 0 < i < |longer| ensures longer[i] in ParentsOf(table, longer[i - 1]) {
      if i > 1 {
        assert longer[i] == path[i - 1] && longer[i - 1] == path[i - 2];
      }
    }
    assert PathBetween(table, longer, a, b);
  }

  /** Reaching another platform goes through a parent. */
  lemma ReachesThrough(table: Table, a: string, b: string) returns (i: nat)
    requires Reaches(table, a, b) && a != b
    ensures i < |ParentsOf(table, a)| && Reaches(table, ParentsOf(table, a)[i], b)
  {
    var path :| PathBetween(table, path, a, b);
    assert path[1] in ParentsOf(table, path[0]);
    i :| 0 <= i < |ParentsOf(table, a)| && ParentsOf(table, a)[i] == path[1];
    assert PathBetween(table, path[1..], path[1], b);
  }

  // ----- the walk -----

  predicate NoDuplicates(res: seq<string>)
  {
    forall i, j :: 0 <= i < j < |res| ==> res[i] != res[j]
  }

  /** Reached by one of the first `k` parents. */
  ghost predicate Above(table: Table, name: string, k: nat, x: string)
  {
    exists i :: 0 <= i < k && i < |ParentsOf(table, name)| && Reaches(table, ParentsOf(table, name)[i], x)
  }

  /** The first `k` parents, each followed by its own ancestors; a platform is there as often as a path leads to it. */
  ghost function Preorder(table: Table, rank: string -> nat, name: string, k: nat): seq<string>
    requires Ranked(table, rank) && k <= |ParentsOf(table, name)|
    decreases rank(name), k
  {
    if k == 0 then [] else
      var parent := ParentsOf(table, name)[k - 1];
      Preorder(table, rank, name, k - 1) + [parent] + Preorder(table, rank, parent, |ParentsOf(table, parent)|)
  }

  lemma {:induction false} PreorderSame(table: Table, rank: string -> nat, rank': string -> nat, name: string, k: nat)
    requires Ranked(table, rank) && Ranked(table, rank') && k <= |ParentsOf(table, name)|
    ensures Preorder(table, rank, name, k) == Preorder(table, rank', name, k)
    decreases rank(name), k
  {
    if k > 0 {
      var parent := ParentsOf(table, name)[k - 1];
      PreorderSame(table, rank, rank', name, k - 1);
      PreorderSame(table, rank, rank', parent, |ParentsOf(table, parent)|);
    }
  }

  function WithName(res: seq<string>, name: string): seq<string>
  {
    if name in res then res else res + [name]
  }

  /** The names added at the end, but for those that are there already. */
  function Extended(res: seq<string>, names: seq<string>): seq<string>
  {
    if names == [] then res else WithName(Extended(res, names[..|names| - 1]), names[|names| - 1])
  }

  lemma {:induction false} ExtendedConcat(res: seq<string>, a: seq<string>, b: seq<string>)
    ensures Extended(res, a + b) == Extended(Extended(res, a), b)
    decreases |b|
  {
    if b == [] {
      assert a + b == a;
    } else {
      var k := |b| - 1;
      assert (a + b)[..|a + b| - 1] == a + b[..k];
      ExtendedConcat(res, a, b[..k]);
    }
  }

  lemma PreorderTurn(table: Table, rank: string -> nat, name: string, k: nat, res: seq<string>, item: string)
    requires Ranked(table, rank) && k < |ParentsOf(table, name)| && ParentsOf(table, name)[k] == item
    ensures var before := Extended(res, Preorder(table, rank, name, k));
            Extended(res, Preorder(table, rank, name, k + 1))
              == Extended(WithName(before, item), Preorder(table, rank, item, |ParentsOf(table, item)|))
  {
    var front, own := Preorder(table, rank, name, k), Preorder(table, rank, item, |ParentsOf(table, item)|);
    ExtendedConcat(res, front + [item], own);
    ExtendedConcat(res, front, [item]);
    assert [item][..0] == [];
  }

  lemma {:induction false} ExtendedFacts(res: seq<string>, names: seq<string>)
    ensures res <= Extended(res, names) && (NoDuplicates(res) ==> NoDuplicates(Extended(res, names)))
    ensures forall x :: x in Extended(res, names) <==> x in res || x in names
  {
    if names != [] {
      var k := |names| - 1;
      ExtendedFacts(res, names[..k]);
      assert names == names[..k] + [names[k]];
    }
  }

  lemma InThree(front: seq<string>, middle: string, back: seq<string>, x: string)
    ensures x in front + [middle] + back <==> x in front || x == middle || x in back
  {
  }

  lemma {:induction false} PreorderMembers(table: Table, rank: string -> nat, name: string, k: nat)
    requires Ranked(table, rank) && k <= |ParentsOf(table, name)|
    ensures forall x :: x in Preorder(table, rank, name, k) <==> Above(table, name, k, x)
    decreases rank(name), k
  {
    if k > 0 {
      var parent := ParentsOf(table, name)[k - 1];
      var front, own := Preorder(table, rank, name, k - 1), Preorder(table, rank, parent, |ParentsOf(table, parent)|);
      PreorderMembers(table, rank, name, k - 1);
      PreorderMembers(table, rank, parent, |ParentsOf(table, parent)|);
      WalkStep(table, name, k - 1, parent);
      forall x ensures x in Preorder(table, rank, name, k) <==> Above(table, name, k, x) {
        InThree(front, parent, own, x);
      }
    }
  }

  /** `_getParents`: walks again through platforms that are listed already, and appends the others. */
  method Walk(table: Table, name: string, res: seq<string>, ghost rank: string -> nat) returns (out: seq<string>)
    requires Ranked(table, rank)
    ensures out == Extended(res, Preorder(table, rank, name, |ParentsOf(table, name)|))
    decreases rank(name), 1
  {
    out := res;
    if name in table {
      var items, k := table[name], 0;
      while k < |items|
        invariant 0 <= k <= |items|
        invariant out == Extended(res, Preorder(table, rank, name, k))
      {
        PreorderTurn(table, rank, name, k, res, items[k]);
        out := WalkParent(table, items[k], out, rank, name);
        k := k + 1;
      }
    }
  }

  /** One turn of the walk. */
  method WalkParent(
    table: Table, item: string, res: seq<string>, ghost rank: string -> nat, ghost name: string
  ) returns (out: seq<string>)
    requires Ranked(table, rank) && item in ParentsOf(table, name)
    ensures out == Extended(WithName(res, item), Preorder(table, rank, item, |ParentsOf(table, item)|))
    decreases rank(name), 0
  {
    out := res;
    if item !in out {
      out := out + [item];
    }
    out := Walk(table, item, out, rank);
  }

  /** What the walk adds: each ancestor once, behind what was listed before. */
  lemma WalkLists(table: Table, rank: string -> nat, name: string, res: seq<string>)
    requires Ranked(table, rank)
    ensures var out := Extended(res, Preorder(table, rank, name, |ParentsOf(table, name)|));
            && res <= out && (NoDuplicates(res) ==> NoDuplicates(out))
            && forall x :: x in out <==> x in res || Above(table, name, |ParentsOf(table, name)|, x)
  {
    ExtendedFacts(res, Preorder(table, rank, name, |ParentsOf(table, name)|));
    PreorderMembers(table, rank, name, |ParentsOf(table, name)|);
  }

  /** What the walk through parent `k` adds: the parent, and what its own parents reach. */
  lemma WalkStep(table: Table, name: string, k: nat, item: string)
    requires k < |ParentsOf(table, name)| && ParentsOf(table, name)[k] == item
    ensures forall x :: Above(table, name, k + 1, x) <==>
              Above(table, name, k, x) || x == item || Above(table, item, |ParentsOf(table, item)|, x)
  {
    forall x ensures Reaches(table, item, x) <==> x == item || Above(table, item, |ParentsOf(table, item)|, x) {
      ReachesByParents(table, item, x);
    }
  }

  lemma ReachesByParents(table: Table, a: string, x: string)
    ensures Reaches(table, a, x) <==> x == a || Above(table, a, |ParentsOf(table, a)|, x)
  {
    ReachesSelf(table, a);
    if Reaches(table, a, x) && x != a {
      var i := ReachesThrough(table, a, x);
    }
    if Above(table, a, |ParentsOf(table, a)|, x) {
      var i :| 0 <= i < |ParentsOf(table, a)| && Reaches(table, ParentsOf(table, a)[i], x);
      ReachesUp(table, a, ParentsOf(table, a)[i], x);
    }
  }

  /** `getParents` */
  method GetParents(table: Table, name: string) returns (res: seq<string>)
    requires Acyclic(table)
    ensures |res| >= 1 && res[0] == name && NoDuplicates(res)
    ensures forall x :: x in res <==> Reaches(table, name, x)
    ensures forall rank :: Ranked(table, rank) ==>
              res == Extended([name], Preorder(table, rank, name, |ParentsOf(table, name)|))
  {
    ghost var rank :| Ranked(table, rank);
    res := Walk(table, name, [name], rank);
    WalkLists(table, rank, name, [name]);
    forall rank' | Ranked(table, rank')
      ensures res == Extended([name], Preorder(table, rank', name, |ParentsOf(table, name)|))
    {
      PreorderSame(table, rank, rank', name, |ParentsOf(table, name)|);
    }
    forall x ensures x in res <==> Reaches(table, name, x) {
      ReachesByParents(table, name, x);
    }
  }

  // ----- questions about a platform -----

  /** `platformtypes`: the ancestors without empty names. */
  method PlatformTypes(table: Table, name: string) returns (types: seq<string>)
    requires Acyclic(table)
    ensures forall x :: x in types <==> Reaches(table, name, x) && x != ""
    ensures NoDuplicates(types)
  {
    var all := GetParents(table, name);
    types := [];
    var i := 0;
    while i < |all|
      invariant 0 <= i <= |all|
      invariant forall x :: x in types <==> x in all[..i] && x != ""
      invariant NoDuplicates(types)
    {
      assert all[..i + 1] == all[..i] + [all[i]];
      if all[i] != "" {
        assert all[i] !in all[..i];
        types := types + [all[i]];
      }
      i := i + 1;
    }
    assert all[..i] == all;
  }

  /** `has_parent` is reachability, for a non-empty name. */
  method HasParent(table: Table, platform: string, name: string) returns (yes: bool)
    requires Acyclic(table)
    ensures yes <==> Reaches(table, platform, name) && name != ""
  {
    var types := PlatformTypes(table, platform);
    yes := name in types;
  }

  /** The part of the text, stripped and in lower case, is an ancestor; parts that are only white space do not count. */
  ghost predicate PartMatches(u: Unicode, table: Table, platform: string, part: string)
  {
    Strip(part, IsSpace) != "" && Reaches(table, platform, u.Lower(Strip(part, IsSpace)))
  }

  /** Some part of the comma-separated text matches. */
  ghost predicate Matches(u: Unicode, table: Table, platform: string, match': string)
  {
    exists part :: part in Split(match', ',') && PartMatches(u, table, platform, part)
  }

  /** White space around a name and the case of its letters do not matter. */
  lemma NamedPart(u: Unicode, table: Table, platform: string, front: string, name: string, back: string)
    requires ConfigMeaning.AllOf(front, IsSpace) && ConfigMeaning.AllOf(back, IsSpace)
    requires name != "" && Trimmed(name, IsSpace)
    ensures PartMatches(u, table, platform, front + name + back) <==> Reaches(table, platform, u.Lower(name))
  {
    ConfigMeaning.StripWrapped(front, name, back, IsSpace);
  }

  lemma BlankPart(u: Unicode, table: Table, platform: string, part: string)
    requires forall c :: c in part ==> IsSpace(c)
    ensures !PartMatches(u, table, platform, part)
  {
    ConfigMeaning.BlankIff(part);
  }

  /** A list of names matches when one of them does. */
  lemma MatchesJoined(u: Unicode, table: Table, platform: string, parts: seq<string>)
    requires |parts| >= 1 && forall i :: 0 <= i < |parts| ==> ',' !in parts[i]
    ensures Matches(u, table, platform, Join(parts, ','))
       <==> exists i :: 0 <= i < |parts| && PartMatches(u, table, platform, parts[i])
  {
    SplitJoin(parts, ',');
    assert forall part :: part in parts <==> exists i :: 0 <= i < |parts| && parts[i] == part;
  }

  lemma LowerNonEmpty(u: Unicode, s: string)
    requires s != ""
    ensures u.Lower(s) != ""
  {
    assert u.lower(s[0]) != "";
  }

  /** One turn of the matching loop. */
  method CheckPart(u: Unicode, ghost table: Table, ghost platform: string, part: string, toCheck: seq<string>)
    returns (yes: bool)
    requires forall x :: x in toCheck <==> Reaches(table, platform, x) && x != ""
    ensures yes <==> PartMatches(u, table, platform, part)
  {
    var item := Strip(part, IsSpace);
    if item == "" {
      return false;
    }
    LowerNonEmpty(u, item);
    yes := u.Lower(item) in toCheck;
  }

  /** `checkMatch` */
  method CheckMatch(u: Unicode, table: Table, platform: string, match': string) returns (yes: bool)
    requires Acyclic(table)
    ensures yes <==> Matches(u, table, platform, match')
  {
    var toCheck := PlatformTypes(table, platform);
    var parts := Split(match', ',');
    var i := 0;
    while i < |parts|
      invariant 0 <= i <= |parts|
      invariant forall k :: 0 <= k < i ==> !PartMatches(u, table, platform, parts[k])
    {
      yes := CheckPart(u, table, platform, parts[i], toCheck);
      if yes {
        return;
      }
      i := i + 1;
    }
    yes := false;
  }

  /** Along a path the rank never grows, so ancestors are partially ordered. */
  lemma {:induction false} RankAlongPath(table: Table, rank: string -> nat, path: seq<string>)
    requires Ranked(table, rank) && |path| >= 1 && IsPath(table, path)
    ensures rank(path[|path| - 1]) <= rank(path[0])
    ensures |path| > 1 ==> rank(path[|path| - 1]) < rank(path[0])
  {
    if |path| > 1 {
      assert path[1] in ParentsOf(table, path[0]);
      RankAlongPath(table, rank, path[1..]);
    }
  }

  lemma ReachesAntisymmetric(table: Table, a: string, b: string)
    requires Acyclic(table) && Reaches(table, a, b) && Reaches(table, b, a)
    ensures a == b
  {
    var rank :| Ranked(table, rank);
    var up :| PathBetween(table, up, a, b);
    var down :| PathBetween(table, down, b, a);
    RankAlongPath(table, rank, up);
    RankAlongPath(table, rank, down);
  }

  // ----- cycles -----

  /** No platform reaches itself by a path of one step or more. */
  ghost predicate NoCycle(table: Table)
  {
    forall path :: |path| > 1 && IsPath(table, path) ==> path[0] != path[|path| - 1]
  }

  /** The platforms of the table that can be reached. */
  ghost function Reached(table: Table, name: string): set<string>
  {
    set x | x in table.Keys && Reaches(table, name, x)
  }

  /** A parent that reaches its child closes a cycle. */
  lemma CycleThrough(table: Table, name: string, i: nat)
    requires name in table && i < |table[name]|
    ensures Reaches(table, table[name][i], name) ==> !NoCycle(table)
  {
    if Reaches(table, table[name][i], name) {
      var path :| PathBetween(table, path, table[name][i], name);
      var cycle := [name] + path;
      forall j | 0 < j < |cycle| ensures cycle[j] in ParentsOf(table, cycle[j - 1]) {
        if j > 1 {
          assert cycle[j] == path[j - 1] && cycle[j - 1] == path[j - 2];
        }
      }
      assert IsPath(table, cycle) && cycle[0] == cycle[|cycle| - 1];
    }
  }

  /** Without cycles a parent reaches fewer platforms of the table than its child does. */
  lemma ReachedShrinks(table: Table, name: string, i: nat)
    requires NoCycle(table) && name in table && i < |table[name]|
    ensures |Reached(table, table[name][i])| < |Reached(table, name)|
  {
    var parent := table[name][i];
    var below, above := Reached(table, parent), Reached(table, name);
    ReachesSelf(table, name);
    forall x | x in below ensures x in above {
      ReachesUp(table, name, parent, x);
    }
    CycleThrough(table, name, i);
    SubsetSmaller(below, above, name);
  }

  lemma {:induction false} SubsetSmaller(a: set<string>, b: set<string>, extra: string)
    requires a <= b && extra in b && extra !in a
    ensures |a| < |b|
  {
    SubsetNoLarger(a, b - {extra});
  }

  lemma {:induction false} SubsetNoLarger(a: set<string>, b: set<string>)
    requires a <= b
    ensures |a| <= |b|
  {
    if a != {} {
      var x :| x in a;
      SubsetNoLarger(a - {x}, b - {x});
    }
  }

  /** A table can be ranked exactly when no platform is its own ancestor. */
  lemma AcyclicIff(table: Table)
    ensures Acyclic(table) <==> NoCycle(table)
  {
    if Acyclic(table) {
      var rank :| Ranked(table, rank);
      forall path | |path| > 1 && IsPath(table, path) ensures path[0] != path[|path| - 1] {
        RankAlongPath(table, rank, path);
      }
    }
    if NoCycle(table) {
      ghost var rank := (name: string) => |Reached(table, name)|;
      forall name, i | name in table && 0 <= i < |table[name]| ensures rank(table[name][i]) < rank(name) {
        ReachedShrinks(table, name, i);
      }
      assert Ranked(table, rank);
    }
  }
}
