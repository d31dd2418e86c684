/** Scope paths, the scan for recursive instantiation (elab_scope.cc), and the bound it
    puts on every path. */
module Scopes {
  import opened PExprs

  datatype Scope =
    | ModuleScope(mod: string, inst: string, index: Option<int>)
    | GenBlock(name: string, index: Option<int>)

  /** From the root down. */
  type Path = seq<Scope>

  datatype Verdict = Allowed | WithinItself | TooDeep

  predicate Instantiates(scn: Scope, mod: string) {
    scn.ModuleScope? && scn.mod == mod
  }

  /** The scan of the scope and its ancestors, from the innermost outwards. */
  function Scan(path: Path, mod: string, limit: nat, rlCount: nat, inGenblk: bool): Verdict {
    if path == [] then Allowed
    else
      var scn, up := path[|path| - 1], path[..|path| - 1];
      if scn.GenBlock? then Scan(up, mod, limit, rlCount, true)
      else if !Instantiates(scn, mod) then Scan(up, mod, limit, rlCount, inGenblk)
      else if !inGenblk then WithinItself
      else if rlCount + 1 > limit then TooDeep
      else Scan(up, mod, limit, rlCount + 1, inGenblk)
  }

  method CheckRecursion(sc: Path, mod: string, limit: nat) returns (verdict: Verdict)
    ensures verdict == Scan(sc, mod, limit, 0, false)
  {
    var rlCount, inGenblk := 0, false;
    var n := |sc|;
    assert sc[..n] == sc;
    while n > 0
      invariant 0 <= n <= |sc|
      invariant Scan(sc, mod, limit, 0, false) == Scan(sc[..n], mod, limit, rlCount, inGenblk)
    {
      var scn := sc[n - 1];
      assert sc[..n][..n - 1] == sc[..n - 1];
      n := n - 1;
      if scn.GenBlock? {
        inGenblk := true;
      } else if Instantiates(scn, mod) {
        if !inGenblk {
          return WithinItself;
        }
        rlCount := rlCount + 1;
        if rlCount > limit {
          return TooDeep;
        }
      }
    }
    return Allowed;
  }

  function Count(path: Path, mod: string): nat {
    if path == [] then 0
    else (if Instantiates(path[|path| - 1], mod) then 1 else 0) + Count(path[..|path| - 1], mod)
  }

  /** A generate block lies below the innermost instance of the module. */
  predicate Separated(path: Path, mod: string) {
    || path == []
    || (!Instantiates(path[|path| - 1], mod)
        && (path[|path| - 1].GenBlock? || Separated(path[..|path| - 1], mod)))
  }

  /** The scan refuses exactly a module directly within itself, and one that is already
      `limit` deep; the former is reported first. */
  lemma {:induction false} ScanExact(path: Path, mod: string, limit: nat)
    ensures Scan(path, mod, limit, 0, false) ==
            if !Separated(path, mod) then WithinItself
            else if Count(path, mod) > limit then TooDeep
            else Allowed
  {
    if path != [] {
      var scn, up := path[|path| - 1], path[..|path| - 1];
      if scn.GenBlock? {
        ScanInBlock(up, mod, limit, 0);
      } else if !Instantiates(scn, mod) {
        ScanExact(up, mod, limit);
      }
    }
  }

  lemma {:induction false} ScanInBlock(path: Path, mod: string, limit: nat, rlCount: nat)
    requires rlCount <= limit
    ensures Scan(path, mod, limit, rlCount, true) ==
            if rlCount + Count(path, mod) > limit then TooDeep else Allowed
  {
    if path != [] {
      var scn, up := path[|path| - 1], path[..|path| - 1];
      if !Instantiates(scn, mod) {
        ScanInBlock(up, mod, limit, rlCount);
      } else if rlCount + 1 <= limit {
        ScanInBlock(up, mod, limit, rlCount + 1);
      }
    }
  }

  /** No module is instantiated more than `limit` times within itself, and never without
      a generate block in between. */
  ghost predicate Legal(path: Path, limit: nat) {
    && (forall mod :: Count(path, mod) <= limit + 1)
    && (forall i, j | 0 <= i < j < |path| :: Apart(path, i, j))
  }

  predicate Apart(path: Path, i: nat, j: nat)
    requires i < j < |path|
  {
    path[i].ModuleScope? && Instantiates(path[j], path[i].mod) ==> exists k :: i < k < j && path[k].GenBlock?
  }

  lemma {:induction false} SeparatedApart(path: Path, mod: string, i: nat)
    requires Separated(path, mod) && i < |path| && Instantiates(path[i], mod)
    ensures exists k :: i < k < |path| && path[k].GenBlock?
  {
    var n := |path| - 1;
    if !path[n].GenBlock? {
      SeparatedApart(path[..n], mod, i);
      var k :| i < k < n && path[..n][k].GenBlock?;
      assert path[k].GenBlock?;
    }
  }

  lemma LegalInstance(path: Path, mod: string, inst: string, index: Option<int>, limit: nat)
    requires Legal(path, limit) && Scan(path, mod, limit, 0, false) == Allowed
    ensures Legal(path + [ModuleScope(mod, inst, index)], limit)
  {
    var p := path + [ModuleScope(mod, inst, index)];
    assert p[..|p| - 1] == path;
    ScanExact(path, mod, limit);
    forall i, j | 0 <= i < j < |p| ensures Apart(p, i, j) {
      if j < |path| {
        assert Apart(path, i, j);
      } else if path[i].ModuleScope? && path[i].mod == mod {
        SeparatedApart(path, mod, i);
        var k :| i < k < |path| && path[k].GenBlock?;
        assert p[k].GenBlock?;
      }
    }
  }

  lemma LegalBlock(path: Path, name: string, index: Option<int>, limit: nat)
    requires Legal(path, limit)
    ensures Legal(path + [GenBlock(name, index)], limit)
  {
    var p := path + [GenBlock(name, index)];
    assert p[..|p| - 1] == path;
    forall i, j | 0 <= i < j < |p| ensures Apart(p, i, j) {
      if j < |path| {
        assert Apart(path, i, j);
      }
    }
  }

  lemma LegalRoot(mod: string, limit: nat)
    ensures Legal([ModuleScope(mod, mod, None)], limit)
  {
    var p := [ModuleScope(mod, mod, None)];
    assert p[..0] == [];
  }

  /** The number of module scopes on a path that instantiate one of the modules. */
  function Modules(path: Path, mods: set<string>): nat {
    if path == [] then 0
    else (if path[|path| - 1].ModuleScope? && path[|path| - 1].mod in mods then 1 else 0)
         + Modules(path[..|path| - 1], mods)
  }

  lemma {:induction false} ModulesSplit(path: Path, mods: set<string>, mod: string)
    requires mod in mods
    ensures Modules(path, mods) == Modules(path, mods - {mod}) + Count(path, mod)
  {
    if path != [] {
      ModulesSplit(path[..|path| - 1], mods, mod);
    }
  }

  lemma {:induction false} ModulesNone(path: Path)
    ensures Modules(path, {}) == 0
  {
    if path != [] {
      ModulesNone(path[..|path| - 1]);
    }
  }

  /** The product of two numbers, by repeated addition. */
  function Times(n: nat, k: nat): nat {
    if n == 0 then 0 else Times(n - 1, k) + k
  }

  lemma {:induction false} TimesIsProduct(n: nat, k: nat)
    ensures Times(n, k) == n * k
  {
    if n > 0 {
      TimesIsProduct(n - 1, k);
      assert n * k == (n - 1) * k + k;
    }
  }

  /** A legal path holds at most `limit + 1` scopes of each module there is. */
  lemma {:induction false} DepthBound(path: Path, mods: set<string>, limit: nat)
    requires Legal(path, limit)
    ensures Modules(path, mods) <= Times(|mods|, limit + 1)
    decreases |mods|
  {
    if mods == {} {
      ModulesNone(path);
    } else {
      var mod :| mod in mods;
      var rest := mods - {mod};
      ModulesSplit(path, mods, mod);
      DepthBound(path, rest, limit);
      assert |rest| == |mods| - 1;
    }
  }

  /** What is left of the bound below a path. */
  function Budget(path: Path, mods: set<string>, limit: nat): int {
    Times(|mods|, limit + 1) - Modules(path, mods)
  }

  lemma BudgetInstance(path: Path, mod: string, inst: string, index: Option<int>, mods: set<string>, limit: nat)
    requires Legal(path, limit) && mod in mods && Scan(path, mod, limit, 0, false) == Allowed
    ensures Legal(path + [ModuleScope(mod, inst, index)], limit)
    ensures 0 <= Budget(path + [ModuleScope(mod, inst, index)], mods, limit) == Budget(path, mods, limit) - 1
  {
    var p := path + [ModuleScope(mod, inst, index)];
    LegalInstance(path, mod, inst, index, limit);
    DepthBound(p, mods, limit);
    assert p[..|p| - 1] == path;
  }

  lemma BudgetBlock(path: Path, name: string, index: Option<int>, mods: set<string>, limit: nat)
    requires Legal(path, limit)
    ensures Legal(path + [GenBlock(name, index)], limit)
    ensures Budget(path + [GenBlock(name, index)], mods, limit) == Budget(path, mods, limit) >= 0
  {
    var p := path + [GenBlock(name, index)];
    LegalBlock(path, name, index, limit);
    DepthBound(path, mods, limit);
    assert p[..|p| - 1] == path;
  }
}
