/** The package abstraction and the dependency-leaf collection of
    `src/dep_tree.rs`. The package databases are values: a database is known
    only through its `find_satisfier` lookup, which stands for the foreign
    version and provides matching and is left uninterpreted. */
module DependencyTree {
  import opened Wrappers

  /** The role of a node in the tree. */
  datatype DepType = Base | Dep | MakeDep | OptDep | CheckDep

  /** A package of the local or a sync database (`alpm::Package`): its name
      and its dependency strings as `Dep::to_string` renders them. */
  datatype AlpmPackage = AlpmPackage(name: string, depends: seq<string>)

  /** A record fetched from the AUR (`raur::Package`), reduced to the fields
      the core reads. */
  datatype AurPackage = AurPackage(name: string, depends: seq<string>, makeDepends: seq<string>)

  /** `Pkg`: a package from either source. */
  datatype Pkg = Pacman(alpm: AlpmPackage) | Aur(aur: AurPackage)

  /** A package database (`alpm::Db`), known only through `satisfier`, its
      `pkgs().find_satisfier`: the package satisfying a dependency string,
      if there is one. */
  datatype Db = Db(satisfier: string -> Option<AlpmPackage>)

  /** `DepTree` without its `parent` back-pointer. */
  datatype DepTree = DepTree(pkg: Pkg, depType: DepType, leaves: Option<seq<DepTree>>)

  /** `Pkg::name` */
  function Name(p: Pkg): string
  {
    match p
    case Pacman(a) => a.name
    case Aur(a) => a.name
  }

  /** `Pkg::depends` */
  function Depends(p: Pkg): seq<string>
  {
    match p
    case Pacman(a) => a.depends
    case Aur(a) => a.depends
  }

  const NoMakeDepends := "Alpm packages don't need make dependencies"

  /** `Pkg::make_depends`: only AUR packages carry make dependencies. */
  function MakeDepends(p: Pkg): (r: Result<seq<string>, string>)
    ensures r.Err? <==> p.Pacman?
    ensures p.Aur? ==> r == Ok(p.aur.makeDepends)
    ensures p.Pacman? ==> r == Err(NoMakeDepends)
  {
    match p
    case Pacman(_) => Err(NoMakeDepends)
    case Aur(a) => Ok(a.makeDepends)
  }

  /** `From<&raur::Package> for Pkg` */
  function FromAur(a: AurPackage): (p: Pkg)
  {
    Aur(a)
  }

  /** `From<&alpm::Package> for Pkg` */
  function FromAlpm(a: AlpmPackage): (p: Pkg)
  {
    Pacman(a)
  }

  /** Wrapping an AUR record and reading it back gives the record's own
      name, dependencies and make dependencies. */
  lemma AurAccessors(a: AurPackage)
    ensures FromAur(a).Aur?
    ensures Name(FromAur(a)) == a.name
    ensures Depends(FromAur(a)) == a.depends
    ensures MakeDepends(FromAur(a)) == Ok(a.makeDepends)
  {
  }

  /** Wrapping a database package gives the repo variant, whose name and
      dependencies are the package's own and which has no make dependencies. */
  lemma AlpmAccessors(a: AlpmPackage)
    ensures FromAlpm(a).Pacman?
    ensures Name(FromAlpm(a)) == a.name
    ensures Depends(FromAlpm(a)) == a.depends
    ensures MakeDepends(FromAlpm(a)).Err?
  {
  }

  /*** Leaf collection ***/

  /** The leaf `build` pushes for a sync-database hit. */
  function Leaf(hit: AlpmPackage): DepTree
  {
    DepTree(FromAlpm(hit), Dep, None)
  }

  /** Whether `dep` has no satisfier in the local database and so has to be
      looked up in the sync databases. */
  predicate NeedsSync(local: Db, dep: string)
  {
    local.satisfier(dep).None?
  }

  /** Whether every sync database has a satisfier for `dep`. */
  predicate HitsEverywhere(dep: string, syncs: seq<Db>)
  {
    forall k :: 0 <= k < |syncs| ==> syncs[k].satisfier(dep).Some?
  }

  /** Whether the leaf collection runs to its end: every dependency that the
      local database does not satisfy is satisfied by every sync database. */
  predicate Resolvable(deps: seq<string>, local: Db, syncs: seq<Db>)
  {
    forall i :: 0 <= i < |deps| && NeedsSync(local, deps[i]) ==> HitsEverywhere(deps[i], syncs)
  }

  /** The dependencies left to the sync databases, in their original order. */
  function Needed(deps: seq<string>, local: Db): (nd: seq<string>)
  {
    if deps == [] then []
    else
      var last := deps[|deps| - 1];
      Needed(deps[..|deps| - 1], local) + (if NeedsSync(local, last) then [last] else [])
  }

  /** The state of the collection after some steps: the leaves pushed so far,
      and, if a lookup missed, the dependency and the index of the sync
      database where it missed. */
  datatype Scan = Scanned(leaves: seq<DepTree>) | Missed(dep: string, db: nat, leaves: seq<DepTree>)

  /** The inner loop of `build` for one dependency: one leaf per sync
      database in order, until the first database without a satisfier. */
  function SyncLeaves(dep: string, syncs: seq<Db>): (s: Scan)
  {
    if syncs == [] then Scanned([])
    else
      var n := |syncs| - 1;
      match SyncLeaves(dep, syncs[..n])
      case Missed(d, k, ls) => Missed(d, k, ls)
      case Scanned(ls) =>
        match syncs[n].satisfier(dep)
        case Some(hit) => Scanned(ls + [Leaf(hit)])
        case None => Missed(dep, n, ls)
  }

  /** The scan over the sync databases for one dependency runs to its end
      exactly when every database has a satisfier, and then holds one leaf
      per database, in order, each wrapping that database's satisfier.
      Otherwise it stops at the first database without a satisfier, keeping
      the leaves of the databases before it. */
  lemma {:induction false} SyncLeavesSpec(dep: string, syncs: seq<Db>)
    ensures SyncLeaves(dep, syncs).Scanned? <==> HitsEverywhere(dep, syncs)
    ensures var s := SyncLeaves(dep, syncs);
      s.Scanned? ==>
        && |s.leaves| == |syncs|
        && forall k :: 0 <= k < |syncs| ==> s.leaves[k] == Leaf(syncs[k].satisfier(dep).value)
    ensures var s := SyncLeaves(dep, syncs);
      s.Missed? ==>
        && s.dep == dep
        && s.db < |syncs|
        && syncs[s.db].satisfier(dep).None?
        && HitsEverywhere(dep, syncs[..s.db])
        && s.leaves == SyncLeaves(dep, syncs[..s.db]).leaves
  {
    if syncs != [] {
      var n := |syncs| - 1;
      SyncLeavesSpec(dep, syncs[..n]);
      assert syncs[..n][..n] == syncs[..n];
      var m := SyncLeaves(dep, syncs[..n]);
      if m.Missed? {
        assert syncs[..n][..m.db] == syncs[..m.db];
      }
    }
  }

  /** The whole leaf collection of `build` over the dependency strings
      `deps`: dependencies with a local satisfier are skipped, the others
      contribute their sync leaves, and the first miss ends the collection. */
  function Collect(deps: seq<string>, local: Db, syncs: seq<Db>): (s: Scan)
  {
    if deps == [] then Scanned([])
    else
      var last := deps[|deps| - 1];
      match Collect(deps[..|deps| - 1], local, syncs)
      case Missed(d, k, ls) => Missed(d, k, ls)
      case Scanned(ls) =>
        if !NeedsSync(local, last) then Scanned(ls)
        else
          match SyncLeaves(last, syncs)
          case Scanned(row) => Scanned(ls + row)
          case Missed(d, k, row) => Missed(d, k, ls + row)
  }

  /** Where `build` ends. Every path of `build` reaches a `todo!()`: either at
      a dependency that some sync database cannot satisfy (with the leaves
      pushed until then), or right after the collected leaves have been
      stored in the root node. It never returns a tree. */
  datatype Todo =
    | TodoOnMiss(dep: string, db: nat, pushed: seq<DepTree>)
    | TodoAfterLeaves(branch: DepTree)

  /** The end `build` reaches for `package`. */
  function BuildEnd(package: Pkg, local: Db, syncs: seq<Db>): Todo
  {
    match Collect(Depends(package), local, syncs)
    case Missed(d, k, ls) => TodoOnMiss(d, k, ls)
    case Scanned(ls) => TodoAfterLeaves(DepTree(package, Base, Some(ls)))
  }

  /** The collection runs to its end exactly when every dependency without
      a local satisfier is satisfied by every sync database; otherwise it
      aborts. */
  lemma {:induction false} RunsToEndIff(deps: seq<string>, local: Db, syncs: seq<Db>)
    ensures Collect(deps, local, syncs).Scanned? <==> Resolvable(deps, local, syncs)
  {
    if deps != [] {
      var n := |deps| - 1;
      RunsToEndIff(deps[..n], local, syncs);
      SyncLeavesSpec(deps[n], syncs);
      assert forall i :: 0 <= i < n ==> deps[..n][i] == deps[i];
    }
  }

  /** The collection over `ds + [d]`, one step after the collection over
      `ds`. */
  lemma CollectSnoc(ds: seq<string>, d: string, local: Db, syncs: seq<Db>)
    ensures Collect(ds + [d], local, syncs) ==
      match Collect(ds, local, syncs)
      case Missed(_, _, _) => Collect(ds, local, syncs)
      case Scanned(ls) =>
        if !NeedsSync(local, d) then Scanned(ls)
        else match SyncLeaves(d, syncs)
          case Scanned(row) => Scanned(ls + row)
          case Missed(d', k, row) => Missed(d', k, ls + row)
  {
    assert (ds + [d])[..|ds|] == ds;
  }

  /** Dependencies with a local satisfier are skipped entirely: the
      collection is the same as over the other dependencies alone, leaves
      and abort point alike. */
  lemma {:induction false} SkipsLocallySatisfied(deps: seq<string>, local: Db, syncs: seq<Db>)
    ensures Collect(deps, local, syncs) == Collect(Needed(deps, local), local, syncs)
  {
    if deps != [] {
      var n := |deps| - 1;
      SkipsLocallySatisfied(deps[..n], local, syncs);
      assert deps == deps[..n] + [deps[n]];
      CollectSnoc(deps[..n], deps[n], local, syncs);
      if NeedsSync(local, deps[n]) {
        assert Needed(deps, local) == Needed(deps[..n], local) + [deps[n]];
        CollectSnoc(Needed(deps[..n], local), deps[n], local, syncs);
      } else {
        assert Needed(deps, local) == Needed(deps[..n], local);
      }
    }
  }

  /** The leaves of one dependency that every sync database satisfies: one
      per database, in registration order, each wrapping the package that
      database returned. */
  function Row(dep: string, syncs: seq<Db>): (row: seq<DepTree>)
    requires HitsEverywhere(dep, syncs)
  {
    seq(|syncs|, k requires 0 <= k < |syncs| => Leaf(syncs[k].satisfier(dep).value))
  }

  /** The rows of the dependencies `nd`, one after the other. */
  function Rows(nd: seq<string>, syncs: seq<Db>): (ls: seq<DepTree>)
    requires forall i :: 0 <= i < |nd| ==> HitsEverywhere(nd[i], syncs)
  {
    if nd == [] then [] else Rows(nd[..|nd| - 1], syncs) + Row(nd[|nd| - 1], syncs)
  }

  /** Every row is as long as there are sync databases. */
  lemma {:induction false} RowsLength(nd: seq<string>, syncs: seq<Db>)
    requires forall i :: 0 <= i < |nd| ==> HitsEverywhere(nd[i], syncs)
    ensures |Rows(nd, syncs)| == |nd| * |syncs|
  {
    if nd != [] {
      var n := |nd| - 1;
      RowsLength(nd[..n], syncs);
      assert |nd| * |syncs| == n * |syncs| + |syncs|;
    }
  }

  /** The dependencies the local database does not satisfy are exactly
      those of `deps` that need the sync databases. */
  lemma {:induction false} NeededMembers(deps: seq<string>, local: Db)
    ensures forall x :: x in Needed(deps, local) <==> x in deps && NeedsSync(local, x)
  {
    if deps != [] {
      var n := |deps| - 1;
      NeededMembers(deps[..n], local);
      assert deps == deps[..n] + [deps[n]];
    }
  }

  /** Every dependency left to the sync databases of a resolvable list is
      satisfied by all of them. */
  lemma {:induction false} NeededHitEverywhere(deps: seq<string>, local: Db, syncs: seq<Db>)
    requires Resolvable(deps, local, syncs)
    ensures forall i :: 0 <= i < |Needed(deps, local)| ==> HitsEverywhere(Needed(deps, local)[i], syncs)
  {
    if deps != [] {
      var n := |deps| - 1;
      assert forall i :: 0 <= i < n ==> deps[..n][i] == deps[i];
      NeededHitEverywhere(deps[..n], local, syncs);
    }
  }

  /** When the collection runs to its end, the leaves come in dependency
      order, then sync-database order: the row of the first dependency
      without a local satisfier, then the row of the next one, and so on.
      The loop over the sync databases has no early exit, so every such
      dependency yields as many leaves as there are sync databases. */
  lemma {:induction false} LeafOrder(deps: seq<string>, local: Db, syncs: seq<Db>)
    requires Resolvable(deps, local, syncs)
    ensures forall i :: 0 <= i < |Needed(deps, local)| ==> HitsEverywhere(Needed(deps, local)[i], syncs)
    ensures Collect(deps, local, syncs) == Scanned(Rows(Needed(deps, local), syncs))
    ensures |Collect(deps, local, syncs).leaves| == |Needed(deps, local)| * |syncs|
  {
    NeededHitEverywhere(deps, local, syncs);
    if deps != [] {
      var n := |deps| - 1;
      assert forall i :: 0 <= i < n ==> deps[..n][i] == deps[i];
      LeafOrder(deps[..n], local, syncs);
      var nd := Needed(deps[..n], local);
      assert deps == deps[..n] + [deps[n]];
      CollectSnoc(deps[..n], deps[n], local, syncs);
      if NeedsSync(local, deps[n]) {
        SyncLeavesSpec(deps[n], syncs);
        var nd1 := nd + [deps[n]];
        assert Needed(deps, local) == nd1;
        assert nd1[..|nd1| - 1] == nd && nd1[|nd1| - 1] == deps[n];
        assert SyncLeaves(deps[n], syncs).leaves == Row(deps[n], syncs);
        assert Rows(nd1, syncs) == Rows(nd, syncs) + Row(deps[n], syncs);
      } else {
        assert Needed(deps, local) == nd;
      }
    }
    RowsLength(Needed(deps, local), syncs);
  }

  /** Every leaf pushed, whether or not the run reaches its end, is a plain
      dependency node without leaves of its own, wrapping the package some
      sync database returned for some dependency that has no local
      satisfier. */
  lemma {:induction false} LeavesAreSyncHits(deps: seq<string>, local: Db, syncs: seq<Db>)
    ensures forall t :: t in Collect(deps, local, syncs).leaves ==>
      && t.depType == Dep
      && t.leaves == None
      && t.pkg.Pacman?
      && exists i, k :: 0 <= i < |deps| && 0 <= k < |syncs| && NeedsSync(local, deps[i])
           && syncs[k].satisfier(deps[i]) == Some(t.pkg.alpm)
  {
    if deps != [] {
      var n := |deps| - 1;
      var last := deps[n];
      LeavesAreSyncHits(deps[..n], local, syncs);
      assert forall i :: 0 <= i < n ==> deps[..n][i] == deps[i];
      if NeedsSync(local, last) {
        var m := SyncLeaves(last, syncs);
        SyncLeavesSpec(last, syncs);
        if m.Missed? {
          SyncLeavesSpec(last, syncs[..m.db]);
        }
        var row := if m.Scanned? then m.leaves else SyncLeaves(last, syncs[..m.db]).leaves;
        assert m.leaves == row;
        forall t | t in row
          ensures t.depType == Dep && t.leaves == None && t.pkg.Pacman?
          ensures exists i, k :: && 0 <= i < |deps| && 0 <= k < |syncs| && NeedsSync(local, deps[i])
                                 && syncs[k].satisfier(deps[i]) == Some(t.pkg.alpm)
        {
          var k :| 0 <= k < |row| && row[k] == t;
          if m.Missed? {
            assert syncs[..m.db][k] == syncs[k];
          }
          assert syncs[k].satisfier(deps[n]) == Some(t.pkg.alpm);
        }
      }
    }
  }

  /** Where the collection aborts: at the first dependency without a local
      satisfier that some sync database cannot satisfy, at the first such
      database, after the leaves of all earlier dependencies and of the
      earlier databases for this one. */
  lemma {:induction false} AbortsAtFirstMiss(deps: seq<string>, local: Db, syncs: seq<Db>)
    requires Collect(deps, local, syncs).Missed?
    ensures var m := Collect(deps, local, syncs);
      && m.db < |syncs|
      && syncs[m.db].satisfier(m.dep).None?
      && HitsEverywhere(m.dep, syncs[..m.db])
      && exists i :: 0 <= i < |deps| && deps[i] == m.dep && NeedsSync(local, m.dep)
           && Resolvable(deps[..i], local, syncs)
           && m.leaves == Collect(deps[..i], local, syncs).leaves + SyncLeaves(m.dep, syncs[..m.db]).leaves
  {
    var n := |deps| - 1;
    var m := Collect(deps, local, syncs);
    if Collect(deps[..n], local, syncs).Missed? {
      AbortsAtFirstMiss(deps[..n], local, syncs);
      var i :| 0 <= i < n && deps[..n][i] == m.dep && NeedsSync(local, m.dep)
        && Resolvable(deps[..n][..i], local, syncs)
        && m.leaves == Collect(deps[..n][..i], local, syncs).leaves + SyncLeaves(m.dep, syncs[..m.db]).leaves;
      assert deps[..n][..i] == deps[..i];
    } else {
      RunsToEndIff(deps[..n], local, syncs);
      SyncLeavesSpec(deps[n], syncs);
      assert deps[n] == m.dep;
    }
  }

  /** The root node `build` fills in: the run reaches the final `todo!()`
      exactly when the collection runs to its end, and then the root wraps
      the package itself as a base node whose leaves are the collected ones. */
  lemma BuildEndShape(package: Pkg, local: Db, syncs: seq<Db>)
    ensures BuildEnd(package, local, syncs).TodoAfterLeaves? <==> Resolvable(Depends(package), local, syncs)
    ensures BuildEnd(package, local, syncs).TodoAfterLeaves? ==>
      BuildEnd(package, local, syncs).branch
        == DepTree(package, Base, Some(Collect(Depends(package), local, syncs).leaves))
  {
    RunsToEndIff(Depends(package), local, syncs);
  }

  /** Once a lookup has missed, the rest of the dependencies change nothing:
      the collection over `deps` ends where the collection over its first
      `n` dependencies ended. */
  lemma {:induction false} MissIsFinal(deps: seq<string>, n: nat, local: Db, syncs: seq<Db>)
    requires n <= |deps|
    requires Collect(deps[..n], local, syncs).Missed?
    ensures Collect(deps, local, syncs) == Collect(deps[..n], local, syncs)
    decreases |deps| - n
  {
    if n < |deps| {
      assert deps[..n + 1][..n] == deps[..n];
      MissIsFinal(deps, n + 1, local, syncs);
    } else {
      assert deps[..n] == deps;
    }
  }

  /** One more dependency: skipped when the local database satisfies it,
      otherwise followed by its sync leaves. */
  lemma CollectStep(deps: seq<string>, i: nat, local: Db, syncs: seq<Db>, ls: seq<DepTree>)
    requires i < |deps|
    requires Collect(deps[..i], local, syncs) == Scanned(ls)
    ensures !NeedsSync(local, deps[i]) ==> Collect(deps[..i + 1], local, syncs) == Scanned(ls)
    ensures NeedsSync(local, deps[i]) && SyncLeaves(deps[i], syncs).Scanned? ==>
      Collect(deps[..i + 1], local, syncs) == Scanned(ls + SyncLeaves(deps[i], syncs).leaves)
    ensures NeedsSync(local, deps[i]) && SyncLeaves(deps[i], syncs).Missed? ==>
      var m := SyncLeaves(deps[i], syncs);
      Collect(deps[..i + 1], local, syncs) == Missed(m.dep, m.db, ls + m.leaves)
  {
    assert deps[..i + 1][..i] == deps[..i];
  }

  /** One more sync database: a hit adds its leaf, a miss stops the scan. */
  lemma SyncStep(dep: string, syncs: seq<Db>, k: nat, ls: seq<DepTree>)
    requires k < |syncs|
    requires SyncLeaves(dep, syncs[..k]) == Scanned(ls)
    ensures syncs[k].satisfier(dep).Some? ==>
      SyncLeaves(dep, syncs[..k + 1]) == Scanned(ls + [Leaf(syncs[k].satisfier(dep).value)])
    ensures syncs[k].satisfier(dep).None? ==> SyncLeaves(dep, syncs[..k + 1]) == Missed(dep, k, ls)
  {
    assert syncs[..k + 1][..k] == syncs[..k];
  }

  /** A miss ends the sync scan: later databases are not consulted. */
  lemma {:induction false} SyncMissIsFinal(dep: string, syncs: seq<Db>, n: nat)
    requires n <= |syncs|
    requires SyncLeaves(dep, syncs[..n]).Missed?
    ensures SyncLeaves(dep, syncs) == SyncLeaves(dep, syncs[..n])
    decreases |syncs| - n
  {
    if n < |syncs| {
      assert syncs[..n + 1][..n] == syncs[..n];
      SyncMissIsFinal(dep, syncs, n + 1);
    } else {
      assert syncs[..n] == syncs;
    }
  }

  /** `build`, with the sync databases in registration order. The nested
      loops push one leaf per sync database for each dependency without a
      local satisfier; a database without a satisfier ends the run at a
      `todo!()`, and so does the end of the loops, once the leaves are stored
      in the root node. */
  method Build(package: Pkg, local: Db, syncs: seq<Db>) returns (end: Todo)
    ensures end == BuildEnd(package, local, syncs)
  {
    var branch := DepTree(package, Base, Some([]));
    var deps := Depends(package);
    var leaves: seq<DepTree> := [];
    for i := 0 to |deps|
      invariant Collect(deps[..i], local, syncs) == Scanned(leaves)
    {
      var dep := deps[i];
      CollectStep(deps, i, local, syncs, leaves);
      if local.satisfier(dep).Some? {
        continue;
      }
      ghost var before, row := leaves, [];
      for k := 0 to |syncs|
        invariant SyncLeaves(dep, syncs[..k]) == Scanned(row)
        invariant leaves == before + row
      {
        SyncStep(dep, syncs, k, row);
        match syncs[k].satisfier(dep)
        case Some(hit) =>
          leaves := leaves + [Leaf(hit)];
          row := row + [Leaf(hit)];
        case None =>
          SyncMissIsFinal(dep, syncs, k + 1);
          MissIsFinal(deps, i + 1, local, syncs);
          return TodoOnMiss(dep, k, leaves);
      }
      assert syncs[..|syncs|] == syncs;
    }
    assert deps[..|deps|] == deps;
    branch := branch.(leaves := Some(leaves));
    return TodoAfterLeaves(branch);
  }

  /** Where `build_all` ends: with the list of trees, or in the `todo!()` of
      the `build` of the target at index `target`. */
  datatype AllEnd = Trees(trees: seq<DepTree>) | Panicked(target: nat, at: Todo)

  /** The per-target loop of `build_all`, after the databases are open.
      Targets are built in order and the first `build` that does not return
      ends the call; as `build` never returns, the call returns (an empty
      list) only when there is no target at all. */
  method BuildAll(packages: seq<Pkg>, local: Db, syncs: seq<Db>) returns (r: AllEnd)
    ensures packages == [] ==> r == Trees([])
    ensures packages != [] ==> r == Panicked(0, BuildEnd(packages[0], local, syncs))
  {
    var res: seq<DepTree> := [];
    // `build` never returns, so the first pass ends the call and `res` is
    // never pushed to.
    for i := 0 to |packages|
      invariant i == 0 && res == []
    {
      var end := Build(packages[i], local, syncs);
      return Panicked(i, end);
    }
    return Trees(res);
  }
}
