# rah dependency core, modelled in Dafny

rah is an early-stage AUR helper for Arch-based distributions. This project
models the two parts of it that hold sequential logic:

- **The package abstraction and the dependency-leaf collection**
  (`src/dep_tree.rs`, module `DependencyTree` in `dep_tree.dfy`). `Pkg` is a
  tagged union of a repo package (`Pacman`) and an AUR record (`Aur`), with
  the `name`, `depends` and `make_depends` accessors and the two `From`
  conversions. `DepTree::build` walks a package's dependency strings in
  order. It skips each one the local database satisfies. For the others it
  pushes one `Dep` leaf per sync database that returns a satisfier, and it
  stops at a `todo!()` as soon as one sync database has none. If it gets
  through every dependency, it stores the leaves in the root node and then
  stops at a second `todo!()`, so it never returns a tree. `build_all` runs
  `build` over its targets in order.
- **The pre-flight checks** (`src/helpers.rs`, module `Helpers` in
  `helpers.dfy`). `require_root` needs a known user and uid 0. `check_exec_context`
  needs a readable `/etc/os-release` that contains `"arch"`. `check_deps`
  classifies the exit status of `pacman -T`. Exit code 0 means nothing is
  unmet. Exit code 127 means the unmet names are the lines of stdout. Any
  other code, and a process killed by a signal, is an error.

`rust_str.dfy` (module `RustStr`) models the `str` operations these checks
use: `split` on one character, with `join` as its inverse, and `contains`.
`wrappers.dfy` holds `Option` and `Result`.

Foreign lookups are values. A database (`Db`) is known only through its
`find_satisfier` lookup, a total function from a dependency string to an
optional package. It is never interpreted, so version comparison and
provides matching are left open. The sync databases form a sequence in
registration order. The process outcome, the os-release text, the current
uid and the user lookup are parameters of the functions that use them.

`build` can only end at a `todo!()`. The model's `Build` therefore returns a
`Todo` value. It names the panic site and carries what had been built when
the panic happened: the leaves pushed so far, or the filled-in root node.

Three consequences of the code as written shape the model:
- The inner loop over the sync databases has no `break`
  (src/dep_tree.rs:93-110). Every sync database that satisfies a dependency
  adds a leaf, not only the first one.
- The `not_found` list is declared but never filled (src/dep_tree.rs:82).
  The first sync database without a satisfier reaches `todo!()`
  (src/dep_tree.rs:104-107), so one miss ends the run.
- `build` never returns (src/dep_tree.rs:113-115). So `build_all` returns
  normally only when it has no targets, set-up failures aside (see
  "## Left out").

## Model

| member | source | states |
|---|---|---|
| `DependencyTree.MakeDepends` | src/dep_tree.rs:42-47 | fails exactly on the repo variant, with the fixed message; on an AUR package gives the record's make dependencies unchanged |
| `DependencyTree.AurAccessors` | src/dep_tree.rs:24-54 | converting an AUR record gives the `Aur` variant, whose name, dependencies and make dependencies are the record's own |
| `DependencyTree.AlpmAccessors` | src/dep_tree.rs:24-60 | converting a database package gives the `Pacman` variant, whose name and dependencies are the package's own and which has no make dependencies |
| `DependencyTree.SyncLeavesSpec` | src/dep_tree.rs:93-110 | the scan over the sync databases for one dependency runs to its end iff every database has a satisfier; then it gives one leaf per database in order, each wrapping that database's satisfier; otherwise it stops at the first database without one, after the leaves of the databases before it |
| `DependencyTree.NeededMembers` | src/dep_tree.rs:88-91 | the dependencies sent to the sync databases are exactly those without a local satisfier |
| `DependencyTree.SkipsLocallySatisfied` | src/dep_tree.rs:88-91 | a dependency with a local satisfier is skipped entirely: the collection, leaves and abort point, is the same as over the other dependencies alone |
| `DependencyTree.RunsToEndIff` | src/dep_tree.rs:88-111 | the leaf collection reaches its end iff every dependency without a local satisfier is satisfied by every sync database |
| `DependencyTree.LeafOrder` | src/dep_tree.rs:88-110 | when the collection reaches its end, the leaves are the rows of the dependencies without a local satisfier, in dependency order, each row holding one leaf per sync database in database order; so there are (such dependencies) x (sync databases) leaves |
| `DependencyTree.LeavesAreSyncHits` | src/dep_tree.rs:94-102 | every leaf pushed, on any run, has type `Dep`, no leaves of its own, and wraps the package a sync database returned for a dependency without a local satisfier |
| `DependencyTree.AbortsAtFirstMiss` | src/dep_tree.rs:88-107 | when the run hits the `todo!()` of a miss, it is at the first dependency without a local satisfier that some sync database cannot satisfy, at the first such database, after all leaves of earlier dependencies and earlier databases |
| `DependencyTree.BuildEndShape` | src/dep_tree.rs:71-115 | the run reaches the final `todo!()` iff the collection reaches its end, and then the root node wraps the package itself as a `Base` node holding the collected leaves |
| `DependencyTree.Build` | src/dep_tree.rs:71-116 | the nested loops end exactly where the leaf collection specifies: at the `todo!()` of the first miss with the leaves pushed so far, or at the final `todo!()` with the filled-in root node |
| `DependencyTree.BuildAll` | src/dep_tree.rs:152-155 | with no targets the call returns an empty list; otherwise the `build` of the first target ends the call at its `todo!()` |
| `Helpers.RequireRoot` | src/helpers.rs:8-28 | succeeds iff the uid maps to a user and is 0; an unknown uid is reported as such whatever its value, root included; a known non-root user gets the not-root error |
| `Helpers.CheckExecContext` | src/helpers.rs:30-41 | succeeds iff os-release can be read and contains `"arch"` as a substring; an unreadable file gives the read error, a readable one without `"arch"` the not-Arch error |
| `Helpers.CheckDeps` | src/helpers.rs:43-71 | succeeds iff `pacman` ran and exited with 0 or 127; with 0 nothing is unmet |
| `Helpers.UnmetAreLines` | src/helpers.rs:51-59 | with exit code 127 the unmet list has one more entry than stdout has newlines, no entry holds a newline, and joining the entries with newlines gives stdout back |
| `Helpers.CheckDepsErrors` | src/helpers.rs:44-69 | a failure to start `pacman` is passed on; no exit code gives the killed-by-signal error; any code other than 0 and 127 gives the fatal error carrying stderr |
| `Helpers.DecimalValue` | src/helpers.rs:17-19 | the uid in the unknown-user message is rendered in decimal: the digits denote exactly the uid, with no leading zero |
| `RustStr.Split` | src/helpers.rs:53-56 | splitting on a character gives one more piece than there are separators, and no piece holds the separator |
| `RustStr.JoinSplit` | src/helpers.rs:52-56 | joining the pieces of a split with the separator gives the original text back |
| `RustStr.SplitJoin` | src/helpers.rs:52-56 | splitting a join of separator-free pieces gives the pieces back |
| `RustStr.ContainsIff` | src/helpers.rs:36 | the left-to-right search finds a pattern iff it occurs at some position of the text |

## Left out

- Opening the databases and registering the sync databases in `build_all` (src/dep_tree.rs:127-150) are foreign I/O. `BuildAll` takes the local database and the sync databases as parameters. The errors of that set-up, its warnings, and the second registration of `"extra"` are not modelled.
- The `parent` raw pointer of `DepTree` is not modelled. It points into the stack-local root node and is never read.
- The `raur` handle, the `prev` argument and the `not_found` list of `build` are not modelled. The code never uses any of them.
- The root node starts with an empty leaf list, which `build` overwrites before any reader can see it. The model states only the final root node.
- `find_satisfier` is an uninterpreted lookup, so version comparison and provides matching are not modelled. The dependency strings of a repo package are taken as already rendered by `Dep::to_string`.
- Spawning `pacman -T`, reading `/etc/os-release`, `get_current_uid` and `get_user_by_uid` are taken as inputs. So is the lossy UTF-8 decoding of the process output: text is a sequence of characters, already decoded. The dependency names given to `pacman -T` only shape its output, so `CheckDeps` takes that output alone.
- A `todo!()` is a panic. The model turns it into a `Todo` value that `Build` returns, and `BuildAll` passes it on as `Panicked`. Unwinding itself is not modelled.
- Logging and colour output are not modelled.
- The error texts in `Helpers.Message` are copied from the source as display strings. Nothing about them is proved, except that the uid in the unknown-user text is its decimal rendering.
- The command-line interface, the AUR search, `sync::info` and the configuration defaults are not modelled. They are outside the two core files and hold no logic to verify.
