# dephell `deps install`: planner and fail-fast executor

This project models the core of dephell's `deps install` command
(`DepsInstallCommand.__call__`). The command brings a Python environment in
line with a project's resolved, locked dependencies. It works in four steps:

1. If the resolver cannot build a consistent graph, the command reports the
   conflict and returns `False`. Nothing else happens.
2. It takes a snapshot of the installed packages as a map from name to
   version. The version is the text of the installed constraint with every
   `=` stripped from both ends.
3. It walks the locked requirements in order and sorts each one:
   - **install**: the name is not installed;
   - **skip**: the name is installed and the `=`-stripped versions are equal;
   - **update**: the name is installed with another version. The same
     requirement record is appended to both the remove list and the install
     list.
4. It asks the package manager to remove the remove list, if that list is
   not empty, and then to install the install list, if that list is not
   empty. The first non-zero status code makes the command return `False`.
   Otherwise it returns `True`.

The Dafny modules follow these steps:

- `Strip` (strip.dfy): `StripEq`, Python's `str.strip('=')`. One lemma
  states that the result is the input with runs of `=` cut off both ends and
  the middle kept. Another proves this determines the result uniquely. A
  third proves stripping is idempotent.
- `Snapshot` (snapshot.dfy): `InstalledMap`, the dictionary comprehension
  that builds the installed map. When the same name appears twice, the later
  entry wins.
- `Planner` (planner.dfy): `Classify` is the three-way decision for one
  requirement. `ToInstall` and `ToRemove` are the specification functions.
  `MakePlan` is the source's loop, proved equal to them. The lemmas cover
  membership, multiplicity, order and the special cases.
- `Executor` (executor.dfy): `Execute` runs remove-then-install and returns
  the list of package-manager calls it made. It is proved against the
  `FailFast` relation. A lemma shows that `FailFast` fixes both the calls and
  the result.
- `Session` (session.dfy): `RunInstall` models the whole command. It
  returns the boolean result, the plan (or `None` when resolution failed)
  and the calls made.

Collaborators outside the model are inputs:

- the resolver's verdict (`resolved`);
- the locked requirements of the resolved graph, already filtered to the
  requested environments (`desired`);
- the installed packages as (name, constraint text) pairs (`installedDeps`);
- the status codes the package manager returns to its one removal and its
  one installation (`removeStatus`, `installStatus`).

Three points about what the code does and does not do:

- Only `=` is stripped, from both ends of both versions, so `==1.0` becomes
  `1.0` while `>=1.0` stays `>=1.0`.
- Package names are compared exactly as written.
- The code handles only two failures itself: an unresolved graph and
  non-zero manager status codes. A missing environment or an unreadable
  snapshot shows up as an exception raised by a collaborator, which the code
  does not catch.

The remove list carries the desired records, not the installed ones, exactly
as the code does (`remove.append(req)`).

## Model

| member | source | states |
|---|---|---|
| `Strip.StripEq` | dephell/commands/deps_install.py:62 | `str.strip('=')`, used on the installed constraint here and on the desired version at line 73; characterised by `StripEqSpec` and `StripEqUnique`, idempotent by `StripEqIdempotent` |
| `Strip.LStripEqSpec` | dephell/commands/deps_install.py:73 | dropping the leading `=` keeps a suffix of the input, removes only `=` characters, and leaves no `=` in front |
| `Strip.RStripEqSpec` | dephell/commands/deps_install.py:73 | dropping the trailing `=` keeps a prefix of the input, removes only `=` characters, and leaves no `=` at the end |
| `Strip.StripEqSpec` | dephell/commands/deps_install.py:73 | `StripEq` gives the input with a run of `=` cut off the front and a run cut off the back, the middle unchanged, and the result neither starts nor ends with `=` |
| `Strip.StripEqUnique` | dephell/commands/deps_install.py:62 | any string obtained from the input by cutting `=` runs off both ends, with no `=` left at either end, equals `StripEq` of the input, so the property of `StripEqSpec` determines the result |
| `Strip.StripEqOfTrimmed` | dephell/commands/deps_install.py:73 | a string with no `=` at either end is returned unchanged |
| `Strip.StripEqIdempotent` | dephell/commands/deps_install.py:73 | stripping twice gives the same result as stripping once |
| `Strip.PinnedVersionExample` | dephell/commands/deps_install.py:73 | `==1.0` becomes `1.0` |
| `Strip.OtherOperatorKeptExample` | dephell/commands/deps_install.py:73 | `>=1.0` is left unchanged: only `=` characters at the ends are removed |
| `Snapshot.InstalledMap` | dephell/commands/deps_install.py:62 | the map's keys are exactly the names of the installed packages |
| `Snapshot.InstalledMapLastWins` | dephell/commands/deps_install.py:62 | a name maps to the stripped constraint of the last entry with that name; a later duplicate overwrites an earlier one |
| `Snapshot.InstalledValuesStripped` | dephell/commands/deps_install.py:62 | every value is the stripped constraint of some entry with that name, so no value starts or ends with `=` |
| `Planner.Classify` | dephell/commands/deps_install.py:69-83 | the three-way decision for one requirement (install when the name is not installed, skip when the stripped versions agree, update otherwise); its consequences are stated by `Membership`, `NewPackageInstalledOnly`, `SameVersionSkipped` and `ChangedVersionUpdated` |
| `Planner.ToInstall` | dephell/commands/deps_install.py:65-83 | reference definition of the install list, the desired records that are not skipped in their order; pinned down by `InstallCount` and `InstallIsSubsequence`, and equal to the loop's list by `MakePlan` |
| `Planner.ToRemove` | dephell/commands/deps_install.py:65-83 | reference definition of the remove list, the desired records that are updated in their order; pinned down by `RemoveCount` and `RemoveIsSubsequence`, and equal to the loop's list by `MakePlan` |
| `Planner.MakePlan` | dephell/commands/deps_install.py:65-83 | the loop's install and remove lists equal `ToInstall` and `ToRemove` of the desired sequence and the installed map |
| `Planner.InstallCount` | dephell/commands/deps_install.py:65-83 | a record occurs in the install list as often as in the desired sequence if it is not skipped, and not at all if it is skipped |
| `Planner.RemoveCount` | dephell/commands/deps_install.py:65-83 | a record occurs in the remove list as often as in the desired sequence if it is updated, and not at all otherwise |
| `Planner.Membership` | dephell/commands/deps_install.py:65-83 | a record is in the install list iff it is desired and not skipped; it is in the remove list iff it is desired and updated |
| `Planner.NewPackageInstalledOnly` | dephell/commands/deps_install.py:69-71 | a desired record whose name is not installed is in the install list and not in the remove list |
| `Planner.SameVersionSkipped` | dephell/commands/deps_install.py:73-75 | a record whose stripped version equals the installed version for its name is in neither list |
| `Planner.ChangedVersionUpdated` | dephell/commands/deps_install.py:82-83 | a desired record installed with another stripped version is, as the same record, in both lists |
| `Planner.RemovedAreReinstalled` | dephell/commands/deps_install.py:82-83 | every record in the remove list is also in the install list, and its name is a key of the installed map |
| `Planner.InstallIsSubsequence` | dephell/commands/deps_install.py:65-83 | the install list is an order-preserving subsequence of the desired sequence |
| `Planner.RemoveIsSubsequence` | dephell/commands/deps_install.py:65-83 | the remove list is an order-preserving subsequence of the desired sequence |
| `Planner.RemoveIsSubsequenceOfInstall` | dephell/commands/deps_install.py:65-83 | the remove list is an order-preserving subsequence of the install list |
| `Planner.UndeclaredUntouched` | dephell/commands/deps_install.py:67-83 | a name that no desired record carries occurs in neither list, so installed packages that are not declared are left alone |
| `Planner.NothingToDoIffSatisfied` | dephell/commands/deps_install.py:67-83 | both lists are empty iff every desired record is installed with its stripped version |
| `Planner.UpdatePairing` | dephell/commands/deps_install.py:76-83 | when desired names are distinct, an updated record occurs exactly once in each list |
| `Planner.ClassifyAfterRemoval` | dephell/commands/deps_install.py:65-83 | when desired names are distinct: once the remove list's names are taken off the installed map, an updated record becomes a plain install and every other record keeps its decision |
| `Planner.ReplanAfterRemoval` | dephell/commands/deps_install.py:65-83 | when desired names are distinct, planning again after a successful removal, with nothing else changed, gives the same install list and an empty remove list |
| `Planner.PinnedSameVersionExample` | dephell/commands/deps_install.py:73-75 | a `==1.0` requirement against installed `1.0` is skipped |
| `Planner.EmptyEnvironmentExample` | dephell/commands/deps_install.py:69-71 | with nothing installed, `[pkgA 1.0, pkgB 2.0]` is installed in that order and nothing is removed |
| `Planner.UpToDateExample` | dephell/commands/deps_install.py:73-75 | `pkgA 1.0` against installed `pkgA 1.0` gives two empty lists |
| `Planner.NewerVersionExample` | dephell/commands/deps_install.py:76-83 | `pkgA 2.0` against installed `pkgA 1.0` puts the desired record in both lists |
| `Executor.FailFast` | dephell/commands/deps_install.py:86-107 | the fail-fast protocol as a relation between the plan, the status codes, the result and the calls made; `FailFastCalls` and `FailFastDeterministic` show it fixes the calls and the result |
| `Executor.Execute` | dephell/commands/deps_install.py:86-107 | the result and the call trace satisfy `FailFast`: at most one removal and one installation, the removal first; the removal happens iff the remove list is non-empty; the installation happens iff the install list is non-empty and no removal failed; the result is true iff every call made returned 0 |
| `Executor.FailFastCalls` | dephell/commands/deps_install.py:87-104 | under `FailFast`, the calls are exactly [remove if non-empty] + [install if non-empty and the removal did not fail], and the result is true iff each phase was empty or returned 0 |
| `Executor.FailFastDeterministic` | dephell/commands/deps_install.py:86-107 | `FailFast` determines both the result and the calls |
| `Executor.RemovalFailureStopsInstall` | dephell/commands/deps_install.py:92-94 | a failed removal of a non-empty list is the only call made, and the result is false |
| `Session.RunInstall` | dephell/commands/deps_install.py:46-107 | an unresolved graph gives false with no plan and no calls; otherwise the plan is `ToInstall`/`ToRemove` over the installed map, and the result and the calls satisfy `FailFast` for that plan |
| `Session.UpToDateRunSucceeds` | dephell/commands/deps_install.py:65-107 | when every desired record is already installed with its version, the run succeeds and calls the package manager not at all |
| `Session.FailedUpdateNeverInstalls` | dephell/commands/deps_install.py:82-94 | when a record is updated and the removal fails, the run fails after a single removal call that carries that record, and the installer is never called |

## Left out

- `get_parser` (argument parser construction) is not modelled. It holds no
  decision logic.
- Logging calls and `print(conflict)` are not modelled. They are output only.
- The converter registry, `load_resolver` and `attach_deps` are left out.
  The requirements they lead to are an input.
- The resolver's graph search is left out. Only its boolean verdict is
  modelled.
- `apply_envs` and `Requirement.from_graph` are left out. The model takes
  their result: the ordered sequence of locked requirements. So
  `Requirement` carries only a name and a version, with no environment tags.
- `analize_conflict` is not modelled. It only describes a conflict for
  display.
- `get_python_env` and `InstalledConverter().load` are left out. The model
  takes the installed (name, constraint text) pairs they produce, with
  `str(dep.constraint)` given as text. Exceptions these collaborators may
  raise are not modelled.
- `PackageManager` process spawning is outside the model. Each manager call
  is a recorded `ManagerCall` answered by a given status code. One code per
  operation suffices, because each operation runs at most once per command.
- Configuration lookups (`self.config[...]`) are not modelled. The silent
  flag and the environment set only feed collaborators that are left out.
- `Planner.ReplanAfterRemoval`: the package manager's effect on the
  environment is not modelled. The lemma assumes a successful removal takes
  exactly the remove list's names off the installed map. It also requires
  desired names to be distinct: with `[A 1, A 2]` against installed `{A: 1}`
  the install list is `[A 2]`, but once `A` is removed a new plan installs
  `[A 1, A 2]`. `Planner.ClassifyAfterRemoval` carries the same condition.
- `Planner.UpdatePairing`: the "exactly one entry each" claim holds only for
  desired sequences with distinct names, which the resolver provides. Without
  that, `InstallCount` and `RemoveCount` give the exact multiplicities.
