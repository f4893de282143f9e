/** The whole `deps install` run: resolve, snapshot the installed packages,
    plan, then execute. */
module Session {
  import opened Strip
  import opened Snapshot
  import opened Planner
  import opened Executor

  datatype Option<T> = None | Some(value: T)

  /** One run of the command. The collaborators outside the model are given
      by their results: whether the resolver found a consistent graph, the
      locked requirements of that graph (already filtered to the requested
      environments), the packages found installed, and the status codes the
      package manager would answer. Besides the command's boolean result it
      returns the plan it made, if any, and the package manager calls it
      made, in order. */
  method RunInstall(resolved: bool, desired: seq<Requirement>, installedDeps: seq<InstalledDep>,
                    removeStatus: int, installStatus: int)
    returns (ok: bool, plan: Option<Plan>, calls: seq<ManagerCall>)
    ensures !resolved ==> !ok && plan == None && calls == []
    ensures resolved ==>
              var installed := InstalledMap(installedDeps);
              plan == Some(Plan(ToInstall(desired, installed), ToRemove(desired, installed)))
    ensures resolved ==>
              plan.Some? && FailFast(plan.value.toInstall, plan.value.toRemove, removeStatus, installStatus, ok, calls)
  {
    // resolve: a conflict ends the run before anything else happens
    if !resolved {
      return false, None, [];
    }
    // get installed packages
    var installed := InstalledMap(installedDeps);
    // plan what to install and what to remove
    var install, remove := MakePlan(desired, installed);
    plan := Some(Plan(install, remove));
    // remove, then install
    ok, calls := Execute(install, remove, removeStatus, installStatus);
  }

  /** When every desired requirement is already installed with its version,
      a resolved run succeeds without calling the package manager. */
  lemma UpToDateRunSucceeds(desired: seq<Requirement>, installedDeps: seq<InstalledDep>,
                            removeStatus: int, installStatus: int,
                            ok: bool, calls: seq<ManagerCall>)
    requires forall r :: r in desired ==> Satisfied(r, InstalledMap(installedDeps))
    requires var installed := InstalledMap(installedDeps);
             FailFast(ToInstall(desired, installed), ToRemove(desired, installed), removeStatus, installStatus, ok, calls)
    ensures ok && calls == []
  {
    var installed := InstalledMap(installedDeps);
    NothingToDoIffSatisfied(desired, installed);
    FailFastCalls(ToInstall(desired, installed), ToRemove(desired, installed), removeStatus, installStatus, ok, calls);
  }

  /** The update rule and fail-fast together: when some desired requirement
      is installed with another version and the removal fails, the run fails
      having made only that removal call, and the call carries the desired
      record itself. It holds for any snapshot, in particular for
      `InstalledMap(installedDeps)`, for which `RunInstall`'s ensures supply
      exactly the `FailFast` premise. */
  lemma FailedUpdateNeverInstalls(desired: seq<Requirement>, installed: map<string, string>,
                                  r: Requirement, removeStatus: int, installStatus: int,
                                  ok: bool, calls: seq<ManagerCall>)
    requires r in desired && r.name in installed && StripEq(r.version) != installed[r.name]
    requires removeStatus != 0
    requires FailFast(ToInstall(desired, installed), ToRemove(desired, installed), removeStatus, installStatus, ok, calls)
    ensures !ok && |calls| == 1 && calls[0].RemoveCall? && r in calls[0].reqs
    ensures forall c :: c in calls ==> !c.InstallCall?
  {
    var install, remove := ToInstall(desired, installed), ToRemove(desired, installed);
    Membership(desired, installed, r);
    assert r in remove;
    RemovalFailureStopsInstall(install, remove, removeStatus, installStatus, ok, calls);
    assert calls[0] == RemoveCall(remove);
  }
}
