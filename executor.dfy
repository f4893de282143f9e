/** The executor: asks the package manager to remove, then to install, and
    stops at the first non-zero status code. */
module Executor {
  import opened Planner

  /** One request made to the package manager, with the records passed. */
  datatype ManagerCall =
    | RemoveCall(reqs: seq<Requirement>)
    | InstallCall(reqs: seq<Requirement>)

  /** The status code the package manager answers to a call: the manager's
      process is outside the model, so the codes it would return to its one
      removal and its one installation are given. */
  function StatusOf(c: ManagerCall, removeStatus: int, installStatus: int): int {
    match c
    case RemoveCall(_) => removeStatus
    case InstallCall(_) => installStatus
  }

  /** The fail-fast protocol, as a relation between the inputs, the result
      `ok` and the calls made, in order:
      - only the remove list and the install list are ever passed;
      - a removal always comes before an installation, and each happens at
        most once;
      - the removal happens exactly when there is something to remove;
      - the installation happens exactly when there is something to install
        and no removal failed before it;
      - the result is true exactly when every call made returned 0. */
  predicate FailFast(install: seq<Requirement>, remove: seq<Requirement>,
                     removeStatus: int, installStatus: int,
                     ok: bool, calls: seq<ManagerCall>)
  {
    (forall i :: 0 <= i < |calls| ==> calls[i] == RemoveCall(remove) || calls[i] == InstallCall(install))
    && |calls| <= 2
    && (|calls| == 2 ==> calls[0].RemoveCall? && calls[1].InstallCall?)
    && (RemoveCall(remove) in calls <==> remove != [])
    && (InstallCall(install) in calls <==> install != [] && (remove == [] || removeStatus == 0))
    && (ok <==> forall c :: c in calls ==> StatusOf(c, removeStatus, installStatus) == 0)
  }

  /** Runs the plan: remove if there is anything to remove, give up on a
      non-zero code, then install if there is anything to install, give up
      on a non-zero code, and otherwise report success. */
  method Execute(install: seq<Requirement>, remove: seq<Requirement>, removeStatus: int, installStatus: int)
    returns (ok: bool, calls: seq<ManagerCall>)
    ensures FailFast(install, remove, removeStatus, installStatus, ok, calls)
  {
    calls := [];
    // remove
    if remove != [] {
      calls := calls + [RemoveCall(remove)];
      var code := removeStatus;
      if code != 0 {
        return false, calls;
      }
    }
    // install
    if install != [] {
      calls := calls + [InstallCall(install)];
      var code := installStatus;
      if code != 0 {
        return false, calls;
      }
    }
    return true, calls;
  }

  /** The calls the protocol makes, written out. */
  function ExpectedCalls(install: seq<Requirement>, remove: seq<Requirement>, removeStatus: int): seq<ManagerCall> {
    (if remove != [] then [RemoveCall(remove)] else [])
    + (if install != [] && (remove == [] || removeStatus == 0) then [InstallCall(install)] else [])
  }

  /** `FailFast` leaves no freedom: the calls are exactly the expected ones,
      so a failed removal means the installer was never run, and the result
      follows from the codes of those calls. */
  lemma FailFastCalls(install: seq<Requirement>, remove: seq<Requirement>,
                      removeStatus: int, installStatus: int,
                      ok: bool, calls: seq<ManagerCall>)
    requires FailFast(install, remove, removeStatus, installStatus, ok, calls)
    ensures calls == ExpectedCalls(install, remove, removeStatus)
    ensures ok <==> (remove == [] || removeStatus == 0) && (install == [] || installStatus == 0)
  {
    if |calls| == 2 {
      assert calls == [RemoveCall(remove), InstallCall(install)];
    } else if |calls| == 1 {
      assert calls == [calls[0]];
    }
  }

  /** The protocol determines the outcome and the calls. */
  lemma FailFastDeterministic(install: seq<Requirement>, remove: seq<Requirement>,
                              removeStatus: int, installStatus: int,
                              ok1: bool, calls1: seq<ManagerCall>,
                              ok2: bool, calls2: seq<ManagerCall>)
    requires FailFast(install, remove, removeStatus, installStatus, ok1, calls1)
    requires FailFast(install, remove, removeStatus, installStatus, ok2, calls2)
    ensures ok1 == ok2 && calls1 == calls2
  {
    FailFastCalls(install, remove, removeStatus, installStatus, ok1, calls1);
    FailFastCalls(install, remove, removeStatus, installStatus, ok2, calls2);
  }

  /** A failed removal is the only call made, and the run fails. */
  lemma RemovalFailureStopsInstall(install: seq<Requirement>, remove: seq<Requirement>,
                                   removeStatus: int, installStatus: int,
                                   ok: bool, calls: seq<ManagerCall>)
    requires FailFast(install, remove, removeStatus, installStatus, ok, calls)
    requires remove != [] && removeStatus != 0
    ensures !ok && calls == [RemoveCall(remove)]
  {
    FailFastCalls(install, remove, removeStatus, installStatus, ok, calls);
  }
}
