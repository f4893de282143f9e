/** The planner: sorts every desired requirement into install, skip or
    update against the installed snapshot, and collects the requirements to
    remove and to install. */
module Planner {
  import opened Strip

  /** A locked requirement of the resolved graph: a package name and its
      pinned version (possibly written with a `==` prefix). */
  datatype Requirement = Requirement(name: string, version: string)

  /** What the planner decides for one desired requirement. */
  datatype Action =
    | Install  // not installed at all
    | Skip     // installed with the same version
    | Update   // installed with another version: remove, then install

  /** The outcome of planning: what to install and what to remove. */
  datatype Plan = Plan(toInstall: seq<Requirement>, toRemove: seq<Requirement>)

  /** The decision for one requirement against the installed `name -> version`
      map, whose versions are already stripped of `=`. */
  function Classify(req: Requirement, installed: map<string, string>): Action {
    if req.name !in installed then Install
    else if StripEq(req.version) == installed[req.name] then Skip
    else Update
  }

  /** The requirements of `desired`, in order, that are not skipped. */
  function ToInstall(desired: seq<Requirement>, installed: map<string, string>): seq<Requirement>
    decreases |desired|
  {
    if desired == [] then []
    else
      var init, last := desired[..|desired| - 1], desired[|desired| - 1];
      ToInstall(init, installed) + (if Classify(last, installed) != Skip then [last] else [])
  }

  /** The requirements of `desired`, in order, that are updated. */
  function ToRemove(desired: seq<Requirement>, installed: map<string, string>): seq<Requirement>
    decreases |desired|
  {
    if desired == [] then []
    else
      var init, last := desired[..|desired| - 1], desired[|desired| - 1];
      ToRemove(init, installed) + (if Classify(last, installed) == Update then [last] else [])
  }

  /** The plan loop: one pass over `desired` appending to two lists that
      start empty. */
  method MakePlan(desired: seq<Requirement>, installed: map<string, string>)
    returns (install: seq<Requirement>, remove: seq<Requirement>)
    ensures install == ToInstall(desired, installed)
    ensures remove == ToRemove(desired, installed)
  {
    install, remove := [], [];
    for i := 0 to |desired|
      invariant install == ToInstall(desired[..i], installed)
      invariant remove == ToRemove(desired[..i], installed)
    {
      var req := desired[i];
      assert desired[..i + 1][..i] == desired[..i];
      // not installed: install
      if req.name !in installed {
        install := install + [req];
        continue;
      }
      // installed with the same version: skip
      var version := StripEq(req.version);
      if version == installed[req.name] {
        continue;
      }
      // installed with another version: remove it and install the new one
      remove := remove + [req];
      install := install + [req];
    }
    assert desired[..|desired|] == desired;
  }

  /** `a` is `b` with some elements left out, the rest kept in order. */
  ghost predicate IsSubsequence<T>(a: seq<T>, b: seq<T>)
    decreases |b|
  {
    if a == [] then true
    else if b == [] then false
    else
      (a[|a| - 1] == b[|b| - 1] && IsSubsequence(a[..|a| - 1], b[..|b| - 1]))
      || IsSubsequence(a, b[..|b| - 1])
  }

  /** A requirement occurs in the install list as often as in `desired`
      unless it is skipped, and then not at all. */
  lemma {:induction false} InstallCount(desired: seq<Requirement>, installed: map<string, string>, r: Requirement)
    ensures multiset(ToInstall(desired, installed))[r] ==
            if Classify(r, installed) == Skip then 0 else multiset(desired)[r]
    decreases |desired|
  {
    if desired != [] {
      var init, last := desired[..|desired| - 1], desired[|desired| - 1];
      assert desired == init + [last];
      InstallCount(init, installed, r);
    }
  }

  /** A requirement occurs in the remove list as often as in `desired` if it
      is updated, and otherwise not at all. */
  lemma {:induction false} RemoveCount(desired: seq<Requirement>, installed: map<string, string>, r: Requirement)
    ensures multiset(ToRemove(desired, installed))[r] ==
            if Classify(r, installed) == Update then multiset(desired)[r] else 0
    decreases |desired|
  {
    if desired != [] {
      var init, last := desired[..|desired| - 1], desired[|desired| - 1];
      assert desired == init + [last];
      RemoveCount(init, installed, r);
    }
  }

  /** Membership in both lists, both directions: a record is to be installed
      exactly when it is desired and not skipped, and to be removed exactly
      when it is desired and updated. */
  lemma {:induction false} Membership(desired: seq<Requirement>, installed: map<string, string>, r: Requirement)
    ensures r in ToInstall(desired, installed) <==> r in desired && Classify(r, installed) != Skip
    ensures r in ToRemove(desired, installed) <==> r in desired && Classify(r, installed) == Update
  {
    InstallCount(desired, installed, r);
    RemoveCount(desired, installed, r);
  }

  /** A desired requirement whose name is not installed is installed and
      never removed. */
  lemma {:induction false} NewPackageInstalledOnly(desired: seq<Requirement>, installed: map<string, string>, r: Requirement)
    requires r in desired && r.name !in installed
    ensures r in ToInstall(desired, installed)
    ensures r !in ToRemove(desired, installed)
  {
    Membership(desired, installed, r);
  }

  /** A desired requirement installed with the same stripped version goes
      into neither list. */
  lemma {:induction false} SameVersionSkipped(desired: seq<Requirement>, installed: map<string, string>, r: Requirement)
    requires r.name in installed && StripEq(r.version) == installed[r.name]
    ensures r !in ToInstall(desired, installed)
    ensures r !in ToRemove(desired, installed)
  {
    Membership(desired, installed, r);
  }

  /** A desired requirement installed with another stripped version is, as
      the same record, both removed and installed. */
  lemma {:induction false} ChangedVersionUpdated(desired: seq<Requirement>, installed: map<string, string>, r: Requirement)
    requires r in desired && r.name in installed && StripEq(r.version) != installed[r.name]
    ensures r in ToRemove(desired, installed)
    ensures r in ToInstall(desired, installed)
  {
    Membership(desired, installed, r);
  }

  /** Every record to remove is also to be installed, and its name is a key
      of the installed map. */
  lemma {:induction false} RemovedAreReinstalled(desired: seq<Requirement>, installed: map<string, string>)
    ensures forall r :: r in ToRemove(desired, installed) ==>
              r in ToInstall(desired, installed) && r.name in installed
  {
    forall r | r in ToRemove(desired, installed)
      ensures r in ToInstall(desired, installed) && r.name in installed
    {
      Membership(desired, installed, r);
    }
  }

  /** Dropping the last element of the longer sequence is one way to be a
      subsequence. */
  lemma SubsequenceSkipLast<T>(a: seq<T>, b: seq<T>)
    requires b != [] && IsSubsequence(a, b[..|b| - 1])
    ensures IsSubsequence(a, b)
  {
  }

  /** Matching the last elements of both sequences is the other. */
  lemma SubsequenceMatchLast<T>(a: seq<T>, b: seq<T>)
    requires a != [] && b != [] && a[|a| - 1] == b[|b| - 1]
    requires IsSubsequence(a[..|a| - 1], b[..|b| - 1])
    ensures IsSubsequence(a, b)
  {
  }

  /** The install list keeps the order of `desired`. */
  lemma {:induction false} InstallIsSubsequence(desired: seq<Requirement>, installed: map<string, string>)
    ensures IsSubsequence(ToInstall(desired, installed), desired)
    decreases |desired|
  {
    if desired != [] {
      var init, last := desired[..|desired| - 1], desired[|desired| - 1];
      InstallIsSubsequence(init, installed);
      var a := ToInstall(desired, installed);
      if Classify(last, installed) == Skip {
        assert a == ToInstall(init, installed);
        SubsequenceSkipLast(a, desired);
      } else {
        assert a == ToInstall(init, installed) + [last];
        assert a[..|a| - 1] == ToInstall(init, installed);
        SubsequenceMatchLast(a, desired);
      }
    }
  }

  /** The remove list keeps the order of `desired`. */
  lemma {:induction false} RemoveIsSubsequence(desired: seq<Requirement>, installed: map<string, string>)
    ensures IsSubsequence(ToRemove(desired, installed), desired)
    decreases |desired|
  {
    if desired != [] {
      var init, last := desired[..|desired| - 1], desired[|desired| - 1];
      RemoveIsSubsequence(init, installed);
      var a := ToRemove(desired, installed);
      if Classify(last, installed) == Update {
        assert a == ToRemove(init, installed) + [last];
        assert a[..|a| - 1] == ToRemove(init, installed);
        SubsequenceMatchLast(a, desired);
      } else {
        assert a == ToRemove(init, installed);
        SubsequenceSkipLast(a, desired);
      }
    }
  }

  /** The remove list is an order-preserving part of the install list. */
  lemma {:induction false} RemoveIsSubsequenceOfInstall(desired: seq<Requirement>, installed: map<string, string>)
    ensures IsSubsequence(ToRemove(desired, installed), ToInstall(desired, installed))
    decreases |desired|
  {
    if desired != [] {
      var init, last := desired[..|desired| - 1], desired[|desired| - 1];
      RemoveIsSubsequenceOfInstall(init, installed);
      var rm, ins := ToRemove(desired, installed), ToInstall(desired, installed);
      match Classify(last, installed)
      case Skip =>
        assert rm == ToRemove(init, installed) && ins == ToInstall(init, installed);
      case Install =>
        assert rm == ToRemove(init, installed) && ins == ToInstall(init, installed) + [last];
        assert ins[..|ins| - 1] == ToInstall(init, installed);
        SubsequenceSkipLast(rm, ins);
      case Update =>
        assert rm == ToRemove(init, installed) + [last] && ins == ToInstall(init, installed) + [last];
        assert rm[..|rm| - 1] == ToRemove(init, installed);
        assert ins[..|ins| - 1] == ToInstall(init, installed);
        SubsequenceMatchLast(rm, ins);
    }
  }

  /** An installed package that no desired requirement names is left alone:
      its name occurs in neither list. */
  lemma {:induction false} UndeclaredUntouched(desired: seq<Requirement>, installed: map<string, string>, n: string)
    requires forall r :: r in desired ==> r.name != n
    ensures forall r :: r in ToInstall(desired, installed) ==> r.name != n
    ensures forall r :: r in ToRemove(desired, installed) ==> r.name != n
  {
    forall r | r in ToInstall(desired, installed) || r in ToRemove(desired, installed)
      ensures r in desired
    {
      Membership(desired, installed, r);
    }
  }

  /** `r` is already installed with its stripped version. */
  predicate Satisfied(r: Requirement, installed: map<string, string>) {
    r.name in installed && StripEq(r.version) == installed[r.name]
  }

  /** Nothing is installed and nothing removed exactly when every desired
      requirement is already installed with its stripped version. */
  lemma {:induction false} NothingToDoIffSatisfied(desired: seq<Requirement>, installed: map<string, string>)
    ensures (ToInstall(desired, installed) == [] && ToRemove(desired, installed) == [])
            <==> forall r :: r in desired ==> Satisfied(r, installed)
    decreases |desired|
  {
    if desired != [] {
      var init, last := desired[..|desired| - 1], desired[|desired| - 1];
      assert desired == init + [last];
      NothingToDoIffSatisfied(init, installed);
      assert forall r :: r in desired <==> r in init || r == last;
      assert Satisfied(last, installed) <==> Classify(last, installed) == Skip;
      if Classify(last, installed) != Skip {
        assert |ToInstall(desired, installed)| == |ToInstall(init, installed)| + 1;
      }
    }
  }

  /** No two desired requirements share a name (the resolver pins one
      version per package). */
  predicate DistinctNames(desired: seq<Requirement>) {
    forall i, j :: 0 <= i < j < |desired| ==> desired[i].name != desired[j].name
  }

  /** With distinct names, a desired record occurs exactly once. */
  lemma {:induction false} DistinctOccursOnce(desired: seq<Requirement>, r: Requirement)
    requires DistinctNames(desired) && r in desired
    ensures multiset(desired)[r] == 1
    decreases |desired|
  {
    var init, last := desired[..|desired| - 1], desired[|desired| - 1];
    assert desired == init + [last];
    if r != last {
      DistinctOccursOnce(init, r);
    }
  }

  /** With distinct names, an updated package has exactly one entry in each
      list, and both are the desired record. */
  lemma {:induction false} UpdatePairing(desired: seq<Requirement>, installed: map<string, string>, r: Requirement)
    requires DistinctNames(desired)
    requires r in desired && r.name in installed && StripEq(r.version) != installed[r.name]
    ensures multiset(ToInstall(desired, installed))[r] == 1
    ensures multiset(ToRemove(desired, installed))[r] == 1
  {
    DistinctOccursOnce(desired, r);
    InstallCount(desired, installed, r);
    RemoveCount(desired, installed, r);
  }

  /** The names of a list of requirements. */
  function NamesOf(reqs: seq<Requirement>): set<string> {
    set r | r in reqs :: r.name
  }

  /** Two snapshots that skip the same desired requirements give the same
      install list. */
  lemma {:induction false} InstallAgrees(desired: seq<Requirement>, m1: map<string, string>, m2: map<string, string>)
    requires forall r :: r in desired ==> (Classify(r, m1) == Skip <==> Classify(r, m2) == Skip)
    ensures ToInstall(desired, m1) == ToInstall(desired, m2)
    decreases |desired|
  {
    if desired != [] {
      var init, last := desired[..|desired| - 1], desired[|desired| - 1];
      assert last in desired;
      assert forall r :: r in init ==> r in desired;
      InstallAgrees(init, m1, m2);
    }
  }

  /** A snapshot against which no desired requirement is updated gives an
      empty remove list. */
  lemma {:induction false} NoUpdateNoRemove(desired: seq<Requirement>, installed: map<string, string>)
    requires forall r :: r in desired ==> Classify(r, installed) != Update
    ensures ToRemove(desired, installed) == []
    decreases |desired|
  {
    if desired != [] {
      var init, last := desired[..|desired| - 1], desired[|desired| - 1];
      assert last in desired;
      assert forall r :: r in init ==> r in desired;
      NoUpdateNoRemove(init, installed);
    }
  }

  /** After the remove list's packages are gone, an updated requirement is
      to be installed afresh and every other keeps its decision. */
  lemma {:induction false} ClassifyAfterRemoval(desired: seq<Requirement>, installed: map<string, string>, r: Requirement)
    requires DistinctNames(desired) && r in desired
    ensures var after := installed - NamesOf(ToRemove(desired, installed));
            Classify(r, after) == if Classify(r, installed) == Update then Install else Classify(r, installed)
  {
    var gone := NamesOf(ToRemove(desired, installed));
    Membership(desired, installed, r);
    if Classify(r, installed) == Skip && r.name in gone {
      var q :| q in ToRemove(desired, installed) && q.name == r.name;
      Membership(desired, installed, q);
      assert false;
    }
  }

  /** Planning again after the removal phase succeeded: if the packages of
      the remove list are gone from the environment and nothing else
      changed, the new plan installs the same list and removes nothing. */
  lemma {:induction false} ReplanAfterRemoval(desired: seq<Requirement>, installed: map<string, string>)
    requires DistinctNames(desired)
    ensures ToInstall(desired, installed - NamesOf(ToRemove(desired, installed))) == ToInstall(desired, installed)
    ensures ToRemove(desired, installed - NamesOf(ToRemove(desired, installed))) == []
  {
    var gone := NamesOf(ToRemove(desired, installed));
    var after := installed - gone;
    forall r | r in desired
      ensures Classify(r, after) == (if Classify(r, installed) == Update then Install else Classify(r, installed))
    {
      ClassifyAfterRemoval(desired, installed, r);
    }
    InstallAgrees(desired, installed, after);
    NoUpdateNoRemove(desired, after);
  }

  /** A `==1.0` pin against that version installed is skipped. */
  lemma PinnedSameVersionExample()
    ensures Classify(Requirement("pkgA", "==1.0"), map["pkgA" := "1.0"]) == Skip
  {
    PinnedVersionExample();
  }

  /** Nothing installed: everything is installed, in order, nothing removed. */
  lemma EmptyEnvironmentExample()
    ensures var desired := [Requirement("pkgA", "1.0"), Requirement("pkgB", "2.0")];
            ToInstall(desired, map[]) == desired && ToRemove(desired, map[]) == []
  {
    var desired := [Requirement("pkgA", "1.0"), Requirement("pkgB", "2.0")];
    assert desired[..1] == [desired[0]] && desired[..1][..0] == [];
  }

  /** The desired version already installed: nothing to do. */
  lemma UpToDateExample()
    ensures var desired := [Requirement("pkgA", "1.0")];
            ToInstall(desired, map["pkgA" := "1.0"]) == [] && ToRemove(desired, map["pkgA" := "1.0"]) == []
  {
    StripEqOfTrimmed("1.0");
    assert [Requirement("pkgA", "1.0")][..0] == [];
  }

  /** Another version installed: the desired record is both removed and
      installed. */
  lemma NewerVersionExample()
    ensures var desired := [Requirement("pkgA", "2.0")];
            ToInstall(desired, map["pkgA" := "1.0"]) == desired && ToRemove(desired, map["pkgA" := "1.0"]) == desired
  {
    StripEqOfTrimmed("2.0");
    assert [Requirement("pkgA", "2.0")][..0] == [];
  }
}
