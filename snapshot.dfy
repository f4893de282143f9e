/** The installed snapshot: the packages found in the target environment's
    library directory, turned into a map from package name to version. */
module Snapshot {
  import opened Strip

  /** One package found installed: its name and the text of its constraint
      (`str(dep.constraint)`, typically `==1.0` for an installed package). */
  datatype InstalledDep = InstalledDep(name: string, constraint: string)

  /** The names of the installed packages. */
  function Names(deps: seq<InstalledDep>): set<string>
  {
    set d | d in deps :: d.name
  }

  /** Unfolds `Names` over a sequence extended by one entry. */
  lemma NamesSnoc(init: seq<InstalledDep>, last: InstalledDep)
    ensures Names(init + [last]) == Names(init) + {last.name}
  {
    var deps := init + [last];
    assert forall d :: d in deps <==> d in init || d == last;
  }

  /** `deps[i]` is the last entry carrying its name. */
  predicate LastWithName(deps: seq<InstalledDep>, i: int)
    requires 0 <= i < |deps|
  {
    forall j :: i < j < |deps| ==> deps[j].name != deps[i].name
  }

  /** An entry that is last with its name stays so when the final entry is
      dropped, and carries another name than that final entry. */
  lemma LastWithNameSnoc(init: seq<InstalledDep>, last: InstalledDep, i: int)
    requires 0 <= i < |init| && LastWithName(init + [last], i)
    ensures LastWithName(init, i) && init[i].name != last.name
  {
    var deps := init + [last];
    assert deps[i] == init[i] && deps[|init|] == last;
    forall j | i < j < |init| ensures init[j].name != init[i].name {
      assert deps[j] == init[j];
    }
  }

  /** The dictionary comprehension `{dep.name: str(dep.constraint).strip('=')
      for dep in deps}`: the keys are exactly the installed names; the
      values are described by `InstalledMapLastWins`. */
  function InstalledMap(deps: seq<InstalledDep>): (m: map<string, string>)
    ensures m.Keys == Names(deps)
  {
    if deps == [] then map[]
    else
      var init, last := deps[..|deps| - 1], deps[|deps| - 1];
      NamesSnoc(init, last);
      assert deps == init + [last];
      InstalledMap(init)[last.name := StripEq(last.constraint)]
  }

  /** The value of a name is the stripped constraint of the LAST entry with
      that name: a later entry overwrites an earlier one. */
  lemma {:induction false} InstalledMapLastWins(deps: seq<InstalledDep>, i: int)
    requires 0 <= i < |deps| && LastWithName(deps, i)
    ensures deps[i].name in InstalledMap(deps)
    ensures InstalledMap(deps)[deps[i].name] == StripEq(deps[i].constraint)
  {
    var init, last := deps[..|deps| - 1], deps[|deps| - 1];
    assert deps == init + [last];
    if i < |init| {
      LastWithNameSnoc(init, last, i);
      InstalledMapLastWins(init, i);
      assert deps[i] == init[i];
    }
  }

  /** Every value of the map is the stripped constraint of some installed
      entry with that name, so it never starts or ends with `=`. */
  lemma {:induction false} InstalledValuesStripped(deps: seq<InstalledDep>, n: string)
    requires n in InstalledMap(deps)
    ensures exists i :: 0 <= i < |deps| && deps[i].name == n &&
              InstalledMap(deps)[n] == StripEq(deps[i].constraint)
    ensures Trimmed(InstalledMap(deps)[n])
  {
    var i := LastIndexOf(deps, n);
    InstalledMapLastWins(deps, i);
    StripEqSpec(deps[i].constraint);
  }

  /** The index of the last entry named `n`. */
  function LastIndexOf(deps: seq<InstalledDep>, n: string): (i: int)
    requires n in Names(deps)
    ensures 0 <= i < |deps| && deps[i].name == n && LastWithName(deps, i)
  {
    var last := |deps| - 1;
    if deps[last].name == n then last
    else
      assert n in Names(deps[..last]) by {
        var d :| d in deps && d.name == n;
        var j :| 0 <= j < |deps| && deps[j] == d;
        assert deps[..last][j] == d;
      }
      LastIndexOf(deps[..last], n)
  }
}
