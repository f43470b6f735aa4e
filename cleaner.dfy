/** The whole run: `organize_downloads`, which checks the directory, scans
    and groups it, and then either previews the grouping or moves the files;
    and the argument checks of `main` that decide whether it runs at all. */
module Cleaner {
  import opened Files
  import opened Categories
  import opened Scanner
  import opened Mover

  /** How a call of `organize_downloads` ends. `NotFound` and `NotADirectory`
      are its two `sys.exit(1)` paths; `Aborted` is the `FileExistsError` of
      `mkdir`, which propagates out of the move loop. */
  datatype Outcome =
    | NotFound
    | NotADirectory
    | NothingToOrganize
    | Preview(groups: seq<Group>, totalSize: nat)
    | Finished(moved: nat, errors: nat)
    | Aborted(category: string)

  /** `organize_downloads(d, dry_run, min_age_days, categories)` on the tree
      `fs`, whose entries directly under `d` are listed in the order `order`,
      and where the system refuses to move the names in `failing`: the
      outcome and the tree afterwards. */
  function Organize(fs: Tree, d: Path, order: seq<string>, dryRun: bool, minAge: int,
                    allowed: seq<string>, failing: set<string>): (Outcome, Tree)
  {
    if d !in fs then (NotFound, fs)
    else if !fs[d].Dir? then (NotADirectory, fs)
    else
      var kept := KeptNames(fs, d, order, minAge, allowed);
      var groups := GroupByCategory(kept);
      if groups == [] then (NothingToOrganize, fs)
      else if dryRun then (Preview(groups, TotalSize(fs, d, kept)), fs)
      else
        match MoveGroups(Tally(fs, 0, 0), d, groups, failing)
        case Running(t) => (Finished(t.moved, t.errors), t.fs)
        case Stopped(c, fs') => (Aborted(c), fs')
  }

  method OrganizeDownloads(fsys: FileSystem, d: Path, order: seq<string>, dryRun: bool, minAge: int,
                           allowed: seq<string>, failing: set<string>)
      returns (outcome: Outcome)
    requires IsListing(fsys.entries, d, order)
    modifies fsys
    ensures (outcome, fsys.entries) == Organize(old(fsys.entries), d, order, dryRun, minAge, allowed, failing)
  {
    if !fsys.Exists(d) {
      return NotFound;
    }
    if !fsys.entries[d].Dir? {
      return NotADirectory;
    }
    var groups, totalSize := Scan(fsys, d, order, minAge, allowed);
    if groups == [] {
      return NothingToOrganize;
    }
    if dryRun {
      return Preview(groups, totalSize);
    }
    var stopped, category, moved, errors := MoveAllGroups(fsys, d, groups, failing);
    if stopped {
      return Aborted(category);
    }
    return Finished(moved, errors);
  }

  /** `iterdir` names every entry once, so the scan keeps every name at most once. */
  lemma {:induction false} KeptDistinct(fs: Tree, d: Path, order: seq<string>, minAge: int, allowed: seq<string>)
    requires Distinct(order)
    ensures Distinct(KeptNames(fs, d, order, minAge, allowed))
  {
    if order != [] {
      var init, last := order[..|order| - 1], order[|order| - 1];
      assert Distinct(init);
      KeptDistinct(fs, d, init, minAge, allowed);
      KeptNamesMember(fs, d, init, minAge, allowed, last);
      assert forall i :: 0 <= i < |init| ==> init[i] == order[i] != last;
      if Kept(fs, d, last, minAge, allowed) {
        DistinctSnoc(KeptNames(fs, d, init, minAge, allowed), last);
      }
    }
  }

  /** The grouping holds exactly the kept names, each once. */
  lemma GroupedNames(fs: Tree, d: Path, order: seq<string>, minAge: int, allowed: seq<string>)
    requires IsListing(fs, d, order)
    ensures var kept := KeptNames(fs, d, order, minAge, allowed);
      && Distinct(kept)
      && Distinct(Flatten(GroupByCategory(kept)))
      && (forall n :: n in Flatten(GroupByCategory(kept)) <==> n in kept)
  {
    var kept := KeptNames(fs, d, order, minAge, allowed);
    KeptDistinct(fs, d, order, minAge, allowed);
    GroupByFlatten(kept);
    MultisetDistinct(kept, Flatten(GroupByCategory(kept)));
    forall n ensures n in Flatten(GroupByCategory(kept)) <==> n in kept {
      assert n in multiset(Flatten(GroupByCategory(kept))) <==> n in multiset(kept);
    }
  }

  lemma {:induction false} FilesOfIndex(groups: seq<Group>, c: string, n: string)
    requires n in FilesOf(groups, c)
    ensures exists i :: 0 <= i < |groups| && groups[i].category == c && n in groups[i].files
  {
    if groups[0].category != c {
      FilesOfIndex(groups[1..], c, n);
      var i :| 0 <= i < |groups[1..]| && groups[1..][i].category == c && n in groups[1..][i].files;
      assert groups[i + 1] == groups[1..][i];
    }
  }

  /** Every key of the grouping is the category of some kept name. */
  lemma KeysHaveFiles(kept: seq<string>)
    ensures forall c :: c in Keys(GroupByCategory(kept)) ==> exists n :: n in kept && GetCategory(n) == c
  {
    forall c | c in Keys(GroupByCategory(kept)) ensures exists n :: n in kept && GetCategory(n) == c {
      GroupByKeys(kept, c);
      OfCategoryMember(kept, c, OfCategory(kept, c)[0]);
    }
  }

  // ---------------------------------------------------------------------
  // What a run promises

  /** Only a run that reaches the move loop changes anything: a missing
      directory, a path that is not a directory, an empty grouping and a dry
      run leave the tree as it was. */
  lemma OrganizeReadOnly(fs: Tree, d: Path, order: seq<string>, dryRun: bool, minAge: int,
                         allowed: seq<string>, failing: set<string>)
    ensures var (outcome, fs') := Organize(fs, d, order, dryRun, minAge, allowed, failing);
      (dryRun || !(outcome.Finished? || outcome.Aborted?)) ==> fs' == fs
  {
  }

  /** With an existing directory, there is nothing to organize exactly when
      no listed entry passes the filter. */
  lemma OrganizeNothing(fs: Tree, d: Path, order: seq<string>, dryRun: bool, minAge: int,
                        allowed: seq<string>, failing: set<string>)
    requires d in fs && fs[d] == Dir
    ensures Organize(fs, d, order, dryRun, minAge, allowed, failing).0 == NothingToOrganize
        <==> forall n :: n in order ==> !Kept(fs, d, n, minAge, allowed)
  {
    var kept := KeptNames(fs, d, order, minAge, allowed);
    FileCount(kept);
    forall n ensures n in kept <==> n in order && Kept(fs, d, n, minAge, allowed) {
      KeptNamesMember(fs, d, order, minAge, allowed, n);
    }
    if kept != [] {
      assert kept[0] in kept;
    }
  }

  /** Every kept file is counted once, as moved or as an error, and the
      errors are exactly the kept files whose move the system refused. */
  lemma OrganizeCounts(fs: Tree, d: Path, order: seq<string>, dryRun: bool, minAge: int,
                       allowed: seq<string>, failing: set<string>)
    requires IsListing(fs, d, order)
    ensures var kept := KeptNames(fs, d, order, minAge, allowed);
      var outcome := Organize(fs, d, order, dryRun, minAge, allowed, failing).0;
      outcome.Finished? ==>
        && outcome.moved + outcome.errors == |kept|
        && outcome.errors == |RefusedNames(kept, failing)|
  {
    if d in fs && fs[d].Dir? && !dryRun {
      var kept := KeptNames(fs, d, order, minAge, allowed);
      var groups := GroupByCategory(kept);
      GroupedNames(fs, d, order, minAge, allowed);
      FileCount(kept);
      MoveGroupsCounts(Tally(fs, 0, 0), d, groups, failing);
      forall n | n in Flatten(groups) ensures d + [n] in fs {
        KeptNamesMember(fs, d, order, minAge, allowed, n);
      }
      MoveGroupsExact(Tally(fs, 0, 0), d, groups, failing);
      assert RefusedNames(Flatten(groups), failing) == RefusedNames(kept, failing);
    }
  }

  /** Nothing is overwritten or lost: whatever the outcome, every entry
      except the source of a kept file whose move was not refused is still
      in place with the same size and age. */
  lemma OrganizeKeeps(fs: Tree, d: Path, order: seq<string>, dryRun: bool, minAge: int,
                      allowed: seq<string>, failing: set<string>)
    requires IsListing(fs, d, order)
    ensures var kept := KeptNames(fs, d, order, minAge, allowed);
      var fs' := Organize(fs, d, order, dryRun, minAge, allowed, failing).1;
      forall p :: p in fs && !MovedAway(d, kept, failing, p) ==> p in fs' && fs'[p] == fs[p]
  {
    if d in fs && fs[d].Dir? && !dryRun {
      var kept := KeptNames(fs, d, order, minAge, allowed);
      GroupedNames(fs, d, order, minAge, allowed);
      MoveGroupsKeeps(Tally(fs, 0, 0), d, GroupByCategory(kept), failing);
    }
  }

  /** A finished run has moved every kept file whose move was not refused
      into the folder of its category, with its size and age, under its own
      name or a `<stem>_<k><suffix>` variant of it, and no two files to the
      same place: `place` says where each one went. */
  lemma OrganizeLands(fs: Tree, d: Path, order: seq<string>, dryRun: bool, minAge: int,
                      allowed: seq<string>, failing: set<string>)
    requires IsListing(fs, d, order)
    ensures var kept := KeptNames(fs, d, order, minAge, allowed);
      var (outcome, fs') := Organize(fs, d, order, dryRun, minAge, allowed, failing);
      var place := PlacedGroups(Tally(fs, 0, 0), d, GroupByCategory(kept), failing);
      outcome.Finished? ==>
        && (forall n :: n in kept && n !in failing ==>
              && d + [n] in fs && PlacedUnder(place, d + [GetCategory(n)], n)
              && place[n] !in fs && place[n] in fs' && fs'[place[n]] == fs[d + [n]])
        && (forall n1, n2 :: n1 in place && n2 in place && n1 != n2 ==> place[n1] != place[n2])
  {
    if d in fs && fs[d].Dir? && !dryRun {
      var kept := KeptNames(fs, d, order, minAge, allowed);
      var groups := GroupByCategory(kept);
      GroupedNames(fs, d, order, minAge, allowed);
      forall n | n in Flatten(groups) ensures d + [n] in fs {
        KeptNamesMember(fs, d, order, minAge, allowed, n);
      }
      MoveGroupsPlaces(Tally(fs, 0, 0), d, groups, failing);
      forall n | n in kept && n !in failing
        ensures d + [n] in fs
        ensures exists i :: 0 <= i < |groups| && groups[i].category == GetCategory(n) && n in groups[i].files
      {
        KeptNamesMember(fs, d, order, minAge, allowed, n);
        GroupByFilesOf(kept, GetCategory(n));
        OfCategoryMember(kept, GetCategory(n), n);
        FilesOfIndex(groups, GetCategory(n), n);
      }
    }
  }

  /** Every file of `kept` is, in `fs'`, either still at `<d>/<n>` with the
      entry it had in `fs`, or at its place in `place`, two levels below `d`
      and free in `fs`, with that entry: nothing was there to overwrite. No
      two files share a place. */
  ghost predicate NoneLost(fs: Tree, fs': Tree, d: Path, kept: seq<string>, place: map<string, Path>) {
    && (forall n :: n in kept && n !in place ==>
          d + [n] in fs && d + [n] in fs' && fs'[d + [n]] == fs[d + [n]])
    && (forall n :: n in place ==>
          && n in kept && d + [n] in fs && place[n] !in fs && place[n] in fs' && fs'[place[n]] == fs[d + [n]]
          && Inside(d, place[n], 2))
    && (forall n1, n2 :: n1 in place && n2 in place && n1 != n2 ==> place[n1] != place[n2])
  }

  /** Finished or aborted, a run loses no kept file: each one is either
      still directly in the downloads directory, unchanged, or at the place
      the run moved it to, with its size and age, and no two files share a
      place. With `OrganizeKeeps`, nothing present at the start is lost. */
  lemma OrganizeNothingLost(fs: Tree, d: Path, order: seq<string>, dryRun: bool, minAge: int,
                            allowed: seq<string>, failing: set<string>)
    requires IsListing(fs, d, order)
    ensures var kept := KeptNames(fs, d, order, minAge, allowed);
      var (outcome, fs') := Organize(fs, d, order, dryRun, minAge, allowed, failing);
      var place := PlacedGroups(Tally(fs, 0, 0), d, GroupByCategory(kept), failing);
      outcome.Finished? || outcome.Aborted? ==> NoneLost(fs, fs', d, kept, place)
  {
    if d in fs && fs[d].Dir? && !dryRun {
      var kept := KeptNames(fs, d, order, minAge, allowed);
      var groups := GroupByCategory(kept);
      GroupedNames(fs, d, order, minAge, allowed);
      forall n | n in Flatten(groups) ensures d + [n] in fs {
        KeptNamesMember(fs, d, order, minAge, allowed, n);
      }
      MoveGroupsPlaces(Tally(fs, 0, 0), d, groups, failing);
      MoveGroupsUnplaced(Tally(fs, 0, 0), d, groups, failing);
    }
  }

  /** After a finished run no kept file whose move was not refused is left
      directly in the downloads directory; its name can only be a category
      folder created after it left. */
  lemma OrganizeMovedOut(fs: Tree, d: Path, order: seq<string>, dryRun: bool, minAge: int,
                         allowed: seq<string>, failing: set<string>)
    requires IsListing(fs, d, order)
    ensures var kept := KeptNames(fs, d, order, minAge, allowed);
      var (outcome, fs') := Organize(fs, d, order, dryRun, minAge, allowed, failing);
      outcome.Finished? ==>
        forall n :: n in kept && n !in failing && d + [n] in fs' ==> fs'[d + [n]] == Dir
  {
    if d in fs && fs[d].Dir? && !dryRun {
      var kept := KeptNames(fs, d, order, minAge, allowed);
      GroupedNames(fs, d, order, minAge, allowed);
      MoveGroupsGone(Tally(fs, 0, 0), d, GroupByCategory(kept), failing);
      forall n | n in kept && n !in failing ensures MovedAway(d, Flatten(GroupByCategory(kept)), failing, d + [n]) {
        ChildShape(d, n);
      }
    }
  }

  /** The only new entries are category folders directly inside the
      downloads directory and entries directly inside them, and only for a
      category of some kept file. */
  lemma OrganizeNewPaths(fs: Tree, d: Path, order: seq<string>, dryRun: bool, minAge: int,
                         allowed: seq<string>, failing: set<string>)
    ensures var kept := KeptNames(fs, d, order, minAge, allowed);
      var fs' := Organize(fs, d, order, dryRun, minAge, allowed, failing).1;
      forall p :: p in fs' && p !in fs ==>
        && ((Inside(d, p, 1) && fs'[p] == Dir) || Inside(d, p, 2))
        && (exists n :: n in kept && GetCategory(n) == p[|d|])
  {
    if d in fs && fs[d].Dir? && !dryRun {
      var kept := KeptNames(fs, d, order, minAge, allowed);
      var groups := GroupByCategory(kept);
      MoveGroupsNew(Tally(fs, 0, 0), d, groups, failing);
      KeysHaveFiles(kept);
    }
  }

  /** A run is aborted only by a regular file, present from the start
      directly in the downloads directory, whose name is the category of
      some kept file. */
  lemma OrganizeAborted(fs: Tree, d: Path, order: seq<string>, dryRun: bool, minAge: int,
                        allowed: seq<string>, failing: set<string>)
    ensures var kept := KeptNames(fs, d, order, minAge, allowed);
      var outcome := Organize(fs, d, order, dryRun, minAge, allowed, failing).0;
      outcome.Aborted? ==>
        && d + [outcome.category] in fs && fs[d + [outcome.category]].File?
        && exists n :: n in kept && GetCategory(n) == outcome.category
  {
    if d in fs && fs[d].Dir? && !dryRun {
      var kept := KeptNames(fs, d, order, minAge, allowed);
      var groups := GroupByCategory(kept);
      MoveGroupsStopped(Tally(fs, 0, 0), d, groups, failing);
      KeysHaveFiles(kept);
    }
  }

  /** The step of `OrganizeIdempotent` for one name: an entry of the new
      tree is either unchanged and was not kept, a moved name's leftover
      directory, or new, and none of these passes the filter. */
  lemma NotKeptAgain(fs: Tree, fs': Tree, d: Path, kept: seq<string>, failing: set<string>,
                     minAge: int, allowed: seq<string>, n: string)
    requires forall p :: p in fs && !MovedAway(d, kept, failing, p) ==> p in fs' && fs'[p] == fs[p]
    requires forall m :: m in kept && m !in failing && d + [m] in fs' ==> fs'[d + [m]] == Dir
    requires forall p :: p in fs' && p !in fs ==> (Inside(d, p, 1) && fs'[p] == Dir) || Inside(d, p, 2)
    requires RefusedNames(kept, failing) == {}
    requires Kept(fs, d, n, minAge, allowed) ==> n in kept
    ensures !Kept(fs', d, n, minAge, allowed)
  {
    ChildShape(d, n);
    if n in kept {
      assert n !in RefusedNames(kept, failing);
    }
  }

  /** Running the organiser again on what a finished run left, with the same
      filters, finds nothing to organize when no move was refused (the ages
      are taken at the same instant). */
  lemma OrganizeIdempotent(fs: Tree, d: Path, order: seq<string>, dryRun: bool, minAge: int,
                           allowed: seq<string>, failing: set<string>,
                           order': seq<string>, dryRun': bool, failing': set<string>)
    requires IsListing(fs, d, order)
    requires Organize(fs, d, order, dryRun, minAge, allowed, failing).0.Finished?
    requires Organize(fs, d, order, dryRun, minAge, allowed, failing).0.errors == 0
    requires IsListing(Organize(fs, d, order, dryRun, minAge, allowed, failing).1, d, order')
    ensures Organize(Organize(fs, d, order, dryRun, minAge, allowed, failing).1, d, order', dryRun', minAge, allowed, failing').0
         == NothingToOrganize
  {
    var kept := KeptNames(fs, d, order, minAge, allowed);
    var fs' := Organize(fs, d, order, dryRun, minAge, allowed, failing).1;
    OrganizeCounts(fs, d, order, dryRun, minAge, allowed, failing);
    OrganizeKeeps(fs, d, order, dryRun, minAge, allowed, failing);
    OrganizeMovedOut(fs, d, order, dryRun, minAge, allowed, failing);
    OrganizeNewPaths(fs, d, order, dryRun, minAge, allowed, failing);
    assert RefusedNames(kept, failing) == {};
    assert !MovedAway(d, kept, failing, d);
    forall n | n in order' ensures !Kept(fs', d, n, minAge, allowed) {
      KeptNamesMember(fs, d, order, minAge, allowed, n);
      NotKeptAgain(fs, fs', d, kept, failing, minAge, allowed, n);
    }
    OrganizeNothing(fs', d, order', dryRun', minAge, allowed, failing');
  }

  // ---------------------------------------------------------------------
  // The argument checks of `main`

  datatype Option<T> = None | Some(value: T)

  /** Why `main` refuses to run (both exit with status 1). */
  datatype ArgError = InvalidCategoryNames(names: seq<string>) | NegativeAge

  /** The names given to `--categories` that are neither a table key nor
      "Other", in the order given. */
  function InvalidCategories(categories: seq<string>): (invalid: seq<string>)
    ensures forall c :: c in invalid <==> c in categories && !IsCategoryName(c)
    ensures |invalid| <= |categories|
  {
    if categories == [] then []
    else
      var rest := InvalidCategories(categories[..|categories| - 1]);
      var c := categories[|categories| - 1];
      if IsCategoryName(c) then rest else rest + [c]
  }

  /** The checks of `main`, categories first, then the age. An absent
      `--categories` is the empty list. */
  function ValidateArgs(categories: seq<string>, age: int): (r: Option<ArgError>)
    ensures r.None? <==> (forall c :: c in categories ==> IsCategoryName(c)) && age >= 0
    ensures r.Some? && r.value.InvalidCategoryNames? ==>
      && r.value.names != []
      && forall c :: c in r.value.names <==> c in categories && !IsCategoryName(c)
    ensures r == Some(NegativeAge) <==> (forall c :: c in categories ==> IsCategoryName(c)) && age < 0
  {
    var invalid := InvalidCategories(categories);
    if invalid != [] then
      assert invalid[0] in invalid;
      Some(InvalidCategoryNames(invalid))
    else if age < 0 then Some(NegativeAge)
    else None
  }

  /** How `main` ends: refused before running, or the organiser's outcome. */
  datatype RunResult = Rejected(error: ArgError) | Ran(outcome: Outcome)

  /** `main` without `--list-categories`: validate, then organize. */
  method Run(fsys: FileSystem, d: Path, order: seq<string>, dryRun: bool, age: int,
             categories: seq<string>, failing: set<string>)
      returns (result: RunResult)
    requires IsListing(fsys.entries, d, order)
    modifies fsys
    ensures ValidateArgs(categories, age).Some? ==>
      result == Rejected(ValidateArgs(categories, age).value) && fsys.entries == old(fsys.entries)
    ensures ValidateArgs(categories, age).None? ==>
      result.Ran? && (result.outcome, fsys.entries) == Organize(old(fsys.entries), d, order, dryRun, age, categories, failing)
  {
    if categories != [] {
      var invalid := InvalidCategories(categories);
      if invalid != [] {
        return Rejected(InvalidCategoryNames(invalid));
      }
    }
    if age < 0 {
      return Rejected(NegativeAge);
    }
    var outcome := OrganizeDownloads(fsys, d, order, dryRun, age, categories, failing);
    return Ran(outcome);
  }
}
