/** The second half of `organize_downloads`: for every category of the
    grouping, make sure `<dir>/<category>` exists, then move each of its
    files there, renaming it `<stem>_<k><suffix>` with the smallest free k
    when its name is taken, and count the moves that succeed and fail. */
module Mover {
  import opened Files
  import opened PathNames
  import opened Scanner

  /** `p` lies `depth` levels below `dir`. */
  predicate Inside(dir: Path, p: Path, depth: nat) {
    |p| == |dir| + depth && p[..|dir|] == dir
  }

  // ---------------------------------------------------------------------
  // Collision-free destination names

  /** The path tried for the k-th collision of `name` inside `cdir`. */
  function CandidatePath(cdir: Path, name: string, k: nat): Path {
    cdir + [Candidate(name, k)]
  }

  lemma {:induction false} CandidateSetSize(cdir: Path, name: string, k: nat)
    ensures |set j: nat | 1 <= j <= k :: CandidatePath(cdir, name, j)| == k
  {
    if k > 0 {
      var s := set j: nat | 1 <= j <= k :: CandidatePath(cdir, name, j);
      var s' := set j: nat | 1 <= j <= k - 1 :: CandidatePath(cdir, name, j);
      CandidateSetSize(cdir, name, k - 1);
      CandidateNotEarlier(cdir, name, k);
      assert s == s' + {CandidatePath(cdir, name, k)};
    }
  }

  /** The k-th candidate path differs from every earlier one. */
  lemma CandidateNotEarlier(cdir: Path, name: string, k: nat)
    ensures CandidatePath(cdir, name, k) !in set j: nat | 1 <= j < k :: CandidatePath(cdir, name, j)
  {
    if CandidatePath(cdir, name, k) in set j: nat | 1 <= j < k :: CandidatePath(cdir, name, j) {
      var j: nat :| 1 <= j < k && CandidatePath(cdir, name, j) == CandidatePath(cdir, name, k);
      assert CandidatePath(cdir, name, j)[|cdir|] == Candidate(name, j);
      CandidateInjective(name, j, k);
    }
  }

  /** When the first k candidates are all taken, at least k paths exist:
      the search for a free name cannot go on forever. */
  lemma CandidatesOccupy(taken: set<Path>, cdir: Path, name: string, k: nat)
    requires forall j: nat :: 1 <= j <= k ==> CandidatePath(cdir, name, j) in taken
    ensures k <= |taken|
  {
    var s := set j: nat | 1 <= j <= k :: CandidatePath(cdir, name, j);
    CandidateSetSize(cdir, name, k);
    assert s <= taken;
    SubsetSize(s, taken);
  }

  lemma {:induction false} SubsetSize<T>(a: set<T>, b: set<T>)
    requires a <= b
    ensures |a| <= |b|
    decreases a
  {
    if a != {} {
      var x :| x in a;
      SubsetSize(a - {x}, b - {x});
    }
  }

  /** The smallest counter, from k on, whose candidate is free; the ones
      before k are known to be taken. */
  function FirstFreeCounter(taken: set<Path>, cdir: Path, name: string, k: nat): (m: nat)
    requires k >= 1
    requires forall j: nat :: 1 <= j < k ==> CandidatePath(cdir, name, j) in taken
    ensures m >= k && CandidatePath(cdir, name, m) !in taken
    ensures forall j: nat :: 1 <= j < m ==> CandidatePath(cdir, name, j) in taken
    decreases |taken| + 1 - k
  {
    if CandidatePath(cdir, name, k) !in taken then k
    else
      CandidatesOccupy(taken, cdir, name, k);
      FirstFreeCounter(taken, cdir, name, k + 1)
  }

  /** Where `name` goes inside `cdir` when the paths in `taken` exist: its own
      name when that is free, otherwise the first free `<stem>_<k><suffix>`. */
  function Destination(taken: set<Path>, cdir: Path, name: string): (dest: Path)
    ensures dest !in taken
    ensures Inside(cdir, dest, 1)
    ensures cdir + [name] !in taken ==> dest == cdir + [name]
    ensures cdir + [name] in taken ==>
      exists k: nat :: k >= 1 && dest == CandidatePath(cdir, name, k)
        && forall j: nat :: 1 <= j < k ==> CandidatePath(cdir, name, j) in taken
  {
    if cdir + [name] !in taken then cdir + [name]
    else CandidatePath(cdir, name, FirstFreeCounter(taken, cdir, name, 1))
  }

  /** The free destination is the smallest: any free candidate has a counter
      at least as large as the chosen one. */
  lemma DestinationSmallest(taken: set<Path>, cdir: Path, name: string, k: nat)
    requires cdir + [name] in taken && k >= 1 && CandidatePath(cdir, name, k) !in taken
    ensures exists m: nat :: 1 <= m <= k && Destination(taken, cdir, name) == CandidatePath(cdir, name, m)
  {
    var m := FirstFreeCounter(taken, cdir, name, 1);
    assert m <= k;
  }

  /** The `while dest_path.exists()` loop. */
  method ResolveDestination(fsys: FileSystem, cdir: Path, name: string) returns (dest: Path)
    ensures dest == Destination(fsys.entries.Keys, cdir, name)
  {
    dest := cdir + [name];
    if fsys.Exists(dest) {
      var counter: nat := 1;
      while fsys.Exists(dest)
        invariant counter >= 1
        invariant dest == if counter == 1 then cdir + [name] else CandidatePath(cdir, name, counter - 1)
        invariant forall j: nat :: 1 <= j < counter - 1 ==> CandidatePath(cdir, name, j) in fsys.entries
        invariant counter > 1 || dest in fsys.entries
        decreases |fsys.entries.Keys| + 1 - counter
      {
        if counter > 1 {
          CandidatesOccupy(fsys.entries.Keys, cdir, name, counter - 1);
        }
        dest := CandidatePath(cdir, name, counter);
        counter := counter + 1;
      }
      assert FirstFreeCounter(fsys.entries.Keys, cdir, name, 1) == counter - 1;
    }
  }

  // ---------------------------------------------------------------------
  // The move loop as a function of the filesystem

  /** The filesystem and the two counters of the move loop. */
  datatype Tally = Tally(fs: Tree, moved: nat, errors: nat)

  /** One file: pick its destination in `<d>/<cat>`, try to move it there,
      and count the success or the failure. */
  function MoveOne(t: Tally, d: Path, cat: string, name: string, failing: set<string>): Tally {
    var dest := Destination(t.fs.Keys, d + [cat], name);
    var (ok, fs') := MoveResult(t.fs, d + [name], dest, name in failing);
    if ok then Tally(fs', t.moved + 1, t.errors) else Tally(fs', t.moved, t.errors + 1)
  }

  /** The inner loop over one category's files, in list order. */
  function MoveFiles(t: Tally, d: Path, cat: string, names: seq<string>, failing: set<string>): Tally {
    if names == [] then t
    else MoveOne(MoveFiles(t, d, cat, names[..|names| - 1], failing), d, cat, names[|names| - 1], failing)
  }

  /** Where the outer loop stands: still running, or stopped by a
      `FileExistsError` from `mkdir` that nothing in the loop catches. */
  datatype Phase = Running(tally: Tally) | Stopped(category: string, fs: Tree) {
    function Entries(): Tree {
      match this
      case Running(t) => t.fs
      case Stopped(_, fs) => fs
    }
  }

  /** The outer loop over the grouping, in its key order. */
  function MoveGroups(t: Tally, d: Path, groups: seq<Group>, failing: set<string>): Phase {
    if groups == [] then Running(t)
    else
      match MoveGroups(t, d, groups[..|groups| - 1], failing)
      case Stopped(c, fs) => Stopped(c, fs)
      case Running(t1) =>
        var g := groups[|groups| - 1];
        var (ok, fs1) := MakeDirResult(t1.fs, d + [g.category]);
        if ok then Running(MoveFiles(Tally(fs1, t1.moved, t1.errors), d, g.category, g.files, failing))
        else Stopped(g.category, fs1)
  }

  /** The body of the outer loop for one category, as the source runs it. */
  method MoveGroupFiles(fsys: FileSystem, d: Path, cat: string, files: seq<string>, failing: set<string>,
                        moved0: nat, errors0: nat)
      returns (moved: nat, errors: nat)
    modifies fsys
    ensures Tally(fsys.entries, moved, errors) == MoveFiles(Tally(old(fsys.entries), moved0, errors0), d, cat, files, failing)
  {
    moved, errors := moved0, errors0;
    var categoryDir := d + [cat];
    for i := 0 to |files|
      invariant Tally(fsys.entries, moved, errors) == MoveFiles(Tally(old(fsys.entries), moved0, errors0), d, cat, files[..i], failing)
    {
      assert files[..i + 1][..i] == files[..i];
      var name := files[i];
      var dest := ResolveDestination(fsys, categoryDir, name);
      var ok := fsys.Move(d + [name], dest, name in failing);
      if ok {
        moved := moved + 1;
      } else {
        errors := errors + 1;
      }
    }
    assert files[..|files|] == files;
  }

  /** The outer loop, lines 118-141: for each category in key order, make
      its folder, then move its files. A failed `mkdir` ends the loop. */
  method MoveAllGroups(fsys: FileSystem, d: Path, groups: seq<Group>, failing: set<string>)
      returns (stopped: bool, category: string, moved: nat, errors: nat)
    modifies fsys
    ensures MoveGroups(Tally(old(fsys.entries), 0, 0), d, groups, failing)
         == if stopped then Stopped(category, fsys.entries) else Running(Tally(fsys.entries, moved, errors))
  {
    stopped, category, moved, errors := false, "", 0, 0;
    for i := 0 to |groups|
      invariant MoveGroups(Tally(old(fsys.entries), 0, 0), d, groups[..i], failing)
             == Running(Tally(fsys.entries, moved, errors))
    {
      assert groups[..i + 1][..i] == groups[..i];
      category := groups[i].category;
      var ok := fsys.MakeDir(d + [category]);
      if !ok {
        MoveGroupsStopsForGood(Tally(old(fsys.entries), 0, 0), d, groups, failing, i + 1);
        return true, category, moved, errors;
      }
      moved, errors := MoveGroupFiles(fsys, d, category, groups[i].files, failing, moved, errors);
    }
    assert groups[..|groups|] == groups;
  }

  // ---------------------------------------------------------------------
  // What the move loop does to the filesystem and the counters

  /** `<d>/<n>` for a name `n` of `names` whose move the system does not refuse. */
  predicate MovedAway(d: Path, names: seq<string>, failing: set<string>, p: Path) {
    Inside(d, p, 1) && p[|d|] in names && p[|d|] !in failing
  }

  /** The grouped names whose move the system refuses. */
  function RefusedNames(names: seq<string>, failing: set<string>): set<string> {
    set n | n in names && n in failing
  }

  /** `<d>/<n>` lies directly inside `d`, under the name `n`. */
  lemma ChildShape(d: Path, n: string)
    ensures Inside(d, d + [n], 1) && (d + [n])[|d|] == n
  {
    assert (d + [n])[..|d|] == d;
  }

  /** A path directly inside `d` is `d` followed by its last component. */
  lemma ChildOnly(d: Path, p: Path)
    requires Inside(d, p, 1)
    ensures p == d + [p[|d|]]
  {
    assert p == p[..|d|] + [p[|d|]];
  }

  /** A path directly inside `<d>/<cat>` lies two levels below `d`, under `cat`. */
  lemma GrandchildShape(d: Path, cat: string, p: Path)
    requires Inside(d + [cat], p, 1)
    ensures Inside(d, p, 2) && p[|d|] == cat
  {
    assert p[..|d|] == p[..|d| + 1][..|d|];
  }

  lemma MoveOneFrame(t: Tally, d: Path, cat: string, name: string, failing: set<string>)
    ensures var r := MoveOne(t, d, cat, name, failing);
      && ((r.moved == t.moved + 1 && r.errors == t.errors) || (r.moved == t.moved && r.errors == t.errors + 1))
      && (r.moved == t.moved + 1 <==> name !in failing && d + [name] in t.fs)
      && (forall p :: p in t.fs && p != d + [name] ==> p in r.fs && r.fs[p] == t.fs[p])
      && (name !in failing ==> d + [name] !in r.fs)
      && (forall p :: p in r.fs && p !in t.fs ==> Inside(d, p, 2) && p[|d|] == cat)
  {
    var dest := Destination(t.fs.Keys, d + [cat], name);
    MoveFrame(t.fs, d + [name], dest, name in failing);
    GrandchildShape(d, cat, dest);
  }

  /** Every file of the list is attempted once and ends up counted once:
      as moved or as an error. */
  lemma {:induction false} MoveFilesCounts(t: Tally, d: Path, cat: string, names: seq<string>, failing: set<string>)
    ensures var r := MoveFiles(t, d, cat, names, failing);
      r.moved + r.errors == t.moved + t.errors + |names| && r.moved >= t.moved && r.errors >= t.errors
  {
    if names != [] {
      var init := names[..|names| - 1];
      MoveFilesCounts(t, d, cat, init, failing);
      MoveOneFrame(MoveFiles(t, d, cat, init, failing), d, cat, names[|names| - 1], failing);
    }
  }

  /** Nothing but the moved files' sources changes: every other entry,
      including the source of a refused move, is still there, unchanged. */
  lemma {:induction false} MoveFilesKeeps(t: Tally, d: Path, cat: string, names: seq<string>, failing: set<string>)
    ensures var r := MoveFiles(t, d, cat, names, failing);
      forall p :: p in t.fs && !MovedAway(d, names, failing, p) ==> p in r.fs && r.fs[p] == t.fs[p]
  {
    if names != [] {
      var init, last := names[..|names| - 1], names[|names| - 1];
      assert names == init + [last];
      MoveFilesKeeps(t, d, cat, init, failing);
      MoveOneFrame(MoveFiles(t, d, cat, init, failing), d, cat, last, failing);
      ChildShape(d, last);
    }
  }

  /** A file whose move is not refused is no longer in the downloads directory. */
  lemma {:induction false} MoveFilesGone(t: Tally, d: Path, cat: string, names: seq<string>, failing: set<string>)
    ensures var r := MoveFiles(t, d, cat, names, failing);
      forall p :: MovedAway(d, names, failing, p) ==> p !in r.fs
  {
    if names != [] {
      var init, last := names[..|names| - 1], names[|names| - 1];
      assert names == init + [last];
      MoveFilesGone(t, d, cat, init, failing);
      var r0 := MoveFiles(t, d, cat, init, failing);
      MoveOneFrame(r0, d, cat, last, failing);
      forall p | MovedAway(d, names, failing, p)
        ensures p !in MoveOne(r0, d, cat, last, failing).fs
      {
        if p[|d|] == last {
          ChildOnly(d, p);
        } else {
          assert MovedAway(d, init, failing, p);
        }
      }
    }
  }

  /** Every path the loop creates lies directly inside `<d>/<cat>`. */
  lemma {:induction false} MoveFilesNew(t: Tally, d: Path, cat: string, names: seq<string>, failing: set<string>)
    ensures var r := MoveFiles(t, d, cat, names, failing);
      forall p :: p in r.fs && p !in t.fs ==> Inside(d, p, 2) && p[|d|] == cat
  {
    if names != [] {
      var init := names[..|names| - 1];
      MoveFilesNew(t, d, cat, init, failing);
      MoveOneFrame(MoveFiles(t, d, cat, init, failing), d, cat, names[|names| - 1], failing);
    }
  }

  /** Adding a name not yet listed adds it to the refused names exactly when it is refused. */
  lemma RefusedSnoc(names: seq<string>, last: string, failing: set<string>)
    requires last !in names
    ensures |RefusedNames(names + [last], failing)| == |RefusedNames(names, failing)| + if last in failing then 1 else 0
  {
    if last in failing {
      assert RefusedNames(names + [last], failing) == RefusedNames(names, failing) + {last};
    } else {
      assert RefusedNames(names + [last], failing) == RefusedNames(names, failing);
    }
  }

  /** With distinct names whose sources all exist, the errors are exactly the
      refused moves and everything else is moved. */
  lemma {:induction false} MoveFilesExact(t: Tally, d: Path, cat: string, names: seq<string>, failing: set<string>)
    requires Distinct(names)
    requires forall n :: n in names ==> d + [n] in t.fs
    ensures var r := MoveFiles(t, d, cat, names, failing);
      r.errors == t.errors + |RefusedNames(names, failing)|
  {
    if names != [] {
      var init, last := names[..|names| - 1], names[|names| - 1];
      assert names == init + [last];
      DistinctSplit(init, [last]);
      MoveFilesExact(t, d, cat, init, failing);
      MoveFilesKeeps(t, d, cat, init, failing);
      ChildShape(d, last);
      MoveOneFrame(MoveFiles(t, d, cat, init, failing), d, cat, last, failing);
      RefusedSnoc(init, last, failing);
    }
  }

  lemma {:induction false} FlattenSnoc(groups: seq<Group>)
    requires groups != []
    ensures Flatten(groups) == Flatten(groups[..|groups| - 1]) + groups[|groups| - 1].files
  {
    if |groups| > 1 {
      FlattenSnoc(groups[1..]);
      assert groups[1..][..|groups[1..]| - 1] == groups[..|groups| - 1][1..];
    }
  }

  /** Once `mkdir` has stopped the loop, later categories change nothing. */
  lemma {:induction false} MoveGroupsStopsForGood(t: Tally, d: Path, groups: seq<Group>, failing: set<string>, i: nat)
    requires i <= |groups| && MoveGroups(t, d, groups[..i], failing).Stopped?
    ensures MoveGroups(t, d, groups, failing) == MoveGroups(t, d, groups[..i], failing)
    decreases |groups| - i
  {
    if i < |groups| {
      assert groups[..|groups| - 1][..i] == groups[..i];
      MoveGroupsStopsForGood(t, d, groups[..|groups| - 1], failing, i);
    } else {
      assert groups[..i] == groups;
    }
  }

  /** Every grouped file is attempted once and counted once, as moved or as an error. */
  lemma {:induction false} MoveGroupsCounts(t: Tally, d: Path, groups: seq<Group>, failing: set<string>)
    ensures MoveGroups(t, d, groups, failing).Running? ==>
      var r := MoveGroups(t, d, groups, failing).tally;
      r.moved + r.errors == t.moved + t.errors + |Flatten(groups)|
  {
    if groups != [] {
      var init, g := groups[..|groups| - 1], groups[|groups| - 1];
      MoveGroupsCounts(t, d, init, failing);
      FlattenSnoc(groups);
      match MoveGroups(t, d, init, failing)
      case Stopped(_, _) =>
      case Running(t1) =>
        var (ok, fs1) := MakeDirResult(t1.fs, d + [g.category]);
        MoveFilesCounts(Tally(fs1, t1.moved, t1.errors), d, g.category, g.files, failing);
    }
  }

  /** One pass of the outer loop, after a successful `mkdir`: entries other
      than the moved sources keep their value, the moved sources are gone,
      and a new entry is the category directory itself or lies directly
      inside it. */
  lemma MoveCategoryStep(fs: Tree, d: Path, cat: string, files: seq<string>, failing: set<string>,
                         moved: nat, errors: nat)
    requires MakeDirResult(fs, d + [cat]).0
    ensures var r := MoveFiles(Tally(MakeDirResult(fs, d + [cat]).1, moved, errors), d, cat, files, failing);
      && (forall p :: p in fs && !MovedAway(d, files, failing, p) ==> p in r.fs && r.fs[p] == fs[p])
      && (forall p :: p in r.fs && p in fs ==> r.fs[p] == fs[p])
      && (forall p :: MovedAway(d, files, failing, p) ==> p !in r.fs)
      && (forall p :: p in r.fs && p !in fs ==> ((Inside(d, p, 1) && r.fs[p] == Dir) || Inside(d, p, 2)) && p[|d|] == cat)
  {
    var fs1 := MakeDirResult(fs, d + [cat]).1;
    MakeDirFrame(fs, d + [cat]);
    ChildShape(d, cat);
    var t2 := Tally(fs1, moved, errors);
    MoveFilesKeeps(t2, d, cat, files, failing);
    MoveFilesGone(t2, d, cat, files, failing);
    MoveFilesNew(t2, d, cat, files, failing);
  }

  /** Whether the loop finishes or `mkdir` stops it, every entry other than
      the source of a move that was not refused is still there, unchanged:
      no file is ever overwritten. */
  lemma {:induction false} MoveGroupsKeeps(t: Tally, d: Path, groups: seq<Group>, failing: set<string>)
    ensures var e := MoveGroups(t, d, groups, failing).Entries();
      forall p :: p in t.fs && !MovedAway(d, Flatten(groups), failing, p) ==> p in e && e[p] == t.fs[p]
  {
    if groups != [] {
      var init, g := groups[..|groups| - 1], groups[|groups| - 1];
      MoveGroupsKeeps(t, d, init, failing);
      FlattenSnoc(groups);
      match MoveGroups(t, d, init, failing)
      case Stopped(_, _) =>
      case Running(t1) =>
        if MakeDirResult(t1.fs, d + [g.category]).0 {
          MoveCategoryStep(t1.fs, d, g.category, g.files, failing, t1.moved, t1.errors);
        }
    }
  }

  /** Every path the run creates is a category directory directly inside `d`
      or lies directly inside one, always for a category of the grouping. */
  lemma {:induction false} MoveGroupsNew(t: Tally, d: Path, groups: seq<Group>, failing: set<string>)
    ensures var e := MoveGroups(t, d, groups, failing).Entries();
      forall p :: p in e && p !in t.fs ==>
        ((Inside(d, p, 1) && e[p] == Dir) || Inside(d, p, 2)) && p[|d|] in Keys(groups)
  {
    if groups != [] {
      var init, g := groups[..|groups| - 1], groups[|groups| - 1];
      MoveGroupsNew(t, d, init, failing);
      assert forall c :: c in Keys(init) ==> c in Keys(groups);
      assert g.category == Keys(groups)[|groups| - 1];
      match MoveGroups(t, d, init, failing)
      case Stopped(_, _) =>
      case Running(t1) =>
        if MakeDirResult(t1.fs, d + [g.category]).0 {
          MoveCategoryStep(t1.fs, d, g.category, g.files, failing, t1.moved, t1.errors);
        }
    }
  }

  /** After a finished run, no file whose move was not refused is left in the
      downloads directory (its name may now be a category directory). */
  lemma {:induction false} MoveGroupsGone(t: Tally, d: Path, groups: seq<Group>, failing: set<string>)
    ensures var ph := MoveGroups(t, d, groups, failing);
      ph.Running? ==>
        forall p :: MovedAway(d, Flatten(groups), failing, p) && p in ph.tally.fs ==> ph.tally.fs[p] == Dir
  {
    if groups != [] {
      var init, g := groups[..|groups| - 1], groups[|groups| - 1];
      MoveGroupsGone(t, d, init, failing);
      FlattenSnoc(groups);
      match MoveGroups(t, d, init, failing)
      case Stopped(_, _) =>
      case Running(t1) =>
        if MakeDirResult(t1.fs, d + [g.category]).0 {
          MoveCategoryStep(t1.fs, d, g.category, g.files, failing, t1.moved, t1.errors);
        }
    }
  }

  /** The refused names of two lists with no name in common add up. */
  lemma RefusedConcat(a: seq<string>, b: seq<string>, failing: set<string>)
    requires forall n :: n in b ==> n !in a
    ensures |RefusedNames(a + b, failing)| == |RefusedNames(a, failing)| + |RefusedNames(b, failing)|
  {
    assert RefusedNames(a + b, failing) == RefusedNames(a, failing) + RefusedNames(b, failing);
    assert RefusedNames(a, failing) !! RefusedNames(b, failing);
  }

  /** With distinct grouped names whose sources all exist, a finished run
      counts as errors exactly the refused moves. */
  lemma {:induction false} MoveGroupsExact(t: Tally, d: Path, groups: seq<Group>, failing: set<string>)
    requires Distinct(Flatten(groups))
    requires forall n :: n in Flatten(groups) ==> d + [n] in t.fs
    ensures var ph := MoveGroups(t, d, groups, failing);
      ph.Running? ==> ph.tally.errors == t.errors + |RefusedNames(Flatten(groups), failing)|
  {
    if groups != [] {
      var init, g := groups[..|groups| - 1], groups[|groups| - 1];
      FlattenSnoc(groups);
      DistinctSplit(Flatten(init), g.files);
      MoveGroupsExact(t, d, init, failing);
      MoveGroupsKeeps(t, d, init, failing);
      match MoveGroups(t, d, init, failing)
      case Stopped(_, _) =>
      case Running(t1) =>
        var cdir := d + [g.category];
        var (ok, fs1) := MakeDirResult(t1.fs, cdir);
        MakeDirFrame(t1.fs, cdir);
        if ok {
          forall n | n in g.files ensures d + [n] in fs1 {
            ChildShape(d, n);
          }
          MoveFilesExact(Tally(fs1, t1.moved, t1.errors), d, g.category, g.files, failing);
          RefusedConcat(Flatten(init), g.files, failing);
        }
    }
  }

  /** A name a moved file may get in its category folder: its own, or
      `<stem>_<k><suffix>` for some counter k. */
  ghost predicate RenamedFrom(name: string, x: string) {
    x == name || exists k: nat :: k >= 1 && x == Candidate(name, k)
  }

  /** Where the inner loop put each file it moved, added to the places
      `acc` of the files moved before it. */
  function Placed(t: Tally, d: Path, cat: string, names: seq<string>, failing: set<string>,
                  acc: map<string, Path>): map<string, Path>
  {
    if names == [] then acc
    else
      var init, last := names[..|names| - 1], names[|names| - 1];
      var r0 := MoveFiles(t, d, cat, init, failing);
      var m := Placed(t, d, cat, init, failing, acc);
      if last !in failing && d + [last] in r0.fs then m[last := Destination(r0.fs.Keys, d + [cat], last)] else m
  }

  /** Where the outer loop put each grouped file it moved. */
  function PlacedGroups(t: Tally, d: Path, groups: seq<Group>, failing: set<string>): map<string, Path> {
    if groups == [] then map[]
    else
      var init, g := groups[..|groups| - 1], groups[|groups| - 1];
      var m := PlacedGroups(t, d, init, failing);
      match MoveGroups(t, d, init, failing)
      case Stopped(_, _) => m
      case Running(t1) =>
        var (ok, fs1) := MakeDirResult(t1.fs, d + [g.category]);
        if ok then Placed(Tally(fs1, t1.moved, t1.errors), d, g.category, g.files, failing, m) else m
  }

  /** In `fs`, every placed file sits at its place, two levels below `d` and
      free in `fs0`, with the entry it had as `<d>/<name>` in `fs0`, and no
      two files share a place. */
  ghost predicate PlacesHold(fs: Tree, fs0: Tree, d: Path, place: map<string, Path>) {
    && (forall n :: n in place ==>
          && d + [n] in fs0 && place[n] !in fs0 && place[n] in fs && fs[place[n]] == fs0[d + [n]]
          && Inside(d, place[n], 2))
    && (forall n1, n2 :: n1 in place && n2 in place && n1 != n2 ==> place[n1] != place[n2])
  }

  /** A file placed directly inside `cdir` under its own name or a
      `<stem>_<k><suffix>` variant of it. */
  ghost predicate PlacedUnder(place: map<string, Path>, cdir: Path, n: string) {
    n in place && Inside(cdir, place[n], 1) && RenamedFrom(n, place[n][|cdir|])
  }

  /** Places survive any step that keeps the existing entries. */
  lemma PlacesHoldGrow(fs: Tree, fs': Tree, fs0: Tree, d: Path, place: map<string, Path>)
    requires PlacesHold(fs, fs0, d, place)
    requires forall p :: p in fs ==> p in fs' && fs'[p] == fs[p]
    ensures PlacesHold(fs', fs0, d, place)
  {
  }

  /** The destination of a move lies directly inside the category folder,
      under the file's own name or a `<stem>_<k><suffix>` variant of it. */
  lemma DestinationShape(taken: set<Path>, d: Path, cat: string, name: string)
    ensures var dest := Destination(taken, d + [cat], name);
      Inside(d + [cat], dest, 1) && RenamedFrom(name, dest[|d| + 1])
  {
    var cdir := d + [cat];
    var dest := Destination(taken, cdir, name);
    assert dest[|cdir|] == name || exists k: nat :: k >= 1 && dest == CandidatePath(cdir, name, k);
  }

  /** A move of `<d>/<n>` to a path two levels below `d`, free now and at
      the start, keeps every place and, when it succeeds, places `n` at a
      path no other file holds. */
  lemma PlaceMove(fs: Tree, fs0: Tree, d: Path, n: string, dest: Path, refused: bool, m: map<string, Path>)
    requires PlacesHold(fs, fs0, d, m) && n !in m
    requires d + [n] in fs && d + [n] in fs0 && fs[d + [n]] == fs0[d + [n]]
    requires dest !in fs && dest !in fs0 && Inside(d, dest, 2)
    ensures PlacesHold(MoveResult(fs, d + [n], dest, refused).1, fs0, d, if !refused then m[n := dest] else m)
  {
    var fs' := MoveResult(fs, d + [n], dest, refused).1;
    MoveFrame(fs, d + [n], dest, refused);
    forall q | q in m ensures m[q] in fs' && fs'[m[q]] == fs[m[q]] {
      assert |m[q]| != |d + [n]|;
    }
    if !refused {
      var m' := m[n := dest];
      forall n1, n2 | n1 in m' && n2 in m' && n1 != n2 ensures m'[n1] != m'[n2] {
        if n1 == n {
          assert m[n2] in fs;
        } else if n2 == n {
          assert m[n1] in fs;
        }
      }
    }
  }

  /** The bookkeeping of one more file for `MoveFilesPlaces`: adding the
      place of `last`, when it moved, keeps the earlier places and puts
      `last` inside `cdir`. */
  lemma PlacedSnoc(m0: map<string, Path>, acc: map<string, Path>, init: seq<string>, last: string,
                   failing: set<string>, cdir: Path, dest: Path)
    requires forall n :: n in m0 ==> n in acc || n in init
    requires forall n :: n in acc ==> n in m0 && m0[n] == acc[n]
    requires forall n :: n in init && n !in failing ==> PlacedUnder(m0, cdir, n)
    requires last !in acc && last !in init
    requires Inside(cdir, dest, 1) && RenamedFrom(last, dest[|cdir|])
    ensures var m := if last !in failing then m0[last := dest] else m0;
      && (forall n :: n in m ==> n in acc || n in init + [last])
      && (forall n :: n in acc ==> n in m && m[n] == acc[n])
      && (forall n :: n in init + [last] && n !in failing ==> PlacedUnder(m, cdir, n))
  {
  }

  /** Which files the inner loop places: exactly the earlier ones and, of
      its own files, those whose move is not refused, each directly inside
      `<d>/<cat>`; the earlier places are kept. */
  lemma {:induction false} MoveFilesPlacedNames(t: Tally, d: Path, cat: string, names: seq<string>,
                                                failing: set<string>, acc: map<string, Path>)
    requires Distinct(names)
    requires forall n :: n in names ==> n !in acc && d + [n] in t.fs
    ensures var m := Placed(t, d, cat, names, failing, acc);
      && (forall n :: n in m ==> n in acc || n in names)
      && (forall n :: n in acc ==> n in m && m[n] == acc[n])
      && (forall n :: n in names && n !in failing ==> PlacedUnder(m, d + [cat], n))
  {
    if names != [] {
      var init, last := names[..|names| - 1], names[|names| - 1];
      assert names == init + [last];
      DistinctSplit(init, [last]);
      MoveFilesPlacedNames(t, d, cat, init, failing, acc);
      MoveFilesKeeps(t, d, cat, init, failing);
      ChildShape(d, last);
      var r0 := MoveFiles(t, d, cat, init, failing);
      var dest := Destination(r0.fs.Keys, d + [cat], last);
      DestinationShape(r0.fs.Keys, d, cat, last);
      PlacedSnoc(Placed(t, d, cat, init, failing, acc), acc, init, last, failing, d + [cat], dest);
    }
  }

  /** The inner loop keeps every place and never puts two files at one
      place: each file lands on a path that was free. */
  lemma {:induction false} MoveFilesPlaces(t: Tally, fs0: Tree, d: Path, cat: string, names: seq<string>,
                                           failing: set<string>, acc: map<string, Path>)
    requires Distinct(names) && PlacesHold(t.fs, fs0, d, acc)
    requires forall n :: n in names ==> n !in acc && d + [n] in t.fs && d + [n] in fs0 && t.fs[d + [n]] == fs0[d + [n]]
    requires forall p :: p in fs0 && Inside(d, p, 2) ==> p in t.fs
    ensures PlacesHold(MoveFiles(t, d, cat, names, failing).fs, fs0, d, Placed(t, d, cat, names, failing, acc))
  {
    if names != [] {
      var init, last := names[..|names| - 1], names[|names| - 1];
      assert names == init + [last];
      DistinctSplit(init, [last]);
      MoveFilesPlaces(t, fs0, d, cat, init, failing, acc);
      MoveFilesPlacedNames(t, d, cat, init, failing, acc);
      MoveFilesKeeps(t, d, cat, init, failing);
      ChildShape(d, last);
      var r0 := MoveFiles(t, d, cat, init, failing);
      var m0 := Placed(t, d, cat, init, failing, acc);
      var dest := Destination(r0.fs.Keys, d + [cat], last);
      DestinationShape(r0.fs.Keys, d, cat, last);
      GrandchildShape(d, cat, dest);
      forall p | p in fs0 && Inside(d, p, 2) ensures p in r0.fs {
        assert !MovedAway(d, init, failing, p);
      }
      PlaceMove(r0.fs, fs0, d, last, dest, last in failing, m0);
    }
  }

  /** One pass of the outer loop, after a successful `mkdir`, over the
      whole grouping so far: the earlier files keep their places, the new
      group's files are placed in its folder, and no place is shared. */
  lemma PlaceCategory(fs0: Tree, fs1: Tree, d: Path, init: seq<Group>, g: Group, failing: set<string>,
                      moved: nat, errors: nat, m: map<string, Path>)
    requires MakeDirResult(fs1, d + [g.category]).0 && Distinct(g.files)
    requires PlacesHold(fs1, fs0, d, m)
    requires forall p :: p in fs0 && Inside(d, p, 2) ==> p in fs1
    requires forall n :: n in g.files ==> n !in m && d + [n] in fs0 && d + [n] in fs1 && fs1[d + [n]] == fs0[d + [n]]
    requires forall i, n :: 0 <= i < |init| && n in init[i].files && n !in failing ==> PlacedUnder(m, d + [init[i].category], n)
    ensures var t := Tally(MakeDirResult(fs1, d + [g.category]).1, moved, errors);
      var m' := Placed(t, d, g.category, g.files, failing, m);
      && PlacesHold(MoveFiles(t, d, g.category, g.files, failing).fs, fs0, d, m')
      && (forall n :: n in m' ==> n in m || n in g.files)
      && (forall i, n :: 0 <= i < |init + [g]| && n in (init + [g])[i].files && n !in failing ==>
            PlacedUnder(m', d + [(init + [g])[i].category], n))
  {
    var fs2 := MakeDirResult(fs1, d + [g.category]).1;
    MakeDirFrame(fs1, d + [g.category]);
    PlacesHoldGrow(fs1, fs2, fs0, d, m);
    MoveFilesPlaces(Tally(fs2, moved, errors), fs0, d, g.category, g.files, failing, m);
    MoveFilesPlacedNames(Tally(fs2, moved, errors), d, g.category, g.files, failing, m);
    assert forall i :: 0 <= i < |init| ==> (init + [g])[i] == init[i];
  }

  /** With distinct grouped names whose sources all exist, the run, finished
      or stopped, keeps every file it moved, with its size and age, at a
      place of its own; a finished run has put every file whose move was not
      refused directly inside the folder of its group's category. */
  lemma {:induction false} MoveGroupsPlaces(t: Tally, d: Path, groups: seq<Group>, failing: set<string>)
    requires Distinct(Flatten(groups))
    requires forall n :: n in Flatten(groups) ==> d + [n] in t.fs
    ensures var ph := MoveGroups(t, d, groups, failing);
      var m := PlacedGroups(t, d, groups, failing);
      && PlacesHold(ph.Entries(), t.fs, d, m)
      && (forall n :: n in m ==> n in Flatten(groups))
      && (ph.Running? ==>
            forall i, n :: 0 <= i < |groups| && n in groups[i].files && n !in failing ==>
              PlacedUnder(m, d + [groups[i].category], n))
  {
    if groups != [] {
      var init, g := groups[..|groups| - 1], groups[|groups| - 1];
      FlattenSnoc(groups);
      DistinctSplit(Flatten(init), g.files);
      MoveGroupsPlaces(t, d, init, failing);
      match MoveGroups(t, d, init, failing)
      case Stopped(_, _) =>
      case Running(t1) =>
        if !MakeDirResult(t1.fs, d + [g.category]).0 {
          MakeDirFrame(t1.fs, d + [g.category]);
          PlacesHoldGrow(t1.fs, MakeDirResult(t1.fs, d + [g.category]).1, t.fs, d, PlacedGroups(t, d, init, failing));
        } else {
          MoveGroupsKeeps(t, d, init, failing);
          forall n | n in g.files
            ensures d + [n] in t1.fs && t1.fs[d + [n]] == t.fs[d + [n]]
          {
            ChildShape(d, n);
          }
          forall p | p in t.fs && Inside(d, p, 2) ensures p in t1.fs {
            assert !MovedAway(d, Flatten(init), failing, p);
          }
          PlaceCategory(t.fs, t1.fs, d, init, g, failing, t1.moved, t1.errors, PlacedGroups(t, d, init, failing));
          assert groups == init + [g];
        }
    }
  }

  /** Finished or stopped, a file directly inside `d` that the run has not
      placed is still there, unchanged: a file the run did not move is where
      it was. */
  lemma {:induction false} MoveGroupsUnplaced(t: Tally, d: Path, groups: seq<Group>, failing: set<string>)
    requires Distinct(Flatten(groups))
    requires forall n :: n in Flatten(groups) ==> d + [n] in t.fs
    ensures var e := MoveGroups(t, d, groups, failing).Entries();
      var m := PlacedGroups(t, d, groups, failing);
      forall n :: n !in m && d + [n] in t.fs ==> d + [n] in e && e[d + [n]] == t.fs[d + [n]]
  {
    if groups != [] {
      var init, g := groups[..|groups| - 1], groups[|groups| - 1];
      FlattenSnoc(groups);
      DistinctSplit(Flatten(init), g.files);
      MoveGroupsUnplaced(t, d, init, failing);
      MoveGroupsPlaces(t, d, init, failing);
      match MoveGroups(t, d, init, failing)
      case Stopped(_, _) =>
      case Running(t1) =>
        MakeDirFrame(t1.fs, d + [g.category]);
        var (ok, fs1) := MakeDirResult(t1.fs, d + [g.category]);
        if ok {
          var m := PlacedGroups(t, d, init, failing);
          var t2 := Tally(fs1, t1.moved, t1.errors);
          MoveFilesPlacedNames(t2, d, g.category, g.files, failing, m);
          MoveFilesKeeps(t2, d, g.category, g.files, failing);
          var e := MoveFiles(t2, d, g.category, g.files, failing).fs;
          forall n | n !in Placed(t2, d, g.category, g.files, failing, m) && d + [n] in t.fs
            ensures d + [n] in e && e[d + [n]] == t.fs[d + [n]]
          {
            ChildShape(d, n);
          }
        }
    }
  }

  /** The step of `MoveGroupsStopped`: with the downloads directory intact,
      `mkdir` fails only on a path that holds a file, and that file can only
      be one that was there from the start. */
  lemma StoppedOnFile(fs: Tree, fs1: Tree, d: Path, c: string, names: seq<string>, failing: set<string>)
    requires d in fs && fs[d] == Dir
    requires forall p :: p in fs && !MovedAway(d, names, failing, p) ==> p in fs1 && fs1[p] == fs[p]
    requires forall p :: p in fs1 && p !in fs ==> (Inside(d, p, 1) && fs1[p] == Dir) || Inside(d, p, 2)
    requires forall p :: MovedAway(d, names, failing, p) && p in fs1 ==> fs1[p] == Dir
    ensures !MakeDirResult(fs1, d + [c]).0 ==> d + [c] in fs && fs[d + [c]].File?
  {
    ChildShape(d, c);
    assert Parent(d + [c]) == d;
    assert d in fs1;
  }

  /** `mkdir` stops the run only on a category whose name is, from the start,
      that of a regular file directly inside the downloads directory
      (`FileExistsError`); the parent is never missing. */
  lemma {:induction false} MoveGroupsStopped(t: Tally, d: Path, groups: seq<Group>, failing: set<string>)
    requires d in t.fs && t.fs[d] == Dir
    ensures var ph := MoveGroups(t, d, groups, failing);
      ph.Stopped? ==> ph.category in Keys(groups) && d + [ph.category] in t.fs && t.fs[d + [ph.category]].File?
  {
    if groups != [] {
      var init, g := groups[..|groups| - 1], groups[|groups| - 1];
      MoveGroupsStopped(t, d, init, failing);
      assert forall c :: c in Keys(init) ==> c in Keys(groups);
      assert g.category == Keys(groups)[|groups| - 1];
      MoveGroupsKeeps(t, d, init, failing);
      MoveGroupsNew(t, d, init, failing);
      MoveGroupsGone(t, d, init, failing);
      match MoveGroups(t, d, init, failing)
      case Stopped(_, _) =>
      case Running(t1) =>
        StoppedOnFile(t.fs, t1.fs, d, g.category, Flatten(init), failing);
    }
  }
}
