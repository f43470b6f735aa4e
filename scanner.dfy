/** The first half of `organize_downloads`: walk the immediate entries of the
    downloads directory, drop directories, hidden names, files younger than
    the age threshold and files outside the category allow-list, and group
    what is left by category while summing the sizes. */
module Scanner {
  import opened Files
  import opened Categories

  /** One key of `files_by_category` with its list of file names. */
  datatype Group = Group(category: string, files: seq<string>)

  /** What `iterdir()` promises: every name once, exactly the entries directly under `d`. */
  ghost predicate IsListing(fs: Tree, d: Path, order: seq<string>) {
    && Distinct(order)
    && (forall i :: 0 <= i < |order| ==> d + [order[i]] in fs)
    && (forall n :: d + [n] in fs ==> n in order)
  }

  predicate IsHidden(name: string) {
    |name| > 0 && name[0] == '.'
  }

  /** The filter of the scan loop, for the entry `name` of directory `d`. */
  predicate Kept(fs: Tree, d: Path, name: string, minAge: int, allowed: seq<string>) {
    var p := d + [name];
    && p in fs && fs[p].File?
    && !IsHidden(name)
    && !(minAge > 0 && fs[p].ageDays < minAge)
    && (allowed == [] || GetCategory(name) in allowed)
  }

  /** The names of `order` that survive the filter, in iteration order. */
  function KeptNames(fs: Tree, d: Path, order: seq<string>, minAge: int, allowed: seq<string>): seq<string> {
    if order == [] then []
    else
      var rest := KeptNames(fs, d, order[..|order| - 1], minAge, allowed);
      if Kept(fs, d, order[|order| - 1], minAge, allowed) then rest + [order[|order| - 1]] else rest
  }

  /** `files_by_category[cat].append(name)` on a dict that keeps its keys in
      insertion order. */
  function Append(groups: seq<Group>, cat: string, name: string): seq<Group> {
    if groups == [] then [Group(cat, [name])]
    else if groups[0].category == cat then [groups[0].(files := groups[0].files + [name])] + groups[1..]
    else [groups[0]] + Append(groups[1..], cat, name)
  }

  /** The grouping the scan loop builds from the names it keeps. */
  function GroupByCategory(names: seq<string>): seq<Group> {
    if names == [] then []
    else Append(GroupByCategory(names[..|names| - 1]), GetCategory(names[|names| - 1]), names[|names| - 1])
  }

  /** `files_by_category[c]`, with the defaultdict's empty list for an absent key. */
  function FilesOf(groups: seq<Group>, c: string): seq<string> {
    if groups == [] then []
    else if groups[0].category == c then groups[0].files
    else FilesOf(groups[1..], c)
  }

  /** The keys of the grouping, in insertion order. */
  function Keys(groups: seq<Group>): (ks: seq<string>)
    ensures |ks| == |groups| && forall i :: 0 <= i < |groups| ==> ks[i] == groups[i].category
  {
    if groups == [] then [] else [groups[0].category] + Keys(groups[1..])
  }

  /** All grouped names, key by key, in the order the move loop visits them. */
  function Flatten(groups: seq<Group>): seq<string> {
    if groups == [] then [] else groups[0].files + Flatten(groups[1..])
  }

  /** The names of `names` that `get_category` puts in category `c`, in order. */
  function OfCategory(names: seq<string>, c: string): seq<string> {
    if names == [] then []
    else
      var rest := OfCategory(names[..|names| - 1], c);
      if GetCategory(names[|names| - 1]) == c then rest + [names[|names| - 1]] else rest
  }

  function SizeOf(fs: Tree, d: Path, name: string): nat {
    var p := d + [name];
    if p in fs && fs[p].File? then fs[p].size else 0
  }

  /** The sum of the sizes of the named files. */
  function TotalSize(fs: Tree, d: Path, names: seq<string>): nat {
    if names == [] then 0
    else TotalSize(fs, d, names[..|names| - 1]) + SizeOf(fs, d, names[|names| - 1])
  }

  // ---------------------------------------------------------------------
  // Sequences without repeated names

  /** No name occurs twice in `s`. */
  predicate Distinct(s: seq<string>) {
    forall i, j :: 0 <= i < j < |s| ==> s[i] != s[j]
  }

  /** A new name extends a sequence without repeats. */
  lemma DistinctSnoc(s: seq<string>, x: string)
    requires Distinct(s) && x !in s
    ensures Distinct(s + [x])
  {
  }

  /** In a sequence without repeats every name occurs at most once. */
  lemma {:induction false} DistinctCount(s: seq<string>, x: string)
    requires Distinct(s)
    ensures multiset(s)[x] <= 1
  {
    if s != [] {
      var init, last := s[..|s| - 1], s[|s| - 1];
      assert s == init + [last];
      assert Distinct(init);
      DistinctCount(init, x);
      assert forall i :: 0 <= i < |init| ==> init[i] == s[i] != last;
    }
  }

  /** A name at two positions occurs at least twice. */
  lemma RepeatCount(s: seq<string>, i: nat, j: nat)
    requires i < j < |s| && s[i] == s[j]
    ensures multiset(s)[s[i]] >= 2
  {
    assert s == s[..j] + [s[j]] + s[j + 1..];
    assert s[..j][i] == s[i];
  }

  /** Having no repeated name is a property of the multiset of names. */
  lemma MultisetDistinct(a: seq<string>, b: seq<string>)
    requires multiset(a) == multiset(b) && Distinct(a)
    ensures Distinct(b)
  {
    forall i, j | 0 <= i < j < |b| ensures b[i] != b[j] {
      if b[i] == b[j] {
        RepeatCount(b, i, j);
        DistinctCount(a, b[i]);
      }
    }
  }

  /** Both halves of a sequence without repeats have none, and share no name. */
  lemma DistinctSplit(a: seq<string>, b: seq<string>)
    requires Distinct(a + b)
    ensures Distinct(a) && Distinct(b)
    ensures forall n :: n in b ==> n !in a
  {
    forall i, j | 0 <= i < |a| && 0 <= j < |b| ensures a[i] != b[j] {
      assert (a + b)[i] == a[i] && (a + b)[|a| + j] == b[j];
    }
    forall i, j | 0 <= i < j < |b| ensures b[i] != b[j] {
      assert (a + b)[|a| + i] == b[i] && (a + b)[|a| + j] == b[j];
    }
    forall i, j | 0 <= i < j < |a| ensures a[i] != a[j] {
      assert (a + b)[i] == a[i] && (a + b)[j] == a[j];
    }
  }

  // ---------------------------------------------------------------------
  // The scan

  /** One more listed name extends the kept names by that name exactly when
      it passes the filter, and the grouping and the total size follow. */
  lemma KeptNamesStep(fs: Tree, d: Path, order: seq<string>, i: nat, minAge: int, allowed: seq<string>)
    requires i < |order|
    ensures var kept := KeptNames(fs, d, order[..i], minAge, allowed);
      var name := order[i];
      KeptNames(fs, d, order[..i + 1], minAge, allowed)
        == if Kept(fs, d, name, minAge, allowed) then kept + [name] else kept
    ensures var kept := KeptNames(fs, d, order[..i], minAge, allowed);
      var name := order[i];
      && GroupByCategory(kept + [name]) == Append(GroupByCategory(kept), GetCategory(name), name)
      && TotalSize(fs, d, kept + [name]) == TotalSize(fs, d, kept) + SizeOf(fs, d, name)
  {
    assert order[..i + 1][..i] == order[..i];
    var kept := KeptNames(fs, d, order[..i], minAge, allowed);
    assert (kept + [order[i]])[..|kept|] == kept;
  }

  /** The scan loop. */
  method Scan(fsys: FileSystem, d: Path, order: seq<string>, minAge: int, allowed: seq<string>)
      returns (groups: seq<Group>, totalSize: nat)
    requires IsListing(fsys.entries, d, order)
    ensures groups == GroupByCategory(KeptNames(fsys.entries, d, order, minAge, allowed))
    ensures totalSize == TotalSize(fsys.entries, d, KeptNames(fsys.entries, d, order, minAge, allowed))
  {
    groups, totalSize := [], 0;
    for i := 0 to |order|
      invariant groups == GroupByCategory(KeptNames(fsys.entries, d, order[..i], minAge, allowed))
      invariant totalSize == TotalSize(fsys.entries, d, KeptNames(fsys.entries, d, order[..i], minAge, allowed))
    {
      KeptNamesStep(fsys.entries, d, order, i, minAge, allowed);
      var name := order[i];
      var item := d + [name];
      if fsys.entries[item].Dir? || IsHidden(name) {
        continue;
      }
      if minAge > 0 && fsys.entries[item].ageDays < minAge {
        continue;
      }
      var category := GetCategory(name);
      if allowed != [] && category !in allowed {
        continue;
      }
      groups := Append(groups, category, name);
      totalSize := totalSize + fsys.entries[item].size;
    }
    assert order[..|order|] == order;
  }

  // ---------------------------------------------------------------------
  // The grouping

  /** Appending to a key extends that key's list by the name and leaves every other list alone. */
  lemma {:induction false} AppendFilesOf(groups: seq<Group>, cat: string, name: string, c: string)
    ensures FilesOf(Append(groups, cat, name), c) == FilesOf(groups, c) + (if c == cat then [name] else [])
  {
    if groups != [] && groups[0].category != cat {
      AppendFilesOf(groups[1..], cat, name, c);
    }
  }

  /** Appending adds the key at the end when it is new and keeps the keys otherwise. */
  lemma {:induction false} AppendKeys(groups: seq<Group>, cat: string, name: string)
    ensures Keys(Append(groups, cat, name)) == if cat in Keys(groups) then Keys(groups) else Keys(groups) + [cat]
  {
    if groups != [] {
      var g0 := groups[0];
      var r := Append(groups, cat, name);
      assert Keys(groups) == [g0.category] + Keys(groups[1..]);
      if g0.category == cat {
        assert r[1..] == groups[1..];
      } else {
        AppendKeys(groups[1..], cat, name);
        assert r[1..] == Append(groups[1..], cat, name);
      }
      assert Keys(r) == [r[0].category] + Keys(r[1..]);
    }
  }

  /** Appending adds exactly one occurrence of the name to the grouped names. */
  lemma {:induction false} AppendFlatten(groups: seq<Group>, cat: string, name: string)
    ensures multiset(Flatten(Append(groups, cat, name))) == multiset(Flatten(groups)) + multiset{name}
  {
    if groups != [] {
      var r := Append(groups, cat, name);
      if groups[0].category == cat {
        assert r[1..] == groups[1..];
      } else {
        AppendFlatten(groups[1..], cat, name);
        assert r[1..] == Append(groups[1..], cat, name);
      }
      assert Flatten(r) == r[0].files + Flatten(r[1..]);
    }
  }

  /** Each category's list is exactly the subsequence of the kept names that
      `get_category` puts there, in iteration order. */
  lemma {:induction false} GroupByFilesOf(names: seq<string>, c: string)
    ensures FilesOf(GroupByCategory(names), c) == OfCategory(names, c)
  {
    if names != [] {
      var last := names[|names| - 1];
      GroupByFilesOf(names[..|names| - 1], c);
      AppendFilesOf(GroupByCategory(names[..|names| - 1]), GetCategory(last), last, c);
    }
  }

  /** The keys are distinct. */
  lemma {:induction false} GroupByKeysDistinct(names: seq<string>)
    ensures Distinct(Keys(GroupByCategory(names)))
  {
    if names != [] {
      var init, last := names[..|names| - 1], names[|names| - 1];
      GroupByKeysDistinct(init);
      AppendKeys(GroupByCategory(init), GetCategory(last), last);
    }
  }

  /** A category is a key exactly when some kept name belongs to it. */
  lemma {:induction false} GroupByKeys(names: seq<string>, c: string)
    ensures c in Keys(GroupByCategory(names)) <==> OfCategory(names, c) != []
  {
    if names != [] {
      var init, last := names[..|names| - 1], names[|names| - 1];
      GroupByKeys(init, c);
      AppendKeys(GroupByCategory(init), GetCategory(last), last);
    }
  }

  /** Every kept name sits in exactly one list: the lists together hold the
      kept names, each as often as it was kept. */
  lemma {:induction false} GroupByFlatten(names: seq<string>)
    ensures multiset(Flatten(GroupByCategory(names))) == multiset(names)
  {
    if names != [] {
      var init, last := names[..|names| - 1], names[|names| - 1];
      GroupByFlatten(init);
      AppendFlatten(GroupByCategory(init), GetCategory(last), last);
      MultisetSnoc(names, init, last);
    }
  }

  /** Splitting off the last name splits off one occurrence of it. */
  lemma MultisetSnoc(names: seq<string>, init: seq<string>, last: string)
    requires names != [] && init == names[..|names| - 1] && last == names[|names| - 1]
    ensures multiset(names) == multiset(init) + multiset{last}
  {
    assert names == init + [last];
  }

  // ---------------------------------------------------------------------
  // The filter

  lemma {:induction false} KeptNamesMember(fs: Tree, d: Path, order: seq<string>, minAge: int, allowed: seq<string>, n: string)
    ensures n in KeptNames(fs, d, order, minAge, allowed) <==> n in order && Kept(fs, d, n, minAge, allowed)
  {
    if order != [] {
      var init := order[..|order| - 1];
      KeptNamesMember(fs, d, init, minAge, allowed, n);
      assert order == init + [order[|order| - 1]];
    }
  }

  /** A file name appears in the list of category `c` exactly when it is an
      entry of the directory, a regular file, not hidden, old enough (when a
      threshold is set), allowed (when an allow-list is given) and of category `c`. */
  lemma ScanMembership(fs: Tree, d: Path, order: seq<string>, minAge: int, allowed: seq<string>, n: string, c: string)
    ensures n in FilesOf(GroupByCategory(KeptNames(fs, d, order, minAge, allowed)), c) <==>
      && n in order
      && d + [n] in fs && fs[d + [n]].File?
      && !(|n| > 0 && n[0] == '.')
      && (minAge <= 0 || fs[d + [n]].ageDays >= minAge)
      && (allowed == [] || c in allowed)
      && GetCategory(n) == c
  {
    var kept := KeptNames(fs, d, order, minAge, allowed);
    GroupByFilesOf(kept, c);
    OfCategoryMember(kept, c, n);
    KeptNamesMember(fs, d, order, minAge, allowed, n);
  }

  lemma {:induction false} OfCategoryMember(names: seq<string>, c: string, n: string)
    ensures n in OfCategory(names, c) <==> n in names && GetCategory(n) == c
  {
    if names != [] {
      var init := names[..|names| - 1];
      OfCategoryMember(init, c, n);
      assert names == init + [names[|names| - 1]];
    }
  }

  /** With a non-empty allow-list every key of the grouping is on it. */
  lemma AllowListRespected(fs: Tree, d: Path, order: seq<string>, minAge: int, allowed: seq<string>)
    requires allowed != []
    ensures forall c :: c in Keys(GroupByCategory(KeptNames(fs, d, order, minAge, allowed))) ==> c in allowed
  {
    var kept := KeptNames(fs, d, order, minAge, allowed);
    forall c | c in Keys(GroupByCategory(kept)) ensures c in allowed {
      GroupByKeys(kept, c);
      var n := OfCategory(kept, c)[0];
      OfCategoryMember(kept, c, n);
      KeptNamesMember(fs, d, order, minAge, allowed, n);
    }
  }

  /** No directory and no hidden entry is ever grouped. */
  lemma NoDirectoryOrHiddenGrouped(fs: Tree, d: Path, order: seq<string>, minAge: int, allowed: seq<string>, n: string)
    requires d + [n] in fs && (fs[d + [n]].Dir? || IsHidden(n))
    ensures n !in Flatten(GroupByCategory(KeptNames(fs, d, order, minAge, allowed)))
  {
    var kept := KeptNames(fs, d, order, minAge, allowed);
    GroupByFlatten(kept);
    assert n in multiset(Flatten(GroupByCategory(kept))) <==> n in multiset(kept);
    KeptNamesMember(fs, d, order, minAge, allowed, n);
  }

  /** The age threshold: with a positive threshold a file is kept only when
      its age is at least the threshold (so a file exactly that old is kept);
      with a threshold of 0 no file is dropped for its age. */
  lemma AgeThreshold(fs: Tree, d: Path, name: string, minAge: int, allowed: seq<string>)
    requires d + [name] in fs && fs[d + [name]].File?
    ensures minAge > 0 && Kept(fs, d, name, minAge, allowed) ==> fs[d + [name]].ageDays >= minAge
    ensures minAge > 0 && fs[d + [name]].ageDays == minAge ==>
              (Kept(fs, d, name, minAge, allowed) <==> Kept(fs, d, name, 0, allowed))
    ensures minAge <= 0 ==> (Kept(fs, d, name, minAge, allowed) <==> Kept(fs, d, name, 0, allowed))
  {
  }

  /** Every kept file is counted once in the grouping: the lists together hold
      as many names as were kept. */
  lemma FileCount(names: seq<string>)
    ensures |Flatten(GroupByCategory(names))| == |names|
  {
    GroupByFlatten(names);
    assert |multiset(Flatten(GroupByCategory(names)))| == |multiset(names)|;
  }
}
