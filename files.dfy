/** The filesystem as the organiser sees it: a finite map from absolute
    paths to entries, held by a `FileSystem` object whose two mutating
    operations are `Path.mkdir(exist_ok=True)` and `shutil.move`. */
module Files {

  /** An absolute path, as its list of components. */
  type Path = seq<string>

  /** A directory entry: a regular file with its size in bytes and its age in
      whole days (which is negative for a modification time in the future),
      or a directory. */
  datatype Entry = File(size: nat, ageDays: int) | Dir

  type Tree = map<Path, Entry>

  function Parent(p: Path): Path
    requires |p| > 0
  {
    p[..|p| - 1]
  }

  /** `p.mkdir(exist_ok=True)`: nothing to do when `p` already is a directory;
      `FileExistsError` when it is something else; `FileNotFoundError` when
      its parent is not a directory; otherwise the directory is created. */
  function MakeDirResult(fs: Tree, p: Path): (bool, Tree) {
    if p in fs then (fs[p].Dir?, fs)
    else if |p| > 0 && Parent(p) in fs && fs[Parent(p)].Dir? then (true, fs[p := Dir])
    else (false, fs)
  }

  /** `shutil.move(src, dst)` with rename semantics: the entry leaves `src` and
      appears at `dst`. It fails, changing nothing, when the source is gone or
      when the operating system refuses (`refused`: permission, full volume,
      name too long, ... decided outside this model). */
  function MoveResult(fs: Tree, src: Path, dst: Path, refused: bool): (bool, Tree) {
    if !refused && src in fs then (true, (fs - {src})[dst := fs[src]])
    else (false, fs)
  }

  /** `mkdir` never removes or changes an existing entry, and it adds at most `p`. */
  lemma MakeDirFrame(fs: Tree, p: Path)
    ensures var (ok, fs') := MakeDirResult(fs, p);
      && (forall q :: q in fs ==> q in fs' && fs'[q] == fs[q])
      && (forall q :: q in fs' && q !in fs ==> q == p && fs'[q] == Dir)
      && (ok <==> p in fs' && fs'[p] == Dir)
  {
  }

  /** A move to a free destination keeps every other entry as it was and
      keeps the number of entries: nothing is overwritten and nothing is lost. */
  lemma MoveFrame(fs: Tree, src: Path, dst: Path, refused: bool)
    requires dst !in fs
    ensures var (ok, fs') := MoveResult(fs, src, dst, refused);
      && (forall q :: q in fs && q != src ==> q in fs' && fs'[q] == fs[q])
      && (ok ==> src !in fs' && dst in fs' && fs'[dst] == fs[src] && |fs'| == |fs|)
      && (!ok ==> fs' == fs)
  {
    var (ok, fs') := MoveResult(fs, src, dst, refused);
    if ok {
      assert src != dst;
      assert fs'.Keys == fs.Keys - {src} + {dst};
      assert |fs'.Keys| == |fs.Keys| - 1 + 1;
    }
  }

  /** The live filesystem. Its methods are the only operations that change it. */
  class FileSystem {
    var entries: Tree

    constructor (initial: Tree)
      ensures entries == initial
    {
      entries := initial;
    }

    /** `Path.exists()`. */
    predicate Exists(p: Path)
      reads this
    {
      p in entries
    }

    method MakeDir(p: Path) returns (ok: bool)
      modifies this
      ensures (ok, entries) == MakeDirResult(old(entries), p)
    {
      if p in entries {
        ok := entries[p].Dir?;
      } else if |p| > 0 && Parent(p) in entries && entries[Parent(p)].Dir? {
        entries := entries[p := Dir];
        ok := true;
      } else {
        ok := false;
      }
    }

    method Move(src: Path, dst: Path, refused: bool) returns (ok: bool)
      modifies this
      ensures (ok, entries) == MoveResult(old(entries), src, dst, refused)
    {
      ok := !refused && src in entries;
      if ok {
        entries := (entries - {src})[dst := entries[src]];
      }
    }
  }
}
