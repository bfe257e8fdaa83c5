/**
 * MoveFile, MoveDirectory and MergeDirectories as operations on a mutable
 * filesystem whose state is one directory tree.
 */
module FileSystem {

  import opened Wrappers
  import opened FileTree

  class FileSystem {

    var root: Node

    constructor(initial: Node)
      ensures root == initial
    {
      root := initial;
    }

    /**
     * MoveFile: onto an existing file it copies with overwrite and then deletes
     * the source; otherwise it creates the target's parent directories and moves.
     * Either way the file ends up at `to` and `from` is gone.
     */
    method MoveFile(from: Path, to: Path)
      requires from != []
      requires Get(root, from).Some? && Get(root, from).value.File?
      requires from != to && NoFileAbove(root, to)
      requires !(Get(root, to).Some? && Get(root, to).value.Dir?)
      modifies this
      ensures root == Put(Remove(old(root), from), to, old(Get(root, from).value))
    {
      FileMoveIsApart(root, from, to);
      var file := Get(root, from).value;
      var target := Get(root, to);
      if target.Some? && target.value.File? {
        // File.Copy(from, to, true); File.Delete(from)
        RemovePutCommute(root, from, to, file);
        root := Put(root, to, file);
        root := Remove(root, from);
      } else {
        // Directory.CreateDirectory(parent of to); File.Move(from, to)
        root := Put(Remove(root, from), to, file);
      }
    }

    /**
     * MoveDirectory: into an existing directory it merges; otherwise it creates
     * the target's parent directories and moves the whole tree.
     */
    method MoveDirectory(from: Path, to: Path)
      requires Incomparable(from, to)
      requires Get(root, from).Some? && Get(root, from).value.Dir?
      requires !(Get(root, to).Some? && Get(root, to).value.File?) && NoFileAbove(root, to)
      requires Get(root, to).Some? ==> NoClash(Get(root, from).value, Get(root, to).value)
      modifies this
      ensures old(Get(root, to)).Some? ==>
        root == Remove(Put(old(root), to, Overlay(old(Get(root, from).value), old(Get(root, to).value))), from)
      ensures old(Get(root, to)).None? ==>
        root == Put(Remove(old(root), from), to, old(Get(root, from).value))
    {
      var target := Get(root, to);
      if target.Some? {
        MergeDirectories(from, to);
      } else {
        root := Put(Remove(root, from), to, Get(root, from).value);
      }
    }

    /**
     * MergeDirectories: overlays `from` onto `to`, then deletes `from` with
     * everything left in it.
     */
    method MergeDirectories(from: Path, to: Path)
      requires Incomparable(from, to)
      requires Get(root, from).Some? && Get(root, from).value.Dir?
      requires Get(root, to).Some? && Get(root, to).value.Dir?
      requires NoClash(Get(root, from).value, Get(root, to).value)
      modifies this
      ensures root == Remove(Put(old(root), to, Overlay(old(Get(root, from).value), old(Get(root, to).value))), from)
    {
      ghost var r0 := root;
      ghost var f := Get(root, from).value;
      ghost var t := Get(root, to).value;
      MergeInto(from, to);
      GetPutOther(r0, to, from, Overlay(f, t));
      RemovePutSame(Put(r0, to, Overlay(f, t)), from, Residue(f, t));
      root := Remove(root, from);
    }

    /**
     * The recursive MergeDirectories(from, to, targetAbsolutePath): copies every
     * file of `from` into `to` with overwrite, then merges each subdirectory into a
     * same-named directory of `to` or moves it there whole.
     */
    method MergeInto(from: Path, to: Path)
      requires Incomparable(from, to)
      requires Get(root, from).Some? && Get(root, from).value.Dir?
      requires Get(root, to).Some? && Get(root, to).value.Dir?
      requires NoClash(Get(root, from).value, Get(root, to).value)
      modifies this
      ensures root == Arranged(old(root), from, to,
                               Overlay(old(Get(root, from).value), old(Get(root, to).value)).children,
                               Residue(old(Get(root, from).value), old(Get(root, to).value)).children)
      decreases Get(root, from).value, 2
    {
      ghost var r0 := root;
      ghost var f := Get(root, from).value;
      ghost var t := Get(root, to).value;
      ghost var x := CopyFiles(from, to);
      MergeSubdirectories(from, to, r0, f, t, x);
    }

    /** The first loop: every file of `from` is copied to `to`, overwriting. */
    method CopyFiles(from: Path, to: Path) returns (ghost x: map<Name, Node>)
      requires Incomparable(from, to)
      requires Get(root, from).Some? && Get(root, from).value.Dir?
      requires Get(root, to).Some? && Get(root, to).value.Dir?
      modifies this
      ensures var f, t := old(Get(root, from).value), old(Get(root, to).value);
        root == Arranged(old(root), from, to, x, f.children) && MergedSoFar(f, t, x, f.children, FileNames(f))
    {
      ghost var r0 := root;
      var f := Get(root, from).value;
      var t := Get(root, to).value;
      x := t.children;
      ghost var done: set<Name> := {};
      ArrangedInitially(r0, from, to, f, t);

      var files := set n | n in f.children && f.children[n].File?;
      var remaining := files;
      while remaining != {}
        invariant remaining <= files && done == files - remaining
        invariant root == Arranged(r0, from, to, x, f.children)
        invariant OverlaidSoFar(f, t, x, done) && ResidueSoFar(f, t, f.children, done)
        decreases remaining
      {
        var n :| n in remaining;
        StepView(r0, from, to, f, t, x, f.children, done, n);
        var file := Get(root, from + [n]).value;
        // fileInfo.CopyTo(targetAbsolutePath + fileInfo.Name, true)
        FileCopyStep(r0, from, to, f, t, x, f.children, done, n);
        root := Put(root, to + [n], file);
        x := x[n := file];
        done := done + {n};
        remaining := remaining - {n};
      }
    }

    /** The second loop: each subdirectory of `from` is merged into `to` or moved there whole. */
    method MergeSubdirectories(from: Path, to: Path, ghost r0: Node, ghost f: Node, ghost t: Node,
                               ghost x0: map<Name, Node>)
      requires f.Dir? && t.Dir? && MergedSoFar(f, t, x0, f.children, FileNames(f))
      requires Incomparable(from, to) && NoClash(f, t)
      requires root == Arranged(r0, from, to, x0, f.children)
      modifies this
      ensures root == Arranged(r0, from, to, Overlay(f, t).children, Residue(f, t).children)
      decreases f, 1
    {
      ghost var x := x0;
      ghost var y := f.children;
      ghost var done := FileNames(f);
      GetPut(Put(r0, to, Dir(x)), from, Dir(y));
      var fromNode := Get(root, from).value;
      assert fromNode == f;

      var subDirectories := set n | n in fromNode.children && fromNode.children[n].Dir?;
      var remaining := subDirectories;
      while remaining != {}
        invariant remaining <= subDirectories && done !! remaining && done + remaining == f.children.Keys
        invariant root == Arranged(r0, from, to, x, y)
        invariant MergedSoFar(f, t, x, y, done)
        decreases remaining
      {
        var n :| n in remaining;
        x, y := MergeSubdirectory(from, to, n, r0, f, t, x, y, done);
        done := done + {n};
        remaining := remaining - {n};
      }
      assert done == f.children.Keys;
      MergedAll(f, t, x, y);
    }

    /**
     * One subdirectory `n` of `from`: merged into `to + [n]` when a directory is
     * there, otherwise moved there whole.
     */
    method MergeSubdirectory(from: Path, to: Path, n: Name, ghost r0: Node, ghost f: Node, ghost t: Node,
                             ghost x: map<Name, Node>, ghost y: map<Name, Node>, ghost done: set<Name>)
      returns (ghost x': map<Name, Node>, ghost y': map<Name, Node>)
      requires MergeStepReady(f, t, x, y, done, n) && f.children[n].Dir?
      requires Incomparable(from, to) && NoClash(f, t)
      requires root == Arranged(r0, from, to, x, y)
      modifies this
      ensures root == Arranged(r0, from, to, x', y')
      ensures MergedSoFar(f, t, x', y', done + {n})
      decreases f, 0
    {
      StepView(r0, from, to, f, t, x, y, done, n);
      var directory := Get(root, from + [n]).value;
      var target := Get(root, to + [n]);
      if target.Some? && target.value.Dir? {
        DirMergeStep(r0, from, to, f, t, x, y, done, n);
        MergeInto(from + [n], to + [n]);
        x' := x[n := Overlay(f.children[n], t.children[n])];
        y' := y[n := Residue(f.children[n], t.children[n])];
      } else {
        // directoryInfo.MoveTo(directoryAbsolutePath)
        DirMoveStep(r0, from, to, f, t, x, y, done, n);
        root := Put(Remove(root, from + [n]), to + [n], directory);
        x' := x[n := directory];
        y' := y - {n};
      }
    }
  }
}
