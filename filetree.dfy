/**
 * An in-memory directory tree standing for the part of the filesystem that
 * MoveFile, MoveDirectory and MergeDirectories touch. A path is the sequence of
 * names from the root, so `targetAbsolutePath + name + DirectorySeparatorChar`
 * is `to + [name]`.
 */
module FileTree {

  import opened Wrappers
  import opened Signatures

  type Name = string
  type Path = seq<Name>

  datatype Node = File(content: seq<byte>) | Dir(children: map<Name, Node>)

  const EmptyDir: Node := Dir(map[])

  predicate IsPrefix(p: Path, q: Path)
  {
    |p| <= |q| && q[..|p|] == p
  }

  /** Neither path lies inside the other: they name disjoint subtrees. */
  predicate Incomparable(p: Path, q: Path)
  {
    !IsPrefix(p, q) && !IsPrefix(q, p)
  }

  /** The node at a path, or None when some step is missing or is a file. */
  function Get(t: Node, p: Path): Option<Node>
  {
    if p == [] then Some(t)
    else if t.Dir? && p[0] in t.children then Get(t.children[p[0]], p[1..])
    else None
  }

  /**
   * The tree with `v` placed at `p`, creating the missing directories on the way
   * (Directory.CreateDirectory followed by a write or a move).
   */
  function Put(t: Node, p: Path, v: Node): Node
    decreases p
  {
    if p == [] then v
    else Dir(ChildrenOf(t)[p[0] := Put(ChildAt(t, p[0]), p[1..], v)])
  }

  /** The entries of a directory; a file or a missing entry has none. */
  function ChildrenOf(t: Node): map<Name, Node>
  {
    if t.Dir? then t.children else map[]
  }

  /** The entry `n` of `t`, or an empty directory to be created. */
  function ChildAt(t: Node, n: Name): Node
  {
    if n in ChildrenOf(t) then ChildrenOf(t)[n] else EmptyDir
  }

  /** The tree with the entry at `p` deleted (File.Delete, Directory.Delete recursive). */
  function Remove(t: Node, p: Path): Node
    requires p != []
  {
    if !t.Dir? || p[0] !in t.children then t
    else if |p| == 1 then Dir(t.children - {p[0]})
    else Dir(t.children[p[0] := Remove(t.children[p[0]], p[1..])])
  }

  lemma IncomparableTails(p: Path, q: Path)
    requires Incomparable(p, q) && p[0] == q[0]
    ensures Incomparable(p[1..], q[1..])
  {
  }

  lemma IncomparableExtend(p: Path, q: Path, n: Name)
    requires Incomparable(p, q)
    ensures Incomparable(p + [n], q) && Incomparable(p, q + [n])
  {
  }

  lemma IncomparableChildren(p: Path, q: Path, n: Name)
    requires Incomparable(p, q)
    ensures Incomparable(p + [n], q + [n])
  {
    IncomparableExtend(p, q, n);
    IncomparableExtend(p + [n], q, n);
  }

  // ----- Get after Put and Remove -----

  lemma {:induction false} GetPutBelow(t: Node, p: Path, q: Path, v: Node)
    ensures Get(Put(t, p, v), p + q) == Get(v, q)
    decreases p
  {
    if p == [] {
      assert p + q == q;
    } else {
      assert (p + q)[0] == p[0] && (p + q)[1..] == p[1..] + q;
      GetPutBelow(ChildAt(t, p[0]), p[1..], q, v);
    }
  }

  lemma GetPut(t: Node, p: Path, v: Node)
    ensures Get(Put(t, p, v), p) == Some(v)
  {
    GetPutBelow(t, p, [], v);
    assert p + [] == p;
  }

  lemma GetEmptyDir(q: Path)
    requires q != []
    ensures Get(EmptyDir, q) == None
  {
  }

  /** Placing a node leaves every path outside its own line untouched. */
  lemma {:induction false} GetPutOther(t: Node, p: Path, q: Path, v: Node)
    requires Incomparable(p, q)
    ensures Get(Put(t, p, v), q) == Get(t, q)
    decreases p
  {
    if p[0] == q[0] {
      IncomparableTails(p, q);
      GetPutOther(ChildAt(t, p[0]), p[1..], q[1..], v);
      if p[0] !in ChildrenOf(t) { GetEmptyDir(q[1..]); }
    }
  }

  lemma {:induction false} GetRemove(t: Node, p: Path)
    requires p != []
    ensures Get(Remove(t, p), p) == None
    decreases p
  {
    if t.Dir? && p[0] in t.children && |p| > 1 {
      GetRemove(t.children[p[0]], p[1..]);
    }
  }

  lemma {:induction false} GetRemoveOther(t: Node, p: Path, q: Path)
    requires Incomparable(p, q)
    ensures Get(Remove(t, p), q) == Get(t, q)
    decreases p
  {
    if t.Dir? && p[0] in t.children && |p| > 1 && p[0] == q[0] {
      IncomparableTails(p, q);
      GetRemoveOther(t.children[p[0]], p[1..], q[1..]);
    }
  }

  // ----- algebra of Put and Remove -----

  lemma {:induction false} PutPutSame(t: Node, p: Path, a: Node, b: Node)
    ensures Put(Put(t, p, a), p, b) == Put(t, p, b)
    decreases p
  {
    if p != [] {
      PutPutSame(ChildAt(t, p[0]), p[1..], a, b);
    }
  }

  /** Writing an entry below a directory just placed is placing the updated directory. */
  lemma {:induction false} PutPutChild(t: Node, p: Path, x: map<Name, Node>, n: Name, v: Node)
    ensures Put(Put(t, p, Dir(x)), p + [n], v) == Put(t, p, Dir(x[n := v]))
    decreases p
  {
    if p != [] {
      assert (p + [n])[0] == p[0] && (p + [n])[1..] == p[1..] + [n];
      PutPutChild(ChildAt(t, p[0]), p[1..], x, n, v);
    }
  }

  /** Writes to disjoint subtrees commute. */
  lemma {:induction false} PutCommute(t: Node, p: Path, q: Path, a: Node, b: Node)
    requires Incomparable(p, q)
    ensures Put(Put(t, p, a), q, b) == Put(Put(t, q, b), p, a)
    decreases p
  {
    if p[0] == q[0] {
      IncomparableTails(p, q);
      PutCommute(ChildAt(t, p[0]), p[1..], q[1..], a, b);
      PutPutChildAt(t, p, q, a, b);
      PutPutChildAt(t, q, p, b, a);
    } else {
      PutCommuteApart(t, p, q, a, b);
    }
  }

  /** Two writes through the same first entry: the outer directory is updated once. */
  lemma PutPutChildAt(t: Node, p: Path, q: Path, a: Node, b: Node)
    requires p != [] && q != [] && p[0] == q[0]
    ensures Put(Put(t, p, a), q, b)
         == Dir(ChildrenOf(t)[p[0] := Put(Put(ChildAt(t, p[0]), p[1..], a), q[1..], b)])
  {
    var c := ChildrenOf(t);
    var t1 := Put(t, p, a);
    assert ChildrenOf(t1) == c[p[0] := Put(ChildAt(t, p[0]), p[1..], a)];
    assert ChildAt(t1, q[0]) == Put(ChildAt(t, p[0]), p[1..], a);
    assert ChildrenOf(t1)[q[0] := Put(ChildAt(t1, q[0]), q[1..], b)]
        == c[p[0] := Put(Put(ChildAt(t, p[0]), p[1..], a), q[1..], b)];
  }

  lemma PutCommuteApart(t: Node, p: Path, q: Path, a: Node, b: Node)
    requires p != [] && q != [] && p[0] != q[0]
    ensures Put(Put(t, p, a), q, b) == Put(Put(t, q, b), p, a)
  {
    var c := ChildrenOf(t);
    var pv := Put(ChildAt(t, p[0]), p[1..], a);
    var qv := Put(ChildAt(t, q[0]), q[1..], b);
    assert ChildAt(Put(t, p, a), q[0]) == ChildAt(t, q[0]);
    assert ChildAt(Put(t, q, b), p[0]) == ChildAt(t, p[0]);
    assert c[p[0] := pv][q[0] := qv] == c[q[0] := qv][p[0] := pv];
  }

  /** Deleting an entry below a directory just placed is placing the directory without it. */
  lemma {:induction false} RemovePutChild(t: Node, p: Path, y: map<Name, Node>, n: Name)
    ensures Remove(Put(t, p, Dir(y)), p + [n]) == Put(t, p, Dir(y - {n}))
    decreases p
  {
    if p == [] {
      assert [] + [n] == [n];
      if n !in y { assert y - {n} == y; }
    } else {
      assert (p + [n])[0] == p[0] && (p + [n])[1..] == p[1..] + [n];
      RemovePutChild(ChildAt(t, p[0]), p[1..], y, n);
    }
  }

  /** Where a path already exists, placing something there and deleting it is deleting it. */
  lemma {:induction false} RemovePutSame(t: Node, p: Path, v: Node)
    requires p != [] && Get(t, p).Some?
    ensures Remove(Put(t, p, v), p) == Remove(t, p)
    decreases p
  {
    if |p| > 1 {
      RemovePutSame(t.children[p[0]], p[1..], v);
    } else {
      assert t.children[p[0] := v] - {p[0]} == t.children - {p[0]};
    }
  }

  /** Deleting one subtree and writing a disjoint one commute. */
  lemma {:induction false} RemovePutCommute(t: Node, p: Path, q: Path, v: Node)
    requires Incomparable(p, q) && Get(t, p).Some?
    ensures Remove(Put(t, q, v), p) == Put(Remove(t, p), q, v)
    decreases p
  {
    if p[0] == q[0] {
      IncomparableTails(p, q);
      if |p| > 1 {
        RemovePutCommute(t.children[p[0]], p[1..], q[1..], v);
      }
    } else if |p| > 1 {
      var c := t.children;
      var qv := Put(ChildAt(t, q[0]), q[1..], v);
      assert c[q[0] := qv][p[0] := Remove(c[p[0]], p[1..])]
          == c[p[0] := Remove(c[p[0]], p[1..])][q[0] := qv];
    } else {
      var c := t.children;
      var qv := Put(ChildAt(t, q[0]), q[1..], v);
      assert c[q[0] := qv] - {p[0]} == (c - {p[0]})[q[0] := qv];
    }
  }

  // ----- the merge as a function on trees -----

  /**
   * MergeDirectories' precondition on the contents: wherever both trees hold a
   * name, both hold a file or both a directory, recursively. (A file copied onto
   * a directory, or a directory moved onto a file, throws.)
   */
  predicate NoClash(f: Node, t: Node)
    requires f.Dir? && t.Dir?
    decreases f
  {
    forall n :: n in f.children && n in t.children ==>
      f.children[n].Dir? == t.children[n].Dir? &&
      (f.children[n].Dir? ==> NoClash(f.children[n], t.children[n]))
  }

  /** What `to + [n]` holds after the merge, for a name `n` of `from`. */
  function OverlayChild(f: Node, t: Node, n: Name): Node
    requires f.Dir? && t.Dir? && n in f.children
    decreases f, 0
  {
    if f.children[n].Dir? && n in t.children && t.children[n].Dir? then
      Overlay(f.children[n], t.children[n])
    else
      f.children[n]
  }

  /** The overlay of directory `f` onto directory `t`: `t` as MergeDirectories leaves it. */
  function Overlay(f: Node, t: Node): Node
    requires f.Dir? && t.Dir?
    decreases f, 1
  {
    Dir(map n | n in f.children.Keys + t.children.Keys ::
          if n in f.children then OverlayChild(f, t, n) else t.children[n])
  }

  /** A subdirectory of `from` that is moved whole rather than merged. */
  predicate MovedWhole(f: Node, t: Node, n: Name)
    requires f.Dir? && t.Dir? && n in f.children
  {
    f.children[n].Dir? && !(n in t.children && t.children[n].Dir?)
  }

  /** What `from + [n]` holds after the overlay, for a name of `from` not moved whole. */
  function ResidueChild(f: Node, t: Node, n: Name): Node
    requires f.Dir? && t.Dir? && n in f.children
    decreases f, 0
  {
    if f.children[n].Dir? && n in t.children && t.children[n].Dir? then
      Residue(f.children[n], t.children[n])
    else
      f.children[n]
  }

  /**
   * What is left of `from` once the overlay is done and before it is deleted:
   * files were copied and stay; subdirectories moved whole are gone; merged ones
   * keep their own residue.
   */
  function Residue(f: Node, t: Node): Node
    requires f.Dir? && t.Dir?
    decreases f, 1
  {
    Dir(map n | n in f.children && !MovedWhole(f, t, n) :: ResidueChild(f, t, n))
  }

  // ----- what the overlay means, file by file -----

  lemma {:induction false} OverlayGetFile(f: Node, t: Node, q: Path, c: seq<byte>)
    requires f.Dir? && t.Dir? && NoClash(f, t)
    ensures Get(Overlay(f, t), q) == Some(File(c)) <==>
      (Get(f, q) == Some(File(c)) || (Get(f, q).None? && Get(t, q) == Some(File(c))))
    decreases q
  {
    if q != [] {
      var n := q[0];
      if n in f.children && n in t.children && f.children[n].Dir? {
        OverlayGetFile(f.children[n], t.children[n], q[1..], c);
      } else if n in f.children && !(n in t.children) && |q| > 1 {
        NoneBelowMissing(t, q);
      }
    }
  }

  lemma NoneBelowMissing(t: Node, q: Path)
    requires q != [] && !(t.Dir? && q[0] in t.children)
    ensures Get(t, q) == None
  {
  }

  /** Every file of `from` ends up at the same relative path of `to`, with `from`'s content. */
  lemma MergeCopiesFromFiles(f: Node, t: Node, q: Path, c: seq<byte>)
    requires f.Dir? && t.Dir? && NoClash(f, t)
    requires Get(f, q) == Some(File(c))
    ensures Get(Overlay(f, t), q) == Some(File(c))
  {
    OverlayGetFile(f, t, q, c);
  }

  /** Every file only in `to` is left as it was. */
  lemma MergeKeepsToOnlyFiles(f: Node, t: Node, q: Path, c: seq<byte>)
    requires f.Dir? && t.Dir? && NoClash(f, t)
    requires Get(t, q) == Some(File(c)) && Get(f, q).None?
    ensures Get(Overlay(f, t), q) == Some(File(c))
  {
    OverlayGetFile(f, t, q, c);
  }

  /** The merge invents no file: each comes from `from`, or from `to` where `from` has nothing. */
  lemma MergeAddsNoOtherFile(f: Node, t: Node, q: Path, c: seq<byte>)
    requires f.Dir? && t.Dir? && NoClash(f, t)
    requires Get(Overlay(f, t), q) == Some(File(c))
    ensures Get(f, q) == Some(File(c)) || (Get(f, q).None? && Get(t, q) == Some(File(c)))
  {
    OverlayGetFile(f, t, q, c);
  }

  /** Merging into an empty directory is moving the directory: MoveDirectory's two branches agree. */
  lemma OverlayOntoEmpty(f: Node)
    requires f.Dir?
    ensures Overlay(f, EmptyDir) == f
  {
    assert Overlay(f, EmptyDir).children == f.children;
  }

  // ----- a move, file by file -----

  /** Placing the node found at a path back there changes nothing. */
  lemma {:induction false} PutExisting(t: Node, p: Path, v: Node)
    requires Get(t, p) == Some(v)
    ensures Put(t, p, v) == t
    decreases p
  {
    if p != [] {
      PutExisting(t.children[p[0]], p[1..], v);
      assert t.children[p[0] := t.children[p[0]]] == t.children;
    }
  }

  /**
   * After moving `v` from `from` to `to` (File.Move, Directory.Move), `to` holds
   * `v`, `from` holds nothing, and every path outside both is unchanged.
   */
  lemma MoveLands(t: Node, from: Path, to: Path, v: Node)
    requires Incomparable(from, to)
    ensures Get(Put(Remove(t, from), to, v), to) == Some(v)
    ensures Get(Put(Remove(t, from), to, v), from) == None
    ensures forall q :: Incomparable(q, from) && Incomparable(q, to) ==>
      Get(Put(Remove(t, from), to, v), q) == Get(t, q)
  {
    GetPut(Remove(t, from), to, v);
    GetPutOther(Remove(t, from), to, from, v);
    GetRemove(t, from);
    forall q | Incomparable(q, from) && Incomparable(q, to)
      ensures Get(Put(Remove(t, from), to, v), q) == Get(t, q)
    {
      GetPutOther(Remove(t, from), to, q, v);
      GetRemoveOther(t, from, q);
    }
  }

  /**
   * MoveDirectory onto a missing target renames the tree; merging into an empty
   * directory there and deleting the source gives the same tree.
   */
  lemma MoveIsMergeIntoEmpty(t: Node, from: Path, to: Path, f: Node)
    requires Incomparable(from, to) && Get(t, from) == Some(f) && f.Dir?
    ensures Remove(Put(t, to, Overlay(f, EmptyDir)), from) == Put(Remove(t, from), to, f)
  {
    OverlayOntoEmpty(f);
    RemovePutCommute(t, from, to, f);
  }

  // ----- bookkeeping for the step-by-step merge -----

  /** The tree with `to` holding the entries `x` and `from` holding the entries `y`. */
  function Arranged(r0: Node, from: Path, to: Path, x: map<Name, Node>, y: map<Name, Node>): Node
  {
    Put(Put(r0, to, Dir(x)), from, Dir(y))
  }

  lemma ArrangedInitially(r0: Node, from: Path, to: Path, f: Node, t: Node)
    requires Get(r0, from) == Some(f) && Get(r0, to) == Some(t) && f.Dir? && t.Dir?
    ensures Arranged(r0, from, to, t.children, f.children) == r0
  {
    PutExisting(r0, to, t);
    PutExisting(r0, from, f);
  }

  /** What the merge sees at `from + [n]` and `to + [n]` in an arranged tree. */
  lemma ArrangedView(r0: Node, from: Path, to: Path, x: map<Name, Node>, y: map<Name, Node>, n: Name)
    requires Incomparable(from, to)
    ensures Get(Arranged(r0, from, to, x, y), from + [n]) == (if n in y then Some(y[n]) else None)
    ensures Get(Arranged(r0, from, to, x, y), to + [n]) == (if n in x then Some(x[n]) else None)
  {
    GetPutBelow(Put(r0, to, Dir(x)), from, [n], Dir(y));
    IncomparableExtend(to, from, n);
    GetPutOther(Put(r0, to, Dir(x)), from, to + [n], Dir(y));
    GetPutBelow(r0, to, [n], Dir(x));
  }

  lemma ArrangedPutTo(r0: Node, from: Path, to: Path, x: map<Name, Node>, y: map<Name, Node>, n: Name, v: Node)
    requires Incomparable(from, to)
    ensures Put(Arranged(r0, from, to, x, y), to + [n], v) == Arranged(r0, from, to, x[n := v], y)
  {
    IncomparableExtend(to, from, n);
    PutCommute(Put(r0, to, Dir(x)), from, to + [n], Dir(y), v);
    PutPutChild(r0, to, x, n, v);
  }

  lemma ArrangedPutFrom(r0: Node, from: Path, to: Path, x: map<Name, Node>, y: map<Name, Node>, n: Name, v: Node)
    ensures Put(Arranged(r0, from, to, x, y), from + [n], v) == Arranged(r0, from, to, x, y[n := v])
  {
    PutPutChild(Put(r0, to, Dir(x)), from, y, n, v);
  }

  lemma ArrangedRemoveFrom(r0: Node, from: Path, to: Path, x: map<Name, Node>, y: map<Name, Node>, n: Name)
    ensures Remove(Arranged(r0, from, to, x, y), from + [n]) == Arranged(r0, from, to, x, y - {n})
  {
    RemovePutChild(Put(r0, to, Dir(x)), from, y, n);
  }

  /** `x` is `to`'s entries once the names in `done` of `from` have been merged. */
  predicate OverlaidSoFar(f: Node, t: Node, x: map<Name, Node>, done: set<Name>)
    requires f.Dir? && t.Dir? && done <= f.children.Keys
  {
    x.Keys == t.children.Keys + done &&
    forall n :: n in x ==> x[n] == (if n in done then OverlayChild(f, t, n) else t.children[n])
  }

  /** `y` is `from`'s entries once the names in `done` have been merged. */
  predicate ResidueSoFar(f: Node, t: Node, y: map<Name, Node>, done: set<Name>)
    requires f.Dir? && t.Dir? && done <= f.children.Keys
  {
    (forall n :: n in f.children ==> (n in y <==> !(n in done && MovedWhole(f, t, n)))) &&
    y.Keys <= f.children.Keys &&
    forall n :: n in y ==> y[n] == (if n in done then ResidueChild(f, t, n) else f.children[n])
  }

  lemma OverlaidStep(f: Node, t: Node, x: map<Name, Node>, done: set<Name>, n: Name)
    requires f.Dir? && t.Dir? && done <= f.children.Keys && n in f.children && n !in done
    requires OverlaidSoFar(f, t, x, done)
    ensures OverlaidSoFar(f, t, x[n := OverlayChild(f, t, n)], done + {n})
  {
  }

  lemma ResidueStep(f: Node, t: Node, y: map<Name, Node>, done: set<Name>, n: Name)
    requires f.Dir? && t.Dir? && done <= f.children.Keys && n in f.children && n !in done
    requires ResidueSoFar(f, t, y, done)
    ensures MovedWhole(f, t, n) ==> ResidueSoFar(f, t, y - {n}, done + {n})
    ensures !MovedWhole(f, t, n) ==> ResidueSoFar(f, t, y[n := ResidueChild(f, t, n)], done + {n})
  {
  }

  lemma MergedAll(f: Node, t: Node, x: map<Name, Node>, y: map<Name, Node>)
    requires f.Dir? && t.Dir?
    requires OverlaidSoFar(f, t, x, f.children.Keys) && ResidueSoFar(f, t, y, f.children.Keys)
    ensures Dir(x) == Overlay(f, t) && Dir(y) == Residue(f, t)
  {
    assert x == Overlay(f, t).children;
    assert y == Residue(f, t).children;
  }

  // ----- preconditions of the moves -----

  /** No proper ancestor of `p` is a file, so Directory.CreateDirectory on its parent succeeds. */
  predicate NoFileAbove(t: Node, p: Path)
  {
    forall k :: 0 <= k < |p| ==> !(Get(t, p[..k]).Some? && Get(t, p[..k]).value.File?)
  }

  /** Every proper ancestor of an existing path is a directory. */
  lemma {:induction false} AncestorsAreDirs(t: Node, p: Path, k: nat)
    requires Get(t, p).Some? && k < |p|
    ensures Get(t, p[..k]).Some? && Get(t, p[..k]).value.Dir?
    decreases k
  {
    if k > 0 {
      assert p[..k][1..] == p[1..][..k - 1];
      AncestorsAreDirs(t.children[p[0]], p[1..], k - 1);
    }
  }

  /**
   * MoveFile's preconditions keep source and target apart: a file has nothing
   * below it, and a target with no file above it and no directory at it cannot
   * contain the source.
   */
  lemma FileMoveIsApart(t: Node, from: Path, to: Path)
    requires Get(t, from).Some? && Get(t, from).value.File?
    requires from != to && NoFileAbove(t, to)
    requires !(Get(t, to).Some? && Get(t, to).value.Dir?)
    ensures Incomparable(from, to)
  {
    if |from| < |to| {
      assert !(Get(t, to[..|from|]).Some? && Get(t, to[..|from|]).value.File?);
    } else if |to| < |from| {
      AncestorsAreDirs(t, from, |to|);
    }
  }

  // ----- one step of the merge loops -----

  function FileNames(f: Node): set<Name>
    requires f.Dir?
  {
    set n | n in f.children && f.children[n].File?
  }

  /** `x` and `y` are the entries of `to` and `from` once the names in `done` have been merged. */
  predicate MergedSoFar(f: Node, t: Node, x: map<Name, Node>, y: map<Name, Node>, done: set<Name>)
  {
    f.Dir? && t.Dir? && done <= f.children.Keys &&
    OverlaidSoFar(f, t, x, done) && ResidueSoFar(f, t, y, done)
  }

  /** The facts one iteration of the merge loops starts from. */
  predicate MergeStepReady(f: Node, t: Node, x: map<Name, Node>, y: map<Name, Node>, done: set<Name>, n: Name)
  {
    f.Dir? && t.Dir? && done <= f.children.Keys && n in f.children && n !in done &&
    OverlaidSoFar(f, t, x, done) && ResidueSoFar(f, t, y, done)
  }

  /** What the merge sees at `from + [n]` and `to + [n]` before handling the name `n`. */
  lemma StepView(r0: Node, from: Path, to: Path, f: Node, t: Node,
                 x: map<Name, Node>, y: map<Name, Node>, done: set<Name>, n: Name)
    requires Incomparable(from, to) && MergeStepReady(f, t, x, y, done, n)
    ensures Get(Arranged(r0, from, to, x, y), from + [n]) == Some(f.children[n])
    ensures Get(Arranged(r0, from, to, x, y), to + [n]) == (if n in t.children then Some(t.children[n]) else None)
  {
    ArrangedView(r0, from, to, x, y, n);
  }

  /** Copying the file `n` of `from` into `to`. */
  lemma FileCopyStep(r0: Node, from: Path, to: Path, f: Node, t: Node,
                     x: map<Name, Node>, y: map<Name, Node>, done: set<Name>, n: Name)
    requires Incomparable(from, to) && MergeStepReady(f, t, x, y, done, n) && f.children[n].File?
    ensures Put(Arranged(r0, from, to, x, y), to + [n], f.children[n])
         == Arranged(r0, from, to, x[n := f.children[n]], y)
    ensures OverlaidSoFar(f, t, x[n := f.children[n]], done + {n}) && ResidueSoFar(f, t, y, done + {n})
  {
    ArrangedPutTo(r0, from, to, x, y, n, f.children[n]);
    OverlaidStep(f, t, x, done, n);
    ResidueStep(f, t, y, done, n);
    assert y[n := ResidueChild(f, t, n)] == y;
  }

  /** Merging the subdirectory `n` of `from` into the same-named directory of `to`. */
  lemma DirMergeStep(r0: Node, from: Path, to: Path, f: Node, t: Node,
                     x: map<Name, Node>, y: map<Name, Node>, done: set<Name>, n: Name)
    requires Incomparable(from, to) && MergeStepReady(f, t, x, y, done, n) && f.children[n].Dir?
    requires n in t.children && t.children[n].Dir? && NoClash(f, t)
    ensures Incomparable(from + [n], to + [n]) && NoClash(f.children[n], t.children[n])
    ensures
      var merged := Overlay(f.children[n], t.children[n]);
      var residue := Residue(f.children[n], t.children[n]);
      Arranged(Arranged(r0, from, to, x, y), from + [n], to + [n], merged.children, residue.children)
        == Arranged(r0, from, to, x[n := merged], y[n := residue]) &&
      OverlaidSoFar(f, t, x[n := merged], done + {n}) && ResidueSoFar(f, t, y[n := residue], done + {n})
  {
    IncomparableChildren(from, to, n);
    var merged := Overlay(f.children[n], t.children[n]);
    var residue := Residue(f.children[n], t.children[n]);
    ArrangedPutTo(r0, from, to, x, y, n, merged);
    ArrangedPutFrom(r0, from, to, x[n := merged], y, n, residue);
    OverlaidStep(f, t, x, done, n);
    ResidueStep(f, t, y, done, n);
  }

  /** Moving the subdirectory `n` of `from` whole into `to`, where nothing has that name. */
  lemma DirMoveStep(r0: Node, from: Path, to: Path, f: Node, t: Node,
                    x: map<Name, Node>, y: map<Name, Node>, done: set<Name>, n: Name)
    requires Incomparable(from, to) && MergeStepReady(f, t, x, y, done, n) && f.children[n].Dir?
    requires !(n in t.children && t.children[n].Dir?)
    ensures Put(Remove(Arranged(r0, from, to, x, y), from + [n]), to + [n], f.children[n])
         == Arranged(r0, from, to, x[n := f.children[n]], y - {n})
    ensures OverlaidSoFar(f, t, x[n := f.children[n]], done + {n}) && ResidueSoFar(f, t, y - {n}, done + {n})
  {
    ArrangedRemoveFrom(r0, from, to, x, y, n);
    ArrangedPutTo(r0, from, to, x, y - {n}, n, f.children[n]);
    OverlaidStep(f, t, x, done, n);
    ResidueStep(f, t, y, done, n);
  }
}
