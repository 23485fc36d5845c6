/** Moving trees on disk: movePath and copyPath of internal/files/service.go over a symlink-free
    filesystem. A path is the sequence of its components from the filesystem root. */
module FileSystem {
  import opened Strings
  import opened LogicalPaths

  type Content = seq<int>

  /** Mode bits by number; 0..8 are the permission bits, the rest setuid, setgid and sticky. */
  type Mode = set<int>

  datatype Node = FileNode(content: Content, mode: Mode, mtime: int) | DirNode(mode: Mode, mtime: int)

  type Tree = map<Comps, Node>

  const PERM_BITS: Mode := set b | 0 <= b < 9

  function At(t: Tree, p: Comps): Option<Node> { if p in t then Some(t[p]) else None }

  function Parent(p: Comps): Comps
    requires p != []
  {
    p[..|p|-1]
  }

  /** Every entry lies in a directory. */
  ghost predicate WellFormed(t: Tree) {
    && [] in t && t[[]].DirNode?
    && forall p :: p in t && p != [] ==> Parent(p) in t && t[Parent(p)].DirNode?
  }

  /** Whatever has an entry below it is itself there, and a directory if strictly above. */
  lemma {:induction false} AncestorsExist(t: Tree, a: Comps, p: Comps)
    requires WellFormed(t) && p in t && IsPrefix(a, p)
    ensures a in t && (|a| < |p| ==> t[a].DirNode?)
    decreases |p|
  {
    if |a| < |p| {
      assert Parent(p)[..|a|] == p[..|a|];
      AncestorsExist(t, a, Parent(p));
    } else {
      assert a == p;
    }
  }

  lemma PrefixThrough(a: Comps, b: Comps, q: Comps)
    requires IsPrefix(a, b)
    ensures IsPrefix(b, q) ==> IsPrefix(a, q)
  {
    if IsPrefix(b, q) { assert q[..|b|][..|a|] == q[..|a|]; }
  }

  lemma Comparable(a: Comps, b: Comps, c: Comps)
    requires IsPrefix(a, c) && IsPrefix(b, c)
    ensures IsPrefix(a, b) || IsPrefix(b, a)
  {
    if |a| <= |b| {
      assert c[..|b|][..|a|] == c[..|a|];
    } else {
      assert c[..|a|][..|b|] == c[..|b|];
    }
  }

  lemma UnderParent(p: Comps, q: Comps)
    requires q != []
    ensures IsPrefix(p, Parent(q)) ==> IsPrefix(p, q)
    ensures IsPrefix(p, q) ==> p == q || IsPrefix(p, Parent(q))
  {
    if |p| < |q| {
      assert Parent(q)[..|p|] == q[..|p|];
    }
  }

  function Touched(n: Option<Node>, now: int): Option<Node> {
    match n
    case Some(DirNode(m, _)) => Some(DirNode(m, now))
    case _ => n
  }

  /** The node copyPath recreates: same kind, content and mtime; permission bits less the umask. */
  function Recreated(n: Option<Node>, umask: Mode): Option<Node> {
    match n
    case Some(FileNode(c, m, t)) => Some(FileNode(c, (m * PERM_BITS) - umask, t))
    case Some(DirNode(m, t)) => Some(DirNode((m * PERM_BITS) - umask, t))
    case None => None
  }

  /** Where dst's copy of q comes from. */
  function Source(src: Comps, dst: Comps, q: Comps): Comps
    requires IsPrefix(dst, q)
  {
    src + q[|dst|..]
  }

  /** rename(src, dst) for an absent dst, at each path. */
  function RenamedAt(t: Tree, src: Comps, dst: Comps, now: int, q: Comps): Option<Node>
    requires src != [] && dst != []
  {
    if IsPrefix(dst, q) then At(t, Source(src, dst, q))
    else if IsPrefix(src, q) then None
    else if q == Parent(src) || q == Parent(dst) then Touched(At(t, q), now)
    else At(t, q)
  }

  /** copyPath(src, dst), at each path. */
  function CopiedAt(t: Tree, src: Comps, dst: Comps, now: int, umask: Mode, q: Comps): Option<Node>
    requires dst != []
  {
    if IsPrefix(dst, q) then Recreated(At(t, Source(src, dst, q)), umask)
    else if q == Parent(dst) then Touched(At(t, q), now)
    else At(t, q)
  }

  /** copyPath and then RemoveAll of the source, at each path. */
  function CopyMovedAt(t: Tree, src: Comps, dst: Comps, now: int, umask: Mode, q: Comps): Option<Node>
    requires src != [] && dst != []
  {
    if IsPrefix(dst, q) then Recreated(At(t, Source(src, dst, q)), umask)
    else if IsPrefix(src, q) then None
    else if q == Parent(src) || q == Parent(dst) then Touched(At(t, q), now)
    else At(t, q)
  }

  /** Modes that survive recreation: permission bits only, none masked. */
  predicate ModeSurvives(m: Mode, umask: Mode) { m <= PERM_BITS && m !! umask }

  predicate Separate(src: Comps, dst: Comps) { !IsPrefix(src, dst) && !IsPrefix(dst, src) }

  /** A cross-device move equals a rename exactly when no moved node has a bit the umask or the
      permission mask takes away. */
  lemma CopyMoveIsRenameIff(t: Tree, src: Comps, dst: Comps, now: int, umask: Mode)
    requires src != [] && dst != [] && Separate(src, dst)
    ensures (forall q :: CopyMovedAt(t, src, dst, now, umask, q) == RenamedAt(t, src, dst, now, q))
       <==> (forall p :: p in t && IsPrefix(src, p) ==> ModeSurvives(t[p].mode, umask))
  {
    if forall q :: CopyMovedAt(t, src, dst, now, umask, q) == RenamedAt(t, src, dst, now, q) {
      forall p | p in t && IsPrefix(src, p) ensures ModeSurvives(t[p].mode, umask) {
        var q := dst + p[|src|..];
        assert q[..|dst|] == dst && q[|dst|..] == p[|src|..];
        assert Source(src, dst, q) == p;
        assert CopyMovedAt(t, src, dst, now, umask, q) == RenamedAt(t, src, dst, now, q);
        RecreatedSameIff(t[p], umask);
      }
    }
    if forall p :: p in t && IsPrefix(src, p) ==> ModeSurvives(t[p].mode, umask) {
      forall q ensures CopyMovedAt(t, src, dst, now, umask, q) == RenamedAt(t, src, dst, now, q) {
        if IsPrefix(dst, q) && Source(src, dst, q) in t {
          assert Source(src, dst, q)[..|src|] == src;
          RecreatedSameIff(t[Source(src, dst, q)], umask);
        }
      }
    }
  }

  /** A group-writable file under umask 022 comes out of a cross-device move without that bit. */
  lemma UmaskedBitIsLost(now: int)
    ensures var file := FileNode([], {8, 7, 5, 4}, 0);
            var t := map[[] := DirNode(PERM_BITS, 0), ["a"] := file];
            && RenamedAt(t, ["a"], ["b"], now, ["b"]) == Some(file)
            && CopyMovedAt(t, ["a"], ["b"], now, {4, 1}, ["b"]) == Some(FileNode([], {8, 7, 5}, 0))
  {
    assert ["a"] + ["b"][1..] == ["a"];
    assert Source(["a"], ["b"], ["b"]) == ["a"];
    assert ({8, 7, 5, 4} * PERM_BITS) - {4, 1} == {8, 7, 5};
  }

  lemma RecreatedSameIff(n: Node, umask: Mode)
    ensures Recreated(Some(n), umask) == Some(n) <==> ModeSurvives(n.mode, umask)
  {
    assert (n.mode * PERM_BITS) - umask == n.mode <==> ModeSurvives(n.mode, umask) by {
      if (n.mode * PERM_BITS) - umask == n.mode {
        assert forall b :: b in n.mode ==> b in (n.mode * PERM_BITS) - umask;
      }
    }
  }

  /** One new entry, at each path. */
  function CreatedAt(t: Tree, p: Comps, n: Node, now: int, q: Comps): Option<Node>
    requires p != []
  {
    if q == p then Some(n) else if q == Parent(p) then Touched(At(t, q), now) else At(t, q)
  }

  /** A removed subtree, at each path. */
  function RemovedAt(t: Tree, p: Comps, now: int, q: Comps): Option<Node>
    requires p != []
  {
    if IsPrefix(p, q) then None else if q == Parent(p) then Touched(At(t, q), now) else At(t, q)
  }

  /** Outside the subtree of p nothing changed, except perhaps the mtime of p's parent. */
  ghost predicate SameOutside(t: Tree, t': Tree, p: Comps, now: int)
    requires p != []
  {
    forall q :: !IsPrefix(p, q) ==>
      (At(t', q) == At(t, q) || (q == Parent(p) && At(t', q) == Touched(At(t, q), now)))
  }

  /** What an interrupted removal of p may leave: no entry without its directory. */
  predicate Remains(t: Tree, p: Comps, keep: set<Comps>) {
    && keep <= t.Keys && p in keep
    && (forall q :: q in t && !IsPrefix(p, q) ==> q in keep)
    && (forall q :: q in keep && q != [] ==> Parent(q) in keep)
  }

  function Restrict(t: Tree, keep: set<Comps>): Tree {
    map q | q in t && q in keep :: t[q]
  }

  lemma RemainsWellFormed(t: Tree, p: Comps, keep: set<Comps>)
    requires WellFormed(t) && p != [] && p in t && Remains(t, p, keep)
    ensures WellFormed(Restrict(t, keep))
    ensures forall q :: !IsPrefix(p, q) ==> At(Restrict(t, keep), q) == At(t, q)
  {
    assert !IsPrefix(p, []);
  }

  // ---------------------------------------------------------------- system calls

  datatype RenameResult = RenameOk | CrossDevice | RenameError

  datatype MoveResult = Moved(copied: bool) | NotMoved | LeftBehind

  /** A free name in an existing directory. */
  predicate CanCreate(t: Tree, p: Comps)
    requires p != []
  {
    p !in t && Parent(p) in t && t[Parent(p)].DirNode?
  }

  /** Moving to an absent target is possible: not below itself, and into an existing directory. */
  predicate CanMove(t: Tree, src: Comps, dst: Comps)
    requires dst != []
  {
    src in t && !IsPrefix(src, dst) && CanCreate(t, dst)
  }

  class Disk {
    var tree: Tree
    const umask: Mode
    /** How many calls have failed for reasons of their own: permissions, space, I/O. */
    ghost var faults: nat

    constructor (mask: Mode)
      ensures WellFormed(tree) && umask == mask && faults == 0
      ensures tree == map[[] := DirNode(PERM_BITS, 0)]
    {
      tree, umask, faults := map[[] := DirNode(PERM_BITS, 0)], mask, 0;
    }

    /** Whether the next call fails for a reason of its own. */
    method Fails() returns (failed: bool)
      modifies this`faults
      ensures faults == old(faults) + if failed then 1 else 0
    {
      failed := *;
      faults := faults + if failed then 1 else 0;
    }

    /** Creates one entry in an existing directory; fails on an existing name. */
    method CreateNode(p: Comps, n: Node, now: int) returns (ok: bool)
      requires WellFormed(tree) && p != []
      modifies this
      ensures WellFormed(tree)
      ensures ok <==> CanCreate(old(tree), p) && faults == old(faults)
      ensures faults >= old(faults)
      ensures !ok ==> tree == old(tree)
      ensures ok ==> forall q :: At(tree, q) == CreatedAt(old(tree), p, n, now, q)
    {
      if p in tree || Parent(p) !in tree || !tree[Parent(p)].DirNode? { return false; }
      var failed := Fails();
      if failed { return false; }
      tree := tree[Parent(p) := DirNode(tree[Parent(p)].mode, now)][p := n];
      return true;
    }

    /** os.Mkdir: the mode is cut by the umask. */
    method Mkdir(p: Comps, perm: Mode, now: int) returns (ok: bool)
      requires WellFormed(tree) && p != []
      modifies this
      ensures WellFormed(tree)
      ensures ok <==> CanCreate(old(tree), p) && faults == old(faults)
      ensures faults >= old(faults)
      ensures !ok ==> tree == old(tree)
      ensures ok ==> forall q :: At(tree, q) == CreatedAt(old(tree), p, DirNode(perm - umask, now), now, q)
    {
      ok := CreateNode(p, DirNode(perm - umask, now), now);
    }

    /** os.OpenFile with O_CREATE|O_EXCL, io.Copy and Close: a failure may leave part of the bytes. */
    method WriteNewFile(p: Comps, content: Content, perm: Mode, now: int) returns (ok: bool)
      requires WellFormed(tree) && p != []
      modifies this
      ensures WellFormed(tree)
      ensures p in old(tree) ==> tree == old(tree)
      ensures ok <==> CanCreate(old(tree), p) && faults == old(faults)
      ensures faults >= old(faults)
      ensures ok ==> forall q :: At(tree, q) == CreatedAt(old(tree), p, FileNode(content, perm - umask, now), now, q)
      ensures !ok ==> forall q :: q != p ==> (At(tree, q) == old(At(tree, q)) ||
                                              (q == Parent(p) && At(tree, q) == Touched(old(At(tree, q)), now)))
    {
      var cut: nat :| cut <= |content|;
      var failed := Fails();
      ok := CreateNode(p, FileNode(if failed then content[..cut] else content, perm - umask, now), now);
      ok := ok && !failed;
    }

    /** os.Chtimes. */
    method Chtimes(p: Comps, mtime: int) returns (ok: bool)
      requires WellFormed(tree)
      modifies this
      ensures WellFormed(tree)
      ensures ok <==> p in old(tree) && faults == old(faults)
      ensures faults >= old(faults)
      ensures tree == if ok then old(tree)[p := old(tree)[p].(mtime := mtime)] else old(tree)
    {
      if p !in tree { return false; }
      var failed := Fails();
      if failed { return false; }
      tree := tree[p := tree[p].(mtime := mtime)];
      return true;
    }

    /** os.ReadDir: the names in a directory, each once. */
    method ReadDir(p: Comps) returns (names: seq<string>)
      ensures forall i, j :: 0 <= i < j < |names| ==> names[i] != names[j]
      ensures forall n :: n in names <==> p + [n] in tree
    {
      var left := set q | q in tree && |q| == |p| + 1 && q[..|p|] == p;
      var all := left;
      names := [];
      while left != {}
        invariant left <= all
        invariant forall i, j :: 0 <= i < j < |names| ==> names[i] != names[j]
        invariant forall n :: n in names <==> p + [n] in all - left
        decreases |left|
      {
        var q :| q in left;
        assert q == p + [q[|p|]];
        forall m ensures p + [m] == q <==> m == q[|p|] {
          assert (p + [m])[|p|] == m;
        }
        names := names + [q[|p|]];
        left := left - {q};
      }
      forall n ensures p + [n] in all <==> p + [n] in tree {
        assert (p + [n])[..|p|] == p;
      }
    }

    /** os.RemoveAll: removes a subtree, bottom up; a failure leaves the top part of it. */
    method RemoveAll(p: Comps, now: int) returns (ok: bool)
      requires WellFormed(tree) && p != []
      modifies this
      ensures WellFormed(tree)
      ensures ok && p in old(tree) ==> forall q :: At(tree, q) == RemovedAt(old(tree), p, now, q)
      ensures ok <==> faults == old(faults)
      ensures faults >= old(faults)
      ensures p !in old(tree) ==> ok && tree == old(tree)
      ensures !ok ==> p in tree && (forall q :: q in tree ==> q in old(tree) && tree[q] == old(tree)[q])
      ensures !ok ==> forall q :: !IsPrefix(p, q) ==> At(tree, q) == At(old(tree), q)
    {
      if p !in tree { return true; }
      var failed := Fails();
      if failed {
        assert Remains(tree, p, tree.Keys);
        var keep :| Remains(tree, p, keep);
        RemainsWellFormed(tree, p, keep);
        tree := Restrict(tree, keep);
        return false;
      }
      AncestorsExist(tree, Parent(p), p);
      ghost var before := tree;
      var touched := tree[Parent(p) := DirNode(tree[Parent(p)].mode, now)];
      tree := map q | q in touched && !IsPrefix(p, q) :: touched[q];
      forall q | q in tree && q != [] ensures Parent(q) in tree && tree[Parent(q)].DirNode? {
        assert Parent(q) in before;
        UnderParent(p, q);
      }
      return true;
    }

    /** copyPath. sub is the source subtree; names of the target are created one at a time. */
    method CopyPath(src: Comps, dst: Comps, now: int, ghost sub: set<Comps>) returns (ok: bool)
      requires WellFormed(tree) && src != [] && dst != [] && Separate(src, dst)
      requires sub == set q | q in tree && IsPrefix(src, q)
      modifies this
      decreases sub
      ensures WellFormed(tree)
      ensures ok <==> src in old(tree) && CanCreate(old(tree), dst) && faults == old(faults)
      ensures faults >= old(faults)
      ensures ok ==> forall q :: At(tree, q) == CopiedAt(old(tree), src, dst, now, umask, q)
      ensures !ok ==> SameOutside(old(tree), tree, dst, now)
      ensures dst in old(tree) ==> tree == old(tree)
    {
      if src !in tree { return false; }
      ghost var start := tree;
      match tree[src] {
        case FileNode(content, mode, mtime) =>
          ok := WriteNewFile(dst, content, mode * PERM_BITS, now);
          if !ok { return; }
          ghost var written := tree;
          assert At(written, dst) == Some(FileNode(content, (mode * PERM_BITS) - umask, now));
          ok := Chtimes(dst, mtime);
          assert forall q :: q != dst ==> At(tree, q) == At(written, q);
          CopiedFile(start, tree, src, dst, now, umask, ok);
        case DirNode(mode, mtime) =>
          ok := Mkdir(dst, mode * PERM_BITS, now);
          if !ok { return; }
          StartDir(start, tree, src, dst, now, umask);
          var names := ReadDir(src);
          forall n ensures n in names <==> src + [n] in start {
            SourceUntouched(start, tree, src, dst, now, umask, [], src + [n]);
          }
          var i := 0;
          while i < |names|
            invariant 0 <= i <= |names|
            invariant WellFormed(tree)
            invariant PartCopied(start, tree, src, dst, now, umask, names[..i])
            invariant faults == old(faults)
          {
            var c := names[i];
            ghost var before := tree;
            ghost var child := set q | q in tree && IsPrefix(src + [c], q);
            ChildSubtree(start, tree, src, dst, now, umask, names[..i], c);
            ChildReady(start, tree, src, dst, now, umask, names, i);
            ok := CopyPath(src + [c], dst + [c], now, child);
            if !ok {
              ChildFailed(start, before, tree, src, dst, now, umask, names[..i], c);
              return;
            }
            ChildCopied(start, before, tree, src, dst, now, umask, names, i);
            i := i + 1;
          }
          assert names[..i] == names;
          ghost var full := tree;
          TargetThere(start, full, src, dst, now, umask, names);
          ok := Chtimes(dst, mtime);
          FinishDir(start, full, tree, src, dst, now, umask, names, ok);
      }
    }

    /** os.Rename to an absent target. */
    method Rename(src: Comps, dst: Comps, now: int) returns (r: RenameResult)
      requires WellFormed(tree) && src != [] && dst != [] && dst !in tree
      modifies this
      ensures WellFormed(tree)
      ensures r.RenameError? <==> !CanMove(old(tree), src, dst) || faults > old(faults)
      ensures faults >= old(faults)
      ensures r.RenameOk? ==> Separate(src, dst) && forall q :: At(tree, q) == RenamedAt(old(tree), src, dst, now, q)
      ensures r.CrossDevice? ==> Separate(src, dst)
      ensures !r.RenameOk? ==> tree == old(tree)
    {
      if src !in tree || IsPrefix(src, dst) || Parent(dst) !in tree || !tree[Parent(dst)].DirNode? {
        return RenameError;
      }
      var failed := Fails();
      if failed { return RenameError; }
      assert !IsPrefix(dst, src) by { if IsPrefix(dst, src) { AncestorsExist(tree, dst, src); } }
      var sameDevice: bool := *;
      if !sameDevice { return CrossDevice; }
      ghost var before := tree;
      AncestorsExist(tree, Parent(src), src);
      forall q { RenamedTreeAt(tree, src, dst, now, q); }
      tree := RenamedTree(tree, src, dst, now);
      RenamedWellFormed(before, tree, src, dst, now);
      return RenameOk;
    }

    /** The cross-device branch of movePath: copy, and remove the target again when that fails. */
    method CopyOrUndo(src: Comps, dst: Comps, now: int) returns (ok: bool, clean: bool)
      requires WellFormed(tree) && src != [] && dst != [] && Separate(src, dst)
      modifies this
      ensures WellFormed(tree)
      ensures ok <==> src in old(tree) && CanCreate(old(tree), dst) && faults == old(faults)
      ensures faults >= old(faults) && (!clean ==> faults > old(faults))
      ensures ok ==> forall q :: At(tree, q) == CopiedAt(old(tree), src, dst, now, umask, q)
      ensures !ok ==> SameOutside(old(tree), tree, dst, now)
      // a failed copy leaves the tree as it was exactly when the target did not exist before
      ensures !ok && clean ==>
          ((forall q :: q != Parent(dst) ==> At(tree, q) == At(old(tree), q)) <==> dst !in old(tree))
    {
      ghost var start := tree;
      clean := true;
      ok := CopyPath(src, dst, now, set q | q in tree && IsPrefix(src, q));
      if !ok {
        ghost var failed := tree;
        clean := RemoveAll(dst, now);
        RemovedOutside(start, failed, tree, dst, now, clean);
      }
    }

    /** movePath to an absent target. */
    method MovePath(src: Comps, dst: Comps, now: int) returns (r: MoveResult)
      requires WellFormed(tree) && src != [] && dst != [] && dst !in tree
      modifies this
      ensures WellFormed(tree)
      ensures r.Moved? <==> CanMove(old(tree), src, dst) && faults == old(faults)
      ensures faults >= old(faults) && (r.LeftBehind? ==> faults > old(faults))
      ensures r.Moved? ==> Separate(src, dst)
      ensures r == Moved(false) ==> forall q :: At(tree, q) == RenamedAt(old(tree), src, dst, now, q)
      ensures r == Moved(true) ==> forall q :: At(tree, q) == CopyMovedAt(old(tree), src, dst, now, umask, q)
      ensures r.NotMoved? ==> forall q :: q != Parent(dst) ==> At(tree, q) == At(old(tree), q)
      ensures r.NotMoved? ==>
          At(tree, Parent(dst)) in {old(At(tree, Parent(dst))), Touched(old(At(tree, Parent(dst))), now)}
      ensures r.LeftBehind? ==>
          Separate(src, dst) && forall q :: !IsPrefix(dst, q) && !IsPrefix(src, q) && q != Parent(dst) ==>
                                  At(tree, q) == At(old(tree), q)
    {
      var renamed := Rename(src, dst, now);
      if renamed.RenameOk? { return Moved(false); }
      if renamed.RenameError? { return NotMoved; }
      ghost var start := tree;
      var ok, clean := CopyOrUndo(src, dst, now);
      ParentNotUnder(dst);
      if !ok {
        return if clean then NotMoved else LeftBehind;
      }
      ghost var copied := tree;
      var removed := RemoveAll(src, now);
      if !removed { return LeftBehind; }
      assert At(copied, src) == CopiedAt(start, src, dst, now, umask, src);
      UnderParent(src, dst);
      forall q ensures At(tree, q) == CopyMovedAt(start, src, dst, now, umask, q) {
        assert At(tree, q) == RemovedAt(copied, src, now, q);
        assert At(copied, q) == CopiedAt(start, src, dst, now, umask, q);
        if IsPrefix(dst, q) {
          SeparateBelow(dst, src, q);
          UnderParent(dst, src);
        }
      }
      return Moved(true);
    }
  }

  // ---------------------------------------------------------------- the copy, child by child

  /** dst has been made and the children named in done are copied. */
  function PartCopiedAt(t: Tree, src: Comps, dst: Comps, now: int, umask: Mode, done: seq<string>,
                        q: Comps): Option<Node>
    requires dst != []
  {
    if q == dst then Touched(Recreated(At(t, src), umask), now)
    else if IsPrefix(dst, q) then
      (if q[|dst|] in done then Recreated(At(t, Source(src, dst, q)), umask) else None)
    else if q == Parent(dst) then Touched(At(t, q), now)
    else At(t, q)
  }

  ghost predicate PartCopied(t: Tree, t': Tree, src: Comps, dst: Comps, now: int, umask: Mode, done: seq<string>)
    requires dst != []
  {
    forall q :: At(t', q) == PartCopiedAt(t, src, dst, now, umask, done, q)
  }

  /** The source subtree is not touched by writing below a separate target. */
  lemma SourceUntouched(t: Tree, t': Tree, src: Comps, dst: Comps, now: int, umask: Mode, done: seq<string>, p: Comps)
    requires src != [] && dst != [] && Separate(src, dst) && IsPrefix(src, p)
    requires PartCopied(t, t', src, dst, now, umask, done)
    ensures At(t', p) == At(t, p)
  {
    SeparateBelow(src, dst, p);
    UnderParent(src, dst);
  }

  lemma SeparateBelow(src: Comps, dst: Comps, p: Comps)
    requires Separate(src, dst) && IsPrefix(src, p)
    ensures !IsPrefix(dst, p)
  {
    if |dst| <= |p| {
      if |src| <= |dst| {
        assert p[..|dst|][..|src|] == p[..|src|];
      } else {
        assert p[..|src|][..|dst|] == p[..|dst|];
      }
    }
  }

  lemma NothingBelow(t: Tree, dst: Comps)
    requires WellFormed(t) && dst !in t
    ensures forall q :: IsPrefix(dst, q) ==> At(t, q) == None
  {
    forall q | IsPrefix(dst, q) ensures At(t, q) == None {
      if q in t { AncestorsExist(t, dst, q); }
    }
  }

  lemma CopiedFile(t: Tree, t': Tree, src: Comps, dst: Comps, now: int, umask: Mode, ok: bool)
    requires WellFormed(t) && src in t && t[src].FileNode? && dst != [] && Separate(src, dst) && dst !in t
    requires ok ==> dst in t' && Some(t'[dst]) == Recreated(At(t, src), umask)
    requires ok ==> forall q :: q != dst ==> At(t', q) == CreatedAt(t, dst, t'[dst], now, q)
    ensures ok ==> forall q :: At(t', q) == CopiedAt(t, src, dst, now, umask, q)
  {
    NothingBelow(t, dst);
    if ok {
      forall q ensures At(t', q) == CopiedAt(t, src, dst, now, umask, q) {
        if q == dst {
          assert Source(src, dst, q) == src;
        } else if IsPrefix(dst, q) {
          BelowFile(t, src, dst, q);
        }
      }
    }
  }

  lemma BelowFile(t: Tree, src: Comps, dst: Comps, q: Comps)
    requires WellFormed(t) && src in t && t[src].FileNode? && IsPrefix(dst, q) && q != dst
    ensures Source(src, dst, q) !in t
  {
    var s := Source(src, dst, q);
    assert s[..|src|] == src && |s| > |src|;
    if s in t { AncestorsExist(t, src, s); }
  }

  lemma StartDir(t: Tree, t': Tree, src: Comps, dst: Comps, now: int, umask: Mode)
    requires WellFormed(t) && src in t && t[src].DirNode? && dst != [] && dst !in t
    requires forall q :: At(t', q) == CreatedAt(t, dst, DirNode((t[src].mode * PERM_BITS) - umask, now), now, q)
    ensures PartCopied(t, t', src, dst, now, umask, [])
  {
    NothingBelow(t, dst);
    forall q ensures At(t', q) == PartCopiedAt(t, src, dst, now, umask, [], q) {}
  }

  lemma ChildSubtree(t: Tree, t': Tree, src: Comps, dst: Comps, now: int, umask: Mode, done: seq<string>, c: string)
    requires src != [] && dst != [] && Separate(src, dst) && src in t
    requires PartCopied(t, t', src, dst, now, umask, done)
    ensures (set q | q in t' && IsPrefix(src + [c], q)) < (set q | q in t && IsPrefix(src, q))
    ensures Separate(src + [c], dst + [c])
  {
    forall q | q in t' && IsPrefix(src + [c], q) ensures q in t && IsPrefix(src, q) {
      assert q[..|src|] == q[..|src|+1][..|src|] == src;
      SourceUntouched(t, t', src, dst, now, umask, done, q);
      assert At(t', q) == At(t, q);
    }
    var small, big := set q | q in t' && IsPrefix(src + [c], q), set q | q in t && IsPrefix(src, q);
    assert small <= big;
    assert src in big && src !in small;
    if |src| <= |dst| { assert (dst + [c])[..|src|] == dst[..|src|]; }
    if |dst| <= |src| { assert (src + [c])[..|dst|] == src[..|dst|]; }
    if |src| < |dst| { assert (dst + [c])[..|src|+1][..|src|] == dst[..|src|]; }
    if |dst| < |src| { assert (src + [c])[..|dst|+1][..|dst|] == src[..|dst|]; }
    assert (src + [c])[..|src|] == src && (dst + [c])[..|dst|] == dst;
  }

  lemma TargetThere(t: Tree, t': Tree, src: Comps, dst: Comps, now: int, umask: Mode, done: seq<string>)
    requires dst != [] && src in t && PartCopied(t, t', src, dst, now, umask, done)
    ensures dst in t'
  {
    assert At(t', dst) == PartCopiedAt(t, src, dst, now, umask, done, dst);
  }

  /** The next child can be copied: it is in the source, and its name is still free in the target. */
  lemma ChildReady(t: Tree, t': Tree, src: Comps, dst: Comps, now: int, umask: Mode, names: seq<string>, i: nat)
    requires src != [] && dst != [] && Separate(src, dst) && i < |names| && src in t && t[src].DirNode?
    requires PartCopied(t, t', src, dst, now, umask, names[..i])
    requires forall a, b :: 0 <= a < b < |names| ==> names[a] != names[b]
    requires src + [names[i]] in t
    ensures src + [names[i]] in t' && CanCreate(t', dst + [names[i]])
  {
    var c := names[i];
    assert (src + [c])[..|src|] == src;
    SourceUntouched(t, t', src, dst, now, umask, names[..i], src + [c]);
    assert Parent(dst + [c]) == dst;
    assert At(t', dst) == PartCopiedAt(t, src, dst, now, umask, names[..i], dst);
    var q := dst + [c];
    assert IsPrefix(dst, q) && q[|dst|] == c && c !in names[..i];
    assert At(t', q) == PartCopiedAt(t, src, dst, now, umask, names[..i], q);
  }

  lemma ChildFailed(t: Tree, before: Tree, after: Tree, src: Comps, dst: Comps, now: int, umask: Mode,
                    done: seq<string>, c: string)
    requires dst != [] && PartCopied(t, before, src, dst, now, umask, done)
    requires SameOutside(before, after, dst + [c], now)
    ensures SameOutside(t, after, dst, now)
  {
    assert Parent(dst + [c]) == dst;
    forall q | !IsPrefix(dst, q)
      ensures At(after, q) == At(t, q) || (q == Parent(dst) && At(after, q) == Touched(At(t, q), now))
    {
      UnderChild(dst, c, q);
    }
  }

  lemma UnderChild(dst: Comps, c: string, q: Comps)
    ensures IsPrefix(dst + [c], q) <==> IsPrefix(dst, q) && |q| > |dst| && q[|dst|] == c
  {
    if |q| > |dst| {
      assert q[..|dst|+1] == q[..|dst|] + [q[|dst|]];
      assert (dst + [c])[..|dst|] == dst && (dst + [c])[|dst|] == c;
    }
  }

  lemma ChildCopied(t: Tree, before: Tree, after: Tree, src: Comps, dst: Comps, now: int, umask: Mode,
                    names: seq<string>, i: nat)
    requires src != [] && dst != [] && Separate(src, dst) && i < |names|
    requires PartCopied(t, before, src, dst, now, umask, names[..i])
    requires forall q :: At(after, q) == CopiedAt(before, src + [names[i]], dst + [names[i]], now, umask, q)
    ensures PartCopied(t, after, src, dst, now, umask, names[..i+1])
  {
    var c := names[i];
    assert names[..i+1] == names[..i] + [c];
    assert Parent(dst + [c]) == dst;
    forall q ensures At(after, q) == PartCopiedAt(t, src, dst, now, umask, names[..i+1], q) {
      UnderChild(dst, c, q);
      if IsPrefix(dst + [c], q) {
        var s := Source(src, dst, q);
        assert Source(src + [c], dst + [c], q) == s;
        assert s[..|src|] == src;
        SourceUntouched(t, before, src, dst, now, umask, names[..i], s);
      }
    }
  }

  lemma FinishDir(t: Tree, full: Tree, t': Tree, src: Comps, dst: Comps, now: int, umask: Mode, names: seq<string>,
                  ok: bool)
    requires WellFormed(t) && src in t && t[src].DirNode? && src != [] && dst != [] && Separate(src, dst)
    requires PartCopied(t, full, src, dst, now, umask, names)
    requires forall n :: n in names <==> src + [n] in t
    requires if ok then dst in full && t' == full[dst := full[dst].(mtime := t[src].mtime)] else t' == full
    ensures ok ==> forall q :: At(t', q) == CopiedAt(t, src, dst, now, umask, q)
    ensures !ok ==> SameOutside(t, t', dst, now)
  {
    if ok {
      assert At(full, dst) == PartCopiedAt(t, src, dst, now, umask, names, dst);
      forall q ensures At(t', q) == CopiedAt(t, src, dst, now, umask, q) {
        assert At(full, q) == PartCopiedAt(t, src, dst, now, umask, names, q);
        if q == dst {
          assert Source(src, dst, q) == src;
        } else if IsPrefix(dst, q) {
          var s := Source(src, dst, q);
          assert s[..|src|+1] == src + [q[|dst|]];
          if s in t { AncestorsExist(t, src + [q[|dst|]], s); }
        }
      }
    }
  }

  lemma ParentNotUnder(a: Comps)
    requires a != []
    ensures !IsPrefix(a, Parent(a))
  {}

  lemma RemovedOutside(t: Tree, failed: Tree, t': Tree, dst: Comps, now: int, clean: bool)
    requires WellFormed(t) && WellFormed(failed) && dst != [] && SameOutside(t, failed, dst, now)
    requires clean && dst in failed ==> forall q :: At(t', q) == RemovedAt(failed, dst, now, q)
    requires clean && dst !in failed ==> t' == failed
    requires !clean ==> forall q :: !IsPrefix(dst, q) ==> At(t', q) == At(failed, q)
    ensures SameOutside(t, t', dst, now)
    ensures clean ==> ((forall q :: q != Parent(dst) ==> At(t', q) == At(t, q)) <==> dst !in t)
  {
    ParentNotUnder(dst);
    forall q | !IsPrefix(dst, q)
      ensures At(t', q) == At(t, q) || (q == Parent(dst) && At(t', q) == Touched(At(t, q), now))
    {}
    if clean {
      if dst !in failed { NothingBelow(failed, dst); }
      assert At(t', dst) == None;
      if dst !in t {
        NothingBelow(t, dst);
        forall q | q != Parent(dst) ensures At(t', q) == At(t, q) {}
      } else {
        assert At(t, dst) != At(t', dst) && dst != Parent(dst);
      }
    }
  }

  lemma RenamedWellFormed(t: Tree, t': Tree, src: Comps, dst: Comps, now: int)
    requires WellFormed(t) && src in t && src != [] && dst != [] && Separate(src, dst)
    requires Parent(dst) in t && t[Parent(dst)].DirNode?
    requires forall q :: At(t', q) == RenamedAt(t, src, dst, now, q)
    ensures WellFormed(t')
  {
    ParentNotUnder(dst);
    UnderParent(src, dst);
    assert At(t', []) == RenamedAt(t, src, dst, now, []);
    forall q | q in t' && q != [] ensures Parent(q) in t' && t'[Parent(q)].DirNode? {
      assert At(t', q) == RenamedAt(t, src, dst, now, q);
      assert At(t', Parent(q)) == RenamedAt(t, src, dst, now, Parent(q));
      RenamedParent(t, src, dst, now, q);
    }
  }

  lemma RenamedParent(t: Tree, src: Comps, dst: Comps, now: int, q: Comps)
    requires WellFormed(t) && src in t && src != [] && dst != [] && Separate(src, dst)
    requires Parent(dst) in t && t[Parent(dst)].DirNode?
    requires q != [] && RenamedAt(t, src, dst, now, q).Some?
    ensures var u := RenamedAt(t, src, dst, now, Parent(q)); u.Some? && u.value.DirNode?
  {
    ParentNotUnder(dst);
    UnderParent(src, dst);
    UnderParent(dst, q);
    UnderParent(src, q);
    if IsPrefix(dst, q) && q != dst {
      assert Parent(Source(src, dst, q)) == Source(src, dst, Parent(q));
    }
  }

  /** Entries outside the source, with both parents' mtimes set. */
  function Kept(t: Tree, src: Comps, dst: Comps, now: int): Tree
    requires src != [] && dst != [] && Parent(src) in t && Parent(dst) in t
  {
    var kept := map q | q in t && !IsPrefix(src, q) :: t[q];
    kept[Parent(src) := DirNode(t[Parent(src)].mode, now)][Parent(dst) := DirNode(t[Parent(dst)].mode, now)]
  }

  function Targets(t: Tree, src: Comps, dst: Comps): set<Comps> {
    set p | p in t && IsPrefix(src, p) :: dst + p[|src|..]
  }

  lemma TargetsAre(t: Tree, src: Comps, dst: Comps, q: Comps)
    ensures q in Targets(t, src, dst) <==> IsPrefix(dst, q) && src + q[|dst|..] in t
  {
    if IsPrefix(dst, q) && src + q[|dst|..] in t {
      var p := src + q[|dst|..];
      assert p[..|src|] == src && dst + p[|src|..] == q;
    }
    if q in Targets(t, src, dst) {
      var p :| p in t && IsPrefix(src, p) && q == dst + p[|src|..];
      assert src + q[|dst|..] == p && q[..|dst|] == dst;
    }
  }

  function Moves(t: Tree, src: Comps, dst: Comps): Tree {
    map q | q in Targets(t, src, dst) && IsPrefix(dst, q) && src + q[|dst|..] in t :: t[src + q[|dst|..]]
  }

  function RenamedTree(t: Tree, src: Comps, dst: Comps, now: int): Tree
    requires src != [] && dst != [] && Parent(src) in t && Parent(dst) in t
  {
    Kept(t, src, dst, now) + Moves(t, src, dst)
  }

  lemma KeptAt(t: Tree, src: Comps, dst: Comps, now: int, q: Comps)
    requires src != [] && dst != []
    requires Parent(src) in t && t[Parent(src)].DirNode? && Parent(dst) in t && t[Parent(dst)].DirNode?
    requires !IsPrefix(src, Parent(dst))
    ensures At(Kept(t, src, dst, now), q) ==
              if q == Parent(src) || q == Parent(dst) then Touched(At(t, q), now)
              else if IsPrefix(src, q) then None else At(t, q)
  {}

  lemma RenamedTreeAt(t: Tree, src: Comps, dst: Comps, now: int, q: Comps)
    requires WellFormed(t) && src in t && src != [] && dst != [] && Separate(src, dst) && dst !in t
    requires Parent(src) in t && t[Parent(src)].DirNode? && Parent(dst) in t && t[Parent(dst)].DirNode?
    ensures At(RenamedTree(t, src, dst, now), q) == RenamedAt(t, src, dst, now, q)
  {
    NothingBelow(t, dst);
    ParentNotUnder(src);
    ParentNotUnder(dst);
    UnderParent(src, dst);
    UnderParent(dst, src);
    TargetsAre(t, src, dst, q);
    KeptAt(t, src, dst, now, q);
    if IsPrefix(dst, q) {
      assert At(Kept(t, src, dst, now), q) == None;
    }
  }
}
