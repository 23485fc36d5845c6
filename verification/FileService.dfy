/** The file service of internal/files/service.go: folders, moves, trash and finalized uploads, as
    operations on one disk and the trash table. */
module FileService {
  import opened Strings
  import opened LogicalPaths
  import opened Names
  import opened FileSystem

  datatype User = User(id: nat, home: Comps)

  datatype TrashKey = TrashKey(user: nat, id: string)

  datatype TrashItem = TrashItem(originalPath: Comps, originalName: string, trashPath: Comps, isDir: bool)

  /** NotFolder: the path goes on below a file. Broken: the tree or the trash table was left half changed by
      a failing removal or database call. */
  datatype Outcome = Done(path: Comps) | InvalidPath | NotExist | NotFolder | Exists | Failed | Broken

  // ---------------------------------------------------------------- shapes and moved trees

  /** What a user sees at a path: the entry's kind, and a file's bytes and mtime. */
  datatype Shape = Absent | Folder | Bytes(content: Content, mtime: int)

  function ShapeOf(n: Option<Node>): Shape {
    match n
    case None => Absent
    case Some(DirNode(_, _)) => Folder
    case Some(FileNode(c, _, t)) => Bytes(c, t)
  }

  function ShapeAt(t: Tree, q: Comps): Shape { ShapeOf(At(t, q)) }

  /** The source subtree now stands at the target; all other entries kept kind, bytes and file mtime. */
  ghost predicate MovedTree(t: Tree, t': Tree, src: Comps, dst: Comps) {
    forall q :: ShapeAt(t', q) == MovedShape(t, src, dst, q)
  }

  function MovedShape(t: Tree, src: Comps, dst: Comps, q: Comps): Shape {
    if IsPrefix(dst, q) then ShapeAt(t, Source(src, dst, q))
    else if IsPrefix(src, q) then Absent
    else ShapeAt(t, q)
  }

  ghost predicate SameShapes(t: Tree, t': Tree) { forall q :: ShapeAt(t', q) == ShapeAt(t, q) }

  /** One folder was added and nothing else changed shape. */
  ghost predicate NewFolder(t: Tree, t': Tree, target: Comps) {
    forall q :: ShapeAt(t', q) == (if q == target then Folder else ShapeAt(t, q))
  }

  /** dst holds src's former subtree: node for node as it was, or as copyPath recreates it. */
  ghost predicate SameSubtree(t: Tree, src: Comps, t': Tree, dst: Comps, umask: Mode) {
    || (forall q :: IsPrefix(dst, q) ==> At(t', q) == At(t, Source(src, dst, q)))
    || (forall q :: IsPrefix(dst, q) ==> At(t', q) == Recreated(At(t, Source(src, dst, q)), umask))
  }

  /** Both ways of moving give the same shapes. */
  lemma MoveShapes(t: Tree, t': Tree, src: Comps, dst: Comps, now: int, umask: Mode, r: MoveResult)
    requires src != [] && dst != []
    requires r == Moved(false) ==> forall q :: At(t', q) == RenamedAt(t, src, dst, now, q)
    requires r == Moved(true) ==> forall q :: At(t', q) == CopyMovedAt(t, src, dst, now, umask, q)
    requires r.NotMoved? ==> forall q :: q != Parent(dst) ==> At(t', q) == At(t, q)
    requires r.NotMoved? ==> At(t', Parent(dst)) in {At(t, Parent(dst)), Touched(At(t, Parent(dst)), now)}
    ensures r.Moved? ==> MovedTree(t, t', src, dst) && SameSubtree(t, src, t', dst, umask)
    ensures r.NotMoved? ==> SameShapes(t, t')
  {
    if r == Moved(false) {
      forall q | IsPrefix(dst, q) ensures At(t', q) == At(t, Source(src, dst, q)) {
        assert At(t', q) == RenamedAt(t, src, dst, now, q);
      }
    }
    if r == Moved(true) {
      forall q | IsPrefix(dst, q) ensures At(t', q) == Recreated(At(t, Source(src, dst, q)), umask) {
        assert At(t', q) == CopyMovedAt(t, src, dst, now, umask, q);
      }
    }
    forall q ensures r.Moved? ==> ShapeAt(t', q) == MovedShape(t, src, dst, q)
             ensures r.NotMoved? ==> ShapeAt(t', q) == ShapeAt(t, q)
    {
      if r == Moved(false) { assert At(t', q) == RenamedAt(t, src, dst, now, q); }
      if r == Moved(true) { assert At(t', q) == CopyMovedAt(t, src, dst, now, umask, q); }
      if r.NotMoved? && q != Parent(dst) { assert At(t', q) == At(t, q); }
    }
  }

  // ---------------------------------------------------------------- conservation

  /** meta.json files of trash items are the service's own. */
  predicate IsMeta(trashDir: Comps, q: Comps) {
    |q| == |trashDir| + 3 && IsPrefix(trashDir, q) && q[|q|-1] == "meta.json"
  }

  /** The user files holding these bytes. */
  function Holders(t: Tree, trashDir: Comps, c: Content): set<Comps> {
    set q | q in t && ShapeAt(t, q).Bytes? && ShapeAt(t, q).content == c && !IsMeta(trashDir, q)
  }

  /** For every content, as many files hold it as before: the multiset of contents is the same. */
  ghost predicate Conserved(t: Tree, t': Tree, trashDir: Comps) {
    forall c :: |Holders(t', trashDir, c)| == |Holders(t, trashDir, c)|
  }

  lemma ConservedByShapes(t: Tree, t': Tree, trashDir: Comps)
    requires forall q ::
        ShapeAt(t', q) == ShapeAt(t, q) || (!ShapeAt(t', q).Bytes? && !ShapeAt(t, q).Bytes?) || IsMeta(trashDir, q)
    ensures Conserved(t, t', trashDir)
  {
    forall c ensures |Holders(t', trashDir, c)| == |Holders(t, trashDir, c)| {
      forall q ensures q in Holders(t', trashDir, c) <==> q in Holders(t, trashDir, c) {
        assert ShapeAt(t', q) == ShapeAt(t, q) || (!ShapeAt(t', q).Bytes? && !ShapeAt(t, q).Bytes?) ||
          IsMeta(trashDir, q);
      }
      assert Holders(t', trashDir, c) == Holders(t, trashDir, c);
    }
  }

  lemma ConservedSelf(t: Tree, trashDir: Comps)
    ensures Conserved(t, t, trashDir)
  {}

  /** Each content that some file holds, other than a trashed item's meta.json, is held by some file
      after, and nothing else is. */
  lemma NothingLost(t: Tree, t': Tree, trashDir: Comps, c: Content)
    requires Conserved(t, t', trashDir)
    ensures (exists p :: p in t && t[p].FileNode? && t[p].content == c && !IsMeta(trashDir, p)) <==>
            (exists p :: p in t' && t'[p].FileNode? && t'[p].content == c && !IsMeta(trashDir, p))
  {
    HoldersIff(t, trashDir, c);
    HoldersIff(t', trashDir, c);
    assert |Holders(t, trashDir, c)| == |Holders(t', trashDir, c)|;
  }

  lemma HoldersIff(t: Tree, trashDir: Comps, c: Content)
    ensures (exists p :: p in t && t[p].FileNode? && t[p].content == c && !IsMeta(trashDir, p)) <==>
            |Holders(t, trashDir, c)| > 0
  {
    var h := Holders(t, trashDir, c);
    if p :| p in t && t[p].FileNode? && t[p].content == c && !IsMeta(trashDir, p) {
      assert p in h;
    }
    if |h| > 0 {
      var p :| p in h;
      assert p in t && t[p].FileNode? && t[p].content == c && !IsMeta(trashDir, p);
    }
  }

  /** Where a trashed item lies: its own folder under the user's number, as "file" beside "meta.json". */
  lemma TrashLayout(trashDir: Comps, k: TrashKey)
    ensures TrashPath(trashDir, k) == trashDir + [Itoa(k.user), k.id, "file"]
    ensures IsMeta(trashDir, trashDir + [Itoa(k.user), k.id, "meta.json"])
    ensures !IsMeta(trashDir, TrashPath(trashDir, k))
  {
    var item, meta := TrashPath(trashDir, k), trashDir + [Itoa(k.user), k.id, "meta.json"];
    assert item == trashDir + [Itoa(k.user), k.id, "file"];
    assert item[|item|-1] == "file" && meta[|meta|-1] == "meta.json" && |"file"| != |"meta.json"|;
    assert meta[..|trashDir|] == trashDir;
  }

  function Reroot(src: Comps, dst: Comps, p: Comps): Comps {
    if IsPrefix(src, p) then dst + p[|src|..] else p
  }

  /** An injective relabelling of a finite set keeps its size. */
  lemma {:induction false} RerootSize(s: set<Comps>, src: Comps, dst: Comps)
    requires forall p :: p in s ==> !IsPrefix(dst, p)
    ensures |set p | p in s :: Reroot(src, dst, p)| == |s|
  {
    if s == {} {
      assert (set p | p in s :: Reroot(src, dst, p)) == {};
    } else {
      var x :| x in s;
      var rest := s - {x};
      RerootSize(rest, src, dst);
      var image, small := set p | p in s :: Reroot(src, dst, p), set p | p in rest :: Reroot(src, dst, p);
      assert image == small + {Reroot(src, dst, x)};
      forall p | p in rest ensures Reroot(src, dst, p) != Reroot(src, dst, x) {
        RerootInjective(src, dst, p, x);
      }
    }
  }

  lemma RerootInjective(src: Comps, dst: Comps, p: Comps, x: Comps)
    requires !IsPrefix(dst, p) && !IsPrefix(dst, x) && p != x
    ensures Reroot(src, dst, p) != Reroot(src, dst, x)
  {
    assert IsPrefix(src, p) ==> IsPrefix(dst, Reroot(src, dst, p));
    assert IsPrefix(src, x) ==> IsPrefix(dst, Reroot(src, dst, x));
    if IsPrefix(src, p) && IsPrefix(src, x) {
      assert p == src + p[|src|..] && x == src + x[|src|..];
      assert (dst + p[|src|..])[|dst|..] == p[|src|..] && (dst + x[|src|..])[|dst|..] == x[|src|..];
    }
  }

  /** Moving a subtree to an absent target conserves the multiset of contents, as long as no user
      file becomes or stops being a meta.json. */
  lemma MoveConserves(t: Tree, t': Tree, src: Comps, dst: Comps, trashDir: Comps)
    requires WellFormed(t) && dst !in t && Separate(src, dst) && MovedTree(t, t', src, dst)
    requires forall q :: IsPrefix(src, q) && q in t ==> !IsMeta(trashDir, q) && !IsMeta(trashDir, Reroot(src, dst, q))
    ensures Conserved(t, t', trashDir)
  {
    NothingBelow(t, dst);
    forall c ensures |Holders(t', trashDir, c)| == |Holders(t, trashDir, c)| {
      var h := Holders(t, trashDir, c);
      var image := set p | p in h :: Reroot(src, dst, p);
      RerootSize(h, src, dst);
      forall q ensures q in Holders(t', trashDir, c) <==> q in image {
        HolderMoves(t, t', src, dst, trashDir, c, q);
      }
      assert Holders(t', trashDir, c) == image;
    }
  }

  lemma HolderMoves(t: Tree, t': Tree, src: Comps, dst: Comps, trashDir: Comps, c: Content, q: Comps)
    requires dst !in t && Separate(src, dst) && MovedTree(t, t', src, dst)
    requires forall p :: IsPrefix(dst, p) ==> At(t, p) == None
    requires forall p :: IsPrefix(src, p) && p in t ==> !IsMeta(trashDir, p) && !IsMeta(trashDir, Reroot(src, dst, p))
    ensures q in Holders(t', trashDir, c) <==> exists p :: p in Holders(t, trashDir, c) && Reroot(src, dst, p) == q
  {
    assert ShapeAt(t', q) == MovedShape(t, src, dst, q);
    if q in Holders(t', trashDir, c) {
      if IsPrefix(dst, q) {
        var p := Source(src, dst, q);
        assert p[..|src|] == src && dst + p[|src|..] == q;
        assert p in Holders(t, trashDir, c) && Reroot(src, dst, p) == q;
      } else {
        assert q in Holders(t, trashDir, c) && Reroot(src, dst, q) == q;
      }
    }
    if p :| p in Holders(t, trashDir, c) && Reroot(src, dst, p) == q {
      assert At(t, p) != None;
      if IsPrefix(src, p) {
        assert q[..|dst|] == dst && Source(src, dst, q) == p;
      }
    }
  }

  // ---------------------------------------------------------------- the service

  function ItemDir(trashDir: Comps, k: TrashKey): Comps { trashDir + [Itoa(k.user), k.id] }

  function TrashPath(trashDir: Comps, k: TrashKey): Comps { ItemDir(trashDir, k) + ["file"] }

  /** Every trash record points at an existing item, alone in its folder beside its meta.json. */
  ghost predicate TrashOk(t: Tree, trashDir: Comps, trash: map<TrashKey, TrashItem>) {
    forall k :: k in trash ==> ItemOk(t, trashDir, k, trash[k])
  }

  ghost predicate ItemOk(t: Tree, trashDir: Comps, k: TrashKey, item: TrashItem) {
    && item.trashPath == TrashPath(trashDir, k)
    && HoldsItem(t, trashDir, k)
    && item.originalPath != [] && AllNames(item.originalPath)
    && item.originalName == item.originalPath[|item.originalPath|-1]
  }

  ghost predicate HoldsItem(t: Tree, trashDir: Comps, k: TrashKey) {
    && ShapeAt(t, TrashPath(trashDir, k)) != Absent
    && forall q :: IsPrefix(ItemDir(trashDir, k), q) && ShapeAt(t, q).Bytes? ==>
         IsMeta(trashDir, q) || IsPrefix(TrashPath(trashDir, k), q)
  }

  /** src's whole subtree is now the trash item k, and gone from where it was; nothing else outside
      the trash folder and the way to it changed kind, bytes or file mtime. */
  ghost predicate Trashed(t: Tree, t': Tree, src: Comps, trashDir: Comps, k: TrashKey, umask: Mode) {
    && SameSubtree(t, src, t', TrashPath(trashDir, k), umask)
    && forall q :: !IsPrefix(trashDir, q) && !IsPrefix(q, trashDir) ==>
         ShapeAt(t', q) == (if IsPrefix(src, q) then Absent else ShapeAt(t, q))
  }

  /** Nothing recorded in the trash is concerned by a move between two places outside it. */
  lemma TrashUnaffected(t: Tree, t': Tree, src: Comps, dst: Comps, trashDir: Comps, trash: map<TrashKey, TrashItem>)
    requires TrashOk(t, trashDir, trash) && MovedTree(t, t', src, dst)
    requires Separate(src, trashDir) && Separate(dst, trashDir)
    ensures TrashOk(t', trashDir, trash)
  {
    forall k | k in trash ensures ItemOk(t', trashDir, k, trash[k]) {
      assert ItemOk(t, trashDir, k, trash[k]);
      forall q | IsPrefix(ItemDir(trashDir, k), q) ensures ShapeAt(t', q) == ShapeAt(t, q) {
        assert q[..|trashDir|] == ItemDir(trashDir, k)[..|trashDir|] == trashDir;
        SeparateBelow(trashDir, src, q);
        SeparateBelow(trashDir, dst, q);
        assert ShapeAt(t', q) == MovedShape(t, src, dst, q);
      }
      assert IsPrefix(ItemDir(trashDir, k), trash[k].trashPath);
    }
  }

  // ---------------------------------------------------------------- what is refused, and why

  /** Something on the way to p is a file. */
  predicate BelowFile(t: Tree, p: Comps) {
    exists i :: 0 <= i < |p| && p[..i] in t && t[p[..i]].FileNode?
  }

  lemma BelowFileIff(t: Tree, p: Comps)
    ensures BelowFile(t, p) <==> exists q, rest :: p == q + rest && rest != [] && q in t && t[q].FileNode?
  {
    if i :| 0 <= i < |p| && p[..i] in t && t[p[..i]].FileNode? {
      assert p == p[..i] + p[i..];
    }
    if q, rest :| p == q + rest && rest != [] && q in t && t[q].FileNode? {
      assert p[..|q|] == q;
    }
  }

  predicate CanHold(t: Tree, folder: Comps) { folder in t && t[folder].DirNode? }

  /** ResolveExisting: the clean logical components of an existing entry. */
  function ResolveExisting(t: Tree, user: User, logical: string): (r: Outcome)
    ensures r.Done? || r.InvalidPath? || r.NotExist? || r.NotFolder?
  {
    match CleanLogical(logical)
    case None => InvalidPath
    case Some(clean) =>
      var p := user.home + Parts(clean);
      if p in t then Done(Parts(clean)) else if BelowFile(t, p) then NotFolder else NotExist
  }

  /** ResolveParent: an existing parent folder and a name in it. */
  function ResolveParent(t: Tree, user: User, logical: string): (r: Outcome)
    ensures r.Done? || r.InvalidPath? || r.NotExist? || r.NotFolder?
    ensures r.Done? ==> r.path != []
  {
    match CleanLogical(logical)
    case None => InvalidPath
    case Some(clean) =>
      var comps := Parts(clean);
      if comps == [] then InvalidPath
      else if user.home + Parent(comps) !in t then
        (if BelowFile(t, user.home + Parent(comps)) then NotFolder else NotExist)
      else if !t[user.home + Parent(comps)].DirNode? then InvalidPath
      else Done(comps)
  }

  /** AvailableName finds nothing. */
  ghost predicate NoNameFree(t: Tree, folder: Comps, name: string) {
    !ValidBaseName(name) || forall i :: 0 <= i < MAX_SUFFIXES ==> folder + [Candidate(name, i)] in t
  }

  /** AvailableName's answer: the first candidate that is not there. */
  ghost predicate FirstFree(t: Tree, folder: Comps, name: string, r: string) {
    && folder + [r] !in t && ValidBaseName(r)
    && exists i: nat :: i < MAX_SUFFIXES && r == Candidate(name, i) &&
                        forall j: nat :: j < i ==> folder + [Candidate(name, j)] in t
  }

  ghost function MkdirRefusal(t: Tree, user: User, logical: string): Option<Outcome> {
    var parent := ResolveParent(t, user, logical);
    if !parent.Done? then Some(parent)
    else if user.home + parent.path in t then Some(Exists)
    else None
  }

  ghost function MoveRefusal(t: Tree, user: User, from: string, to: string): Option<Outcome> {
    var source := ResolveExisting(t, user, from);
    if !source.Done? then Some(source)
    else if source.path == [] then Some(InvalidPath)
    else
      var target := ResolveParent(t, user, to);
      if !target.Done? then Some(target)
      else if user.home + target.path in t then Some(Exists)
      else None
  }

  /** The target folder of move-into, restore and finalize, once its name is known. */
  ghost function FolderRefusal(t: Tree, user: User, logical: string, name: string): Option<Outcome> {
    var parent := ResolveExisting(t, user, logical);
    if !parent.Done? then Some(parent)
    else if !t[user.home + parent.path].DirNode? then Some(InvalidPath)
    else if NoNameFree(t, user.home + parent.path, name) then Some(Exists)
    else None
  }

  /** MoveInto before it looks for a name. */
  ghost function MoveIntoChecks(t: Tree, user: User, from: string, targetDir: string): Option<Outcome> {
    var source := ResolveExisting(t, user, from);
    if !source.Done? then Some(source)
    else if source.path == [] then Some(InvalidPath)
    else
      var src, parent := user.home + source.path, ResolveExisting(t, user, targetDir);
      if !parent.Done? then Some(parent)
      else
        var dir := user.home + parent.path;
        if !t[dir].DirNode? then Some(InvalidPath)
        else if Parent(src) == dir then Some(Exists)
        else if t[src].DirNode? && IsPrefix(src, dir) then Some(InvalidPath)
        else None
  }

  /** The answer of a move into a folder: the first free name, or that there is none. */
  ghost predicate FolderAnswer(t: Tree, user: User, folder: Comps, name: string, r: Outcome) {
    if NoNameFree(t, user.home + folder, name) then r == Exists
    else r.Done? && r.path != [] && Parent(r.path) == folder &&
         FirstFree(t, user.home + folder, name, r.path[|r.path|-1])
  }

  /** What MoveInto answers when no call fails: a refusal, or the folder and the first free name. */
  ghost predicate MoveIntoAnswer(t: Tree, user: User, from: string, targetDir: string, r: Outcome) {
    var refusal := MoveIntoChecks(t, user, from, targetDir);
    if refusal.Some? then r == refusal.value
    else
      var source := Parts(CleanLogical(from).value);
      FolderAnswer(t, user, Parts(CleanLogical(targetDir).value), source[|source|-1], r)
  }

  ghost function TrashRefusal(t: Tree, user: User, logical: string): Option<Outcome> {
    var source := ResolveExisting(t, user, logical);
    if !source.Done? then Some(source) else if source.path == [] then Some(InvalidPath) else None
  }

  ghost function RestoreRefusal(t: Tree, user: User, trash: map<TrashKey, TrashItem>, id: string): Option<Outcome> {
    var k := TrashKey(user.id, id);
    if k !in trash then Some(NotExist)
    else FolderRefusal(t, user, Dir(Render(trash[k].originalPath)), trash[k].originalName)
  }

  /** What RestoreTrash answers when no call fails: a refusal, or the original folder and the first
      free name there. */
  ghost predicate RestoreAnswer(t: Tree, user: User, trash: map<TrashKey, TrashItem>, id: string, r: Outcome) {
    var refusal, k := RestoreRefusal(t, user, trash, id), TrashKey(user.id, id);
    if refusal.Some? then r == refusal.value
    else
      && r.Done? && r.path != [] && trash[k].originalPath != []
      && Parent(r.path) == Parent(trash[k].originalPath)
      && FirstFree(t, user.home + Parent(r.path), trash[k].originalName, r.path[|r.path|-1])
  }

  // ---------------------------------------------------------------- when a request is possible, over the tree

  /** The path names an entry of the user's home, file or folder. */
  predicate IsEntry(t: Tree, user: User, logical: string) {
    CleanLogical(logical).Some? && user.home + Parts(CleanLogical(logical).value) in t
  }

  predicate IsFolder(t: Tree, user: User, logical: string) {
    IsEntry(t, user, logical) && t[user.home + Parts(CleanLogical(logical).value)].DirNode?
  }

  /** The path is not the home itself and the folder it would lie in is there. */
  predicate HasFolder(t: Tree, user: User, logical: string) {
    && CleanLogical(logical).Some? && Parts(CleanLogical(logical).value) != []
    && var folder := user.home + Parent(Parts(CleanLogical(logical).value));
    && folder in t && t[folder].DirNode?
  }

  /** The place a path names in the user's home. */
  function PlaceOf(user: User, logical: string): Comps
    requires CleanLogical(logical).Some?
  {
    user.home + Parts(CleanLogical(logical).value)
  }

  /** One of the ten thousand candidate names is free. */
  ghost predicate SomeNameFree(t: Tree, folder: Comps, name: string) {
    ValidBaseName(name) && exists i :: 0 <= i < 10000 && folder + [Candidate(name, i)] !in t
  }

  ghost predicate CanMkdir(t: Tree, user: User, logical: string) {
    HasFolder(t, user, logical) && PlaceOf(user, logical) !in t
  }

  ghost predicate CanMoveTo(t: Tree, user: User, from: string, to: string) {
    && IsEntry(t, user, from) && PlaceOf(user, from) != user.home
    && HasFolder(t, user, to) && PlaceOf(user, to) !in t
    && !IsPrefix(PlaceOf(user, from), PlaceOf(user, to))
  }

  /** An entry other than the home, and another folder that is not part of it. */
  predicate CanLeaveFor(t: Tree, user: User, from: string, targetDir: string) {
    && IsEntry(t, user, from) && PlaceOf(user, from) != user.home
    && IsFolder(t, user, targetDir)
    && var src, dir := PlaceOf(user, from), PlaceOf(user, targetDir);
    && src != [] && Parent(src) != dir && !IsPrefix(src, dir)
  }

  ghost predicate CanMoveInto(t: Tree, user: User, from: string, targetDir: string) {
    && CanLeaveFor(t, user, from, targetDir)
    && var src := PlaceOf(user, from);
    && SomeNameFree(t, PlaceOf(user, targetDir), src[|src|-1])
  }

  ghost predicate CanFinalize(t: Tree, user: User, temp: Comps, targetDir: string, filename: string) {
    && temp in t && IsFolder(t, user, targetDir) && !IsPrefix(temp, PlaceOf(user, targetDir))
    && SomeNameFree(t, PlaceOf(user, targetDir), filename)
  }

  ghost predicate CanTrash(t: Tree, user: User, logical: string, itemDir: Comps) {
    IsEntry(t, user, logical) && PlaceOf(user, logical) != user.home && WayOpen(t, itemDir)
  }

  ghost predicate CanRestore(t: Tree, user: User, trash: map<TrashKey, TrashItem>, id: string) {
    && TrashKey(user.id, id) in trash
    && var item := trash[TrashKey(user.id, id)];
    && item.originalPath != []
    && var folder := user.home + Parent(item.originalPath);
    && folder in t && t[folder].DirNode? && SomeNameFree(t, folder, item.originalName)
  }

  /** An existing path resolves to its components, whatever it names; otherwise the answer says what is wrong. */
  lemma ResolveExistingIff(t: Tree, user: User, logical: string)
    ensures var r := ResolveExisting(t, user, logical);
      && (r.Done? <==> IsEntry(t, user, logical))
      && (r.Done? ==> r.path == Parts(CleanLogical(logical).value))
      && (r == NotExist <==>
            CleanLogical(logical).Some? && !IsEntry(t, user, logical) && !BelowFile(t, PlaceOf(user, logical)))
      && (r == NotFolder <==>
            CleanLogical(logical).Some? && !IsEntry(t, user, logical) && BelowFile(t, PlaceOf(user, logical)))
      && (r == InvalidPath <==> CleanLogical(logical).None?)
  {}

  /** A new path resolves exactly when its folder is there; the home itself and a path below a file are invalid. */
  lemma ResolveParentIff(t: Tree, user: User, logical: string)
    ensures var r, clean := ResolveParent(t, user, logical), CleanLogical(logical);
      && (r.Done? <==> HasFolder(t, user, logical))
      && (r.Done? ==> r.path == Parts(clean.value))
      && (clean.Some? && Parts(clean.value) != [] ==>
            var folder := user.home + Parent(Parts(clean.value));
            && (r == NotExist <==> folder !in t && !BelowFile(t, folder))
            && (r == NotFolder <==> folder !in t && BelowFile(t, folder)))
      && (r == InvalidPath <==>
            clean.None? || Parts(clean.value) == [] ||
            (user.home + Parent(Parts(clean.value)) in t && t[user.home + Parent(Parts(clean.value))].FileNode?))
  {}

  /** In particular every path of valid names in an existing folder resolves to its components. */
  lemma NestedPathsResolve(t: Tree, user: User, cs: Comps)
    requires AllNames(cs) && cs != []
    ensures user.home + cs in t ==> ResolveExisting(t, user, Render(cs)) == Done(cs)
    ensures user.home + Parent(cs) in t && t[user.home + Parent(cs)].DirNode? ==>
              ResolveParent(t, user, Render(cs)) == Done(cs)
  {
    CleanLogicalFixed(cs);
    PartsRender(cs);
  }

  lemma NotTheHome(user: User, logical: string)
    requires CleanLogical(logical).Some?
    ensures PlaceOf(user, logical) == user.home <==> Parts(CleanLogical(logical).value) == []
  {
    assert |PlaceOf(user, logical)| == |user.home| + |Parts(CleanLogical(logical).value)|;
  }

  lemma NameFreeIff(t: Tree, folder: Comps, name: string)
    ensures SomeNameFree(t, folder, name) <==> !NoNameFree(t, folder, name)
  {}

  /** Mkdir is refused exactly when it is not possible. */
  lemma MkdirRefusalIff(t: Tree, user: User, logical: string)
    ensures MkdirRefusal(t, user, logical).None? <==> CanMkdir(t, user, logical)
    ensures MkdirRefusal(t, user, logical) == Some(Exists) <==>
              HasFolder(t, user, logical) && PlaceOf(user, logical) in t
  {
    ResolveParentIff(t, user, logical);
  }

  /** Move is refused exactly when it is not possible, but for a target below the source, which fails. */
  lemma MoveRefusalIff(t: Tree, user: User, from: string, to: string)
    ensures CanMoveTo(t, user, from, to) <==>
              MoveRefusal(t, user, from, to).None? && !IsPrefix(PlaceOf(user, from), PlaceOf(user, to))
  {
    ResolveExistingIff(t, user, from);
    ResolveParentIff(t, user, to);
    if CleanLogical(from).Some? { NotTheHome(user, from); }
  }

  lemma FolderRefusalIff(t: Tree, user: User, logical: string, name: string)
    ensures FolderRefusal(t, user, logical, name).None? <==>
              IsFolder(t, user, logical) && SomeNameFree(t, PlaceOf(user, logical), name)
  {
    ResolveExistingIff(t, user, logical);
    if IsFolder(t, user, logical) { NameFreeIff(t, PlaceOf(user, logical), name); }
  }

  lemma MoveIntoChecksIff(t: Tree, user: User, from: string, targetDir: string)
    requires WellFormed(t)
    ensures MoveIntoChecks(t, user, from, targetDir).None? <==> CanLeaveFor(t, user, from, targetDir)
    ensures MoveIntoChecks(t, user, from, targetDir).Some? ==> !MoveIntoChecks(t, user, from, targetDir).value.Done?
  {
    ResolveExistingIff(t, user, from);
    ResolveExistingIff(t, user, targetDir);
    if CleanLogical(from).Some? { NotTheHome(user, from); }
    if IsEntry(t, user, from) && IsFolder(t, user, targetDir) {
      AncestorIsDir(t, PlaceOf(user, from), PlaceOf(user, targetDir));
    }
  }

  lemma LastOfPlace(user: User, logical: string)
    requires CleanLogical(logical).Some? && Parts(CleanLogical(logical).value) != []
    ensures var cs, p := Parts(CleanLogical(logical).value), PlaceOf(user, logical);
            p != [] && p[|p|-1] == cs[|cs|-1]
  {}

  /** MoveInto is refused exactly when it is not possible. */
  lemma MoveIntoAnswerIff(t: Tree, user: User, from: string, targetDir: string, r: Outcome)
    requires WellFormed(t) && MoveIntoAnswer(t, user, from, targetDir, r)
    ensures r.Done? <==> CanMoveInto(t, user, from, targetDir)
  {
    MoveIntoChecksIff(t, user, from, targetDir);
    if CanLeaveFor(t, user, from, targetDir) {
      NotTheHome(user, from);
      LastOfPlace(user, from);
      var src := PlaceOf(user, from);
      NameFreeIff(t, PlaceOf(user, targetDir), src[|src|-1]);
    }
  }

  /** Once the checks have passed the answer is that of the target folder. */
  lemma AnswersInFolder(t: Tree, user: User, from: string, targetDir: string)
    requires MoveIntoChecks(t, user, from, targetDir).None?
    ensures var source := Parts(CleanLogical(from).value);
      var folder := Parts(CleanLogical(targetDir).value);
      && source != []
      && forall a :: FolderAnswer(t, user, folder, source[|source|-1], a) <==>
                     MoveIntoAnswer(t, user, from, targetDir, a)
  {}

  lemma TrashRefusalIff(t: Tree, user: User, logical: string)
    ensures TrashRefusal(t, user, logical).None? <==>
              IsEntry(t, user, logical) && PlaceOf(user, logical) != user.home
  {
    ResolveExistingIff(t, user, logical);
    if CleanLogical(logical).Some? { NotTheHome(user, logical); }
  }

  lemma RestoreAnswerIff(t: Tree, user: User, trashDir: Comps, trash: map<TrashKey, TrashItem>, id: string, r: Outcome)
    requires TrashOk(t, trashDir, trash) && RestoreAnswer(t, user, trash, id, r)
    ensures r.Done? <==> CanRestore(t, user, trash, id)
  {
    var k := TrashKey(user.id, id);
    if k in trash {
      OriginalParent(t, trashDir, trash, k);
      FolderRefusalIff(t, user, Dir(Render(trash[k].originalPath)), trash[k].originalName);
    }
  }

  /** Nothing but folders on the way to p. */
  ghost predicate WayOpen(t: Tree, p: Comps) {
    forall q :: IsPrefix(q, p) && q in t ==> t[q].DirNode?
  }

  lemma WayOpenStep(t: Tree, p: Comps)
    requires WellFormed(t)
    ensures p in t ==> (WayOpen(t, p) <==> t[p].DirNode?)
    ensures p !in t && p != [] ==> (WayOpen(t, p) <==> WayOpen(t, Parent(p)))
  {
    if p in t {
      forall q | IsPrefix(q, p) && q in t ensures |q| < |p| ==> t[q].DirNode? { AncestorsExist(t, q, p); }
      forall q | IsPrefix(q, p) ensures |q| == |p| ==> q == p {}
    } else if p != [] {
      forall q ensures IsPrefix(q, Parent(p)) ==> IsPrefix(q, p)
               ensures IsPrefix(q, p) ==> q == p || IsPrefix(q, Parent(p))
      {
        UnderParent(q, p);
      }
    }
  }

  class Service {
    const disk: Disk
    const trashDir: Comps
    var trash: map<TrashKey, TrashItem>

    constructor (d: Disk, dir: Comps)
      requires WellFormed(d.tree) && dir != []
      ensures disk == d && trashDir == dir && trash == map[] && Valid()
    {
      disk, trashDir, trash := d, dir, map[];
    }

    ghost predicate Valid()
      reads this, disk
    {
      && WellFormed(disk.tree) && trashDir != []
      && TrashOk(disk.tree, trashDir, trash)
    }

    /** Homes lie apart from the trash (an accepted storage layout). */
    predicate HomeOk(user: User) { Separate(user.home, trashDir) }

    /** Mkdir. */
    method Mkdir(user: User, logical: string, now: int) returns (r: Outcome)
      requires Valid() && HomeOk(user)
      modifies disk
      ensures Valid() && trash == old(trash) && disk.faults >= old(disk.faults)
      ensures Conserved(old(disk.tree), disk.tree, trashDir)
      ensures var refusal := MkdirRefusal(old(disk.tree), user, logical);
        if refusal.Some? then r == refusal.value else (if disk.faults == old(disk.faults) then r.Done? else r.Failed?)
      ensures r.Done? <==> CanMkdir(old(disk.tree), user, logical) && disk.faults == old(disk.faults)
      ensures r.Done? ==> CleanLogical(logical).Some? && r.path == Parts(CleanLogical(logical).value)
      ensures r.Done? ==> NewFolder(old(disk.tree), disk.tree, user.home + r.path)
      ensures !r.Done? ==> disk.tree == old(disk.tree)
    {
      MkdirRefusalIff(disk.tree, user, logical);
      var parent := ResolveParent(disk.tree, user, logical);
      ConservedSelf(disk.tree, trashDir);
      if !parent.Done? { return parent; }
      var target := user.home + parent.path;
      if target in disk.tree { return Exists; }
      ghost var start := disk.tree;
      ParentOf(user.home, parent.path);
      var ok := disk.Mkdir(target, {8, 7, 6, 5, 3}, now);
      if !ok { return Failed; }
      forall q ensures ShapeAt(disk.tree, q) == (if q == target then Folder else ShapeAt(start, q)) {
        assert At(disk.tree, q) == CreatedAt(start, target, DirNode({8, 7, 6, 5, 3} - disk.umask, now), now, q);
      }
      NewFolderKeepsTrash(start, disk.tree, target, trashDir, trash);
      ConservedByShapes(start, disk.tree, trashDir);
      return parent;
    }

    /** Moves one entry to an absent target outside the trash. */
    method MoveOutsideTrash(src: Comps, dst: Comps, now: int) returns (r: Outcome)
      requires Valid() && src != [] && dst != [] && dst !in disk.tree
      requires Separate(src, trashDir) && Separate(dst, trashDir)
      modifies disk
      ensures WellFormed(disk.tree) && trash == old(trash) && disk.faults >= old(disk.faults)
      ensures r == Done(dst) || r.Failed? || (r.Broken? && disk.faults > old(disk.faults))
      ensures r.Done? <==> CanMove(old(disk.tree), src, dst) && disk.faults == old(disk.faults)
      ensures !r.Broken? ==> Valid() && Conserved(old(disk.tree), disk.tree, trashDir)
      ensures r.Done? ==> MovedTree(old(disk.tree), disk.tree, src, dst) && Separate(src, dst)
      ensures r.Failed? ==> SameShapes(old(disk.tree), disk.tree)
    {
      ghost var start := disk.tree;
      var moved := disk.MovePath(src, dst, now);
      MoveShapes(start, disk.tree, src, dst, now, disk.umask, moved);
      match moved {
        case LeftBehind => r := Broken;
        case NotMoved =>
          ShapesKeepTrash(start, disk.tree, trashDir, trash);
          ConservedByShapes(start, disk.tree, trashDir);
          r := Failed;
        case Moved(_) =>
          TrashUnaffected(start, disk.tree, src, dst, trashDir, trash);
          NotMeta(src, dst, trashDir);
          MoveConserves(start, disk.tree, src, dst, trashDir);
          r := Done(dst);
      }
    }

    /** Move. */
    method Move(user: User, from: string, to: string, now: int) returns (r: Outcome)
      requires Valid() && HomeOk(user)
      modifies disk
      ensures !r.Broken? ==> Valid() && trash == old(trash) && Conserved(old(disk.tree), disk.tree, trashDir)
      ensures var refusal := MoveRefusal(old(disk.tree), user, from, to);
        if refusal.Some? then r == refusal.value
        else (r.Done? <==> disk.faults == old(disk.faults) &&
                           !IsPrefix(user.home + Parts(CleanLogical(from).value),
                                     user.home + Parts(CleanLogical(to).value)))
      ensures r.Done? <==> CanMoveTo(old(disk.tree), user, from, to) && disk.faults == old(disk.faults)
      ensures disk.faults >= old(disk.faults) && (r.Broken? ==> disk.faults > old(disk.faults))
      ensures r.Done? ==> CleanLogical(from).Some? && CleanLogical(to).Some? && r.path == Parts(CleanLogical(to).value)
      ensures r.Done? ==> r.path != [] && user.home + r.path !in old(disk.tree)
      ensures r.Done? ==>
          Parts(CleanLogical(from).value) != [] && user.home + Parts(CleanLogical(from).value) in old(disk.tree)
      ensures r.Done? ==> Separate(user.home + Parts(CleanLogical(from).value), user.home + r.path)
      ensures r.Done? ==>
          MovedTree(old(disk.tree), disk.tree, user.home + Parts(CleanLogical(from).value), user.home + r.path)
      ensures !r.Done? && !r.Broken? ==> SameShapes(old(disk.tree), disk.tree)
    {
      MoveRefusalIff(disk.tree, user, from, to);
      ConservedSelf(disk.tree, trashDir);
      var source := ResolveExisting(disk.tree, user, from);
      if !source.Done? { return source; }
      if source.path == [] { return InvalidPath; }
      var target := ResolveParent(disk.tree, user, to);
      if !target.Done? { return target; }
      if user.home + target.path in disk.tree { return Exists; }
      ParentOf(user.home, target.path);
      SeparateExtended(user.home, source.path, trashDir);
      SeparateExtended(user.home, target.path, trashDir);
      r := MoveOutsideTrash(user.home + source.path, user.home + target.path, now);
      if r.Done? { r := target; }
    }

    /** AvailableName in a folder on disk. */
    method FreeName(folder: Comps, name: string) returns (r: Option<string>)
      ensures r.None? <==> NoNameFree(disk.tree, folder, name)
      ensures r.Some? ==> FirstFree(disk.tree, folder, name, r.value)
    {
      var taken := set q | q in disk.tree && |q| == |folder| + 1 && q[..|folder|] == folder :: q[|folder|];
      forall n ensures n in taken <==> folder + [n] in disk.tree {
        assert (folder + [n])[..|folder|] == folder && (folder + [n])[|folder|] == n;
        if n in taken {
          var q :| q in disk.tree && |q| == |folder| + 1 && q[..|folder|] == folder && q[|folder|] == n;
          assert q == folder + [n];
        }
      }
      r := AvailableName(taken, name);
    }

    /** The checks of MoveInto. */
    method CheckMoveInto(user: User, from: string, targetDir: string) returns (r: Outcome, source: Comps, folder: Comps)
      requires Valid()
      ensures r.Done? <==> MoveIntoChecks(disk.tree, user, from, targetDir).None?
      ensures !r.Done? ==> MoveIntoAnswer(disk.tree, user, from, targetDir, r)
      ensures r.Done? ==> CleanLogical(from).Some? && source == Parts(CleanLogical(from).value) && source != []
      ensures r.Done? ==> forall a :: FolderAnswer(disk.tree, user, folder, source[|source|-1], a) <==>
                                      MoveIntoAnswer(disk.tree, user, from, targetDir, a)
      ensures r.Done? ==> CleanLogical(targetDir).Some? && folder == Parts(CleanLogical(targetDir).value)
      ensures r.Done? ==> user.home + source in disk.tree && ClearOf(user.home + source, user.home + folder)
      ensures r.Done? ==> user.home + folder in disk.tree && disk.tree[user.home + folder].DirNode?
    {
      source, folder := [], [];
      r := ResolveExisting(disk.tree, user, from);
      if r.Done? && r.path == [] { r := InvalidPath; }
      if r.Done? {
        source := r.path;
        r := ResolveExisting(disk.tree, user, targetDir);
      }
      if r.Done? {
        folder := r.path;
        var src, dir := user.home + source, user.home + folder;
        if !disk.tree[dir].DirNode? {
          r := InvalidPath;
        } else if Parent(src) == dir {
          r := Exists;
        } else if disk.tree[src].DirNode? && IsPrefix(src, dir) {
          r := InvalidPath;
        } else {
          NotBelowItself(disk.tree, src, dir);
          AnswersInFolder(disk.tree, user, from, targetDir);
        }
      }
    }

    /** MoveInto. */
    method MoveInto(user: User, from: string, targetDir: string, now: int) returns (r: Outcome)
      requires Valid() && HomeOk(user)
      modifies disk
      ensures disk.faults >= old(disk.faults) && (r.Failed? || r.Broken? ==> disk.faults > old(disk.faults))
      ensures r.Failed? || r.Broken? || MoveIntoAnswer(old(disk.tree), user, from, targetDir, r)
      ensures disk.faults == old(disk.faults) ==> (r.Done? <==> CanMoveInto(old(disk.tree), user, from, targetDir))
      ensures !r.Broken? ==> Valid() && trash == old(trash) && Conserved(old(disk.tree), disk.tree, trashDir)
      ensures r.Done? ==> CleanLogical(from).Some? && CleanLogical(targetDir).Some?
      ensures r.Done? ==>
          MovedTree(old(disk.tree), disk.tree, user.home + Parts(CleanLogical(from).value), user.home + r.path)
      ensures !r.Done? && !r.Broken? ==> SameShapes(old(disk.tree), disk.tree)
    {
      ConservedSelf(disk.tree, trashDir);
      var source, folder;
      ghost var start := disk.tree;
      r, source, folder := CheckMoveInto(user, from, targetDir);
      if r.Done? {
        SeparateExtended(user.home, source, trashDir);
        r := IntoFolder(user, user.home + source, folder, source[|source|-1], now);
      }
      if !r.Failed? && !r.Broken? { MoveIntoAnswerIff(start, user, from, targetDir, r); }
    }

    /** The common end of MoveInto and FinalizeUpload: a free name in the folder, and the move. */
    method IntoFolder(user: User, src: Comps, folder: Comps, name: string, now: int) returns (r: Outcome)
      requires Valid() && HomeOk(user) && src != [] && Separate(src, trashDir)
      requires user.home + folder in disk.tree && disk.tree[user.home + folder].DirNode?
      modifies disk
      ensures trash == old(trash) && disk.faults >= old(disk.faults)
      ensures !r.Broken? ==> Valid() && Conserved(old(disk.tree), disk.tree, trashDir)
      ensures NoNameFree(old(disk.tree), user.home + folder, name) ==> r == Exists
      ensures !NoNameFree(old(disk.tree), user.home + folder, name) ==>
        (r.Done? <==> disk.faults == old(disk.faults) && src in old(disk.tree) && ClearOf(src, user.home + folder))
      ensures r.Done? || r.Exists? || r.Failed? || (r.Broken? && disk.faults > old(disk.faults))
      ensures r.Done? || r.Exists? ==> FolderAnswer(old(disk.tree), user, folder, name, r)
      ensures r.Done? ==> MovedTree(old(disk.tree), disk.tree, src, user.home + r.path)
      ensures !r.Done? && !r.Broken? ==> SameShapes(old(disk.tree), disk.tree)
    {
      var free := FreeName(user.home + folder, name);
      if free.None? {
        ConservedSelf(disk.tree, trashDir);
        return Exists;
      }
      var final := folder + [free.value];
      Appended(user.home, folder, free.value);
      ParentOf(user.home, final);
      SeparateExtended(user.home, final, trashDir);
      ClearMeans(disk.tree, src, user.home + folder, free.value);
      r := MoveOutsideTrash(src, user.home + final, now);
      if r.Done? { r := Done(final); }
    }

    /** FinalizeUpload: the staged file becomes a new entry of the target folder. */
    method FinalizeUpload(user: User, temp: Comps, targetDir: string, filename: string, now: int) returns (r: Outcome)
      requires Valid() && HomeOk(user) && temp != [] && Separate(temp, trashDir)
      modifies disk
      ensures !r.Broken? ==> Valid() && trash == old(trash) && Conserved(old(disk.tree), disk.tree, trashDir)
      ensures var refusal := if !ValidBaseName(filename) then Some(InvalidPath)
                             else FolderRefusal(old(disk.tree), user, targetDir, filename);
        if refusal.Some? then r == refusal.value
        else (r.Done? <==> disk.faults == old(disk.faults) && temp in old(disk.tree) &&
                           ClearOf(temp, user.home + Parts(CleanLogical(targetDir).value)))
      ensures r.Done? <==>
          CanFinalize(old(disk.tree), user, temp, targetDir, filename) && disk.faults == old(disk.faults)
      ensures disk.faults >= old(disk.faults) && (r.Broken? ==> disk.faults > old(disk.faults))
      ensures r.Done? ==>
          r.path != [] && CleanLogical(targetDir).Some? && Parent(r.path) == Parts(CleanLogical(targetDir).value)
      ensures r.Done? ==> FirstFree(old(disk.tree), user.home + Parent(r.path), filename, r.path[|r.path|-1])
      ensures r.Done? ==> MovedTree(old(disk.tree), disk.tree, temp, user.home + r.path)
      ensures !r.Done? && !r.Broken? ==> SameShapes(old(disk.tree), disk.tree)
    {
      FolderRefusalIff(disk.tree, user, targetDir, filename);
      ConservedSelf(disk.tree, trashDir);
      if !ValidBaseName(filename) { return InvalidPath; }
      var parent := ResolveExisting(disk.tree, user, targetDir);
      if !parent.Done? { return parent; }
      if !disk.tree[user.home + parent.path].DirNode? { return InvalidPath; }
      r := IntoFolder(user, temp, parent.path, filename, now);
    }

    /** os.MkdirAll. */
    method MkdirAll(p: Comps, now: int) returns (ok: bool)
      requires WellFormed(disk.tree)
      modifies disk
      decreases |p|
      ensures WellFormed(disk.tree)
      ensures ok <==> WayOpen(old(disk.tree), p) && disk.faults == old(disk.faults)
      ensures disk.faults >= old(disk.faults)
      ensures ok ==> ShapeAt(disk.tree, p) == Folder
      ensures FoldersAdded(old(disk.tree), disk.tree, p)
    {
      WayOpenStep(disk.tree, p);
      if p in disk.tree { return disk.tree[p].DirNode?; }
      ghost var start := disk.tree;
      ok := MkdirAll(Parent(p), now);
      ghost var middle := disk.tree;
      FoldersAddedDeeper(start, middle, p);
      if !ok { return; }
      assert FolderAddedAt(start, middle, Parent(p), p);
      ParentNotUnder(p);
      ok := disk.Mkdir(p, {8, 7, 6, 5, 3}, now);
      if ok {
        forall q ensures FolderAddedAt(start, disk.tree, p, q) {
          assert FolderAddedAt(start, middle, p, q);
          assert At(disk.tree, q) == CreatedAt(middle, p, DirNode({8, 7, 6, 5, 3} - disk.umask, now), now, q);
          assert p[..|p|] == p;
        }
      }
    }

    /** The folder and meta.json that receive a trashed item. */
    method PrepareItemDir(k: TrashKey, meta: Content, now: int) returns (ok: bool)
      requires WellFormed(disk.tree) && trashDir != [] && ItemDir(trashDir, k) !in disk.tree
      modifies disk
      ensures WellFormed(disk.tree)
      ensures Prepared(old(disk.tree), disk.tree, trashDir, k)
      ensures ok <==> WayOpen(old(disk.tree), ItemDir(trashDir, k)) && disk.faults == old(disk.faults)
      ensures disk.faults >= old(disk.faults)
      ensures ok ==> ShapeAt(disk.tree, ItemDir(trashDir, k)) == Folder
      ensures ok ==> MetaHolds(disk.tree, trashDir, k, meta)
    {
      var dir := ItemDir(trashDir, k);
      ghost var start := disk.tree;
      ok := MkdirAll(dir, now);
      ghost var middle := disk.tree;
      forall q ensures PreparedAt(start, middle, trashDir, k, q) { assert FolderAddedAt(start, middle, dir, q); }
      if !ok { return; }
      NothingBelow(start, dir);
      assert FolderAddedAt(start, middle, dir, dir + ["meta.json"]);
      assert IsPrefix(dir, dir + ["meta.json"]) && Parent(dir + ["meta.json"]) == dir;
      ok := disk.WriteNewFile(dir + ["meta.json"], meta, {8, 7, 5}, now);
      forall q ensures PreparedAt(start, disk.tree, trashDir, k, q) {
        assert FolderAddedAt(start, middle, dir, q);
        MetaWritten(middle, disk.tree, trashDir, k, meta, disk.umask, now, ok, q);
      }
      assert FolderAddedAt(middle, disk.tree, dir, dir) by {
        MetaWritten(middle, disk.tree, trashDir, k, meta, disk.umask, now, ok, dir);
      }
    }

    /** The item's folder and meta.json, and the move into it. */
    method StageTrash(src: Comps, k: TrashKey, meta: Content, now: int) returns (r: MoveResult)
      requires Valid() && src != [] && src in disk.tree && Separate(src, trashDir)
      requires ItemDir(trashDir, k) !in disk.tree && k !in trash
      modifies disk
      ensures disk.faults >= old(disk.faults) && (r.LeftBehind? ==> disk.faults > old(disk.faults))
      ensures r.Moved? <==> WayOpen(old(disk.tree), ItemDir(trashDir, k)) && disk.faults == old(disk.faults)
      ensures !r.LeftBehind? ==> Valid() && Conserved(old(disk.tree), disk.tree, trashDir)
      ensures r.Moved? ==> Trashed(old(disk.tree), disk.tree, src, trashDir, k, disk.umask)
      ensures r.Moved? ==> HoldsItem(disk.tree, trashDir, k) && MetaHolds(disk.tree, trashDir, k, meta)
    {
      var dst := TrashPath(trashDir, k);
      ghost var start := disk.tree;
      var ok := PrepareItemDir(k, meta, now);
      ghost var ready := disk.tree;
      PreparedKeeps(start, ready, trashDir, k, trash);
      if !ok { return NotMoved; }
      PreparedElsewhere(start, ready, trashDir, k, src);
      assert At(ready, src) == At(start, src);
      ItemPlaceReady(ready, src, trashDir, k);
      r := disk.MovePath(src, dst, now);
      MoveShapes(ready, disk.tree, src, dst, now, disk.umask, r);
      if r.NotMoved? {
        ShapesKeepTrash(ready, disk.tree, trashDir, trash);
        ConservedByShapes(ready, disk.tree, trashDir);
      } else if r.Moved? {
        IntoTrash(ready, disk.tree, src, trashDir, k, trash);
        MetaStays(ready, disk.tree, src, trashDir, k, meta);
        MoveConserves(ready, disk.tree, src, dst, trashDir);
        TrashedSubtree(start, ready, disk.tree, src, trashDir, k, disk.umask);
      }
    }

    /** Staging and then recording, which may fail on its own. */
    method TrashEntry(src: Comps, k: TrashKey, item: TrashItem, meta: Content, now: int) returns (r: Outcome)
      requires Valid() && src != [] && src in disk.tree && Separate(src, trashDir)
      requires ItemDir(trashDir, k) !in disk.tree && k !in trash
      requires item.trashPath == TrashPath(trashDir, k) && item.originalPath != [] && AllNames(item.originalPath)
      requires item.originalName == item.originalPath[|item.originalPath|-1]
      modifies disk, this`trash
      ensures disk.faults >= old(disk.faults) && (r.Broken? ==> disk.faults > old(disk.faults))
      ensures r.Done? <==> WayOpen(old(disk.tree), ItemDir(trashDir, k)) && disk.faults == old(disk.faults)
      ensures r.Done? || r.Failed? || r.Broken?
      ensures !r.Broken? ==> Valid() && Conserved(old(disk.tree), disk.tree, trashDir)
      ensures trash == if r.Done? then old(trash)[k := item] else old(trash)
      ensures r.Done? ==> Trashed(old(disk.tree), disk.tree, src, trashDir, k, disk.umask)
      ensures r.Done? ==> MetaHolds(disk.tree, trashDir, k, meta)
    {
      var moved := StageTrash(src, k, meta, now);
      if moved.LeftBehind? { return Broken; }
      if moved.NotMoved? { return Failed; }
      var failed := disk.Fails();
      if failed { return Failed; }
      Recorded(disk.tree, trashDir, trash, k, item);
      trash := trash[k := item];
      return Done(src);
    }

    /** DeleteToTrash; id is the fresh random id. */
    method DeleteToTrash(user: User, logical: string, id: string, meta: Content, now: int) returns (r: Outcome)
      requires Valid() && HomeOk(user)
      requires ItemDir(trashDir, TrashKey(user.id, id)) !in disk.tree && TrashKey(user.id, id) !in trash
      modifies disk, this`trash
      ensures disk.faults >= old(disk.faults) && (r.Broken? ==> disk.faults > old(disk.faults))
      ensures var refusal := TrashRefusal(old(disk.tree), user, logical);
        if refusal.Some? then r == refusal.value
        else (r.Done? <==>
                WayOpen(old(disk.tree), ItemDir(trashDir, TrashKey(user.id, id))) && disk.faults == old(disk.faults))
      ensures r.Done? <==> CanTrash(old(disk.tree), user, logical, ItemDir(trashDir, TrashKey(user.id, id))) &&
                           disk.faults == old(disk.faults)
      ensures !r.Broken? ==> Valid() && Conserved(old(disk.tree), disk.tree, trashDir)
      ensures !r.Done? ==> trash == old(trash)
      ensures r.Done? ==>
          r.path != [] && CleanLogical(logical) == Some(Render(r.path)) && user.home + r.path in old(disk.tree)
      ensures r.Done? ==> AllNames(r.path) && MetaHolds(disk.tree, trashDir, TrashKey(user.id, id), meta)
      ensures r.Done? ==>
          Trashed(old(disk.tree), disk.tree, user.home + r.path, trashDir, TrashKey(user.id, id), disk.umask)
      ensures r.Done? ==> trash == old(trash)[TrashKey(user.id, id) := TrashItem(r.path, r.path[|r.path|-1],
                            TrashPath(trashDir, TrashKey(user.id, id)), old(disk.tree)[user.home + r.path].DirNode?)]
    {
      TrashRefusalIff(disk.tree, user, logical);
      ConservedSelf(disk.tree, trashDir);
      var source := ResolveExisting(disk.tree, user, logical);
      if !source.Done? { return source; }
      if source.path == [] { return InvalidPath; }
      CleanNames(logical);
      var src, k := user.home + source.path, TrashKey(user.id, id);
      SeparateExtended(user.home, source.path, trashDir);
      var item := TrashItem(source.path, source.path[|source.path|-1], TrashPath(trashDir, k), disk.tree[src].DirNode?);
      r := TrashEntry(src, k, item, meta, now);
      if r.Done? { r := source; }
    }

    /** The move out of the trash. */
    method UnstageTrash(k: TrashKey, dst: Comps, now: int) returns (r: MoveResult)
      requires Valid() && k in trash && dst != [] && dst !in disk.tree && Separate(dst, trashDir)
      modifies disk
      ensures WellFormed(disk.tree)
      ensures disk.faults >= old(disk.faults) && (r.LeftBehind? ==> disk.faults > old(disk.faults))
      ensures r.Moved? <==> CanMove(old(disk.tree), TrashPath(trashDir, k), dst) && disk.faults == old(disk.faults)
      ensures r.NotMoved? ==> Valid() && Conserved(old(disk.tree), disk.tree, trashDir)
      ensures r.Moved? ==> TrashOk(disk.tree, trashDir, trash - {k}) && Conserved(old(disk.tree), disk.tree, trashDir)
      ensures r.Moved? ==> Restored(old(disk.tree), disk.tree, trashDir, k, dst, disk.umask)
      ensures r.Moved? ==> OnlyMeta(disk.tree, trashDir, k)
    {
      var src := TrashPath(trashDir, k);
      ghost var start := disk.tree;
      r := disk.MovePath(src, dst, now);
      MoveShapes(start, disk.tree, src, dst, now, disk.umask, r);
      if r.NotMoved? {
        ShapesKeepTrash(start, disk.tree, trashDir, trash);
        ConservedByShapes(start, disk.tree, trashDir);
      } else if r.Moved? {
        OutOfTrash(start, disk.tree, dst, trashDir, k, trash, disk.umask);
        MoveConserves(start, disk.tree, src, dst, trashDir);
      }
    }

    /** os.RemoveAll of an emptied item folder, its error ignored. */
    method DiscardItemDir(k: TrashKey, now: int)
      requires Valid() && k !in trash && OnlyMeta(disk.tree, trashDir, k)
      modifies disk
      ensures Valid() && Conserved(old(disk.tree), disk.tree, trashDir) && disk.faults >= old(disk.faults)
      ensures forall q :: !IsPrefix(trashDir, q) ==> At(disk.tree, q) == At(old(disk.tree), q)
    {
      ghost var start := disk.tree;
      var dir := ItemDir(trashDir, k);
      var ok := disk.RemoveAll(dir, now);
      forall q ensures Discarded(start, disk.tree, trashDir, k, q) {
        if ok && dir in start { assert At(disk.tree, q) == RemovedAt(start, dir, now, q); }
        if !IsPrefix(trashDir, q) {
          PrefixThrough(trashDir, dir, q);
          assert dir[..|trashDir|] == trashDir && Parent(dir)[..|trashDir|] == trashDir;
        }
      }
      DiscardKeeps(start, disk.tree, trashDir, k, trash);
    }

    /** An existing folder, or why it cannot take an entry of that name. */
    method OpenFolder(user: User, logical: string, ghost name: string) returns (r: Outcome)
      ensures r.Done? ==> CleanLogical(logical).Some? && r.path == Parts(CleanLogical(logical).value) &&
                          CanHold(disk.tree, user.home + r.path)
      ensures FolderRefusal(disk.tree, user, logical, name) ==
              if !r.Done? then Some(r)
              else if NoNameFree(disk.tree, user.home + r.path, name) then Some(Exists) else None
      ensures !r.Failed? && !r.Broken?
    {
      r := ResolveExisting(disk.tree, user, logical);
      if r.Done? && !disk.tree[user.home + r.path].DirNode? { r := InvalidPath; }
    }

    /** Where a trashed item goes back to: its original folder, under the first free name. */
    method RestoreTarget(user: User, id: string) returns (r: Outcome)
      requires Valid()
      ensures RestoreAnswer(disk.tree, user, trash, id, r)
      ensures r.Done? ==> TrashKey(user.id, id) in trash && r.path != [] && CanCreate(disk.tree, user.home + r.path)
      ensures !r.Failed? && !r.Broken?
    {
      var k := TrashKey(user.id, id);
      if k !in trash { return NotExist; }
      var item := trash[k];
      OriginalParent(disk.tree, trashDir, trash, k);
      var parent := OpenFolder(user, Dir(Render(item.originalPath)), item.originalName);
      if !parent.Done? { return parent; }
      var name := FreeName(user.home + parent.path, item.originalName);
      if name.None? { return Exists; }
      Appended(user.home, parent.path, name.value);
      ParentOf(user.home, parent.path + [name.value]);
      return Done(parent.path + [name.value]);
    }

    /** RestoreTrash. */
    method RestoreTrash(user: User, id: string, now: int) returns (r: Outcome)
      requires Valid() && HomeOk(user)
      modifies disk, this`trash
      ensures disk.faults >= old(disk.faults) && (r.Failed? || r.Broken? ==> disk.faults > old(disk.faults))
      ensures r.Failed? || r.Broken? || RestoreAnswer(old(disk.tree), user, old(trash), id, r)
      ensures disk.faults == old(disk.faults) ==> (r.Done? <==> CanRestore(old(disk.tree), user, old(trash), id))
      ensures r.Done? ==> CanRestore(old(disk.tree), user, old(trash), id)
      ensures !r.Broken? ==> Valid() && Conserved(old(disk.tree), disk.tree, trashDir)
      ensures r.Done? ==> TrashKey(user.id, id) in old(trash)
      ensures trash == if r.Done? then old(trash) - {TrashKey(user.id, id)} else old(trash)
      ensures r.Done? ==>
          Restored(old(disk.tree), disk.tree, trashDir, TrashKey(user.id, id), user.home + r.path, disk.umask)
    {
      ConservedSelf(disk.tree, trashDir);
      var target := RestoreTarget(user, id);
      RestoreAnswerIff(disk.tree, user, trashDir, trash, id, target);
      if !target.Done? { return target; }
      SeparateExtended(user.home, target.path, trashDir);
      r := TakeOut(TrashKey(user.id, id), user.home + target.path, now);
      if r.Done? { r := target; }
    }

    /** The move, the deleted record and the removed item folder. */
    method TakeOut(k: TrashKey, dst: Comps, now: int) returns (r: Outcome)
      requires Valid() && k in trash && dst != [] && CanCreate(disk.tree, dst) && Separate(dst, trashDir)
      modifies disk, this`trash
      ensures disk.faults >= old(disk.faults)
      ensures r.Done? || ((r.Failed? || r.Broken?) && disk.faults > old(disk.faults))
      ensures !r.Broken? ==> Valid() && Conserved(old(disk.tree), disk.tree, trashDir)
      ensures trash == if r.Done? then old(trash) - {k} else old(trash)
      ensures r.Done? ==> Restored(old(disk.tree), disk.tree, trashDir, k, dst, disk.umask)
    {
      ghost var start := disk.tree;
      ItemCanLeave(start, trashDir, trash, k, dst);
      var moved := UnstageTrash(k, dst, now);
      r := if moved.NotMoved? then Failed else Broken;
      if moved.Moved? {
        var failed := disk.Fails();
        if !failed {
          trash := trash - {k};
          ghost var middle := disk.tree;
          DiscardItemDir(k, now);
          StillRestored(start, middle, disk.tree, trashDir, k, dst, disk.umask);
          r := Done(dst);
        }
      }
    }

    /** Trash and then restore, with nothing in between: both succeed unless a call fails, the entry
        is back under its own path as the identical subtree (or as copyPath recreates it), and the
        trash table is as it was. */
    method TrashThenRestore(user: User, logical: string, id: string, meta: Content, now: int)
      returns (trashed: Outcome, r: Outcome)
      requires Valid() && HomeOk(user)
      requires ItemDir(trashDir, TrashKey(user.id, id)) !in disk.tree && TrashKey(user.id, id) !in trash
      modifies disk, this`trash
      ensures disk.faults == old(disk.faults) && TrashPossible(old(disk.tree), user, logical, id) ==>
          trashed.Done? && r.Done?
      ensures trashed.Done? && r.Done? ==> r.path == trashed.path && trash == old(trash)
      ensures trashed.Done? && r.Done? ==> CleanLogical(logical) == Some(Render(r.path))
      ensures trashed.Done? && r.Done? ==> Back(old(disk.tree), disk.tree, user.home + r.path, trashDir, disk.umask)
    {
      r := Failed;
      ghost var start, items := disk.tree, trash;
      trashed := DeleteToTrash(user, logical, id, meta, now);
      if trashed.Done? {
        ghost var middle, held := disk.tree, trash;
        SeparateExtended(user.home, trashed.path, trashDir);
        ComesBackFree(start, middle, user, trashed.path, trashDir, held, id, disk.umask);
        r := RestoreBack(user, id, trashed.path, now);
        if r.Done? {
          AddedThenRemoved(items, TrashKey(user.id, id), held[TrashKey(user.id, id)]);
          RoundTrip(start, middle, disk.tree, user.home + trashed.path, trashDir, TrashKey(user.id, id), disk.umask);
        }
      }
    }

    /** RestoreTrash of an item whose folder is there and whose name is free. */
    method RestoreBack(user: User, id: string, path: Comps, now: int) returns (r: Outcome)
      requires Valid() && HomeOk(user) && path != [] && TrashKey(user.id, id) in trash
      requires ReadyBack(disk.tree, user, trash, id, path)
      modifies disk, this`trash
      ensures disk.faults >= old(disk.faults) && (!r.Done? ==> disk.faults > old(disk.faults))
      ensures r.Done? ==> r.path == path && trash == old(trash) - {TrashKey(user.id, id)}
      ensures r.Done? ==>
          Restored(old(disk.tree), disk.tree, trashDir, TrashKey(user.id, id), user.home + path, disk.umask)
    {
      ghost var t, held := disk.tree, trash;
      r := RestoreTrash(user, id, now);
      BackInPlace(t, user, held, id, path, r);
    }

    /** The path names an entry other than the home, and nothing but folders leads to the item's place. */
    ghost predicate TrashPossible(t: Tree, user: User, logical: string, id: string) {
      CanTrash(t, user, logical, ItemDir(trashDir, TrashKey(user.id, id)))
    }

    /** One request: what it does is what its own method does, and it succeeds when that is possible. */
    method Step(op: Op, now: int) returns (r: Outcome)
      requires Valid() && OpOk(op)
      modifies disk, this`trash
      ensures !r.Broken? ==> Valid() && Conserved(old(disk.tree), disk.tree, trashDir)
      ensures disk.faults >= old(disk.faults) && (r.Broken? ==> disk.faults > old(disk.faults))
      ensures disk.faults == old(disk.faults) ==> (r.Done? <==> OpCan(op, old(disk.tree), old(trash), trashDir))
      ensures r.Done? ==> OpDone(op, r.path, old(disk.tree), disk.tree, trashDir, disk.umask)
    {
      ConservedSelf(disk.tree, trashDir);
      match op {
        case MakeFolder(u, p) => r := Mkdir(u, p, now);
        case MoveTo(u, from, to) => r := Move(u, from, to, now);
        case MoveUnder(u, from, dir) => r := MoveInto(u, from, dir, now);
        case Restore(u, id) => r := RestoreTrash(u, id, now);
        case Finalize(u, temp, dir, name) => r := FinalizeUpload(u, temp, dir, name, now);
        case Trash(u, p, id, meta) =>
          r := Failed;
          if ItemDir(trashDir, TrashKey(u.id, id)) !in disk.tree && TrashKey(u.id, id) !in trash {
            r := DeleteToTrash(u, p, id, meta, now);
          }
      }
    }

    predicate OpOk(op: Op) {
      HomeOk(op.user) && (op.Finalize? ==> op.temp != [] && Separate(op.temp, trashDir))
    }

    /** Any run of requests, up to the first one that leaves something half done: directories hold
        entries, every trash record points at an existing item, and each content is held by as many
        files as at the start. */
    method Run(ops: seq<Op>, clock: seq<int>) returns (broken: bool, results: seq<Outcome>, ghost trees: seq<Tree>)
      requires Valid() && |clock| == |ops| && forall i :: 0 <= i < |ops| ==> OpOk(ops[i])
      modifies disk, this`trash
      ensures !broken ==> WellFormed(disk.tree) && TrashOk(disk.tree, trashDir, trash)
      ensures !broken ==> Conserved(old(disk.tree), disk.tree, trashDir)
      ensures broken ==> disk.faults > old(disk.faults)
      ensures !broken ==> |results| == |ops|
      ensures |trees| == |results| + 1 && |results| <= |ops|
      ensures trees[0] == old(disk.tree) && trees[|results|] == disk.tree
      ensures forall i :: 0 <= i < |results| && results[i].Done? ==>
                OpDone(ops[i], results[i].path, trees[i], trees[i+1], trashDir, disk.umask)
    {
      ConservedSelf(disk.tree, trashDir);
      broken, results, trees := false, [], [disk.tree];
      for i := 0 to |ops|
        invariant !broken && Valid() && Conserved(old(disk.tree), disk.tree, trashDir)
        invariant disk.faults >= old(disk.faults)
        invariant |results| == i && |trees| == i + 1 && trees[0] == old(disk.tree) && trees[i] == disk.tree
        invariant forall j :: 0 <= j < i && results[j].Done? ==>
                    OpDone(ops[j], results[j].path, trees[j], trees[j+1], trashDir, disk.umask)
      {
        var r := Step(ops[i], clock[i]);
        results, trees := results + [r], trees + [disk.tree];
        if r.Broken? {
          broken := true;
          return;
        }
      }
    }
  }

  /** The request is possible; a trash request also needs an id that is not in use. */
  ghost predicate OpCan(op: Op, t: Tree, trash: map<TrashKey, TrashItem>, trashDir: Comps) {
    match op
    case MakeFolder(u, p) => CanMkdir(t, u, p)
    case MoveTo(u, from, to) => CanMoveTo(t, u, from, to)
    case MoveUnder(u, from, dir) => CanMoveInto(t, u, from, dir)
    case Restore(u, id) => CanRestore(t, u, trash, id)
    case Finalize(u, temp, dir, name) => CanFinalize(t, u, temp, dir, name)
    case Trash(u, p, id, meta) =>
      var item := ItemDir(trashDir, TrashKey(u.id, id));
      item !in t && TrashKey(u.id, id) !in trash && CanTrash(t, u, p, item)
  }

  /** What a successful request has done to the tree, at the path it answers. */
  ghost predicate OpDone(op: Op, path: Comps, t: Tree, t': Tree, trashDir: Comps, umask: Mode) {
    match op
    case MakeFolder(u, p) => NewFolder(t, t', u.home + path)
    case MoveTo(u, from, to) => CleanLogical(from).Some? && MovedTree(t, t', PlaceOf(u, from), u.home + path)
    case MoveUnder(u, from, dir) => CleanLogical(from).Some? && MovedTree(t, t', PlaceOf(u, from), u.home + path)
    case Restore(u, id) => Restored(t, t', trashDir, TrashKey(u.id, id), u.home + path, umask)
    case Finalize(u, temp, dir, name) => MovedTree(t, t', temp, u.home + path)
    case Trash(u, p, id, meta) => Trashed(t, t', u.home + path, trashDir, TrashKey(u.id, id), umask)
  }

  datatype Op =
    | MakeFolder(user: User, path: string)
    | MoveTo(user: User, from: string, to: string)
    | MoveUnder(user: User, from: string, dir: string)
    | Trash(user: User, path: string, id: string, meta: Content)
    | Restore(user: User, id: string)
    | Finalize(user: User, temp: Comps, dir: string, name: string)

  lemma ParentOf(home: Comps, rel: Comps)
    requires rel != []
    ensures home + rel != [] && Parent(home + rel) == home + Parent(rel)
  {}

  lemma SamePath(a: Comps, b: Comps)
    requires a != [] && b != [] && Parent(a) == Parent(b) && a[|a|-1] == b[|b|-1]
    ensures a == b
  {
    assert a == Parent(a) + [a[|a|-1]] && b == Parent(b) + [b[|b|-1]];
  }

  lemma NotMeta(src: Comps, dst: Comps, trashDir: Comps)
    requires Separate(src, trashDir) && Separate(dst, trashDir)
    ensures forall q :: IsPrefix(src, q) ==> !IsMeta(trashDir, q) && !IsMeta(trashDir, Reroot(src, dst, q))
  {
    forall q | IsPrefix(src, q) ensures !IsMeta(trashDir, q) && !IsMeta(trashDir, Reroot(src, dst, q)) {
      SeparateBelow(src, trashDir, q);
      assert IsPrefix(dst, Reroot(src, dst, q));
      SeparateBelow(dst, trashDir, Reroot(src, dst, q));
    }
  }

  /** src is no folder that the target folder lies in. */
  predicate ClearOf(src: Comps, dir: Comps) { !IsPrefix(src, dir) }

  /** A free name in a folder outside src is a place src can move to. */
  lemma ClearMeans(t: Tree, src: Comps, dir: Comps, name: string)
    requires src != [] && dir in t && t[dir].DirNode? && dir + [name] !in t
    ensures CanMove(t, src, dir + [name]) <==> src in t && ClearOf(src, dir)
  {
    UnderParent(src, dir + [name]);
    assert Parent(dir + [name]) == dir;
  }

  /** MoveInto's own check covers files too: nothing lies below a file. */
  lemma NotBelowItself(t: Tree, src: Comps, dir: Comps)
    requires WellFormed(t) && src in t && dir in t && t[dir].DirNode? && !(t[src].DirNode? && IsPrefix(src, dir))
    ensures ClearOf(src, dir)
  {
    AncestorIsDir(t, src, dir);
  }

  lemma AncestorIsDir(t: Tree, a: Comps, p: Comps)
    requires WellFormed(t) && p in t && t[p].DirNode?
    ensures IsPrefix(a, p) ==> a in t && t[a].DirNode?
  {
    if IsPrefix(a, p) {
      AncestorsExist(t, a, p);
      assert |a| == |p| ==> a == p;
    }
  }

  lemma ItemPlaceReady(t: Tree, src: Comps, trashDir: Comps, k: TrashKey)
    requires src in t && Separate(src, trashDir) && TrashPath(trashDir, k) !in t &&
             ShapeAt(t, ItemDir(trashDir, k)) == Folder
    ensures CanMove(t, src, TrashPath(trashDir, k))
  {
    assert TrashPath(trashDir, k)[..|trashDir|] == trashDir;
    SeparateBelow(trashDir, src, TrashPath(trashDir, k));
    assert Parent(TrashPath(trashDir, k)) == ItemDir(trashDir, k);
  }

  lemma ItemCanLeave(t: Tree, trashDir: Comps, trash: map<TrashKey, TrashItem>, k: TrashKey, dst: Comps)
    requires TrashOk(t, trashDir, trash) && k in trash && dst != [] && CanCreate(t, dst) && Separate(dst, trashDir)
    ensures CanMove(t, TrashPath(trashDir, k), dst)
  {
    assert ItemOk(t, trashDir, k, trash[k]);
    assert TrashPath(trashDir, k)[..|trashDir|] == trashDir;
    PrefixThrough(trashDir, TrashPath(trashDir, k), dst);
  }

  /** The name that is free as it stands is the first free one. */
  lemma SameName(t: Tree, folder: Comps, name: string, r: string)
    requires FirstFree(t, folder, name, r) && folder + [name] !in t
    ensures r == name
  {
    assert Candidate(name, 0) == name;
  }

  /** The item's own folder is there and its own name is free in it. */
  ghost predicate ReadyBack(t: Tree, user: User, trash: map<TrashKey, TrashItem>, id: string, path: Comps) {
    && path != [] && TrashKey(user.id, id) in trash && RestoreRefusal(t, user, trash, id).None?
    && trash[TrashKey(user.id, id)].originalPath == path && trash[TrashKey(user.id, id)].originalName == path[|path|-1]
    && user.home + Parent(path) + [path[|path|-1]] !in t
  }

  lemma BackInPlace(t: Tree, user: User, trash: map<TrashKey, TrashItem>, id: string, path: Comps, r: Outcome)
    requires ReadyBack(t, user, trash, id, path)
    ensures RestoreAnswer(t, user, trash, id, r) ==> r.Done? && r.path == path
  {
    if RestoreAnswer(t, user, trash, id, r) { SamePlace(t, user, trash, id, path, r); }
  }

  /** Restored under a free original name, an item is back at its original path. */
  lemma SamePlace(t: Tree, user: User, trash: map<TrashKey, TrashItem>, id: string, path: Comps, r: Outcome)
    requires ReadyBack(t, user, trash, id, path) && RestoreAnswer(t, user, trash, id, r)
    ensures r.Done? && r.path == path
  {
    SameName(t, user.home + Parent(path), path[|path|-1], r.path[|r.path|-1]);
    SamePath(r.path, path);
  }

  /** After trashing, the original folder is there and the original name is free in it. */
  lemma ComesBackFree(t: Tree, t': Tree, user: User, path: Comps, trashDir: Comps, trash: map<TrashKey, TrashItem>,
                      id: string, umask: Mode)
    requires WellFormed(t) && path != [] && user.home + path in t && Separate(user.home, trashDir)
    requires Separate(user.home + path, trashDir)
    requires Trashed(t, t', user.home + path, trashDir, TrashKey(user.id, id), umask)
    requires TrashOk(t', trashDir, trash) && TrashKey(user.id, id) in trash &&
             trash[TrashKey(user.id, id)].originalPath == path
    ensures ReadyBack(t', user, trash, id, path)
  {
    var k := TrashKey(user.id, id);
    var folder, name := user.home + Parent(path), path[|path|-1];
    OriginalParent(t', trashDir, trash, k);
    FolderKept(t, t', user.home, path, trashDir, k, umask);
    NameIsFree(t', folder, name);
    assert trash[k].originalName == name && Parent(trash[k].originalPath) == Parent(path);
  }

  lemma NameIsFree(t: Tree, folder: Comps, name: string)
    requires folder + [name] !in t && ValidBaseName(name)
    ensures !NoNameFree(t, folder, name)
  {
    assert Candidate(name, 0) == name;
  }

  lemma FolderKept(t: Tree, t': Tree, home: Comps, path: Comps, trashDir: Comps, k: TrashKey, umask: Mode)
    requires WellFormed(t) && path != [] && home + path in t && Separate(home, trashDir) &&
             Separate(home + path, trashDir)
    requires Trashed(t, t', home + path, trashDir, k, umask)
    ensures home + Parent(path) in t' && t'[home + Parent(path)].DirNode?
    ensures home + Parent(path) + [path[|path|-1]] !in t'
  {
    var folder := home + Parent(path);
    ParentOf(home, path);
    Appended(home, Parent(path), path[|path|-1]);
    assert Parent(path) + [path[|path|-1]] == path;
    TrashedIsGone(t, t', home + path, trashDir, k, umask);
    assert IsPrefix(home, folder);
    OffTheWay(home, trashDir, [], folder);
    assert trashDir + [] == trashDir;
    ParentNotUnder(home + path);
    assert ShapeAt(t', folder) == ShapeAt(t, folder);
  }

  lemma CleanNames(logical: string)
    requires CleanLogical(logical).Some?
    ensures var p := Parts(CleanLogical(logical).value); AllNames(p) && CleanLogical(logical).value == Render(p)
  {
    CleanLogicalSound(logical);
  }

  lemma Recorded(t: Tree, trashDir: Comps, trash: map<TrashKey, TrashItem>, k: TrashKey, item: TrashItem)
    requires TrashOk(t, trashDir, trash) && HoldsItem(t, trashDir, k)
    requires item.trashPath == TrashPath(trashDir, k) && item.originalPath != [] && AllNames(item.originalPath)
    requires item.originalName == item.originalPath[|item.originalPath|-1]
    ensures TrashOk(t, trashDir, trash[k := item])
  {
    var more := trash[k := item];
    forall o | o in more ensures ItemOk(t, trashDir, o, more[o]) {
      if o != k { assert ItemOk(t, trashDir, o, trash[o]); }
    }
  }

  lemma SeparateExtended(home: Comps, rel: Comps, trashDir: Comps)
    requires Separate(home, trashDir)
    ensures Separate(home + rel, trashDir)
  {
    assert (home + rel)[..|home|] == home;
    SeparateBelow(home, trashDir, home + rel);
    if |home| <= |trashDir| && |home + rel| <= |trashDir| {
      assert trashDir[..|home + rel|][..|home|] == trashDir[..|home|];
    }
  }

  lemma NewFolderKeepsTrash(t: Tree, t': Tree, target: Comps, trashDir: Comps, trash: map<TrashKey, TrashItem>)
    requires TrashOk(t, trashDir, trash)
    requires NewFolder(t, t', target)
    ensures TrashOk(t', trashDir, trash)
  {
    forall k | k in trash ensures ItemOk(t', trashDir, k, trash[k]) {
      assert ItemOk(t, trashDir, k, trash[k]);
    }
  }

  lemma ShapesKeepTrash(t: Tree, t': Tree, trashDir: Comps, trash: map<TrashKey, TrashItem>)
    requires TrashOk(t, trashDir, trash) && SameShapes(t, t')
    ensures TrashOk(t', trashDir, trash)
  {
    forall k | k in trash ensures ItemOk(t', trashDir, k, trash[k]) {
      assert ItemOk(t, trashDir, k, trash[k]);
    }
  }

  // ---------------------------------------------------------------- trash bookkeeping

  /** At q: unchanged, or a folder that is new or whose mtime moved, on the way to p. */
  ghost predicate FolderAddedAt(t: Tree, t': Tree, p: Comps, q: Comps) {
    || At(t', q) == At(t, q)
    || (IsPrefix(q, p) && ShapeAt(t', q) == Folder && !ShapeAt(t, q).Bytes?)
  }

  ghost predicate FoldersAdded(t: Tree, t': Tree, p: Comps) { forall q :: FolderAddedAt(t, t', p, q) }

  lemma FoldersAddedDeeper(t: Tree, t': Tree, p: Comps)
    requires p != [] && FoldersAdded(t, t', Parent(p))
    ensures FoldersAdded(t, t', p)
  {
    forall q ensures FolderAddedAt(t, t', p, q) {
      assert FolderAddedAt(t, t', Parent(p), q);
      if IsPrefix(q, Parent(p)) { assert p[..|q|] == Parent(p)[..|q|]; }
    }
  }

  /** At q after PrepareItemDir: unchanged, a folder on the way, or the meta.json. */
  ghost predicate PreparedAt(t: Tree, t': Tree, trashDir: Comps, k: TrashKey, q: Comps) {
    || FolderAddedAt(t, t', ItemDir(trashDir, k), q)
    || (q == ItemDir(trashDir, k) + ["meta.json"] && ShapeAt(t, q) == Absent)
  }

  ghost predicate Prepared(t: Tree, t': Tree, trashDir: Comps, k: TrashKey) {
    forall q :: PreparedAt(t, t', trashDir, k, q)
  }

  lemma MetaWritten(t: Tree, t': Tree, trashDir: Comps, k: TrashKey, meta: Content, umask: Mode, now: int, ok: bool,
                    q: Comps)
    requires var p := ItemDir(trashDir, k) + ["meta.json"];
      && (p in t ==> !ok && t' == t)
      && (ok ==> forall x :: At(t', x) == CreatedAt(t, p, FileNode(meta, {8, 7, 5} - umask, now), now, x))
      && (!ok ==> forall x :: x != p ==>
            (At(t', x) == At(t, x) || (x == Parent(p) && At(t', x) == Touched(At(t, x), now))))
    ensures q == ItemDir(trashDir, k) + ["meta.json"] || FolderAddedAt(t, t', ItemDir(trashDir, k), q)
    ensures q == ItemDir(trashDir, k) + ["meta.json"] && ShapeAt(t, q) != Absent ==> At(t', q) == At(t, q)
  {
    var dir := ItemDir(trashDir, k);
    var p := dir + ["meta.json"];
    assert Parent(p) == dir && IsPrefix(dir, dir);
  }

  /** The item's meta.json has been written. */
  ghost predicate MetaHolds(t: Tree, trashDir: Comps, k: TrashKey, meta: Content) {
    var s := ShapeAt(t, ItemDir(trashDir, k) + ["meta.json"]);
    s.Bytes? && s.content == meta
  }

  lemma MetaStays(t: Tree, t': Tree, src: Comps, trashDir: Comps, k: TrashKey, meta: Content)
    requires MetaHolds(t, trashDir, k, meta) && Separate(src, trashDir) && MovedTree(t, t', src, TrashPath(trashDir, k))
    ensures MetaHolds(t', trashDir, k, meta)
  {
    var q, item := ItemDir(trashDir, k) + ["meta.json"], TrashPath(trashDir, k);
    assert ShapeAt(t', q) == MovedShape(t, src, item, q);
    assert q[|q|-1] == "meta.json" && item[|item|-1] == "file" && |"file"| != |"meta.json"|;
    assert q[..|q|] == q && |q| == |item|;
    assert q[..|trashDir|] == trashDir;
    SeparateBelow(trashDir, src, q);
  }

  lemma PreparedKeeps(t: Tree, t': Tree, trashDir: Comps, k: TrashKey, trash: map<TrashKey, TrashItem>)
    requires Prepared(t, t', trashDir, k) && TrashOk(t, trashDir, trash)
    ensures TrashOk(t', trashDir, trash) && Conserved(t, t', trashDir)
  {
    assert IsMeta(trashDir, ItemDir(trashDir, k) + ["meta.json"]) by { MetaPath(trashDir, k); }
    forall q
      ensures ShapeAt(t', q) == ShapeAt(t, q) || (!ShapeAt(t', q).Bytes? && !ShapeAt(t, q).Bytes?) ||
              IsMeta(trashDir, q)
    {
      assert PreparedAt(t, t', trashDir, k, q);
    }
    ConservedByShapes(t, t', trashDir);
    forall o | o in trash ensures ItemOk(t', trashDir, o, trash[o]) {
      assert ItemOk(t, trashDir, o, trash[o]);
      assert PreparedAt(t, t', trashDir, k, trash[o].trashPath);
      forall q | IsPrefix(ItemDir(trashDir, o), q) && ShapeAt(t', q).Bytes?
        ensures IsMeta(trashDir, q) || IsPrefix(trash[o].trashPath, q)
      {
        assert PreparedAt(t, t', trashDir, k, q);
      }
    }
  }

  lemma MetaPath(trashDir: Comps, k: TrashKey)
    ensures IsMeta(trashDir, ItemDir(trashDir, k) + ["meta.json"])
    ensures forall rest: Comps :: !IsMeta(trashDir, TrashPath(trashDir, k) + rest)
  {
    var m := ItemDir(trashDir, k) + ["meta.json"];
    assert m[..|trashDir|] == trashDir;
    forall rest: Comps ensures !IsMeta(trashDir, TrashPath(trashDir, k) + rest) {
      if rest == [] { assert TrashPath(trashDir, k) + rest == TrashPath(trashDir, k); }
    }
  }

  /** Paths separate from the trash are neither inside it nor on the way to it. */
  lemma OffTheWay(src: Comps, trashDir: Comps, more: Comps, q: Comps)
    requires Separate(src, trashDir) && IsPrefix(src, q)
    ensures !IsPrefix(trashDir, q) && !IsPrefix(q, trashDir + more)
  {
    SeparateBelow(src, trashDir, q);
    var deep := trashDir + more;
    assert deep[..|trashDir|] == trashDir;
    if |q| <= |deep| {
      assert deep[..|q|][..|src|] == deep[..|src|];
      assert q[..|src|] == src;
      if |src| <= |trashDir| {
        assert deep[..|src|] == trashDir[..|src|];
      } else {
        assert deep[..|src|][..|trashDir|] == trashDir;
      }
    }
  }

  lemma PreparedElsewhere(t: Tree, t': Tree, trashDir: Comps, k: TrashKey, src: Comps)
    requires WellFormed(t) && ItemDir(trashDir, k) !in t && Prepared(t, t', trashDir, k) && Separate(src, trashDir)
    ensures forall q :: IsPrefix(src, q) ==> At(t', q) == At(t, q)
    ensures TrashPath(trashDir, k) !in t'
    ensures forall q :: IsPrefix(ItemDir(trashDir, k), q) && ShapeAt(t', q).Bytes? ==> IsMeta(trashDir, q)
    ensures forall q :: !IsPrefix(trashDir, q) && !IsPrefix(q, trashDir) ==> ShapeAt(t', q) == ShapeAt(t, q)
  {
    var dir := ItemDir(trashDir, k);
    NothingBelow(t, dir);
    MetaPath(trashDir, k);
    forall q | IsPrefix(src, q) ensures At(t', q) == At(t, q) {
      OffTheWay(src, trashDir, [Itoa(k.user), k.id], q);
      assert PreparedAt(t, t', trashDir, k, q);
      assert (dir + ["meta.json"])[..|trashDir|] == trashDir;
    }
    assert PreparedAt(t, t', trashDir, k, TrashPath(trashDir, k));
    assert TrashPath(trashDir, k)[..|dir|] == dir;
    forall q | IsPrefix(dir, q) && ShapeAt(t', q).Bytes? ensures IsMeta(trashDir, q) {
      assert PreparedAt(t, t', trashDir, k, q);
      assert At(t, q) == None;
    }
    forall q | !IsPrefix(trashDir, q) && !IsPrefix(q, trashDir) ensures ShapeAt(t', q) == ShapeAt(t, q) {
      assert PreparedAt(t, t', trashDir, k, q);
      assert (dir + ["meta.json"])[..|trashDir|] == trashDir && dir[..|trashDir|] == trashDir;
      if IsPrefix(q, dir) {
        Comparable(q, trashDir, dir);
      }
    }
  }

  /** Different items have folders apart. */
  lemma ItemDirsApart(trashDir: Comps, a: TrashKey, b: TrashKey, q: Comps)
    requires a != b && IsPrefix(ItemDir(trashDir, a), q)
    ensures !IsPrefix(ItemDir(trashDir, b), q) && !IsPrefix(TrashPath(trashDir, b), q)
  {
    var n := |trashDir|;
    assert q[..n+2] == ItemDir(trashDir, a);
    assert ItemDir(trashDir, a)[n] == Itoa(a.user) && ItemDir(trashDir, a)[n+1] == a.id;
    assert ItemDir(trashDir, b)[n] == Itoa(b.user) && ItemDir(trashDir, b)[n+1] == b.id;
    ValueOfItoa(a.user);
    ValueOfItoa(b.user);
    assert ItemDir(trashDir, a) != ItemDir(trashDir, b);
    assert TrashPath(trashDir, b)[..n+2] == ItemDir(trashDir, b);
    if |q| >= n + 3 { assert q[..n+3][..n+2] == q[..n+2]; }
  }

  /** A move into or out of one item's place keeps every other item. */
  lemma OtherItem(t: Tree, t': Tree, src: Comps, dst: Comps, trashDir: Comps, k: TrashKey, o: TrashKey, item: TrashItem)
    requires o != k && ItemOk(t, trashDir, o, item) && MovedTree(t, t', src, dst)
    requires (src == TrashPath(trashDir, k) && Separate(dst, trashDir)) ||
             (dst == TrashPath(trashDir, k) && Separate(src, trashDir))
    ensures ItemOk(t', trashDir, o, item)
  {
    forall q | IsPrefix(ItemDir(trashDir, o), q) ensures ShapeAt(t', q) == ShapeAt(t, q) {
      ItemDirsApart(trashDir, o, k, q);
      assert q[..|trashDir|] == ItemDir(trashDir, o)[..|trashDir|] == trashDir;
      SeparateBelow(trashDir, if src == TrashPath(trashDir, k) then dst else src, q);
      assert ShapeAt(t', q) == MovedShape(t, src, dst, q);
    }
    assert IsPrefix(ItemDir(trashDir, o), item.trashPath);
  }

  lemma Appended(home: Comps, rel: Comps, name: string)
    ensures (home + rel) + [name] == home + (rel + [name])
  {}

  /** The moved item stands alone in its folder; the other items are as before. */
  lemma IntoTrash(t: Tree, t': Tree, src: Comps, trashDir: Comps, k: TrashKey, trash: map<TrashKey, TrashItem>)
    requires TrashOk(t, trashDir, trash) && k !in trash && src in t && Separate(src, trashDir)
    requires MovedTree(t, t', src, TrashPath(trashDir, k))
    requires forall q :: IsPrefix(ItemDir(trashDir, k), q) && ShapeAt(t, q).Bytes? ==> IsMeta(trashDir, q)
    ensures TrashOk(t', trashDir, trash)
    ensures HoldsItem(t', trashDir, k)
    ensures forall q :: IsPrefix(src, q) ==>
              !IsMeta(trashDir, q) && !IsMeta(trashDir, Reroot(src, TrashPath(trashDir, k), q))
  {
    var dst := TrashPath(trashDir, k);
    forall o | o in trash ensures ItemOk(t', trashDir, o, trash[o]) {
      OtherItem(t, t', src, dst, trashDir, k, o, trash[o]);
    }
    assert ShapeAt(t', dst) == MovedShape(t, src, dst, dst) && Source(src, dst, dst) == src;
    forall q | IsPrefix(ItemDir(trashDir, k), q) && ShapeAt(t', q).Bytes?
      ensures IsMeta(trashDir, q) || IsPrefix(dst, q)
    {
      assert ShapeAt(t', q) == MovedShape(t, src, dst, q);
    }
    MetaPath(trashDir, k);
    forall q | IsPrefix(src, q) ensures !IsMeta(trashDir, q) && !IsMeta(trashDir, Reroot(src, dst, q)) {
      SeparateBelow(src, trashDir, q);
    }
  }

  lemma TrashedSubtree(start: Tree, ready: Tree, t': Tree, src: Comps, trashDir: Comps, k: TrashKey, umask: Mode)
    requires forall q :: IsPrefix(src, q) ==> At(ready, q) == At(start, q)
    requires forall q :: !IsPrefix(trashDir, q) && !IsPrefix(q, trashDir) ==> ShapeAt(ready, q) == ShapeAt(start, q)
    requires MovedTree(ready, t', src, TrashPath(trashDir, k))
    requires SameSubtree(ready, src, t', TrashPath(trashDir, k), umask)
    ensures Trashed(start, t', src, trashDir, k, umask)
  {
    var dst := TrashPath(trashDir, k);
    forall q | IsPrefix(dst, q) ensures At(ready, Source(src, dst, q)) == At(start, Source(src, dst, q)) {
      assert Source(src, dst, q)[..|src|] == src;
    }
    forall q | !IsPrefix(trashDir, q) && !IsPrefix(q, trashDir)
      ensures ShapeAt(t', q) == (if IsPrefix(src, q) then Absent else ShapeAt(start, q))
    {
      assert ShapeAt(t', q) == MovedShape(ready, src, dst, q);
      assert dst[..|trashDir|] == trashDir;
      PrefixThrough(trashDir, dst, q);
    }
  }

  // ---------------------------------------------------------------- out of the trash

  /** The item's whole subtree now stands at dst, and nothing else outside the trash changed. */
  ghost predicate Restored(t: Tree, t': Tree, trashDir: Comps, k: TrashKey, dst: Comps, umask: Mode) {
    && SameSubtree(t, TrashPath(trashDir, k), t', dst, umask)
    && forall q :: !IsPrefix(trashDir, q) && !IsPrefix(dst, q) ==> ShapeAt(t', q) == ShapeAt(t, q)
  }

  ghost predicate OnlyMeta(t: Tree, trashDir: Comps, k: TrashKey) {
    forall q :: IsPrefix(ItemDir(trashDir, k), q) && ShapeAt(t, q).Bytes? ==> IsMeta(trashDir, q)
  }

  /** At q after removing the item folder: gone or unchanged inside it, unchanged elsewhere. */
  ghost predicate Discarded(t: Tree, t': Tree, trashDir: Comps, k: TrashKey, q: Comps) {
    && (ShapeAt(t', q) == ShapeAt(t, q) || (IsPrefix(ItemDir(trashDir, k), q) && ShapeAt(t', q) == Absent))
    && (!IsPrefix(trashDir, q) ==> At(t', q) == At(t, q))
  }

  /** A clean original path resolves to its own parent folder. */
  lemma OriginalParent(t: Tree, trashDir: Comps, trash: map<TrashKey, TrashItem>, k: TrashKey)
    requires TrashOk(t, trashDir, trash) && k in trash
    ensures var item := trash[k];
      && item.originalPath != []
      && CleanLogical(Dir(Render(item.originalPath))).Some?
      && Parts(CleanLogical(Dir(Render(item.originalPath))).value) == Parent(item.originalPath)
      && item.originalPath == Parent(item.originalPath) + [item.originalName]
      && ValidBaseName(item.originalName)
  {
    var item := trash[k];
    assert ItemOk(t, trashDir, k, item);
    var up := Parent(item.originalPath);
    assert item.originalPath == up + [item.originalName];
    assert AllNames(up) && AllPlain(up);
    BaseAndDir(up, item.originalName);
    CleanLogicalFixed(up);
    PartsRender(up);
  }

  lemma OutOfTrash(t: Tree, t': Tree, dst: Comps, trashDir: Comps, k: TrashKey, trash: map<TrashKey, TrashItem>,
                   umask: Mode)
    requires TrashOk(t, trashDir, trash) && k in trash && Separate(dst, trashDir)
    requires MovedTree(t, t', TrashPath(trashDir, k), dst) && SameSubtree(t, TrashPath(trashDir, k), t', dst, umask)
    ensures TrashOk(t', trashDir, trash - {k})
    ensures Restored(t, t', trashDir, k, dst, umask) && OnlyMeta(t', trashDir, k)
    ensures forall q :: IsPrefix(TrashPath(trashDir, k), q) ==>
              !IsMeta(trashDir, q) && !IsMeta(trashDir, Reroot(TrashPath(trashDir, k), dst, q))
  {
    var src := TrashPath(trashDir, k);
    assert ItemOk(t, trashDir, k, trash[k]);
    forall o | o in trash - {k} ensures ItemOk(t', trashDir, o, trash[o]) {
      OtherItem(t, t', src, dst, trashDir, k, o, trash[o]);
    }
    OnlyMetaLeft(t, t', dst, trashDir, k);
    assert src[..|trashDir|] == trashDir;
    forall q | !IsPrefix(trashDir, q) && !IsPrefix(dst, q) ensures ShapeAt(t', q) == ShapeAt(t, q) {
      assert ShapeAt(t', q) == MovedShape(t, src, dst, q);
      PrefixThrough(trashDir, src, q);
    }
    ItemNotMeta(dst, trashDir, k);
  }

  lemma OnlyMetaLeft(t: Tree, t': Tree, dst: Comps, trashDir: Comps, k: TrashKey)
    requires HoldsItem(t, trashDir, k) && MovedTree(t, t', TrashPath(trashDir, k), dst) && Separate(dst, trashDir)
    ensures OnlyMeta(t', trashDir, k)
  {
    forall q | IsPrefix(ItemDir(trashDir, k), q) && ShapeAt(t', q).Bytes? ensures IsMeta(trashDir, q) {
      assert q[..|trashDir|] == ItemDir(trashDir, k)[..|trashDir|] == trashDir;
      SeparateBelow(trashDir, dst, q);
      assert ShapeAt(t', q) == MovedShape(t, TrashPath(trashDir, k), dst, q);
    }
  }

  lemma ItemNotMeta(dst: Comps, trashDir: Comps, k: TrashKey)
    requires Separate(dst, trashDir)
    ensures forall q :: IsPrefix(TrashPath(trashDir, k), q) ==>
              !IsMeta(trashDir, q) && !IsMeta(trashDir, Reroot(TrashPath(trashDir, k), dst, q))
  {
    var src := TrashPath(trashDir, k);
    MetaPath(trashDir, k);
    forall q | IsPrefix(src, q) ensures !IsMeta(trashDir, q) && !IsMeta(trashDir, Reroot(src, dst, q)) {
      assert q == src + q[|src|..];
      SeparateBelow(dst, trashDir, Reroot(src, dst, q));
    }
  }

  lemma DiscardKeeps(t: Tree, t': Tree, trashDir: Comps, k: TrashKey, trash: map<TrashKey, TrashItem>)
    requires TrashOk(t, trashDir, trash) && k !in trash && OnlyMeta(t, trashDir, k)
    requires forall q :: Discarded(t, t', trashDir, k, q)
    ensures TrashOk(t', trashDir, trash) && Conserved(t, t', trashDir)
    ensures forall q :: !IsPrefix(trashDir, q) ==> At(t', q) == At(t, q)
  {
    forall q
      ensures ShapeAt(t', q) == ShapeAt(t, q) || (!ShapeAt(t', q).Bytes? && !ShapeAt(t, q).Bytes?) ||
              IsMeta(trashDir, q)
             ensures !IsPrefix(trashDir, q) ==> At(t', q) == At(t, q)
    {
      assert Discarded(t, t', trashDir, k, q);
    }
    ConservedByShapes(t, t', trashDir);
    forall o | o in trash ensures ItemOk(t', trashDir, o, trash[o]) {
      assert ItemOk(t, trashDir, o, trash[o]);
      forall q | IsPrefix(ItemDir(trashDir, o), q) ensures ShapeAt(t', q) == ShapeAt(t, q) {
        assert Discarded(t, t', trashDir, k, q);
        ItemDirsApart(trashDir, o, k, q);
      }
      assert IsPrefix(ItemDir(trashDir, o), trash[o].trashPath);
    }
  }

  lemma StillRestored(t: Tree, middle: Tree, t': Tree, trashDir: Comps, k: TrashKey, dst: Comps, umask: Mode)
    requires Restored(t, middle, trashDir, k, dst, umask) && Separate(dst, trashDir)
    requires forall q :: !IsPrefix(trashDir, q) ==> At(t', q) == At(middle, q)
    ensures Restored(t, t', trashDir, k, dst, umask)
  {
    forall q | IsPrefix(dst, q) ensures At(t', q) == At(middle, q) {
      SeparateBelow(dst, trashDir, q);
    }
  }

  // ---------------------------------------------------------------- trash, then restore

  /** src's subtree is as it was, up to what copyPath recreates; outside the trash and the folders on
      the way to it nothing changed. */
  ghost predicate Back(t: Tree, t': Tree, src: Comps, trashDir: Comps, umask: Mode) {
    && ((forall q :: IsPrefix(src, q) ==> At(t', q) == At(t, q))
       || (forall q :: IsPrefix(src, q) ==> At(t', q) == Recreated(At(t, q), umask)))
    && forall q :: !IsPrefix(trashDir, q) && !IsPrefix(q, trashDir) ==> ShapeAt(t', q) == ShapeAt(t, q)
  }

  lemma TrashedIsGone(t: Tree, t': Tree, src: Comps, trashDir: Comps, k: TrashKey, umask: Mode)
    requires Trashed(t, t', src, trashDir, k, umask) && Separate(src, trashDir)
    ensures src !in t'
  {
    assert ShapeAt(t', src) == Absent;
  }

  lemma AddedThenRemoved(trash: map<TrashKey, TrashItem>, k: TrashKey, item: TrashItem)
    requires k !in trash
    ensures trash[k := item] - {k} == trash
  {}

  lemma RecreatedTwice(n: Option<Node>, umask: Mode)
    ensures Recreated(Recreated(n, umask), umask) == Recreated(n, umask)
  {
    if n.Some? {
      var m := n.value.mode;
      assert (((m * PERM_BITS) - umask) * PERM_BITS) - umask == (m * PERM_BITS) - umask;
    }
  }

  lemma RoundTrip(t: Tree, middle: Tree, t': Tree, src: Comps, trashDir: Comps, k: TrashKey, umask: Mode)
    requires Trashed(t, middle, src, trashDir, k, umask) && Restored(middle, t', trashDir, k, src, umask)
    ensures Back(t, t', src, trashDir, umask)
  {
    SubtreeThere(t, middle, t', src, TrashPath(trashDir, k), umask);
    forall q | !IsPrefix(trashDir, q) && !IsPrefix(q, trashDir) ensures ShapeAt(t', q) == ShapeAt(t, q) {
      if IsPrefix(src, q) {
        if forall p :: IsPrefix(src, p) ==> At(t', p) == At(t, p) {
          assert At(t', q) == At(t, q);
        } else {
          assert At(t', q) == Recreated(At(t, q), umask);
        }
      }
    }
  }

  lemma SubtreeThere(t: Tree, middle: Tree, t': Tree, src: Comps, mid: Comps, umask: Mode)
    requires SameSubtree(t, src, middle, mid, umask) && SameSubtree(middle, mid, t', src, umask)
    ensures (forall q :: IsPrefix(src, q) ==> At(t', q) == At(t, q))
         || (forall q :: IsPrefix(src, q) ==> At(t', q) == Recreated(At(t, q), umask))
  {
    forall q | IsPrefix(src, q)
      ensures IsPrefix(mid, Source(mid, src, q)) && Source(src, mid, Source(mid, src, q)) == q
    {
      assert Source(mid, src, q)[|mid|..] == q[|src|..];
    }
    forall q ensures Recreated(Recreated(At(t, q), umask), umask) == Recreated(At(t, q), umask) {
      RecreatedTwice(At(t, q), umask);
    }
  }
}
