/** Reindexing one path: runReindexPath of internal/server/admin_jobs.go. */
module ScopedReindex {
  import opened Strings
  import opened LogicalPaths
  import opened LikePattern
  import opened IndexStore
  import opened IndexMoves
  import R = Reindex
  import FS = FileSystem
  import F = FileService

  /** In scope the rows are the entries on disk, every one seen by this scan; out of scope only the
      case twins' rows are gone. */
  ghost predicate Repaired(index: Index, index': Index, user: int, l: string, t: FS.Tree, home: Comps, scan: string) {
    forall k: Key ::
      var s, row, was := Listed(t, home, k.path), R.RowAt(index', k), R.RowAt(index, k);
      if k.user != user then row == was
      else if InScope(l, k.path) then
        (if s == F.Absent then row.None? else Seen(row, s, scan) && (was.None? ==> RowShows(row, s, k.path)))
      else row == (if CaseTwin(l, k.path) then None else was)
  }

  /** A row that a delete by "/" does not reach; every clean path is one. */
  ghost predicate RootKeeps(index: Index, user: int) {
    exists k :: k in index && k.user == user && !InDeletedRange("/", k.path)
  }

  lemma RootRangeHasNoCleanPath(p: string)
    requires CleanPath(p)
    ensures !InDeletedRange("/", p)
  {
    DeletedRange("/", p);
    JoinNonEmpty(Parts(p));
    assert p[1] == Parts(p)[0][0] && Parts(p)[0][0] in Parts(p)[0];
    assert Lower("/" + "/") == "//";
    if |p| > 1 { assert Lower(p[..2])[1] == LowerChar(p[1]); }
  }

  /** So any row of a user keeps a missing home from being repaired. */
  lemma AnyRowIsKept(index: Index, user: int, p: string)
    requires CleanPath(p) && Key(user, p) in index
    ensures RootKeeps(index, user)
  {
    RootRangeHasNoCleanPath(p);
  }

  /** The sweep after a scan repairs the scope. */
  lemma SweepRepairs(index: Index, middle: Index, index': Index, user: int, cs: Comps, t: FS.Tree, home: Comps,
                     scan: string)
    requires forall k :: k in index ==> index[k].lastSeen != scan
    requires AllNames(cs) && Refreshed(index, middle, user, Render(cs), t, home, scan)
    requires index' == map k | k in middle && !(NotSeen(middle, user, scan, k) &&
               (Render(cs) in {"", "/"} || InDeletedRange(Render(cs), k.path))) :: middle[k]
    ensures Repaired(index, index', user, Render(cs), t, home, scan)
  {
    var l := Render(cs);
    forall k: Key
      ensures var s, row, was := Listed(t, home, k.path), R.RowAt(index', k), R.RowAt(index, k);
              if k.user != user then row == was
              else if InScope(l, k.path) then
                (if s == F.Absent then row.None? else Seen(row, s, scan) && (was.None? ==> RowShows(row, s, k.path)))
              else row == (if CaseTwin(l, k.path) then None else was)
    {
      DeletedRange(l, k.path);
      assert l != "";
      if !(k.user == user && InScope(l, k.path) && Listed(t, home, k.path) != F.Absent) {
        assert R.RowAt(middle, k) == R.RowAt(index, k);
      }
    }
  }

  /** When the path is gone, deleting its range repairs the scope, except for the root, whose range
      reaches no stored path. */
  lemma MissingRepairsIff(index: Index, index': Index, user: int, cs: Comps, t: FS.Tree, home: Comps, scan: string)
    requires AllNames(cs) && FS.WellFormed(t) && home + cs !in t && Dropped(index, index', user, Render(cs))
    ensures Repaired(index, index', user, Render(cs), t, home, scan) <==> cs != [] || !RootKeeps(index, user)
  {
    var l := Render(cs);
    FS.NothingBelow(t, home + cs);
    forall p | InScope(l, p) ensures Listed(t, home, p) == F.Absent {
      if CleanPath(p) {
        ScopeIsPrefix(cs, p);
        HomePrefix(home, cs, Parts(p));
      }
    }
    if cs != [] {
      JoinNonEmpty(cs);
      forall k: Key { DeletedRange(l, k.path); }
      assert l != "/";
      forall k: Key | k.user == user && InScope(l, k.path) ensures R.RowAt(index', k).None? {
        DeletedRange(l, k.path);
      }
    } else {
      assert l == "/";
      if RootKeeps(index, user) {
        var k :| k in index && k.user == user && !InDeletedRange("/", k.path);
        assert R.RowAt(index', k).Some?;
      } else {
        forall k: Key | k.user == user ensures R.RowAt(index', k).None? {
          assert R.RowAt(index', k) == if InDeletedRange("/", k.path) then None else R.RowAt(index, k);
        }
      }
    }
  }

  // ---------------------------------------------------------------- the search tables

  predicate Swept(middle: Index, user: int, scan: string, l: string, k: Key) {
    NotSeen(middle, user, scan, k) && (l in {"", "/"} || InDeletedRange(l, k.path))
  }

  /** What sweeping and applying staging leave of the search tables. */
  ghost predicate JobSearch(middle: Index, index': Index, s: Search, s': Search, staged: seq<Doc>, user: int,
                            scan: string, l: string) {
    forall k: Key :: JobSearchAt(middle, index', s, s', staged, user, scan, l, k)
  }

  ghost predicate JobSearchAt(middle: Index, index': Index, s: Search, s': Search, staged: seq<Doc>, user: int,
                              scan: string, l: string, k: Key) {
    && R.RowAt(index', k) == (if Swept(middle, user, scan, l, k) then None else R.RowAt(middle, k))
    && At(s'.fts, k) == (if Swept(middle, user, scan, l, k) then None else At(s.fts, k))
    && (if k !in index' then NoText(s', k)
        else if Contents(staged, k) == [] then SameText(s, s', k)
        else Contents(s'.documents, k) == Contents(staged, k) &&
             At(s'.snippets, k) == Some(SnippetOf(Contents(staged, k)[|Contents(staged, k)|-1])))
  }

  /** Every text file in scope has its text stored. */
  ghost predicate ScopeTexts(s: Search, user: int, l: string, t: FS.Tree, home: Comps, names: R.Naming, text: Reader) {
    forall p :: InScope(l, p) && IndexedText(t, home, p, names, text).Some? ==>
      TextStored(s, Key(user, p), IndexedText(t, home, p, names, text).value)
  }

  /** The same for those whose row already carries their size and mtime. */
  ghost predicate HeldTexts(index: Index, s: Search, user: int, l: string, t: FS.Tree, home: Comps, names: R.Naming,
                            text: Reader) {
    forall p :: InScope(l, p) && IndexedText(t, home, p, names, text).Some? &&
                CurrentStamp(R.RowAt(index, Key(user, p)), Listed(t, home, p)) ==>
      TextStored(s, Key(user, p), IndexedText(t, home, p, names, text).value)
  }

  /** An entry in scope that had no row. */
  ghost predicate NewInScope(index: Index, user: int, l: string, t: FS.Tree, home: Comps) {
    exists p :: InScope(l, p) && Listed(t, home, p) != F.Absent && Key(user, p) !in index
  }

  /** Out of scope text stays where a row stays. */
  ghost predicate OutsideTexts(index': Index, s: Search, s': Search, user: int, l: string) {
    forall k: Key :: !(k.user == user && InScope(l, k.path)) ==>
        if k in index' then SameText(s, s', k) else NoText(s', k)
  }

  /** After reindexing a folder all text in scope is stored exactly when it was stored wherever the
      stamp already matched. */
  lemma FolderJobTextsIff(index: Index, middle: Index, index': Index, s: Search, s': Search, staged: seq<Doc>,
                          user: int, cs: Comps, t: FS.Tree, home: Comps, scan: string, names: R.Naming, text: Reader)
    requires Refreshed(index, middle, user, Render(cs), t, home, scan)
    requires FolderStaged(index, [], staged, user, Render(cs), t, home, names, text)
    requires JobSearch(middle, index', s, s', staged, user, scan, Render(cs))
    ensures ScopeTexts(s', user, Render(cs), t, home, names, text) <==>
            HeldTexts(index, s, user, Render(cs), t, home, names, text)
    ensures OutsideTexts(index', s, s', user, Render(cs))
  {
    var l := Render(cs);
    forall p | InScope(l, p) && IndexedText(t, home, p, names, text).Some?
      ensures TextStored(s', Key(user, p), IndexedText(t, home, p, names, text).value) <==>
              (CurrentStamp(R.RowAt(index, Key(user, p)), Listed(t, home, p)) ==>
                 TextStored(s, Key(user, p), IndexedText(t, home, p, names, text).value))
    {
      var k := Key(user, p);
      SeenStays(index, middle, index', s, s', staged, user, l, t, home, scan, p);
      assert Contents(staged, k) == Contents([], k) + StagedText(index, k, l, t, home, names, text);
      StagedOrKept(index, middle, index', s, s', staged, user, l, t, home, scan, names, text, p);
    }
    forall k: Key | !(k.user == user && InScope(l, k.path))
      ensures if k in index' then SameText(s, s', k) else NoText(s', k)
    {
      assert JobSearchAt(middle, index', s, s', staged, user, scan, l, k);
      assert Contents([], k) == [];
    }
  }

  /** The search table then names the indexed entries exactly when no entry in scope was new: this job
      does not rebuild it. */
  lemma FolderJobNamesIff(index: Index, middle: Index, index': Index, s: Search, s': Search, staged: seq<Doc>,
                          user: int, cs: Comps, t: FS.Tree, home: Comps, scan: string)
    requires Refreshed(index, middle, user, Render(cs), t, home, scan) && NamesAgree(index, s.fts)
    requires JobSearch(middle, index', s, s', staged, user, scan, Render(cs))
    ensures NamesAgree(index', s'.fts) <==> !NewInScope(index, user, Render(cs), t, home)
  {
    var l := Render(cs);
    forall p | InScope(l, p) && Listed(t, home, p) != F.Absent
      ensures Key(user, p) in index' && At(s'.fts, Key(user, p)) == At(s.fts, Key(user, p))
    {
      SeenStays(index, middle, index', s, s', staged, user, l, t, home, scan, p);
    }
    forall k: Key | !(k.user == user && InScope(l, k.path) && Listed(t, home, k.path) != F.Absent)
      ensures At(s'.fts, k) == if k in index' then Some(Base(k.path)) else None
    {
      assert JobSearchAt(middle, index', s, s', staged, user, scan, l, k);
      assert R.RowAt(middle, k) == R.RowAt(index, k);
      NameElsewhere(index, middle, index', s, s', staged, user, l, scan, k);
    }
  }

  /** A row the scan has seen is not swept. */
  lemma SeenStays(index: Index, middle: Index, index': Index, s: Search, s': Search, staged: seq<Doc>, user: int,
                  l: string, t: FS.Tree, home: Comps, scan: string, p: string)
    requires Refreshed(index, middle, user, l, t, home, scan)
    requires JobSearch(middle, index', s, s', staged, user, scan, l)
    requires InScope(l, p) && Listed(t, home, p) != F.Absent
    ensures Key(user, p) in index' && At(s'.fts, Key(user, p)) == At(s.fts, Key(user, p))
  {
    assert Seen(R.RowAt(middle, Key(user, p)), Listed(t, home, p), scan);
    assert JobSearchAt(middle, index', s, s', staged, user, scan, l, Key(user, p));
    assert R.RowAt(index', Key(user, p)).Some?;
  }

  lemma StagedOrKept(index: Index, middle: Index, index': Index, s: Search, s': Search, staged: seq<Doc>, user: int,
                     l: string, t: FS.Tree, home: Comps, scan: string, names: R.Naming, text: Reader, p: string)
    requires Contents(staged, Key(user, p)) == StagedText(index, Key(user, p), l, t, home, names, text)
    requires JobSearch(middle, index', s, s', staged, user, scan, l) && Key(user, p) in index'
    requires InScope(l, p) && IndexedText(t, home, p, names, text).Some?
    ensures TextStored(s', Key(user, p), IndexedText(t, home, p, names, text).value) <==>
            (CurrentStamp(R.RowAt(index, Key(user, p)), Listed(t, home, p)) ==>
               TextStored(s, Key(user, p), IndexedText(t, home, p, names, text).value))
  {
    assert JobSearchAt(middle, index', s, s', staged, user, scan, l, Key(user, p));
  }

  /** Where the scan wrote no row, the search row goes exactly with the index row. */
  lemma NameElsewhere(index: Index, middle: Index, index': Index, s: Search, s': Search, staged: seq<Doc>, user: int,
                      l: string, scan: string, k: Key)
    requires R.RowAt(middle, k) == R.RowAt(index, k)
    requires JobSearchAt(middle, index', s, s', staged, user, scan, l, k)
    ensures NamesAgree(index, s.fts) ==> At(s'.fts, k) == if k in index' then Some(Base(k.path)) else None
  {
    assert k in index' <==> R.RowAt(index', k).Some?;
    assert k in index <==> R.RowAt(index, k).Some?;
  }

  /** A file is the only entry of its scope, and its row stays. */
  lemma FileScope(index: Index, middle: Index, index': Index, m: Search, s': Search, user: int,
                  cs: Comps, t: FS.Tree, home: Comps, scan: string)
    requires FS.WellFormed(t) && AllNames(cs) && cs != [] && home + cs in t && t[home + cs].FileNode?
    requires Refreshed(index, middle, user, Render(cs), t, home, scan)
    requires JobSearch(middle, index', m, s', [], user, scan, Render(cs))
    ensures InScope(Render(cs), Render(cs)) && CleanPath(Render(cs))
    ensures forall p :: InScope(Render(cs), p) && Listed(t, home, p) != F.Absent ==> p == Render(cs)
    ensures Key(user, Render(cs)) in index' && At(s'.fts, Key(user, Render(cs))) == At(m.fts, Key(user, Render(cs)))
    ensures forall k: Key :: k != Key(user, Render(cs)) ==> R.RowAt(middle, k) == R.RowAt(index, k)
  {
    var l := Render(cs);
    PartsRender(cs);
    assert InScope(l, l) && Listed(t, home, l) != F.Absent;
    SeenStays(index, middle, index', m, s', [], user, l, t, home, scan, l);
    forall p | InScope(l, p) && Listed(t, home, p) != F.Absent ensures p == l {
      ScopeIsPrefix(cs, p);
      OnlyTheFile(t, home, cs, p);
    }
  }

  /** After reindexing a file its text is stored, whatever was stored before. */
  lemma FileJobTexts(index: Index, middle: Index, index': Index, s: Search, m: Search, s': Search, user: int,
                     cs: Comps, t: FS.Tree, home: Comps, scan: string, names: R.Naming, text: Reader)
    requires FS.WellFormed(t) && AllNames(cs) && cs != [] && home + cs in t && t[home + cs].FileNode?
    requires Refreshed(index, middle, user, Render(cs), t, home, scan)
    requires FileSearched(s, m, user, Render(cs), IndexedText(t, home, Render(cs), names, text))
    requires JobSearch(middle, index', m, s', [], user, scan, Render(cs))
    ensures ScopeTexts(s', user, Render(cs), t, home, names, text)
    ensures OutsideTexts(index', s, s', user, Render(cs))
  {
    var l := Render(cs);
    FileScope(index, middle, index', m, s', user, cs, t, home, scan);
    assert JobSearchAt(middle, index', m, s', [], user, scan, l, Key(user, l));
    forall k: Key | !(k.user == user && InScope(l, k.path))
      ensures if k in index' then SameText(s, s', k) else NoText(s', k)
    {
      assert JobSearchAt(middle, index', m, s', [], user, scan, l, k);
      assert k in index' ==> SameText(s, m, k) && SameText(m, s', k);
    }
  }

  /** And the names stay right. */
  lemma FileJobNames(index: Index, middle: Index, index': Index, s: Search, m: Search, s': Search, user: int,
                     cs: Comps, t: FS.Tree, home: Comps, scan: string, content: Option<string>)
    requires FS.WellFormed(t) && AllNames(cs) && cs != [] && home + cs in t && t[home + cs].FileNode?
    requires Refreshed(index, middle, user, Render(cs), t, home, scan)
    requires FileSearched(s, m, user, Render(cs), content) && NamesAgree(index, s.fts)
    requires JobSearch(middle, index', m, s', [], user, scan, Render(cs))
    ensures NamesAgree(index', s'.fts)
  {
    var l := Render(cs);
    FileScope(index, middle, index', m, s', user, cs, t, home, scan);
    forall k: Key | k != Key(user, l) ensures At(s'.fts, k) == if k in index' then Some(Base(k.path)) else None {
      assert JobSearchAt(middle, index', m, s', [], user, scan, l, k);
      assert At(m.fts, k) == At(s.fts, k) == if k in index then Some(Base(k.path)) else None;
      NameOfRow(middle, index', m, s', user, scan, l, k, k in index);
    }
  }

  lemma NameOfRow(middle: Index, index': Index, m: Search, s': Search, user: int, scan: string, l: string, k: Key,
                  was: bool)
    requires JobSearchAt(middle, index', m, s', [], user, scan, l, k)
    requires (R.RowAt(middle, k).Some? <==> was) && At(m.fts, k) == if was then Some(Base(k.path)) else None
    ensures At(s'.fts, k) == if k in index' then Some(Base(k.path)) else None
  {
    assert k in index' <==> R.RowAt(index', k).Some?;
  }

  // ---------------------------------------------------------------- sweep and apply

  datatype Finished = JobDone | SweepFailed | ApplyFailed

  ghost predicate SweptSearch(middle: Index, index': Index, s: Search, s': Search, user: int, scan: string, l: string) {
    forall k: Key ::
      && R.RowAt(index', k) == (if Swept(middle, user, scan, l, k) then None else R.RowAt(middle, k))
      && At(s'.fts, k) == (if Swept(middle, user, scan, l, k) then None else At(s.fts, k))
      && (if Swept(middle, user, scan, l, k) then NoText(s', k) else SameText(s, s', k))
  }

  ghost predicate AppliedSearch(index: Index, s: Search, s': Search, staged: seq<Doc>) {
    && s'.fts == s.fts
    && forall k: Key ::
       AppliedAt(k, k in index, Contents(staged, k), Contents(s.documents, k), Contents(s'.documents, k),
                                  At(s.snippets, k), At(s'.snippets, k))
  }

  lemma SweptThenApplied(middle: Index, index': Index, s: Search, m: Search, s': Search, staged: seq<Doc>, user: int,
                         scan: string, l: string)
    requires SweptSearch(middle, index', s, m, user, scan, l) && AppliedSearch(index', m, s', staged)
    ensures JobSearch(middle, index', s, s', staged, user, scan, l)
  {
    forall k: Key ensures JobSearchAt(middle, index', s, s', staged, user, scan, l, k) {
      assert R.RowAt(index', k) == if Swept(middle, user, scan, l, k) then None else R.RowAt(middle, k);
      assert k in index' <==> R.RowAt(index', k).Some?;
    }
  }

  method SweepScope(st: Store, user: int, scan: string, l: string) returns (ok: bool)
    modifies st`fileIndex, st`fileFts, st`documents, st`snippets, st`faults
    ensures st.faults == old(st.faults) + if ok then 0 else 1
    ensures ok ==>
      st.fileIndex == map k | k in old(st.fileIndex) && !(NotSeen(old(st.fileIndex), user, scan, k) &&
                              (l in {"", "/"} || InDeletedRange(l, k.path))) :: old(st.fileIndex)[k]
    ensures ok ==> SweptSearch(old(st.fileIndex), st.fileIndex, old(SearchOf(st)), SearchOf(st), user, scan, l)
  {
    var deleted := st.DeleteFileIndexEntriesNotSeenUnder(user, scan, l);
    ok := deleted.Some?;
  }

  method ApplyTexts(st: Store) returns (ok: bool)
    modifies st`documents, st`snippets, st`faults
    ensures st.faults == old(st.faults) + if ok then 0 else 1
    ensures ok ==> AppliedSearch(st.fileIndex, old(SearchOf(st)), SearchOf(st), st.staging)
  {
    ok := st.ApplyDocumentStaging();
  }

  /** The sweep and then the staged texts. */
  method SweepAndApply(st: Store, user: int, scan: string, l: string) returns (r: Finished)
    modifies st
    ensures st.faults >= old(st.faults) && (!r.JobDone? ==> st.faults > old(st.faults))
    ensures r.JobDone? ==>
      st.fileIndex == map k | k in old(st.fileIndex) && !(NotSeen(old(st.fileIndex), user, scan, k) &&
                              (l in {"", "/"} || InDeletedRange(l, k.path))) :: old(st.fileIndex)[k]
    ensures r.JobDone? ==>
      JobSearch(old(st.fileIndex), st.fileIndex, old(SearchOf(st)), SearchOf(st), old(st.staging), user, scan, l)
  {
    ghost var middle, before := st.fileIndex, SearchOf(st);
    var ok := SweepScope(st, user, scan, l);
    if !ok { return SweepFailed; }
    ghost var swept := SearchOf(st);
    ok := ApplyTexts(st);
    if !ok { return ApplyFailed; }
    SweptThenApplied(middle, st.fileIndex, before, swept, SearchOf(st), st.staging, user, scan, l);
    return JobDone;
  }

  /** runReindexPath of an enabled user; the scan id is fresh. */
  method RunReindexPath(st: Store, ctx: R.Context, t: FS.Tree, home: Comps, user: int, logical: string, scan: string,
                        names: R.Naming, text: Reader) returns (status: R.Status)
    requires FS.WellFormed(t) && NamesOk(t, home) && (home in t ==> t[home].DirNode?)
    requires forall k :: k in st.fileIndex ==> st.fileIndex[k].lastSeen != scan
    modifies st, ctx
    ensures status.Completed? ==> CleanLogical(logical).Some?
    ensures status.Failed? ==> CleanLogical(logical).None? || ctx.walkErrors > old(ctx.walkErrors) ||
                               st.faults > old(st.faults) || F.BelowFile(t, home + Parts(CleanLogical(logical).value))
    // a path that goes on below a file is not taken for a missing one: its rows stay
    ensures CleanLogical(logical).Some? && home + Parts(CleanLogical(logical).value) !in t &&
            F.BelowFile(t, home + Parts(CleanLogical(logical).value)) ==>
              !status.Completed? && st.fileIndex == old(st.fileIndex)
    ensures status.Canceled? ==> old(ctx.done) || ctx.cancels > old(ctx.cancels)
    ensures old(ctx.done) ==> status.Canceled? && st.fileIndex == old(st.fileIndex)
    ensures status.Completed? ==>
      (Repaired(old(st.fileIndex), st.fileIndex, user, CleanLogical(logical).value, t, home, scan) <==>
        CleanLogical(logical).value != "/" || home in t || !RootKeeps(old(st.fileIndex), user))
    // no text without a row, and in scope all text stored exactly when it was wherever the stamp matched
    ensures status.Completed? && home + Parts(CleanLogical(logical).value) in t ==>
      var l, isFile := CleanLogical(logical).value, t[home + Parts(CleanLogical(logical).value)].FileNode?;
      && (forall k :: k !in st.fileIndex ==> NoText(SearchOf(st), k))
      && (ScopeTexts(SearchOf(st), user, l, t, home, names, text) <==>
           isFile || old(HeldTexts(st.fileIndex, SearchOf(st), user, l, t, home, names, text)))
      && OutsideTexts(st.fileIndex, old(SearchOf(st)), SearchOf(st), user, l)
    // the names for search stay right exactly when a folder held nothing new
    ensures status.Completed? && old(NamesAgree(st.fileIndex, st.fileFts)) ==>
      var l, at := CleanLogical(logical).value, home + Parts(CleanLogical(logical).value);
      NamesAgree(st.fileIndex, st.fileFts) <==>
        at !in t || t[at].FileNode? || !NewInScope(old(st.fileIndex), user, l, t, home)
  {
    ghost var index, search := st.fileIndex, SearchOf(st);
    var stop := ctx.Err();
    if stop { return R.Canceled; }
    var clean := CleanLogical(logical);
    if clean.None? { return R.Failed; }
    CleanLogicalSound(logical);
    var cs := Parts(clean.value);
    var ok := st.TruncateDocumentStaging();
    if !ok { return R.Failed; }
    var scanned := ScanUserPath(st, ctx, t, home, user, cs, scan, names, text);
    match scanned {
      case PathCanceled => return R.Canceled;
      case PathFailed => return R.Failed;
      case PathMissing =>
        ok := DeleteIndexPath(st, user, clean.value);
        if !ok { return R.Failed; }
        MissingRepairsIff(index, st.fileIndex, user, cs, t, home, scan);
        MissingNames(index, st.fileIndex, search, SearchOf(st), user, clean.value);
        RootOnly(cs, home);
        return R.Completed;
      case PathScanned =>
        ghost var middle, between, staged := st.fileIndex, SearchOf(st), st.staging;
        var finished := SweepAndApply(st, user, scan, clean.value);
        if !finished.JobDone? {
          stop := ctx.Err();
          return if stop then R.Canceled else R.Failed;
        }
        SweepRepairs(index, middle, st.fileIndex, user, cs, t, home, scan);
        RowlessHasNoText(middle, st.fileIndex, between, SearchOf(st), staged, user, scan, clean.value);
        RootOnly(cs, home);
        if t[home + cs].FileNode? {
          FileJobTexts(index, middle, st.fileIndex, search, between, SearchOf(st), user, cs, t, home, scan, names,
                       text);
          if NamesAgree(index, search.fts) {
            FileJobNames(index, middle, st.fileIndex, search, between, SearchOf(st), user, cs, t, home, scan,
                         IndexedText(t, home, clean.value, names, text));
          }
        } else {
          FolderJobTextsIff(index, middle, st.fileIndex, search, SearchOf(st), staged, user, cs, t, home, scan,
                            names, text);
          if NamesAgree(index, search.fts) {
            FolderJobNamesIff(index, middle, st.fileIndex, search, SearchOf(st), staged, user, cs, t, home, scan);
          }
        }
        return R.Completed;
    }
  }

  lemma RowlessHasNoText(middle: Index, index': Index, s: Search, s': Search, staged: seq<Doc>, user: int, scan: string,
                         l: string)
    requires JobSearch(middle, index', s, s', staged, user, scan, l)
    ensures forall k :: k !in index' ==> NoText(s', k)
  {
    forall k | k !in index' ensures NoText(s', k) {
      assert JobSearchAt(middle, index', s, s', staged, user, scan, l, k);
    }
  }

  /** A range delete takes index and search rows together. */
  lemma MissingNames(index: Index, index': Index, s: Search, s': Search, user: int, l: string)
    requires Dropped(index, index', user, l) && SearchDropped(s, s', user, l)
    ensures NamesAgree(index, s.fts) ==> NamesAgree(index', s'.fts)
  {
    forall k: Key ensures (k in index' <==> R.RowAt(index', k).Some?) && (k in index <==> R.RowAt(index, k).Some?) {}
  }

  lemma RootOnly(cs: Comps, home: Comps)
    requires AllNames(cs)
    ensures Render(cs) == "/" <==> cs == []
    ensures home + [] == home
  {
    if cs != [] { JoinNonEmpty(cs); }
  }
}
