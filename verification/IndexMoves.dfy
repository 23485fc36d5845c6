/** The index after a move: move, deleteIndexPath and refreshIndexPath of internal/server/files.go,
    over the file service, the tables and the scan. */
module IndexMoves {
  import opened Strings
  import opened LogicalPaths
  import opened LikePattern
  import opened IndexStore
  import R = Reindex
  import FS = FileSystem
  import F = FileService

  /** What ReadTextForIndex makes of a file's bytes. */
  type Reader = FS.Content -> string

  /** A logical path no spelling of which is cleaned any further, other than the root. */
  predicate CleanPath(p: string) { p == Render(Parts(p)) && AllNames(Parts(p)) && Parts(p) != [] }

  /** What the user's home shows at a logical path. */
  function Listed(t: FS.Tree, home: Comps, p: string): F.Shape {
    if CleanPath(p) then F.ShapeAt(t, home + Parts(p)) else F.Absent
  }

  /** Names on disk carry no backslash (CleanLogical would rewrite it). */
  ghost predicate NamesOk(t: FS.Tree, home: Comps) {
    forall q :: q in t && IsPrefix(home, q) ==> AllNames(q[|home|..])
  }

  /** A row shows an entry: its kind, its folder and name, and a file's size and mtime. */
  predicate RowShows(row: Option<Row>, s: F.Shape, p: string) {
    match s
    case Absent => row.None?
    case Folder =>
      && row.Some? && row.value.typ == DirEntry && row.value.parent == ParentPathForIndex(p)
      && row.value.name == Base(p)
    case Bytes(c, m) =>
      && row.Some? && row.value.typ == FileEntry && row.value.parent == ParentPathForIndex(p)
      && row.value.name == Base(p)
      && row.value.size == |c| && row.value.modifiedAt == m
  }

  /** The user's rows are exactly the entries of the home, each shown as it is. */
  ghost predicate Matches(index: Index, user: int, t: FS.Tree, home: Comps) {
    forall p :: RowShows(R.RowAt(index, Key(user, p)), Listed(t, home, p), p)
  }

  /** In a matching index every entry of the home has its row, with its folder, name and kind, and a file's
      size and mtime; and every row has its entry. */
  lemma MatchingRow(index: Index, user: int, t: FS.Tree, home: Comps, p: string)
    requires Matches(index, user, t, home)
    ensures Key(user, p) in index <==> CleanPath(p) && home + Parts(p) in t
    ensures Key(user, p) in index ==>
      var row, node := index[Key(user, p)], t[home + Parts(p)];
      && row.parent == ParentPathForIndex(p) && row.name == Base(p) && (row.typ == DirEntry <==> node.DirNode?)
      && (node.FileNode? ==> row.size == |node.content| && row.modifiedAt == node.mtime)
  {
    assert RowShows(R.RowAt(index, Key(user, p)), Listed(t, home, p), p);
  }

  /** An entry the scan has seen carries its scan id, and a file its size and mtime. */
  lemma SeenMeans(row: Option<Row>, s: F.Shape, scan: string)
    ensures Seen(row, s, scan) ==> row.Some? && row.value.lastSeen == scan
    ensures Seen(row, s, scan) && s.Bytes? ==> row.value.size == |s.content| && row.value.modifiedAt == s.mtime
  {}

  ghost predicate OthersKept(index: Index, index': Index, user: int) {
    forall k: Key :: k.user != user ==> R.RowAt(index', k) == R.RowAt(index, k)
  }

  // ---------------------------------------------------------------- subtrees by string

  lemma InSubtreeIsPrefix(cs: Comps, p: string)
    requires AllNames(cs) && cs != [] && CleanPath(p)
    ensures InSubtree(Render(cs), p) <==> IsPrefix(cs, Parts(p))
  {
    SubtreeByString(cs, Parts(p));
    PartsRender(cs);
    if IsPrefix(cs, Parts(p)) && |cs| == |Parts(p)| { assert Parts(p) == Parts(p)[..|cs|]; }
  }

  lemma HomePrefix(home: Comps, a: Comps, b: Comps)
    ensures IsPrefix(home + a, home + b) <==> IsPrefix(a, b)
  {
    if |a| <= |b| { assert (home + b)[..|home + a|] == home + b[..|a|]; }
    if IsPrefix(home + a, home + b) {
      assert (home + a)[|home|..] == a && (home + b[..|a|])[|home|..] == b[..|a|];
    }
  }

  /** The listing after a move, in terms of the listing before it. */
  lemma MovedListing(t: FS.Tree, t': FS.Tree, home: Comps, from: Comps, to: Comps, p: string)
    requires AllNames(from) && from != [] && AllNames(to) && to != []
    requires F.MovedTree(t, t', home + from, home + to) && FS.WellFormed(t) && home + to !in t
    ensures !InSubtree(Render(to), p) ==>
              Listed(t', home, p) == if InSubtree(Render(from), p) then F.Absent else Listed(t, home, p)
    ensures InSubtree(Render(to), p) ==> Listed(t, home, p) == F.Absent
  {
    if CleanPath(p) {
      var c := Parts(p);
      assert F.ShapeAt(t', home + c) == F.MovedShape(t, home + from, home + to, home + c);
      InSubtreeIsPrefix(from, p);
      InSubtreeIsPrefix(to, p);
      HomePrefix(home, from, c);
      HomePrefix(home, to, c);
      FS.NothingBelow(t, home + to);
    }
  }

  lemma NameByCase(a: string, b: string)
    requires Lower(a) == Lower(b) && ValidBaseName(a)
    ensures ValidBaseName(b)
  {
    assert |a| == |Lower(a)| == |b|;
    forall i | 0 <= i < |b| ensures b[i] !in {'\0', '/', '\\'} && (b[i] == '.' ==> a[i] == '.') {
      assert Lower(a)[i] == Lower(b)[i] && a[i] in a;
    }
  }

  /** Only a clean spelling reaches a clean path. */
  lemma RangeIsClean(from: string, p: string)
    requires CleanPath(p) && InDeletedRange(from, p) && from != ""
    ensures CleanPath(from)
  {
    if p != from {
      SubtreePattern(from, p);
      var n := |from|;
      var x, y, z := p[1..n], from[1..], p[n+1..];
      FoldedHead(from, p);
      assert p[1..] == x + ['/'] + z;
      SplitConcat(x, z, '/');
      assert forall i :: 0 <= i < |Split(x, '/')| ==> Split(x, '/')[i] == Parts(p)[i];
      SplitLower(x, y, '/');
      forall i | 0 <= i < |Split(y, '/')| ensures ValidBaseName(Split(y, '/')[i]) {
        NameByCase(Split(x, '/')[i], Split(y, '/')[i]);
      }
      JoinSplit(y, '/');
      assert from == "/" + y;
    }
  }

  /** What folding says about the front of a path in the range. */
  lemma FoldedHead(from: string, p: string)
    requires from != "" && |p| > |from| && Lower(p[..|from|+1]) == Lower(from + "/") && p[0] == '/'
    ensures from[0] == '/' && p[|from|] == '/'
    ensures Lower(p[1..|from|]) == Lower(from[1..])
    ensures forall i :: 1 <= i < |from| ==> (p[i] == '/' <==> from[i] == '/')
  {
    var n := |from|;
    forall i | 0 <= i <= n ensures LowerChar(p[i]) == LowerChar((from + "/")[i]) {
      assert Lower(p[..n+1])[i] == Lower(from + "/")[i];
      assert p[..n+1][i] == p[i];
    }
    forall i | 0 <= i < n - 1 ensures Lower(p[1..n])[i] == Lower(from[1..])[i] {
      assert LowerChar(p[i+1]) == LowerChar((from + "/")[i+1]);
    }
  }

  /** Deleting by an unclean spelling reaches no clean path, so nothing the index holds. */
  lemma UncleanDeletesNothing(from: string, p: string)
    requires from != "" && CleanLogical(from) != Some(from) && CleanPath(p)
    ensures !InDeletedRange(from, p)
  {
    if InDeletedRange(from, p) {
      RangeIsClean(from, p);
      CleanLogicalFixed(Parts(from));
    }
  }

  /** In particular it never reaches the moved entry's own row. */
  lemma UncleanMissesSource(from: string)
    requires CleanLogical(from).Some? && CleanLogical(from).value != "/"
    ensures InDeletedRange(from, CleanLogical(from).value) <==> from == CleanLogical(from).value
  {
    CleanLogicalSound(from);
    var clean := CleanLogical(from).value;
    assert CleanLogical("").value == "/" by { CleanLogicalFixed([]); }
    assert Parts(clean) == [] ==> clean == Render([]) == "/";
    if from != clean {
      UncleanDeletesNothing(from, clean);
    }
  }

  /** Such a spelling of any entry: its path without the leading slash, like "docs/a" for "/docs/a". */
  lemma UnrootedLeavesRow(cs: Comps)
    requires AllNames(cs) && cs != []
    ensures CleanLogical(Join(cs, '/')) == Some(Render(cs)) && !InDeletedRange(Join(cs, '/'), Render(cs))
  {
    var from := Join(cs, '/');
    JoinNonEmpty(cs);
    CleanLogicalFixed(cs);
    assert from[0] in cs[0];
    NoneIn(cs, '\0');
    NoneIn(cs, '\\');
    assert Normalized(from) == Render(cs) == Normalized(Render(cs));
    assert CleanLogical(from) == CleanLogical(Render(cs));
    UncleanMissesSource(from);
  }

  // ---------------------------------------------------------------- the index after a move

  /** The rows after deleting the range of from and refreshing the subtree of to. */
  ghost predicate Updated(index: Index, index': Index, user: int, from: string, to: string, t': FS.Tree, home: Comps) {
    forall p :: var k := Key(user, p);
      if InSubtree(to, p) && Listed(t', home, p) != F.Absent
      then (R.RowAt(index, k).None? ==> RowShows(R.RowAt(index', k), Listed(t', home, p), p))
      else R.RowAt(index', k) == if InDeletedRange(from, p) then None else R.RowAt(index, k)
  }

  /** A stored path elsewhere in the home that differs from the moved folder only in case. */
  ghost predicate TwinStored(t: FS.Tree, home: Comps, from: string) {
    exists p :: Listed(t, home, p) != F.Absent && CaseTwin(from, p)
  }

  /** After the move the index matches the new tree exactly when the request spelled the source
      cleanly and no case twin of it was stored. */
  lemma MoveKeepsIndexIff(index: Index, index': Index, user: int, t: FS.Tree, t': FS.Tree, home: Comps, from: string,
                          to: Comps)
    requires CleanLogical(from).Some? && CleanLogical(from).value != "/" && AllNames(to) && to != []
    requires Matches(index, user, t, home) && FS.WellFormed(t)
    requires var f := Parts(CleanLogical(from).value);
      home + f in t && home + to !in t && FS.Separate(home + f, home + to) && F.MovedTree(t, t', home + f, home + to)
    requires Updated(index, index', user, from, Render(to), t', home)
    ensures Matches(index', user, t', home) <==> from == CleanLogical(from).value && !TwinStored(t, home, from)
  {
    var clean := CleanLogical(from).value;
    CleanLogicalSound(from);
    UncleanMissesSource(from);
    PartsRender(Parts(clean));
    forall p ensures R.RowAt(index, Key(user, p)).None? <==> Listed(t, home, p) == F.Absent {
      assert RowShows(R.RowAt(index, Key(user, p)), Listed(t, home, p), p);
    }
    if from == clean && !TwinStored(t, home, from) {
      forall p ensures RowShows(R.RowAt(index', Key(user, p)), Listed(t', home, p), p) {
        AfterCleanMove(index, index', user, t, t', home, from, to, p);
      }
    }
    if Matches(index', user, t', home) {
      MovedListing(t, t', home, Parts(clean), to, clean);
      assert RowShows(R.RowAt(index', Key(user, clean)), Listed(t', home, clean), clean);
      InSubtreeIsPrefix(to, clean);
      HomePrefix(home, to, Parts(clean));
      assert R.RowAt(index', Key(user, clean)) ==
        if InDeletedRange(from, clean) then None else R.RowAt(index, Key(user, clean));
      assert from == clean;
      forall p | CaseTwin(from, p) ensures Listed(t, home, p) == F.Absent {
        TwinSurvives(index, index', user, t, t', home, from, to, p);
      }
    }
  }

  lemma AfterCleanMove(index: Index, index': Index, user: int, t: FS.Tree, t': FS.Tree, home: Comps, from: string,
                       to: Comps, p: string)
    requires CleanPath(from) && AllNames(to) && to != []
    requires RowShows(R.RowAt(index, Key(user, p)), Listed(t, home, p), p) && FS.WellFormed(t)
    requires home + to !in t && F.MovedTree(t, t', home + Parts(from), home + to)
    requires Updated(index, index', user, from, Render(to), t', home) && !TwinStored(t, home, from)
    ensures RowShows(R.RowAt(index', Key(user, p)), Listed(t', home, p), p)
  {
    MovedListing(t, t', home, Parts(from), to, p);
    DeletedRange(from, p);
    var k := Key(user, p);
    if InSubtree(Render(to), p) && Listed(t', home, p) != F.Absent {
      assert R.RowAt(index, k).None? ==> RowShows(R.RowAt(index', k), Listed(t', home, p), p);
    } else {
      assert R.RowAt(index', k) == if InDeletedRange(from, p) then None else R.RowAt(index, k);
      assert Listed(t, home, p) != F.Absent ==> !CaseTwin(from, p);
    }
  }

  /** In a matching index a twin's row has to be gone, so there was no such entry. */
  lemma TwinSurvives(index: Index, index': Index, user: int, t: FS.Tree, t': FS.Tree, home: Comps, from: string,
                     to: Comps, p: string)
    requires CleanPath(from) && AllNames(to) && to != [] && FS.WellFormed(t)
    requires home + to !in t && F.MovedTree(t, t', home + Parts(from), home + to)
    requires Updated(index, index', user, from, Render(to), t', home)
    requires RowShows(R.RowAt(index', Key(user, p)), Listed(t', home, p), p)
    requires CaseTwin(from, p)
    ensures Listed(t, home, p) == F.Absent
  {
    MovedListing(t, t', home, Parts(from), to, p);
    DeletedRange(from, p);
    if !InSubtree(Render(to), p) {
      assert R.RowAt(index', Key(user, p)) == if InDeletedRange(from, p) then None else R.RowAt(index, Key(user, p));
    }
  }

  // ---------------------------------------------------------------- the search tables

  datatype Search = Search(fts: map<Key, string>, documents: seq<Doc>, snippets: map<Key, string>)

  function SearchOf(st: Store): Search
    reads st
  {
    Search(st.fileFts, st.documents, st.snippets)
  }

  /** The text of a listed text file. */
  function IndexedText(t: FS.Tree, home: Comps, p: string, names: R.Naming, text: Reader): Option<string> {
    match Listed(t, home, p)
    case Bytes(c, _) => if R.SupportsTextIndex(names.kind(p)) then Some(text(c)) else None
    case _ => None
  }

  /** Text files are the files of kind text, markdown or pdf, and their text is read from their bytes. */
  lemma IndexedTextIff(t: FS.Tree, home: Comps, p: string, names: R.Naming, text: Reader, content: string)
    ensures IndexedText(t, home, p, names, text) == Some(content) <==>
              && CleanPath(p) && home + Parts(p) in t && t[home + Parts(p)].FileNode?
              && text(t[home + Parts(p)].content) == content
              && names.kind(p) in {"text", "markdown", "pdf"}
  {}

  ghost predicate TextStored(s: Search, k: Key, content: string) {
    Contents(s.documents, k) == [content] && At(s.snippets, k) == Some(SnippetOf(content))
  }

  ghost predicate NoText(s: Search, k: Key) {
    Contents(s.documents, k) == [] && At(s.snippets, k) == None
  }

  ghost predicate SameText(s: Search, s': Search, k: Key) {
    Contents(s'.documents, k) == Contents(s.documents, k) && At(s'.snippets, k) == At(s.snippets, k)
  }

  /** The search table names exactly the indexed entries. */
  ghost predicate NamesAgree(index: Index, fts: map<Key, string>) {
    forall k: Key :: At(fts, k) == if k in index then Some(Base(k.path)) else None
  }

  /** Every text file of the home has its text and snippet stored. */
  ghost predicate TextsAgree(s: Search, user: int, t: FS.Tree, home: Comps, names: R.Naming, text: Reader) {
    forall p :: IndexedText(t, home, p, names, text).Some? ==>
      TextStored(s, Key(user, p), IndexedText(t, home, p, names, text).value)
  }

  /** Search agrees with the disk: names, texts, and no text where the home lists nothing. */
  ghost predicate SearchAgrees(index: Index, s: Search, user: int, t: FS.Tree, home: Comps, names: R.Naming,
                               text: Reader) {
    && NamesAgree(index, s.fts) && TextsAgree(s, user, t, home, names, text)
    && forall p :: Listed(t, home, p) == F.Absent ==> NoText(s, Key(user, p))
  }

  /** Refreshing one file writes its search row and, for a text file, its text. */
  ghost predicate FileSearched(s: Search, s': Search, user: int, p: string, content: Option<string>) {
    && s'.fts == s.fts[Key(user, p) := Base(p)]
    && (forall k :: k != Key(user, p) ==> SameText(s, s', k))
    && (content.Some? ==> TextStored(s', Key(user, p), content.value))
  }

  /** A stored row carries the size and mtime of the file. */
  predicate CurrentStamp(row: Option<Row>, s: F.Shape) {
    row.Some? && s.Bytes? && StampOf(row.value) == Stamp(|s.content|, s.mtime)
  }

  /** The text a folder scan stages for a key: that of a text file without a current stamp. */
  function StagedText(base: Index, k: Key, l: string, t: FS.Tree, home: Comps, names: R.Naming,
                      text: Reader): seq<string> {
    if InScope(l, k.path) && IndexedText(t, home, k.path, names, text).Some? &&
       !CurrentStamp(R.RowAt(base, k), Listed(t, home, k.path))
    then [IndexedText(t, home, k.path, names, text).value] else []
  }

  ghost predicate FolderStaged(base: Index, was: seq<Doc>, now: seq<Doc>, user: int, l: string, t: FS.Tree, home: Comps,
                               names: R.Naming, text: Reader) {
    forall k: Key :: Contents(now, k) ==
      Contents(was, k) + if k.user == user then StagedText(base, k, l, t, home, names, text) else []
  }

  // ---------------------------------------------------------------- refreshIndexPath

  function InfoOf(n: FS.Node, text: Reader): R.Info {
    match n
    case FileNode(c, _, t) => R.Info(FileEntry, |c|, t, text(c))
    case DirNode(_, t) => R.Info(DirEntry, 0, t, "")
  }

  /** The paths one scan is about: a folder or file and what lies below it, or everything. */
  predicate InScope(l: string, p: string) { l == "/" || InSubtree(l, p) }

  lemma ScopeIsPrefix(cs: Comps, p: string)
    requires AllNames(cs) && CleanPath(p)
    ensures InScope(Render(cs), p) <==> IsPrefix(cs, Parts(p))
    ensures Render(cs) == "/" <==> cs == []
  {
    if cs != [] {
      InSubtreeIsPrefix(cs, p);
      JoinNonEmpty(cs);
    }
  }

  /** What filepath.WalkDir finds at and below an entry other than the home itself, keyed by
      CleanLogical of its path. */
  method WalkSubtree(t: FS.Tree, home: Comps, cs: Comps, text: Reader) returns (tree: R.Tree)
    requires NamesOk(t, home) && AllNames(cs)
    ensures forall p :: p in tree <==> InScope(Render(cs), p) && Listed(t, home, p) != F.Absent
    ensures forall p :: p in tree ==> home + Parts(p) in t && tree[p] == InfoOf(t[home + Parts(p)], text)
  {
    var all := set q | q in t && IsPrefix(home + cs, q) && q != home;
    var left := all;
    tree := map[];
    while left != {}
      invariant left <= all
      invariant forall p :: p in tree ==>
          CleanPath(p) && home + Parts(p) in all - left && tree[p] == InfoOf(t[home + Parts(p)], text)
      invariant forall q :: q in all - left ==> Render(q[|home|..]) in tree
      decreases |left|
    {
      var q :| q in left;
      WalkedPath(t, home, cs, q);
      var logical := CleanLogical(Render(q[|home|..]));
      if logical.Some? {
        tree := tree[logical.value := InfoOf(t[q], text)];
      }
      left := left - {q};
    }
    forall p ensures p in tree <==> InScope(Render(cs), p) && Listed(t, home, p) != F.Absent {
      if CleanPath(p) {
        ScopeIsPrefix(cs, p);
        HomePrefix(home, cs, Parts(p));
        assert (home + Parts(p))[|home|..] == Parts(p);
      }
    }
  }

  lemma WalkedPath(t: FS.Tree, home: Comps, cs: Comps, q: Comps)
    requires NamesOk(t, home) && q in t && IsPrefix(home + cs, q) && q != home
    ensures |home| <= |q|
    ensures var rel := q[|home|..];
      CleanLogical(Render(rel)) == Some(Render(rel)) && CleanPath(Render(rel)) && Parts(Render(rel)) == rel &&
        home + rel == q
  {
    assert q[..|home|] == q[..|home + cs|][..|home|] == home;
    CleanLogicalFixed(q[|home|..]);
    PartsRender(q[|home|..]);
    assert q == home + q[|home|..];
  }

  /** A row the scan has seen: stamped, and with a file's size and mtime. */
  predicate Seen(row: Option<Row>, s: F.Shape, scan: string) {
    row.Some? && row.value.lastSeen == scan && (s.Bytes? ==> StampOf(row.value) == Stamp(|s.content|, s.mtime))
  }

  /** After a scan every entry in scope has a row the scan has seen, and a new row shows its entry as
      it is; all other rows are as before. */
  ghost predicate Refreshed(index: Index, index': Index, user: int, l: string, t: FS.Tree, home: Comps, scan: string) {
    forall k: Key ::
      if k.user == user && InScope(l, k.path) && Listed(t, home, k.path) != F.Absent
      then Seen(R.RowAt(index', k), Listed(t, home, k.path), scan) &&
           (R.RowAt(index, k).None? ==> RowShows(R.RowAt(index', k), Listed(t, home, k.path), k.path))
      else R.RowAt(index', k) == R.RowAt(index, k)
  }

  lemma FreshShows(user: int, p: string, t: FS.Tree, home: Comps, text: Reader, scan: string, names: R.Naming)
    requires CleanPath(p) && home + Parts(p) in t
    ensures var e := R.EntryFor(user, p, InfoOf(t[home + Parts(p)], text), scan, names);
      RowShows(Some(RowOf(e)), Listed(t, home, p), p) && Seen(Some(RowOf(e)), Listed(t, home, p), scan)
  {}

  /** An unchanged row keeps its columns, which already carry the file's size and mtime. */
  lemma KeptIsSeen(base: Index, user: int, p: string, t: FS.Tree, home: Comps, text: Reader, scan: string,
                   names: R.Naming)
    requires CleanPath(p) && home + Parts(p) in t
    requires R.Unchanged(base, R.EntryFor(user, p, InfoOf(t[home + Parts(p)], text), scan, names))
    ensures Key(user, p) in base && Seen(Some(base[Key(user, p)].(lastSeen := scan)), Listed(t, home, p), scan)
  {}

  lemma TreeRefreshed(base: Index, items: seq<R.Item>, user: int, tree: R.Tree, cs: Comps, t: FS.Tree, home: Comps,
                      text: Reader, scan: string, names: R.Naming)
    requires R.DistinctPaths(items) && R.FromTree(items, user, tree, scan, names) && R.PathsOf(items) == tree.Keys
    requires forall p :: p in tree <==> InScope(Render(cs), p) && Listed(t, home, p) != F.Absent
    requires forall p :: p in tree ==> home + Parts(p) in t && tree[p] == InfoOf(t[home + Parts(p)], text)
    ensures Refreshed(base, R.Scanned(base, items), user, Render(cs), t, home, scan)
  {
    var index' := R.Scanned(base, items);
    forall k: Key
      ensures if k.user == user && InScope(Render(cs), k.path) && Listed(t, home, k.path) != F.Absent
              then Seen(R.RowAt(index', k), Listed(t, home, k.path), scan) &&
                   (R.RowAt(base, k).None? ==> RowShows(R.RowAt(index', k), Listed(t, home, k.path), k.path))
              else R.RowAt(index', k) == R.RowAt(base, k)
    {
      R.ScannedAt(base, items, user, tree, scan, names, k);
      if k.user == user && k.path in tree {
        FreshShows(user, k.path, t, home, text, scan, names);
        if R.Unchanged(base, R.EntryFor(user, k.path, tree[k.path], scan, names)) {
          KeptIsSeen(base, user, k.path, t, home, text, scan, names);
        }
      }
    }
  }

  lemma TreeStaged(base: Index, was: seq<Doc>, items: seq<R.Item>, user: int, tree: R.Tree, cs: Comps, t: FS.Tree,
                   home: Comps, text: Reader, scan: string, names: R.Naming)
    requires R.DistinctPaths(items) && R.FromTree(items, user, tree, scan, names) && R.PathsOf(items) == tree.Keys
    requires forall p :: p in tree <==> InScope(Render(cs), p) && Listed(t, home, p) != F.Absent
    requires forall p :: p in tree ==> home + Parts(p) in t && tree[p] == InfoOf(t[home + Parts(p)], text)
    ensures FolderStaged(base, was, was + R.StagedTexts(base, items), user, Render(cs), t, home, names, text)
  {
    forall k: Key
      ensures Contents(was + R.StagedTexts(base, items), k) == Contents(was, k) +
                if k.user == user then StagedText(base, k, Render(cs), t, home, names, text) else []
    {
      ContentsConcat(was, R.StagedTexts(base, items), k);
      R.ScannedAt(base, items, user, tree, scan, names, k);
      if k.user == user && k.path in tree { StagedAtIsText(base, k, tree, cs, t, home, text, scan, names); }
    }
  }

  lemma StagedAtIsText(base: Index, k: Key, tree: R.Tree, cs: Comps, t: FS.Tree, home: Comps, text: Reader,
                       scan: string, names: R.Naming)
    requires k.path in tree && InScope(Render(cs), k.path) && Listed(t, home, k.path) != F.Absent
    requires home + Parts(k.path) in t && tree[k.path] == InfoOf(t[home + Parts(k.path)], text)
    ensures R.StagedAt(base, k, tree, scan, names) == StagedText(base, k, Render(cs), t, home, names, text)
  {}

  datatype PathScan = PathScanned | PathMissing | PathFailed | PathCanceled

  ghost predicate RowWritten(s: Search, s': Search, user: int, p: string) {
    s'.fts == s.fts[Key(user, p) := Base(p)] && forall k :: k != Key(user, p) ==> SameText(s, s', k)
  }

  method WriteRow(st: Store, e: IndexEntry) returns (ok: bool)
    requires e.name == Base(e.path)
    modifies st`fileIndex, st`fileFts, st`documents, st`faults
    ensures st.faults == old(st.faults) + if ok then 0 else 1
    ensures st.fileIndex == if ok then old(st.fileIndex)[KeyOf(e) := RowOf(e)] else old(st.fileIndex)
    ensures ok ==> RowWritten(old(SearchOf(st)), SearchOf(st), e.user, e.path)
  {
    ok := st.UpsertFileIndexEntry(e);
  }

  method WriteText(st: Store, d: Doc) returns (ok: bool)
    modifies st`documents, st`snippets, st`faults
    ensures st.faults == old(st.faults) + if ok then 0 else 1
    ensures ok ==> TextWritten(old(SearchOf(st)), SearchOf(st), d)
  {
    ok := st.UpsertDocumentTextEntry(d);
  }

  ghost predicate TextWritten(s: Search, s': Search, d: Doc) {
    s'.fts == s.fts && TextStored(s', DocKey(d), d.content) && forall k :: k != DocKey(d) ==> SameText(s, s', k)
  }

  lemma WrittenIsSearched(s: Search, m: Search, s': Search, user: int, p: string, d: Option<Doc>)
    requires RowWritten(s, m, user, p)
    requires if d.Some? then DocKey(d.value) == Key(user, p) && TextWritten(m, s', d.value) else s' == m
    ensures FileSearched(s, s', user, p, if d.Some? then Some(d.value.content) else None)
  {
    forall k | k != Key(user, p) ensures SameText(s, s', k) {
      assert SameText(s, m, k) && (d.Some? ==> SameText(m, s', k));
    }
  }

  /** scanSinglePath: the row, its search row and its text, without staging. */
  method ScanSinglePath(st: Store, ctx: R.Context, t: FS.Tree, home: Comps, user: int, cs: Comps, scan: string,
                        names: R.Naming, text: Reader) returns (r: PathScan)
    requires FS.WellFormed(t) && AllNames(cs) && cs != [] && home + cs in t && t[home + cs].FileNode?
    modifies st, ctx
    ensures !r.PathMissing? && st.staging == old(st.staging)
    ensures r.PathScanned? ==>
      && Refreshed(old(st.fileIndex), st.fileIndex, user, Render(cs), t, home, scan)
      && FileSearched(old(SearchOf(st)), SearchOf(st), user, Render(cs), IndexedText(t, home, Render(cs), names, text))
    ensures r.PathFailed? ==> st.faults > old(st.faults)
    ensures r.PathCanceled? ==> ctx.done && st.fileIndex == old(st.fileIndex) && SearchOf(st) == old(SearchOf(st))
    ensures ctx.cancels >= old(ctx.cancels) && (ctx.done ==> old(ctx.done) || ctx.cancels > old(ctx.cancels))
    ensures ctx.walkErrors >= old(ctx.walkErrors)
    ensures st.faults >= old(st.faults)
    ensures OthersKept(old(st.fileIndex), st.fileIndex, user)
  {
    var stop := ctx.Err();
    if stop { return PathCanceled; }
    var ok := WriteFile(st, t, home, user, cs, scan, names, text);
    r := if ok then PathScanned else PathFailed;
  }

  /** What scanSinglePath writes for a file. */
  method WriteFile(st: Store, t: FS.Tree, home: Comps, user: int, cs: Comps, scan: string, names: R.Naming,
                   text: Reader) returns (ok: bool)
    requires FS.WellFormed(t) && AllNames(cs) && cs != [] && home + cs in t && t[home + cs].FileNode?
    modifies st
    ensures st.staging == old(st.staging)
    ensures ok ==>
      && Refreshed(old(st.fileIndex), st.fileIndex, user, Render(cs), t, home, scan)
      && FileSearched(old(SearchOf(st)), SearchOf(st), user, Render(cs), IndexedText(t, home, Render(cs), names, text))
    ensures ok <==> st.faults == old(st.faults)
    ensures st.faults >= old(st.faults)
    ensures OthersKept(old(st.fileIndex), st.fileIndex, user)
  {
    ghost var base, before := st.fileIndex, SearchOf(st);
    PartsRender(cs);
    var item := R.ItemFor(user, Render(cs), InfoOf(t[home + cs], text), scan, names);
    ok := WriteRow(st, item.entry);
    if !ok { return; }
    OneFile(base, st.fileIndex, t, home, user, cs, scan, names, text);
    ghost var middle := SearchOf(st);
    if item.text.Some? {
      ok := WriteText(st, item.text.value);
      if !ok { return; }
    }
    WrittenIsSearched(before, middle, SearchOf(st), user, Render(cs), item.text);
  }

  /** scanUserPath of a clean path; a home is a folder. */
  method ScanUserPath(st: Store, ctx: R.Context, t: FS.Tree, home: Comps, user: int, cs: Comps, scan: string,
                      names: R.Naming, text: Reader) returns (r: PathScan)
    requires FS.WellFormed(t) && NamesOk(t, home) && AllNames(cs)
    requires cs == [] && home in t ==> t[home].DirNode?
    modifies st, ctx
    ensures r.PathScanned? ==>
        home + cs in t && Refreshed(old(st.fileIndex), st.fileIndex, user, Render(cs), t, home, scan)
    ensures r.PathScanned? && t[home + cs].FileNode? ==>
      && FileSearched(old(SearchOf(st)), SearchOf(st), user, Render(cs), IndexedText(t, home, Render(cs), names, text))
      && st.staging == old(st.staging)
    ensures r.PathScanned? && t[home + cs].DirNode? ==>
      && SearchOf(st) == old(SearchOf(st))
      && FolderStaged(old(st.fileIndex), old(st.staging), st.staging, user, Render(cs), t, home, names, text)
    ensures r.PathMissing? <==> home + cs !in t && !F.BelowFile(t, home + cs)
    ensures r.PathMissing? ==> st.fileIndex == old(st.fileIndex) && SearchOf(st) == old(SearchOf(st))
    ensures r.PathFailed? ==>
      ctx.walkErrors > old(ctx.walkErrors) || st.faults > old(st.faults) ||
      (home + cs !in t && F.BelowFile(t, home + cs))
    ensures home + cs !in t ==> st.fileIndex == old(st.fileIndex) && SearchOf(st) == old(SearchOf(st))
    ensures r.PathCanceled? ==> ctx.done
    ensures ctx.cancels >= old(ctx.cancels) && (ctx.done ==> old(ctx.done) || ctx.cancels > old(ctx.cancels))
    ensures ctx.walkErrors >= old(ctx.walkErrors)
    ensures st.faults >= old(st.faults)
    ensures OthersKept(old(st.fileIndex), st.fileIndex, user)
  {
    if home + cs !in t {
      // a path that goes on below a file is an error of another kind than a missing one
      return if F.BelowFile(t, home + cs) then PathFailed else PathMissing;
    }
    ghost var base := st.fileIndex;
    assert cs == [] ==> home + cs == home;
    if t[home + cs].FileNode? {
      r := ScanSinglePath(st, ctx, t, home, user, cs, scan, names, text);
      return;
    }
    ghost var staged := st.staging;
    var tree := WalkSubtree(t, home, cs, text);
    var received, ending := R.Deliver(ctx, user, tree, scan, names);
    R.ItemsBelong(received, user, tree, scan, names);
    var done := R.ScanUserTree(st, ctx, user, received, ending, scan, R.REINDEX_BATCH_SIZE);
    match done {
      case ScanFailed => return PathFailed;
      case ScanCanceled => return PathCanceled;
      case ScanDone =>
        TreeRefreshed(base, received, user, tree, cs, t, home, text, scan, names);
        TreeStaged(base, staged, received, user, tree, cs, t, home, text, scan, names);
        return PathScanned;
    }
  }

  lemma OneFile(index: Index, index': Index, t: FS.Tree, home: Comps, user: int, cs: Comps, scan: string,
                names: R.Naming, text: Reader)
    requires FS.WellFormed(t) && AllNames(cs) && cs != [] && home + cs in t && t[home + cs].FileNode?
    requires var e := R.EntryFor(user, Render(cs), InfoOf(t[home + cs], text), scan, names);
      index' == index[KeyOf(e) := RowOf(e)]
    ensures Refreshed(index, index', user, Render(cs), t, home, scan)
  {
    PartsRender(cs);
    FreshShows(user, Render(cs), t, home, text, scan, names);
    forall p | InScope(Render(cs), p) && Listed(t, home, p) != F.Absent ensures p == Render(cs) {
      ScopeIsPrefix(cs, p);
      OnlyTheFile(t, home, cs, p);
    }
    assert InSubtree(Render(cs), Render(cs));
  }

  /** refreshIndexPath; a failure is only logged. The deadline is one of the context's cancels. */
  method RefreshIndexPath(st: Store, ctx: R.Context, t: FS.Tree, home: Comps, user: int, cs: Comps, scan: string,
                          names: R.Naming, text: Reader) returns (ok: bool)
    requires FS.WellFormed(t) && NamesOk(t, home) && AllNames(cs) && cs != []
    modifies st, ctx
    ensures !ok ==> home + cs !in t || old(ctx.done) || ctx.cancels > old(ctx.cancels) ||
                    ctx.walkErrors > old(ctx.walkErrors) || st.faults > old(st.faults)
    ensures st.faults >= old(st.faults)
    ensures ok ==> home + cs in t && Refreshed(old(st.fileIndex), st.fileIndex, user, Render(cs), t, home, scan)
    // a file's search row and text are written, a folder's are not: what its scan stages is not applied
    ensures ok && t[home + cs].FileNode? ==>
      FileSearched(old(SearchOf(st)), SearchOf(st), user, Render(cs), IndexedText(t, home, Render(cs), names, text))
    ensures ok && t[home + cs].DirNode? ==> SearchOf(st) == old(SearchOf(st))
    ensures OthersKept(old(st.fileIndex), st.fileIndex, user)
  {
    var r := ScanUserPath(st, ctx, t, home, user, cs, scan, names, text);
    ok := r.PathScanned?;
  }

  // ---------------------------------------------------------------- the request

  ghost predicate Dropped(index: Index, index': Index, user: int, logical: string) {
    forall k: Key ::
        R.RowAt(index', k) == (if k.user == user && InDeletedRange(logical, k.path) then None else R.RowAt(index, k))
  }

  ghost predicate SearchDropped(s: Search, s': Search, user: int, logical: string) {
    forall k: Key ::
      if k.user == user && InDeletedRange(logical, k.path) then At(s'.fts, k) == None && NoText(s', k)
      else At(s'.fts, k) == At(s.fts, k) && SameText(s, s', k)
  }

  /** deleteIndexPath, by the path as the request spelled it. */
  method DeleteIndexPath(st: Store, user: int, logical: string) returns (ok: bool)
    modifies st
    ensures ok ==> Dropped(old(st.fileIndex), st.fileIndex, user, logical)
    ensures ok ==> SearchDropped(old(SearchOf(st)), SearchOf(st), user, logical)
    ensures st.faults == old(st.faults) + if ok then 0 else 1
    ensures OthersKept(old(st.fileIndex), st.fileIndex, user)
  {
    var affected := st.DeleteFileIndexPath(user, logical);
    ok := affected.Some?;
  }

  /** The search tables after deleting the range of from and refreshing to. */
  ghost predicate SearchFollows(s: Search, s': Search, user: int, from: string, to: string, isFile: bool,
                                content: Option<string>) {
    forall k: Key ::
      if isFile && k == Key(user, to) then At(s'.fts, k) == Some(Base(to)) &&
        (content.Some? ==> TextStored(s', k, content.value))
      else if k.user == user && InDeletedRange(from, k.path) then At(s'.fts, k) == None && NoText(s', k)
      else At(s'.fts, k) == At(s.fts, k) && SameText(s, s', k)
  }

  /** The entry at a path of the home, with everything below it, holds a text file. */
  ghost predicate TextUnder(t: FS.Tree, home: Comps, l: string, names: R.Naming, text: Reader) {
    exists p :: InSubtree(l, p) && IndexedText(t, home, p, names, text).Some?
  }

  /** A text file elsewhere in the home whose path differs from the folder's range only in case. */
  ghost predicate TextTwin(t: FS.Tree, home: Comps, from: string, names: R.Naming, text: Reader) {
    exists p :: CaseTwin(from, p) && IndexedText(t, home, p, names, text).Some?
  }

  /** A request that moved an entry, and what its index updates left. */
  ghost predicate MoveDone(index: Index, index': Index, s: Search, s': Search, user: int, t: FS.Tree, t': FS.Tree,
                           home: Comps, from: string, to: Comps, names: R.Naming, text: Reader) {
    && CleanLogical(from).Some? && CleanLogical(from).value != "/" && AllNames(to) && to != []
    && Matches(index, user, t, home) && FS.WellFormed(t) && FS.WellFormed(t')
    && home + to !in t && home + to in t'
    && F.MovedTree(t, t', home + Parts(CleanLogical(from).value), home + to)
    && Updated(index, index', user, from, Render(to), t', home) && OthersKept(index, index', user)
    && SearchFollows(s, s', user, from, Render(to), t'[home + to].FileNode?,
                     if t'[home + to].FileNode? then IndexedText(t', home, Render(to), names, text) else None)
  }

  /** After a move the search table names the indexed entries exactly when the moved entry is a file. */
  lemma MoveKeepsNamesIff(index: Index, index': Index, s: Search, s': Search, user: int, t: FS.Tree, t': FS.Tree,
                          home: Comps, from: string, to: Comps, names: R.Naming, text: Reader)
    requires MoveDone(index, index', s, s', user, t, t', home, from, to, names, text)
    requires NamesAgree(index, s.fts)
    ensures NamesAgree(index', s'.fts) <==> t'[home + to].FileNode?
  {
    var at := Key(user, Render(to));
    PartsRender(to);
    forall k: Key
      ensures At(s'.fts, k) == (if k in index' then Some(Base(k.path)) else None) <==>
              (k.user == user && InSubtree(Render(to), k.path) && Listed(t', home, k.path) != F.Absent ==>
                 t'[home + to].FileNode?)
    {
      NameAfterMove(index, index', s, s', user, t, t', home, from, to, names, text, k);
    }
    assert InSubtree(Render(to), at.path) && Listed(t', home, at.path) != F.Absent;
  }

  /** After a move all text is stored exactly when the moved entry is a file or holds no text file, and
      no text file was a case twin of it. */
  lemma MoveKeepsTextsIff(index: Index, index': Index, s: Search, s': Search, user: int, t: FS.Tree, t': FS.Tree,
                          home: Comps, from: string, to: Comps, names: R.Naming, text: Reader)
    requires MoveDone(index, index', s, s', user, t, t', home, from, to, names, text)
    requires SearchAgrees(index, s, user, t, home, names, text)
    ensures TextsAgree(s', user, t', home, names, text) <==>
              (t'[home + to].FileNode? || !TextUnder(t', home, Render(to), names, text)) &&
              !TextTwin(t, home, from, names, text)
  {
    forall p | IndexedText(t', home, p, names, text).Some?
      ensures TextStored(s', Key(user, p), IndexedText(t', home, p, names, text).value) <==>
              if InSubtree(Render(to), p) then t'[home + to].FileNode? else !CaseTwin(from, p)
      ensures !InSubtree(Render(to), p) ==> IndexedText(t, home, p, names, text).Some?
    {
      TextAfterMove(index, index', s, s', user, t, t', home, from, to, names, text, p);
    }
    forall p | CaseTwin(from, p) && IndexedText(t, home, p, names, text).Some?
      ensures !InSubtree(Render(to), p) && IndexedText(t', home, p, names, text).Some?
    {
      TwinStaysListed(t, t', home, from, to, p);
    }
  }

  /** A listed twin is neither moved nor covered. */
  lemma TwinStaysListed(t: FS.Tree, t': FS.Tree, home: Comps, from: string, to: Comps, p: string)
    requires CleanLogical(from).Some? && CleanLogical(from).value != "/" && AllNames(to) && to != []
    requires FS.WellFormed(t) && home + to !in t &&
             F.MovedTree(t, t', home + Parts(CleanLogical(from).value), home + to)
    requires CaseTwin(from, p) && Listed(t, home, p) != F.Absent
    ensures !InSubtree(Render(to), p) && Listed(t', home, p) == Listed(t, home, p)
  {
    RangeOfSpelling(from, p);
    MovedListing(t, t', home, Parts(CleanLogical(from).value), to, p);
  }

  /** Of the listed paths, the range of a spelling holds the twins and, if it is clean, the subtree. */
  lemma RangeOfSpelling(from: string, p: string)
    requires CleanLogical(from).Some? && CleanLogical(from).value != "/" && CleanPath(p)
    ensures var clean := CleanLogical(from).value;
      && CleanPath(clean)
      && (CaseTwin(from, p) ==> from == clean && !InSubtree(clean, p))
      && (InDeletedRange(from, p) <==> CaseTwin(from, p) || (from == clean && InSubtree(clean, p)))
  {
    CleanLogicalSound(from);
    DeletedRange(from, p);
    assert CleanLogical("").value == "/" by { CleanLogicalFixed([]); }
    var clean := CleanLogical(from).value;
    assert Parts(clean) == [] ==> clean == Render([]) == "/";
    if from != clean { UncleanDeletesNothing(from, p); }
  }

  lemma OnlyTheFile(t: FS.Tree, home: Comps, to: Comps, p: string)
    requires FS.WellFormed(t) && AllNames(to) && to != [] && home + to in t && t[home + to].FileNode?
    requires InSubtree(Render(to), p) && Listed(t, home, p) != F.Absent
    ensures p == Render(to)
  {
    InSubtreeIsPrefix(to, p);
    HomePrefix(home, to, Parts(p));
    FS.AncestorsExist(t, home + to, home + Parts(p));
    assert Parts(p) == Parts(p)[..|to|];
  }

  lemma NameAfterMove(index: Index, index': Index, s: Search, s': Search, user: int, t: FS.Tree, t': FS.Tree,
                      home: Comps, from: string, to: Comps, names: R.Naming, text: Reader, k: Key)
    requires MoveDone(index, index', s, s', user, t, t', home, from, to, names, text)
    requires NamesAgree(index, s.fts)
    ensures At(s'.fts, k) == (if k in index' then Some(Base(k.path)) else None) <==>
            (k.user == user && InSubtree(Render(to), k.path) && Listed(t', home, k.path) != F.Absent ==>
               t'[home + to].FileNode?)
  {
    var p, isFile := k.path, t'[home + to].FileNode?;
    PartsRender(to);
    CleanLogicalSound(from);
    assert R.RowAt(index, k).Some? <==> k in index;
    assert R.RowAt(index', k).Some? <==> k in index';
    if k.user == user {
      MovedListing(t, t', home, Parts(CleanLogical(from).value), to, p);
      assert RowShows(R.RowAt(index, k), Listed(t, home, p), p);
      if InSubtree(Render(to), p) && Listed(t', home, p) != F.Absent {
        assert RowShows(R.RowAt(index', k), Listed(t', home, p), p);
        if isFile { OnlyTheFile(t', home, to, p); }
      } else {
        assert R.RowAt(index', k) == if InDeletedRange(from, p) then None else R.RowAt(index, k);
        assert Listed(t', home, Render(to)) != F.Absent && InSubtree(Render(to), Render(to));
      }
    }
  }

  lemma TextAfterMove(index: Index, index': Index, s: Search, s': Search, user: int, t: FS.Tree, t': FS.Tree,
                      home: Comps, from: string, to: Comps, names: R.Naming, text: Reader, p: string)
    requires MoveDone(index, index', s, s', user, t, t', home, from, to, names, text)
    requires SearchAgrees(index, s, user, t, home, names, text)
    requires IndexedText(t', home, p, names, text).Some?
    ensures TextStored(s', Key(user, p), IndexedText(t', home, p, names, text).value) <==>
            if InSubtree(Render(to), p) then t'[home + to].FileNode? else !CaseTwin(from, p)
    ensures !InSubtree(Render(to), p) ==> Listed(t, home, p) == Listed(t', home, p)
  {
    var k, isFile := Key(user, p), t'[home + to].FileNode?;
    RangeOfSpelling(from, p);
    CleanLogicalSound(from);
    MovedListing(t, t', home, Parts(CleanLogical(from).value), to, p);
    assert InSubtree(Render(to), Render(to));
    if InSubtree(Render(to), p) {
      assert NoText(s, k);
      if isFile { OnlyTheFile(t', home, to, p); }
    } else {
      assert IndexedText(t, home, p, names, text) == IndexedText(t', home, p, names, text);
      assert TextStored(s, k, IndexedText(t, home, p, names, text).value);
    }
  }

  lemma FileFollows(s: Search, m: Search, s': Search, user: int, from: string, to: string, content: Option<string>)
    requires SearchDropped(s, m, user, from) && FileSearched(m, s', user, to, content)
    ensures SearchFollows(s, s', user, from, to, true, content)
  {
    forall k: Key | k != Key(user, to) ensures At(s'.fts, k) == At(m.fts, k) && SameText(m, s', k) {}
  }

  lemma FolderFollows(s: Search, s': Search, user: int, from: string, to: string)
    requires SearchDropped(s, s', user, from)
    ensures SearchFollows(s, s', user, from, to, false, None)
  {}

  lemma UpdatedBy(index: Index, middle: Index, index': Index, user: int, from: string, to: Comps, t': FS.Tree,
                  home: Comps, scan: string)
    requires AllNames(to) && to != [] && Dropped(index, middle, user, from)
    requires Refreshed(middle, index', user, Render(to), t', home, scan)
    ensures Updated(index, index', user, from, Render(to), t', home) && OthersKept(index, index', user)
  {
    JoinNonEmpty(to);
    forall k: Key | k.user != user ensures R.RowAt(index', k) == R.RowAt(index, k) {
      assert R.RowAt(middle, k) == R.RowAt(index, k);
    }
    forall p
      ensures R.RowAt(middle, Key(user, p)) == if InDeletedRange(from, p) then None else R.RowAt(index, Key(user, p))
    {}
  }

  /** The move request. indexed tells whether both index updates went through. */
  method Move(svc: F.Service, st: Store, ctx: R.Context, user: F.User, from: string, to: string, now: int,
              scan: string, names: R.Naming, text: Reader) returns (r: F.Outcome, indexed: bool)
    requires svc.Valid() && svc.HomeOk(user)
    requires Matches(st.fileIndex, user.id, svc.disk.tree, user.home) && NamesOk(svc.disk.tree, user.home)
    modifies svc.disk, st, ctx
    ensures !r.Broken? ==> svc.Valid()
    ensures r.Done? ==> CleanLogical(from).Some?
    ensures r.Done? && !indexed ==> old(ctx.done) || ctx.cancels > old(ctx.cancels) ||
                                    ctx.walkErrors > old(ctx.walkErrors) || st.faults > old(st.faults)
    ensures r.Done? && indexed ==>
      (Matches(st.fileIndex, user.id, svc.disk.tree, user.home) <==>
        from == CleanLogical(from).value && !TwinStored(old(svc.disk.tree), user.home, from))
    ensures r.Done? && indexed ==> OthersKept(old(st.fileIndex), st.fileIndex, user.id)
    // the search tables: right afterwards for a file, and for a folder only where nothing in it is searched
    ensures r.Done? && indexed &&
            old(SearchAgrees(st.fileIndex, SearchOf(st), user.id, svc.disk.tree, user.home, names, text)) ==>
      && user.home + r.path in svc.disk.tree
      && var isFile := svc.disk.tree[user.home + r.path].FileNode?;
      && (NamesAgree(st.fileIndex, st.fileFts) <==> isFile)
      && (TextsAgree(SearchOf(st), user.id, svc.disk.tree, user.home, names, text) <==>
           (isFile || !TextUnder(svc.disk.tree, user.home, Render(r.path), names, text)) &&
           !TextTwin(old(svc.disk.tree), user.home, from, names, text))
    ensures !r.Done? ==> st.fileIndex == old(st.fileIndex) && SearchOf(st) == old(SearchOf(st))
    ensures !r.Done? && !r.Broken? ==> Matches(st.fileIndex, user.id, svc.disk.tree, user.home)
  {
    ghost var t, index, search := svc.disk.tree, st.fileIndex, SearchOf(st);
    indexed := false;
    r := svc.Move(user, from, to, now);
    if !r.Done? {
      SameListing(index, user, t, svc.disk.tree, r);
      return;
    }
    MovedNames(t, svc.disk.tree, user.home, from, to);
    MovedIsThere(t, svc.disk.tree, user.home, Parts(CleanLogical(from).value), r.path);
    indexed := FollowMove(st, ctx, svc.disk.tree, user, from, r.path, scan, names, text);
    if indexed {
      MoveKeepsIndexIff(index, st.fileIndex, user.id, t, svc.disk.tree, user.home, from, r.path);
      if SearchAgrees(index, search, user.id, t, user.home, names, text) {
        MoveKeepsNamesIff(index, st.fileIndex, search, SearchOf(st), user.id, t, svc.disk.tree, user.home, from, r.path,
                          names, text);
        MoveKeepsTextsIff(index, st.fileIndex, search, SearchOf(st), user.id, t, svc.disk.tree, user.home, from, r.path,
                          names, text);
      }
    }
  }

  /** deleteIndexPath and refreshIndexPath, as every move request runs them. */
  method FollowMove(st: Store, ctx: R.Context, t: FS.Tree, user: F.User, from: string, to: Comps, scan: string,
                    names: R.Naming, text: Reader) returns (indexed: bool)
    requires FS.WellFormed(t) && NamesOk(t, user.home) && AllNames(to) && to != []
    modifies st, ctx
    ensures !indexed ==> user.home + to !in t || old(ctx.done) || ctx.cancels > old(ctx.cancels) ||
                         ctx.walkErrors > old(ctx.walkErrors) || st.faults > old(st.faults)
    ensures indexed ==> Updated(old(st.fileIndex), st.fileIndex, user.id, from, Render(to), t, user.home)
    ensures indexed ==> OthersKept(old(st.fileIndex), st.fileIndex, user.id)
    ensures indexed ==> user.home + to in t
    ensures indexed ==>
      SearchFollows(old(SearchOf(st)), SearchOf(st), user.id, from, Render(to), t[user.home + to].FileNode?,
                    if t[user.home + to].FileNode? then IndexedText(t, user.home, Render(to), names, text) else None)
  {
    ghost var index, search := st.fileIndex, SearchOf(st);
    var dropped := DeleteIndexPath(st, user.id, from);
    ghost var middle, between := st.fileIndex, SearchOf(st);
    indexed := RefreshIndexPath(st, ctx, t, user.home, user.id, to, scan, names, text);
    indexed := indexed && dropped;
    if indexed {
      UpdatedBy(index, middle, st.fileIndex, user.id, from, to, t, user.home, scan);
      if t[user.home + to].FileNode? {
        FileFollows(search, between, SearchOf(st), user.id, from, Render(to),
                    IndexedText(t, user.home, Render(to), names, text));
      } else {
        FolderFollows(search, between, user.id, from, Render(to));
      }
    }
  }

  lemma MovedIsThere(t: FS.Tree, t': FS.Tree, home: Comps, from: Comps, to: Comps)
    requires home + from in t && F.MovedTree(t, t', home + from, home + to)
    ensures home + to in t'
  {
    assert F.ShapeAt(t', home + to) == F.MovedShape(t, home + from, home + to, home + to);
    assert FS.Source(home + from, home + to, home + to) == home + from;
  }

  lemma SameListing(index: Index, user: F.User, t: FS.Tree, t': FS.Tree, r: F.Outcome)
    requires Matches(index, user.id, t, user.home) && (!r.Broken? ==> F.SameShapes(t, t'))
    ensures !r.Broken? ==> Matches(index, user.id, t', user.home)
  {
    if !r.Broken? {
      forall p ensures RowShows(R.RowAt(index, Key(user.id, p)), Listed(t', user.home, p), p) {
        assert Listed(t', user.home, p) == Listed(t, user.home, p);
      }
    }
  }

  lemma NameUnder(t: FS.Tree, home: Comps, f: Comps, g: Comps, q: Comps)
    requires NamesOk(t, home) && AllNames(g) && IsPrefix(home + g, q) && FS.Source(home + f, home + g, q) in t
    ensures AllNames(q[|home|..])
  {
    var rest := q[|home + g|..];
    var s := FS.Source(home + f, home + g, q);
    assert s[..|home|] == home && s[|home|..] == f + rest;
    assert AllNames(f + rest);
    assert forall i :: 0 <= i < |rest| ==> rest[i] == (f + rest)[|f| + i];
    assert q == (home + g) + rest;
    assert q[|home|..] == g + rest;
  }

  /** Names stay free of backslashes: the target is a clean path and the rest keeps its names. */
  lemma MovedNames(t: FS.Tree, t': FS.Tree, home: Comps, from: string, to: string)
    requires CleanLogical(from).Some? && CleanLogical(to).Some? && NamesOk(t, home)
    requires F.MovedTree(t, t', home + Parts(CleanLogical(from).value), home + Parts(CleanLogical(to).value))
    ensures NamesOk(t', home)
    ensures AllNames(Parts(CleanLogical(to).value))
    ensures CleanLogical(from).value == "/" ==> Parts(CleanLogical(from).value) == []
  {
    var f, g := Parts(CleanLogical(from).value), Parts(CleanLogical(to).value);
    CleanLogicalSound(to);
    forall q | q in t' && IsPrefix(home, q) ensures AllNames(q[|home|..]) {
      assert F.ShapeAt(t', q) == F.MovedShape(t, home + f, home + g, q);
      if IsPrefix(home + g, q) {
        NameUnder(t, home, f, g, q);
      }
    }
  }
}
