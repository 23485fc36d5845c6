/** The derived tables of internal/store/index.go, as a class whose methods are the SQL transactions.
    Any transaction may fail; it then leaves every table as it was. */
module IndexStore {
  import opened Strings
  import opened LogicalPaths
  import opened LikePattern

  datatype EntryType = DirEntry | FileEntry

  /** Primary key of file_index; it also names the row of file_index_fts and document_snippets. */
  datatype Key = Key(user: int, path: string)

  datatype Row = Row(parent: string, name: string, typ: EntryType, size: int, modifiedAt: int,
                     mime: string, kind: string, lastSeen: string)

  datatype IndexEntry = IndexEntry(user: int, path: string, name: string, typ: EntryType, size: int,
                                   modifiedAt: int, mime: string, kind: string, lastSeen: string)

  /** A row of document_fts or document_staging. */
  datatype Doc = Doc(user: int, path: string, content: string)

  datatype Stamp = Stamp(size: int, modifiedAt: int)

  type Index = map<Key, Row>

  function ParentPathForIndex(logical: string): string {
    if logical == "" || logical == "/" then "/"
    else
      var parent := Dir(logical);
      if parent == "." || parent == "" then "/" else parent
  }

  /** The parent column of a clean path is its folder. */
  lemma ParentOfChild(cs: Comps, n: string)
    requires AllPlain(cs) && Plain(n)
    ensures ParentPathForIndex(Render(cs + [n])) == Render(cs)
  {
    BaseAndDir(cs, n);
    RenderEndsPlain(cs + [n]);
  }

  /** The home itself and a bare name have the root as their folder. */
  lemma ParentOfTop(n: string)
    requires Plain(n)
    ensures ParentPathForIndex("") == "/" && ParentPathForIndex("/") == "/" && ParentPathForIndex(n) == "/"
  {
    SplitNoSep(n, '/');
    assert n != "/" by { assert "/"[0] in "/"; }
  }

  function KeyOf(e: IndexEntry): Key { Key(e.user, e.path) }

  function RowOf(e: IndexEntry): Row {
    Row(ParentPathForIndex(e.path), e.name, e.typ, e.size, e.modifiedAt, e.mime, e.kind, e.lastSeen)
  }

  function DocKey(d: Doc): Key { Key(d.user, d.path) }

  function StampOf(r: Row): Stamp { Stamp(r.size, r.modifiedAt) }

  // ---------------------------------------------------------------- effects on file_index

  /** INSERT ... ON CONFLICT DO UPDATE for each entry in turn. */
  function Upserted(index: Index, entries: seq<IndexEntry>): Index
    decreases |entries|
  {
    if entries == [] then index
    else
      var e := entries[|entries|-1];
      Upserted(index, entries[..|entries|-1])[KeyOf(e) := RowOf(e)]
  }

  function TouchOne(index: Index, k: Key, scan: string): Index {
    if k in index then index[k := index[k].(lastSeen := scan)] else index
  }

  /** UPDATE ... SET last_seen_scan for each path in turn. */
  function Touched(index: Index, user: int, paths: seq<string>, scan: string): Index
    decreases |paths|
  {
    if paths == [] then index
    else TouchOne(Touched(index, user, paths[..|paths|-1], scan), Key(user, paths[|paths|-1]), scan)
  }

  function Snapshot(index: Index, user: int): map<string, Stamp> {
    map k | k in index && k.user == user :: k.path := StampOf(index[k])
  }

  /** The rows already read by LoadFileIndexSnapshot. */
  ghost predicate SnapshotSoFar(index: Index, user: int, left: set<Key>, snap: map<string, Stamp>) {
    && (forall p :: p in snap <==> Key(user, p) in index && Key(user, p) !in left)
    && (forall p :: p in snap ==> snap[p] == StampOf(index[Key(user, p)]))
  }

  lemma SnapshotGrows(index: Index, user: int, left: set<Key>, snap: map<string, Stamp>, k: Key)
    requires SnapshotSoFar(index, user, left, snap) && k in left && k in index && k.user == user
    ensures SnapshotSoFar(index, user, left - {k}, snap[k.path := StampOf(index[k])])
  {
    assert k == Key(user, k.path);
  }

  lemma SnapshotDone(index: Index, user: int, snap: map<string, Stamp>)
    requires SnapshotSoFar(index, user, {}, snap)
    ensures snap == Snapshot(index, user)
  {
    forall k | k in index && k.user == user ensures k.path in snap {
      assert k == Key(user, k.path);
    }
  }

  predicate NotSeen(index: Index, user: int, scan: string, k: Key) {
    k in index && k.user == user && index[k].lastSeen != scan
  }

  /** A table without one user's LIKE range. */
  ghost function OutOfRange<V>(table: map<Key, V>, user: int, logical: string): map<Key, V> {
    map k | k in table && !(k.user == user && InDeletedRange(logical, k.path)) :: table[k]
  }

  lemma DropRange<V>(table: map<Key, V>, drop: set<Key>, user: int, logical: string)
    requires forall k :: k in drop ==> k.user == user && InDeletedRange(logical, k.path)
    requires forall k :: k in table && k.user == user && InDeletedRange(logical, k.path) ==> k in drop
    ensures table - drop == OutOfRange(table, user, logical)
  {}

  // ---------------------------------------------------------------- rows of the document tables

  /** The contents stored under one key, in row order. */
  function Contents(docs: seq<Doc>, k: Key): seq<string> {
    if docs == [] then []
    else (if DocKey(docs[0]) == k then [docs[0].content] else []) + Contents(docs[1..], k)
  }

  function Without(docs: seq<Doc>, drop: set<Key>): seq<Doc> {
    if docs == [] then []
    else (if DocKey(docs[0]) in drop then [] else [docs[0]]) + Without(docs[1..], drop)
  }

  function DocKeys(docs: seq<Doc>): set<Key> {
    set i | 0 <= i < |docs| :: DocKey(docs[i])
  }

  lemma {:induction false} ContentsConcat(a: seq<Doc>, b: seq<Doc>, k: Key)
    ensures Contents(a + b, k) == Contents(a, k) + Contents(b, k)
  {
    if a == [] {
      assert a + b == b;
    } else {
      assert (a + b)[1..] == a[1..] + b;
      ContentsConcat(a[1..], b, k);
    }
  }

  lemma {:induction false} ContentsWithout(docs: seq<Doc>, drop: set<Key>, k: Key)
    ensures Contents(Without(docs, drop), k) == if k in drop then [] else Contents(docs, k)
  {
    if docs != [] {
      ContentsWithout(docs[1..], drop, k);
      ContentsConcat(if DocKey(docs[0]) in drop then [] else [docs[0]], Without(docs[1..], drop), k);
    }
  }

  lemma {:induction false} ContentsNonEmpty(docs: seq<Doc>, k: Key)
    ensures k in DocKeys(docs) <==> Contents(docs, k) != []
  {
    if docs != [] {
      ContentsNonEmpty(docs[1..], k);
      assert DocKeys(docs) == {DocKey(docs[0])} + DocKeys(docs[1..]) by {
        forall q ensures q in DocKeys(docs) <==> q in {DocKey(docs[0])} + DocKeys(docs[1..]) {
          if q in DocKeys(docs) {
            var i :| 0 <= i < |docs| && DocKey(docs[i]) == q;
            if i > 0 { assert docs[1..][i-1] == docs[i]; }
          }
          if q in DocKeys(docs[1..]) {
            var i :| 0 <= i < |docs[1..]| && DocKey(docs[1..][i]) == q;
            assert docs[i+1] == docs[1..][i];
          }
        }
      }
    }
  }

  /** The snippet column: the first 500 characters. */
  function SnippetOf(content: string): string {
    if |content| > 500 then content[..500] else content
  }

  /** It is the text itself, or its first 500 characters when it is longer. */
  lemma SnippetIs(content: string)
    ensures SnippetOf(content) <= content && |SnippetOf(content)| == if |content| < 500 then |content| else 500
  {}

  /** INSERT OR REPLACE INTO document_snippets for each row in turn. */
  function PutSnippets(snippets: map<Key, string>, docs: seq<Doc>): map<Key, string>
    decreases |docs|
  {
    if docs == [] then snippets
    else
      var d := docs[|docs|-1];
      PutSnippets(snippets, docs[..|docs|-1])[DocKey(d) := SnippetOf(d.content)]
  }

  lemma {:induction false} PutSnippetsAt(snippets: map<Key, string>, docs: seq<Doc>, k: Key)
    ensures var r := PutSnippets(snippets, docs);
            var c := Contents(docs, k);
            (k in r <==> c != [] || k in snippets) &&
            (k in r ==> r[k] == if c != [] then SnippetOf(c[|c|-1]) else snippets[k])
    decreases |docs|
  {
    if docs != [] {
      var front := docs[..|docs|-1];
      PutSnippetsAt(snippets, front, k);
      assert docs == front + [docs[|docs|-1]];
      ContentsConcat(front, [docs[|docs|-1]], k);
    }
  }

  /** What a key's documents and snippet are once staging has been applied. */
  ghost predicate AppliedAt(k: Key, live: bool, staged: seq<string>, was: seq<string>, now: seq<string>,
                            snipWas: Option<string>, snipNow: Option<string>)
  {
    && now == (if !live then [] else if staged != [] then staged else was)
    && snipNow == (if !live then None
                   else if staged != [] then Some(SnippetOf(staged[|staged|-1]))
                   else snipWas)
  }

  /** Delete what staging replaces, append staging, delete what has no live row. */
  lemma AppliedContents(docs: seq<Doc>, staged: seq<Doc>, live: set<Key>, k: Key)
    ensures var all := Without(docs, DocKeys(staged)) + staged;
            Contents(Without(all, DocKeys(all) - live), k) ==
              if k !in live then [] else if Contents(staged, k) != [] then Contents(staged, k) else Contents(docs, k)
  {
    var kept := Without(docs, DocKeys(staged));
    ContentsWithout(docs, DocKeys(staged), k);
    ContentsNonEmpty(staged, k);
    ContentsConcat(kept, staged, k);
    ContentsNonEmpty(kept + staged, k);
    ContentsWithout(kept + staged, DocKeys(kept + staged) - live, k);
  }

  function At(m: map<Key, string>, k: Key): Option<string> {
    if k in m then Some(m[k]) else None
  }

  class Store {
    var fileIndex: Index
    var fileFts: map<Key, string>
    var documents: seq<Doc>
    var snippets: map<Key, string>
    var staging: seq<Doc>
    /** How many transactions have failed so far. */
    ghost var faults: nat

    constructor ()
      ensures faults == 0
      ensures fileIndex == map[] && fileFts == map[] && documents == [] && snippets == map[] && staging == []
    {
      fileIndex, fileFts, documents, snippets, staging, faults := map[], map[], [], map[], [], 0;
    }

    /** Whether the transaction under way fails. */
    method Fails() returns (failed: bool)
      modifies this`faults
      ensures faults == old(faults) + if failed then 1 else 0
    {
      failed := *;
      faults := faults + if failed then 1 else 0;
    }

    /** Writes file_index only; the search tables are rebuilt after a scan. */
    method UpsertIndexBatch(entries: seq<IndexEntry>) returns (ok: bool)
      modifies this`fileIndex, this`faults
      ensures faults == old(faults) + if ok then 0 else 1
      ensures fileIndex == if ok then Upserted(old(fileIndex), entries) else old(fileIndex)
    {
      var tx := fileIndex;
      for i := 0 to |entries|
        invariant tx == Upserted(fileIndex, entries[..i])
        invariant fileIndex == old(fileIndex) && faults == old(faults)
      {
        var failed := Fails();
        if failed { return false; }
        var e := entries[i];
        tx := tx[KeyOf(e) := RowOf(e)];
        assert entries[..i+1][..i] == entries[..i];
      }
      var failed := Fails();
      if failed { return false; }
      assert entries[..|entries|] == entries;
      fileIndex := tx;
      return true;
    }

    method TouchFileIndexEntries(user: int, paths: seq<string>, scan: string) returns (ok: bool)
      modifies this`fileIndex, this`faults
      ensures faults == old(faults) + if ok then 0 else 1
      ensures fileIndex == if ok then Touched(old(fileIndex), user, paths, scan) else old(fileIndex)
    {
      var tx := fileIndex;
      for i := 0 to |paths|
        invariant tx == Touched(fileIndex, user, paths[..i], scan)
        invariant fileIndex == old(fileIndex) && faults == old(faults)
      {
        var failed := Fails();
        if failed { return false; }
        tx := TouchOne(tx, Key(user, paths[i]), scan);
        assert paths[..i+1][..i] == paths[..i];
      }
      var failed := Fails();
      if failed { return false; }
      assert paths[..|paths|] == paths;
      fileIndex := tx;
      return true;
    }

    /** Reads (size, mtime) of every row of one user. */
    method LoadFileIndexSnapshot(user: int) returns (r: Option<map<string, Stamp>>)
      modifies this`faults
      ensures faults == old(faults) + if r.Some? then 0 else 1
      ensures r.Some? ==> r.value == Snapshot(fileIndex, user)
    {
      var failed := Fails();
      if failed { return None; }
      var rows := set k | k in fileIndex && k.user == user;
      var left := rows;
      var snap: map<string, Stamp> := map[];
      while left != {}
        invariant left <= rows
        invariant SnapshotSoFar(fileIndex, user, left, snap) && faults == old(faults)
        decreases |left|
      {
        var k :| k in left;
        SnapshotGrows(fileIndex, user, left, snap, k);
        snap := snap[k.path := StampOf(fileIndex[k])];
        left := left - {k};
      }
      SnapshotDone(fileIndex, user, snap);
      return Some(snap);
    }

    method TruncateDocumentStaging() returns (ok: bool)
      modifies this`staging, this`faults
      ensures faults == old(faults) + if ok then 0 else 1
      ensures staging == if ok then [] else old(staging)
    {
      var failed := Fails();
      if failed { return false; }
      staging := [];
      return true;
    }

    method UpsertDocumentStaging(entries: seq<Doc>) returns (ok: bool)
      modifies this`staging, this`faults
      ensures faults == old(faults) + if ok then 0 else 1
      ensures staging == if ok then old(staging) + entries else old(staging)
    {
      var failed := Fails();
      if failed { return false; }
      staging := staging + entries;
      return true;
    }

    /** Replaces documents that have a staged text, then removes everything without a file_index row. */
    method ApplyDocumentStaging() returns (ok: bool)
      modifies this`documents, this`snippets, this`faults
      ensures faults == old(faults) + if ok then 0 else 1
      ensures !ok ==> documents == old(documents) && snippets == old(snippets)
      ensures ok ==> forall k :: AppliedAt(k, k in fileIndex, Contents(staging, k),
                                           old(Contents(documents, k)), Contents(documents, k),
                                           old(At(snippets, k)), At(snippets, k))
    {
      var failed := Fails();
      if failed { return false; }
      var tx := Without(documents, DocKeys(staging));
      tx := tx + staging;
      tx := Without(tx, DocKeys(tx) - fileIndex.Keys);
      var sn := PutSnippets(snippets, staging);
      sn := map k | k in sn && k in fileIndex :: sn[k];
      failed := Fails();
      if failed { return false; }
      forall k ensures AppliedAt(k, k in fileIndex, Contents(staging, k), Contents(documents, k), Contents(tx, k),
                                 At(snippets, k), At(sn, k))
      {
        AppliedContents(documents, staging, fileIndex.Keys, k);
        PutSnippetsAt(snippets, staging, k);
      }
      documents, snippets := tx, sn;
      return true;
    }

    method RebuildFileIndexFTS() returns (ok: bool)
      modifies this`fileFts, this`faults
      ensures faults == old(faults) + if ok then 0 else 1
      ensures fileFts == if ok then (map k | k in fileIndex :: fileIndex[k].name) else old(fileFts)
    {
      var failed := Fails();
      if failed { return false; }
      fileFts := map k | k in fileIndex :: fileIndex[k].name;
      return true;
    }

    /** Drops one set of keys from the four tables, in one transaction. */
    method DeleteKeys(drop: set<Key>) returns (ok: bool)
      modifies this`fileIndex, this`fileFts, this`documents, this`snippets, this`faults
      ensures faults == old(faults) + if ok then 0 else 1
      ensures fileIndex == (if ok then old(fileIndex) - drop else old(fileIndex))
      ensures fileFts == (if ok then old(fileFts) - drop else old(fileFts))
      ensures snippets == (if ok then old(snippets) - drop else old(snippets))
      ensures forall k :: Contents(documents, k) == if ok && k in drop then [] else old(Contents(documents, k))
    {
      var fts := fileFts - drop;
      var failed := Fails();
      if failed { return false; }
      var docs := Without(documents, drop);
      failed := Fails();
      if failed { return false; }
      forall k { ContentsWithout(documents, drop, k); }
      fileFts, documents, snippets, fileIndex := fts, docs, snippets - drop, fileIndex - drop;
      return true;
    }

    /** Removes a user's rows that the scan did not reach, and their search rows. */
    method DeleteFileIndexEntriesNotSeen(user: int, scan: string) returns (affected: Option<int>)
      modifies this`fileIndex, this`fileFts, this`documents, this`snippets, this`faults
      ensures faults == old(faults) + if affected.Some? then 0 else 1
      ensures fileIndex == (if affected.None? then old(fileIndex) else
                              map k | k in old(fileIndex) && !NotSeen(old(fileIndex), user, scan, k) ::
                                old(fileIndex)[k])
      ensures forall k :: Contents(documents, k) ==
                if affected.Some? && NotSeen(old(fileIndex), user, scan, k) then [] else old(Contents(documents, k))
      ensures forall k :: At(snippets, k) ==
                if affected.Some? && NotSeen(old(fileIndex), user, scan, k) then None else old(At(snippets, k))
      ensures fileFts == (if affected.None? then old(fileFts) else
                            map k | k in old(fileFts) && !NotSeen(old(fileIndex), user, scan, k) :: old(fileFts)[k])
      ensures affected.Some? ==>
          affected.value == |set k | k in old(fileIndex) && NotSeen(old(fileIndex), user, scan, k)|
    {
      var drop := set k | k in fileIndex && k.user == user && fileIndex[k].lastSeen != scan;
      assert drop == set k | k in fileIndex && NotSeen(fileIndex, user, scan, k);
      var ok := DeleteKeys(drop);
      return if ok then Some(|drop|) else None;
    }

    /** WHERE user_id = ? AND (path = ? OR path LIKE ? ESCAPE '\'), over some stored keys. */
    method RangeKeys(stored: set<Key>, user: int, logical: string) returns (found: set<Key>)
      ensures forall k :: k in found <==> k in stored && k.user == user && InDeletedRange(logical, k.path)
    {
      var pattern := EscapeLikePattern(logical);
      pattern := pattern + "/%";
      found := set k | k in stored && k.user == user && (k.path == logical || Like(pattern, k.path));
    }

    /** The same, limited to one folder's LIKE range. */
    method DeleteFileIndexEntriesNotSeenUnder(user: int, scan: string, logical: string) returns (affected: Option<int>)
      modifies this`fileIndex, this`fileFts, this`documents, this`snippets, this`faults
      ensures faults == old(faults) + if affected.Some? then 0 else 1
      ensures fileIndex == (if affected.None? then old(fileIndex) else
                map k | k in old(fileIndex) && !(NotSeen(old(fileIndex), user, scan, k) &&
                        (logical in {"", "/"} || InDeletedRange(logical, k.path))) :: old(fileIndex)[k])
      ensures fileFts == (if affected.None? then old(fileFts) else
                map k | k in old(fileFts) && !(NotSeen(old(fileIndex), user, scan, k) &&
                        (logical in {"", "/"} || InDeletedRange(logical, k.path))) :: old(fileFts)[k])
      ensures forall k :: Contents(documents, k) ==
                if affected.Some? && NotSeen(old(fileIndex), user, scan, k) &&
                   (logical in {"", "/"} || InDeletedRange(logical, k.path))
                then [] else old(Contents(documents, k))
      ensures forall k :: At(snippets, k) ==
                if affected.Some? && NotSeen(old(fileIndex), user, scan, k) &&
                   (logical in {"", "/"} || InDeletedRange(logical, k.path))
                then None else old(At(snippets, k))
    {
      if logical == "" || logical == "/" {
        affected := DeleteFileIndexEntriesNotSeen(user, scan);
        return;
      }
      var range := RangeKeys(fileIndex.Keys, user, logical);
      var drop := set k | k in range && fileIndex[k].lastSeen != scan;
      var ok := DeleteKeys(drop);
      return if ok then Some(|drop|) else None;
    }

    /** The keys of all four tables in the LIKE range. */
    method StoredInRange(user: int, logical: string) returns (found: set<Key>)
      ensures forall k :: k in found ==> k.user == user && InDeletedRange(logical, k.path)
      ensures forall k :: k in fileIndex && k.user == user && InDeletedRange(logical, k.path) ==> k in found
      ensures forall k :: k in fileFts && k.user == user && InDeletedRange(logical, k.path) ==> k in found
      ensures forall k :: k in snippets && k.user == user && InDeletedRange(logical, k.path) ==> k in found
      ensures forall k: Key ::
                k.user == user && InDeletedRange(logical, k.path) && k !in found ==> Contents(documents, k) == []
    {
      found := RangeKeys(fileIndex.Keys + fileFts.Keys + snippets.Keys + DocKeys(documents), user, logical);
      forall k { ContentsNonEmpty(documents, k); }
    }

    /** Removes a path and its LIKE range from all four tables. */
    method DeleteFileIndexPath(user: int, logical: string) returns (affected: Option<int>)
      modifies this`fileIndex, this`fileFts, this`documents, this`snippets, this`faults
      ensures faults == old(faults) + if affected.Some? then 0 else 1
      ensures fileIndex == if affected.None? then old(fileIndex) else OutOfRange(old(fileIndex), user, logical)
      ensures fileFts == if affected.None? then old(fileFts) else OutOfRange(old(fileFts), user, logical)
      ensures snippets == if affected.None? then old(snippets) else OutOfRange(old(snippets), user, logical)
      ensures forall k :: Contents(documents, k) ==
                if affected.Some? && k.user == user && InDeletedRange(logical, k.path)
                then [] else old(Contents(documents, k))
    {
      var drop := StoredInRange(user, logical);
      var gone := |fileIndex.Keys * drop|;
      DropRange(fileIndex, drop, user, logical);
      DropRange(fileFts, drop, user, logical);
      DropRange(snippets, drop, user, logical);
      var ok := DeleteKeys(drop);
      return if ok then Some(gone) else None;
    }

    /** One row with its search row; a row that carries no text loses its documents. */
    method UpsertFileIndexEntry(e: IndexEntry) returns (ok: bool)
      modifies this`fileIndex, this`fileFts, this`documents, this`faults
      ensures faults == old(faults) + if ok then 0 else 1
      ensures fileIndex == if ok then old(fileIndex)[KeyOf(e) := RowOf(e)] else old(fileIndex)
      ensures fileFts == if ok then old(fileFts)[KeyOf(e) := e.name] else old(fileFts)
      ensures forall k :: Contents(documents, k) ==
                if ok && k == KeyOf(e) && (e.typ != FileEntry || e.kind !in {"text", "markdown"})
                then [] else old(Contents(documents, k))
    {
      var index := fileIndex[KeyOf(e) := RowOf(e)];
      var failed := Fails();
      if failed { return false; }
      var fts := fileFts[KeyOf(e) := e.name];
      var docs := documents;
      if e.typ != FileEntry || (e.kind != "text" && e.kind != "markdown") {
        docs := Without(documents, {KeyOf(e)});
        forall k { ContentsWithout(documents, {KeyOf(e)}, k); }
      }
      failed := Fails();
      if failed { return false; }
      fileIndex, fileFts, documents := index, fts, docs;
      return true;
    }

    /** Replaces the document and snippet of one key. */
    method UpsertDocumentTextEntry(d: Doc) returns (ok: bool)
      modifies this`documents, this`snippets, this`faults
      ensures faults == old(faults) + if ok then 0 else 1
      ensures forall k :: Contents(documents, k) ==
                if ok && k == DocKey(d) then [d.content] else old(Contents(documents, k))
      ensures snippets == if ok then old(snippets)[DocKey(d) := SnippetOf(d.content)] else old(snippets)
    {
      var docs := Without(documents, {DocKey(d)});
      var failed := Fails();
      if failed { return false; }
      forall k ensures Contents(docs + [d], k) == if k == DocKey(d) then [d.content] else Contents(documents, k) {
        ContentsWithout(documents, {DocKey(d)}, k);
        ContentsConcat(docs, [d], k);
      }
      documents, snippets := docs + [d], snippets[DocKey(d) := SnippetOf(d.content)];
      return true;
    }
  }
}
