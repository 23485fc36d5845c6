/** Incremental reindex: scanUserTree, runReindexUsers and indexEntryForPath of
    internal/server/admin_jobs.go over the tables of IndexStore. */
module Reindex {
  import opened Strings
  import opened LogicalPaths
  import opened IndexStore

  const REINDEX_BATCH_SIZE := 2000

  /** What the disk shows at a path. text is what ReadTextForIndex yields, "" when it fails. */
  datatype Info = Info(typ: EntryType, size: int, modifiedAt: int, text: string)

  /** A user's home, by logical path, without the root folder itself. */
  type Tree = map<string, Info>

  /** The MIME and preview-kind tables, both keyed by the file name's extension. */
  datatype Naming = Naming(mime: string -> string, kind: string -> string)

  datatype User = User(id: int, disabled: bool)

  datatype Item = Item(entry: IndexEntry, text: Option<Doc>)

  predicate SupportsTextIndex(kind: string) { kind == "text" || kind == "markdown" || kind == "pdf" }

  function EntryFor(user: int, path: string, info: Info, scan: string, names: Naming): IndexEntry {
    IndexEntry(user, path, Base(path), info.typ, info.size, info.modifiedAt,
               names.mime(path), names.kind(path), scan)
  }

  predicate HasText(path: string, info: Info, names: Naming) {
    info.typ == FileEntry && SupportsTextIndex(names.kind(path))
  }

  /** The kinds of files whose text can be searched. */
  predicate TextKind(kind: string) { kind == "text" || kind == "markdown" || kind == "pdf" }

  predicate IsTextFile(path: string, info: Info, names: Naming) {
    info.typ == FileEntry && TextKind(names.kind(path))
  }

  /** indexEntryForPath gives a text exactly to the text, markdown and pdf files, and it is their content. */
  lemma ItemTextIff(user: int, path: string, info: Info, scan: string, names: Naming)
    ensures ItemFor(user, path, info, scan, names).text ==
            if info.typ == FileEntry && names.kind(path) in {"text", "markdown", "pdf"}
            then Some(Doc(user, path, info.text)) else None
  {}

  /** indexEntryForPath. */
  function ItemFor(user: int, path: string, info: Info, scan: string, names: Naming): Item {
    Item(EntryFor(user, path, info, scan, names),
         if HasText(path, info, names) then Some(Doc(user, path, info.text)) else None)
  }

  // ---------------------------------------------------------------- what one scan does to file_index

  /** The incremental test: the stored (size, mtime) equals the one just seen. */
  predicate Unchanged(base: Index, e: IndexEntry) {
    KeyOf(e) in base && StampOf(base[KeyOf(e)]) == Stamp(e.size, e.modifiedAt)
  }

  function ApplyItem(base: Index, index: Index, e: IndexEntry): Index {
    if Unchanged(base, e) then TouchOne(index, KeyOf(e), e.lastSeen) else index[KeyOf(e) := RowOf(e)]
  }

  function Scanned(base: Index, items: seq<Item>): Index
    decreases |items|
  {
    if items == [] then base
    else ApplyItem(base, Scanned(base, items[..|items|-1]), items[|items|-1].entry)
  }

  /** The texts a scan stages: those of changed text files. */
  function StagedTexts(base: Index, items: seq<Item>): seq<Doc>
    decreases |items|
  {
    if items == [] then []
    else
      var it := items[|items|-1];
      StagedTexts(base, items[..|items|-1]) +
        (if it.text.Some? && !Unchanged(base, it.entry) then [it.text.value] else [])
  }

  predicate DistinctPaths(items: seq<Item>) {
    forall i, j :: 0 <= i < j < |items| ==> items[i].entry.path != items[j].entry.path
  }

  /** Every item is indexEntryForPath of some path of the tree. */
  predicate FromTree(items: seq<Item>, user: int, tree: Tree, scan: string, names: Naming) {
    forall i :: 0 <= i < |items| ==>
      items[i].entry.path in tree &&
      items[i] == ItemFor(user, items[i].entry.path, tree[items[i].entry.path], scan, names)
  }

  /** No row is lost and no other user's row changes. */
  ghost predicate KeepsRows(base: Index, index: Index, user: int) {
    && base.Keys <= index.Keys
    && forall k :: k in index && k.user != user ==> k in base && index[k] == base[k]
  }

  // ---------------------------------------------------------------- batches commute

  lemma {:induction false} TouchPastUpserts(index: Index, chg: seq<IndexEntry>, k: Key, scan: string)
    requires forall i :: 0 <= i < |chg| ==> KeyOf(chg[i]) != k
    ensures Upserted(TouchOne(index, k, scan), chg) == TouchOne(Upserted(index, chg), k, scan)
    ensures k in Upserted(index, chg) <==> k in index
    decreases |chg|
  {
    if chg != [] {
      TouchPastUpserts(index, chg[..|chg|-1], k, scan);
    }
  }

  /** Touching one set of rows and upserting another may be done in either order. */
  lemma {:induction false} BatchesCommute(index: Index, chg: seq<IndexEntry>, user: int, unch: seq<string>,
                                          scan: string)
    requires forall i, j :: 0 <= i < |chg| && 0 <= j < |unch| ==> chg[i].path != unch[j]
    ensures Upserted(Touched(index, user, unch, scan), chg) == Touched(Upserted(index, chg), user, unch, scan)
    decreases |unch|
  {
    if unch != [] {
      var front, last := unch[..|unch|-1], unch[|unch|-1];
      BatchesCommute(index, chg, user, front, scan);
      TouchPastUpserts(Touched(index, user, front, scan), chg, Key(user, last), scan);
    }
  }

  lemma {:induction false} UpsertKeepsRows(base: Index, index: Index, chg: seq<IndexEntry>, user: int)
    requires KeepsRows(base, index, user)
    requires forall i :: 0 <= i < |chg| ==> chg[i].user == user
    ensures KeepsRows(base, Upserted(index, chg), user)
    decreases |chg|
  {
    if chg != [] {
      UpsertKeepsRows(base, index, chg[..|chg|-1], user);
    }
  }

  lemma {:induction false} TouchKeepsRows(base: Index, index: Index, user: int, unch: seq<string>, scan: string)
    requires KeepsRows(base, index, user)
    ensures KeepsRows(base, Touched(index, user, unch, scan), user)
    decreases |unch|
  {
    if unch != [] {
      TouchKeepsRows(base, index, user, unch[..|unch|-1], scan);
    }
  }

  function PathsOf(items: seq<Item>): set<string> {
    set i | 0 <= i < |items| :: items[i].entry.path
  }

  /** Applying the two pending batches to the table gives the scan of what has been consumed. */
  ghost predicate Pending(base: Index, index: Index, seen: seq<Item>, chg: seq<IndexEntry>, unch: seq<string>,
                          user: int, scan: string)
  {
    && Upserted(Touched(index, user, unch, scan), chg) == Scanned(base, seen)
    && KeepsRows(base, index, user)
    && (forall a :: 0 <= a < |chg| ==> chg[a].user == user && chg[a].path in PathsOf(seen))
    && (forall a :: 0 <= a < |unch| ==> unch[a] in PathsOf(seen))
    && (forall a, b :: 0 <= a < |chg| && 0 <= b < |unch| ==> chg[a].path != unch[b])
  }

  lemma PathsOfSnoc(seen: seq<Item>, it: Item)
    ensures PathsOf(seen + [it]) == PathsOf(seen) + {it.entry.path}
  {
    forall p ensures p in PathsOf(seen + [it]) <==> p in PathsOf(seen) + {it.entry.path} {
      if p in PathsOf(seen) {
        var i :| 0 <= i < |seen| && seen[i].entry.path == p;
        assert (seen + [it])[i].entry.path == p;
      }
      assert (seen + [it])[|seen|].entry.path == it.entry.path;
    }
  }

  /** Consuming one more unchanged item extends the pending touches. */
  lemma ConsumeUnchanged(base: Index, index: Index, seen: seq<Item>, it: Item, chg: seq<IndexEntry>,
                         unch: seq<string>, user: int, scan: string)
    requires Pending(base, index, seen, chg, unch, user, scan)
    requires Unchanged(base, it.entry) && it.entry.lastSeen == scan && it.entry.user == user
    requires it.entry.path !in PathsOf(seen)
    ensures Pending(base, index, seen + [it], chg, unch + [it.entry.path], user, scan)
  {
    var touched := Touched(index, user, unch, scan);
    var k := KeyOf(it.entry);
    var more := unch + [it.entry.path];
    assert more[..|unch|] == unch && (seen + [it])[..|seen|] == seen;
    assert Touched(index, user, more, scan) == TouchOne(touched, k, scan);
    assert Scanned(base, seen + [it]) == TouchOne(Scanned(base, seen), k, scan);
    TouchPastUpserts(touched, chg, k, scan);
    PathsOfSnoc(seen, it);
  }

  /** Consuming one more changed item extends the pending upserts. */
  lemma ConsumeChanged(base: Index, index: Index, seen: seq<Item>, it: Item, chg: seq<IndexEntry>,
                       unch: seq<string>, user: int, scan: string)
    requires Pending(base, index, seen, chg, unch, user, scan)
    requires !Unchanged(base, it.entry) && it.entry.user == user
    requires it.entry.path !in PathsOf(seen)
    ensures Pending(base, index, seen + [it], chg + [it.entry], unch, user, scan)
  {
    var more := chg + [it.entry];
    assert more[..|chg|] == chg && (seen + [it])[..|seen|] == seen;
    PathsOfSnoc(seen, it);
  }

  // ---------------------------------------------------------------- the scan

  /** A request context: once done it stays done. */
  class Context {
    var done: bool
    /** How often a cancel or a deadline has come. */
    ghost var cancels: nat
    /** How often a walk met an error. */
    ghost var walkErrors: nat

    constructor ()
      ensures !done
    {
      done, cancels, walkErrors := false, 0, 0;
    }

    /** ctx.Err() != nil; the caller's cancel or a deadline may have come at any time. */
    method Err() returns (b: bool)
      modifies this
      ensures b == done && (old(done) ==> done) && cancels >= old(cancels) && walkErrors == old(walkErrors)
      ensures done ==> old(done) || cancels > old(cancels)
    {
      var now: bool := *;
      cancels := cancels + if now then 1 else 0;
      done := done || now;
      b := done;
    }

    /** One step of a walk: it may meet an error, and the caller's cancel may reach it. */
    method WalkStep() returns (e: Ending)
      modifies this`cancels, this`walkErrors
      ensures cancels == old(cancels) + if e.Stopped? then 1 else 0
      ensures walkErrors == old(walkErrors) + if e.WalkFailed? then 1 else 0
    {
      var meets: bool, stops: bool := *, *;
      e := if meets then WalkFailed else if stops then Stopped else Finished;
      cancels := cancels + if e.Stopped? then 1 else 0;
      walkErrors := walkErrors + if e.WalkFailed? then 1 else 0;
    }
  }

  /** How the worker pipeline ended when its result channel closed. */
  datatype Ending = Finished | WalkFailed | Stopped

  datatype ScanOutcome = ScanDone | ScanFailed | ScanCanceled

  /** flushChanged. */
  method FlushChanged(st: Store, changedBatch: seq<IndexEntry>, user: int, scan: string,
                      ghost base: Index, ghost seen: seq<Item>, ghost unch: seq<string>) returns (ok: bool)
    requires Pending(base, st.fileIndex, seen, changedBatch, unch, user, scan)
    modifies st`fileIndex, st`faults
    ensures ok ==> Pending(base, st.fileIndex, seen, [], unch, user, scan) && st.faults == old(st.faults)
    ensures !ok ==> st.fileIndex == old(st.fileIndex) && st.faults > old(st.faults)
  {
    if |changedBatch| == 0 {
      return true;
    }
    BatchesCommute(st.fileIndex, changedBatch, user, unch, scan);
    UpsertKeepsRows(base, st.fileIndex, changedBatch, user);
    ok := st.UpsertIndexBatch(changedBatch);
  }

  /** flushUnchanged. */
  method FlushUnchanged(st: Store, unchangedBatch: seq<string>, user: int, scan: string,
                        ghost base: Index, ghost seen: seq<Item>, ghost chg: seq<IndexEntry>) returns (ok: bool)
    requires Pending(base, st.fileIndex, seen, chg, unchangedBatch, user, scan)
    modifies st`fileIndex, st`faults
    ensures ok ==> Pending(base, st.fileIndex, seen, chg, [], user, scan) && st.faults == old(st.faults)
    ensures !ok ==> st.fileIndex == old(st.fileIndex) && st.faults > old(st.faults)
  {
    if |unchangedBatch| == 0 {
      return true;
    }
    TouchKeepsRows(base, st.fileIndex, user, unchangedBatch, scan);
    ok := st.TouchFileIndexEntries(user, unchangedBatch, scan);
  }

  /** flushStaging. */
  method FlushStaging(st: Store, stagingBatch: seq<Doc>) returns (ok: bool)
    modifies st`staging, st`faults
    ensures ok ==> st.staging == old(st.staging) + stagingBatch && st.faults == old(st.faults)
    ensures !ok ==> st.staging == old(st.staging) && st.faults > old(st.faults)
  {
    if |stagingBatch| == 0 {
      return true;
    }
    ok := st.UpsertDocumentStaging(stagingBatch);
  }

  /** Sorts one received item into the batches. */
  method Classify(item: Item, snap: map<string, Stamp>, changedBatch: seq<IndexEntry>, unchangedBatch: seq<string>,
                  stagingBatch: seq<Doc>, user: int, scan: string, ghost base: Index, ghost index: Index,
                  ghost seen: seq<Item>)
    returns (chg: seq<IndexEntry>, unch: seq<string>, stg: seq<Doc>)
    requires snap == Snapshot(base, user)
    requires Pending(base, index, seen, changedBatch, unchangedBatch, user, scan)
    requires item.entry.user == user && item.entry.lastSeen == scan && item.entry.path !in PathsOf(seen)
    ensures Pending(base, index, seen + [item], chg, unch, user, scan)
    ensures stagingBatch <= stg && StagedTexts(base, seen + [item]) == StagedTexts(base, seen) + stg[|stagingBatch|..]
    ensures |chg| <= |changedBatch| + 1 && |unch| <= |unchangedBatch| + 1 && |stg| <= |stagingBatch| + 1
  {
    var e := item.entry;
    chg, unch, stg := changedBatch, unchangedBatch, stagingBatch;
    SnapshotTells(base, snap, e);
    StagedNext(base, seen, item);
    if e.path in snap && snap[e.path].size == e.size && snap[e.path].modifiedAt == e.modifiedAt {
      ConsumeUnchanged(base, index, seen, item, chg, unch, user, scan);
      unch := unch + [e.path];
    } else {
      ConsumeChanged(base, index, seen, item, chg, unch, user, scan);
      chg := chg + [e];
      if item.text.Some? {
        stg := stg + [item.text.value];
      }
    }
  }

  /** The comparison with the snapshot is the incremental test. */
  lemma SnapshotTells(base: Index, snap: map<string, Stamp>, e: IndexEntry)
    requires snap == Snapshot(base, e.user)
    ensures (e.path in snap && snap[e.path].size == e.size && snap[e.path].modifiedAt == e.modifiedAt) <==>
        Unchanged(base, e)
  {
    assert KeyOf(e) in base ==> KeyOf(e).path == e.path;
  }

  lemma StagedNext(base: Index, seen: seq<Item>, item: Item)
    ensures StagedTexts(base, seen + [item]) ==
            StagedTexts(base, seen) +
              (if item.text.Some? && !Unchanged(base, item.entry) then [item.text.value] else [])
  {
    assert (seen + [item])[..|seen|] == seen;
  }

  /** The staging table and the pending texts together hold the texts of what was consumed. */
  ghost predicate StagedSoFar(table: seq<Doc>, batch: seq<Doc>, staged0: seq<Doc>, base: Index, seen: seq<Item>) {
    table + batch == staged0 + StagedTexts(base, seen)
  }

  lemma StagingStep(table: seq<Doc>, before: seq<Doc>, more: seq<Doc>, start: seq<Doc>, texts: seq<Doc>)
    requires table + before == start + texts && before <= more
    ensures table + more == start + (texts + more[|before|..])
  {
    assert more == before + more[|before|..];
    assert table + more == (table + before) + more[|before|..];
  }

  /** One turn of the consumer loop: classify the item, then flush every full batch. */
  method Consume(st: Store, item: Item, snap: map<string, Stamp>, changedBatch: seq<IndexEntry>,
                 unchangedBatch: seq<string>, stagingBatch: seq<Doc>, user: int, scan: string, batchSize: nat,
                 ghost base: Index, ghost staged0: seq<Doc>, ghost seen: seq<Item>)
    returns (ok: bool, chg: seq<IndexEntry>, unch: seq<string>, stg: seq<Doc>)
    requires snap == Snapshot(base, user)
    requires Pending(base, st.fileIndex, seen, changedBatch, unchangedBatch, user, scan)
    requires StagedSoFar(st.staging, stagingBatch, staged0, base, seen)
    requires item.entry.user == user && item.entry.lastSeen == scan && item.entry.path !in PathsOf(seen)
    requires |changedBatch| < batchSize && |unchangedBatch| < batchSize && |stagingBatch| < batchSize
    modifies st`fileIndex, st`staging, st`faults
    ensures ok ==>
              && Pending(base, st.fileIndex, seen + [item], chg, unch, user, scan)
              && StagedSoFar(st.staging, stg, staged0, base, seen + [item])
              && st.faults == old(st.faults)
    // a batch is written when it is full, and not before
    ensures ok ==> |chg| < batchSize && |unch| < batchSize && |stg| < batchSize
    ensures |changedBatch| + 1 < batchSize && |unchangedBatch| + 1 < batchSize ==> st.fileIndex == old(st.fileIndex)
    ensures |stagingBatch| + 1 < batchSize ==> st.staging == old(st.staging)
    ensures !ok ==> st.faults > old(st.faults)
    ensures KeepsRows(base, st.fileIndex, user)
  {
    chg, unch, stg := Classify(item, snap, changedBatch, unchangedBatch, stagingBatch, user, scan, base,
                               st.fileIndex, seen);
    StagingStep(st.staging, stagingBatch, stg, staged0, StagedTexts(base, seen));
    ok, chg, unch, stg := FlushFull(st, chg, unch, stg, user, scan, batchSize, base, staged0, seen + [item]);
  }

  /** Flushes every full batch. */
  method FlushFull(st: Store, changedBatch: seq<IndexEntry>, unchangedBatch: seq<string>, stagingBatch: seq<Doc>,
                   user: int, scan: string, batchSize: nat, ghost base: Index, ghost staged0: seq<Doc>,
                   ghost seen: seq<Item>)
    returns (ok: bool, chg: seq<IndexEntry>, unch: seq<string>, stg: seq<Doc>)
    requires Pending(base, st.fileIndex, seen, changedBatch, unchangedBatch, user, scan)
    requires StagedSoFar(st.staging, stagingBatch, staged0, base, seen) && batchSize > 0
    modifies st`fileIndex, st`staging, st`faults
    ensures ok ==> Pending(base, st.fileIndex, seen, chg, unch, user, scan) && st.faults == old(st.faults)
    ensures ok ==> StagedSoFar(st.staging, stg, staged0, base, seen)
    ensures ok ==> |chg| < batchSize && |unch| < batchSize && |stg| < batchSize
    ensures |changedBatch| < batchSize && |unchangedBatch| < batchSize ==> st.fileIndex == old(st.fileIndex)
    ensures |stagingBatch| < batchSize ==> st.staging == old(st.staging)
    ensures !ok ==> st.faults > old(st.faults)
    ensures KeepsRows(base, st.fileIndex, user)
  {
    ok, chg, unch, stg := true, changedBatch, unchangedBatch, stagingBatch;
    if |chg| >= batchSize {
      ok := FlushChanged(st, chg, user, scan, base, seen, unch);
      if !ok { return; }
      chg := [];
    }
    if |unch| >= batchSize {
      ok := FlushUnchanged(st, unch, user, scan, base, seen, chg);
      if !ok { return; }
      unch := [];
    }
    if |stg| >= batchSize {
      ok := FlushStaging(st, stg);
      if !ok { return; }
      stg := [];
    }
  }

  /** The three flushes after the result channel has closed. */
  method FlushAll(st: Store, changedBatch: seq<IndexEntry>, unchangedBatch: seq<string>, stagingBatch: seq<Doc>,
                  user: int, scan: string, ghost base: Index, ghost staged0: seq<Doc>, ghost seen: seq<Item>)
    returns (ok: bool)
    requires Pending(base, st.fileIndex, seen, changedBatch, unchangedBatch, user, scan)
    requires StagedSoFar(st.staging, stagingBatch, staged0, base, seen)
    modifies st`fileIndex, st`staging, st`faults
    ensures ok ==> st.fileIndex == Scanned(base, seen) && st.staging == staged0 + StagedTexts(base, seen)
    ensures !ok ==> st.faults > old(st.faults)
    ensures st.faults >= old(st.faults)
    ensures KeepsRows(base, st.fileIndex, user)
  {
    ok := FlushChanged(st, changedBatch, user, scan, base, seen, unchangedBatch);
    if !ok { return; }
    ok := FlushUnchanged(st, unchangedBatch, user, scan, base, seen, []);
    if !ok { return; }
    ok := FlushStaging(st, stagingBatch);
  }

  lemma NextIsNew(received: seq<Item>, i: nat)
    requires DistinctPaths(received) && i < |received|
    ensures received[i].entry.path !in PathsOf(received[..i])
    ensures received[..i+1] == received[..i] + [received[i]]
  {}

  /** The consumer of scanUserTree. received is what comes out of the result channel, in any order. */
  method ScanUserTree(st: Store, ctx: Context, user: int, received: seq<Item>, ending: Ending,
                      scan: string, batchSize: nat) returns (r: ScanOutcome)
    requires batchSize > 0 && DistinctPaths(received)
    requires forall i :: 0 <= i < |received| ==>
               received[i].entry.user == user && received[i].entry.lastSeen == scan
    modifies st`fileIndex, st`staging, st`faults, ctx
    ensures r.ScanDone? ==>
              && ending.Finished?
              && st.fileIndex == Scanned(old(st.fileIndex), received)
              && st.staging == old(st.staging) + StagedTexts(old(st.fileIndex), received)
    ensures r.ScanFailed? ==> ending.WalkFailed? || st.faults > old(st.faults)
    // a scan is canceled only by a cancel, and one that comes before leaves everything as it was
    ensures r.ScanCanceled? ==> ctx.done
    ensures ctx.done ==> old(ctx.done) || ending.Stopped? || ctx.cancels > old(ctx.cancels)
    ensures old(ctx.done) ==> ctx.done && !r.ScanDone?
    ensures ctx.walkErrors == old(ctx.walkErrors)
    ensures old(ctx.done) ==> st.fileIndex == old(st.fileIndex) && st.staging == old(st.staging)
    ensures st.faults >= old(st.faults) && ctx.cancels >= old(ctx.cancels)
    ensures KeepsRows(old(st.fileIndex), st.fileIndex, user)
  {
    var snapshot := st.LoadFileIndexSnapshot(user);
    if snapshot.None? {
      return ScanFailed;
    }
    ghost var base, staged0 := st.fileIndex, st.staging;
    var ok, n, changedBatch, unchangedBatch, stagingBatch :=
      ConsumeResults(st, ctx, user, received, snapshot.value, scan, batchSize);
    if !ok { return ScanFailed; }
    if ending.Stopped? { ctx.done := true; }
    var stop := ctx.Err();
    if stop {
      return ScanCanceled;
    }
    if ending.WalkFailed? {
      return ScanFailed;
    }
    assert received[..n] == received;
    ok := FlushAll(st, changedBatch, unchangedBatch, stagingBatch, user, scan, base, staged0, received);
    if !ok { return ScanFailed; }
    return ScanDone;
  }

  /** The loop over the result channel: it ends with the channel, a cancel or a failed flush. */
  method ConsumeResults(st: Store, ctx: Context, user: int, received: seq<Item>, snap: map<string, Stamp>,
                        scan: string, batchSize: nat)
    returns (ok: bool, n: nat, chg: seq<IndexEntry>, unch: seq<string>, stg: seq<Doc>)
    requires batchSize > 0 && DistinctPaths(received) && snap == Snapshot(st.fileIndex, user)
    requires forall i :: 0 <= i < |received| ==>
               received[i].entry.user == user && received[i].entry.lastSeen == scan
    modifies st`fileIndex, st`staging, st`faults, ctx
    ensures ok ==>
              && n <= |received| && (n < |received| ==> ctx.done)
              && Pending(old(st.fileIndex), st.fileIndex, received[..n], chg, unch, user, scan)
              && StagedSoFar(st.staging, stg, old(st.staging), old(st.fileIndex), received[..n])
    ensures if ok then st.faults == old(st.faults) else st.faults > old(st.faults)
    ensures ctx.cancels >= old(ctx.cancels) && (ctx.done ==> old(ctx.done) || ctx.cancels > old(ctx.cancels))
    ensures ctx.walkErrors == old(ctx.walkErrors)
    ensures old(ctx.done) ==> ctx.done && st.fileIndex == old(st.fileIndex) && st.staging == old(st.staging)
    ensures KeepsRows(old(st.fileIndex), st.fileIndex, user)
  {
    ghost var base, staged0 := st.fileIndex, st.staging;
    ghost var seen: seq<Item> := [];
    ok, n, chg, unch, stg := true, 0, [], [], [];
    while n < |received|
      invariant n <= |received| && ok && seen == received[..n]
      invariant ctx.cancels >= old(ctx.cancels) && (ctx.done ==> old(ctx.done) || ctx.cancels > old(ctx.cancels))
      invariant ctx.walkErrors == old(ctx.walkErrors)
      invariant old(ctx.done) ==> ctx.done && n == 0 && st.fileIndex == base && st.staging == staged0
      invariant st.faults == old(st.faults)
      invariant |chg| < batchSize && |unch| < batchSize && |stg| < batchSize
      invariant Pending(base, st.fileIndex, seen, chg, unch, user, scan)
      invariant StagedSoFar(st.staging, stg, staged0, base, seen)
      invariant KeepsRows(base, st.fileIndex, user)
    {
      var stop := ctx.Err();
      if stop { return; }
      NextIsNew(received, n);
      ok, chg, unch, stg :=
        Consume(st, received[n], snap, chg, unch, stg, user, scan, batchSize, base, staged0, seen);
      if !ok { return; }
      n := n + 1;
      seen := received[..n];
    }
  }

  // ---------------------------------------------------------------- one user's scan, row by row

  function RowAt(index: Index, k: Key): Option<Row> {
    if k in index then Some(index[k]) else None
  }

  /** The row a scan from scratch would write. */
  function FreshRow(k: Key, tree: Tree, scan: string, names: Naming): Option<Row> {
    if k.path in tree then Some(RowOf(EntryFor(k.user, k.path, tree[k.path], scan, names))) else None
  }

  /** The row an incremental scan and its sweep leave at a key. */
  function RowAfter(base: Index, k: Key, tree: Tree, scan: string, names: Naming): Option<Row> {
    if k.path in tree && Unchanged(base, EntryFor(k.user, k.path, tree[k.path], scan, names))
    then Some(base[k].(lastSeen := scan))
    else FreshRow(k, tree, scan, names)
  }

  /** The texts a scan stages for a key. */
  function StagedAt(base: Index, k: Key, tree: Tree, scan: string, names: Naming): seq<string> {
    if k.path in tree && HasText(k.path, tree[k.path], names) &&
       !Unchanged(base, EntryFor(k.user, k.path, tree[k.path], scan, names))
    then [tree[k.path].text] else []
  }

  /** Staged are the contents of text, markdown and pdf files without a row of their size and mtime. */
  lemma StagedByKind(base: Index, k: Key, tree: Tree, scan: string, names: Naming)
    requires k.path in tree
    ensures StagedAt(base, k, tree, scan, names) ==
            if tree[k.path].typ == FileEntry && names.kind(k.path) in {"text", "markdown", "pdf"} &&
               !(k in base && base[k].size == tree[k.path].size && base[k].modifiedAt == tree[k.path].modifiedAt)
            then [tree[k.path].text] else []
  {}

  function RowFromItem(base: Index, it: Item): Row {
    if Unchanged(base, it.entry) then base[KeyOf(it.entry)].(lastSeen := it.entry.lastSeen) else RowOf(it.entry)
  }

  function TextFromItem(base: Index, it: Item): seq<string> {
    if it.text.Some? && !Unchanged(base, it.entry) then [it.text.value.content] else []
  }

  predicate ItemKeys(items: seq<Item>, user: int) {
    forall i :: 0 <= i < |items| ==>
      items[i].entry.user == user &&
      (items[i].text.Some? ==> DocKey(items[i].text.value) == KeyOf(items[i].entry))
  }

  /** Keys without an item keep their row and stage nothing. */
  lemma {:induction false} ScannedElsewhere(base: Index, items: seq<Item>, user: int, k: Key)
    requires ItemKeys(items, user)
    requires forall i :: 0 <= i < |items| ==> KeyOf(items[i].entry) != k
    ensures RowAt(Scanned(base, items), k) == RowAt(base, k)
    ensures Contents(StagedTexts(base, items), k) == []
    decreases |items|
  {
    if items != [] {
      var front, it := items[..|items|-1], items[|items|-1];
      ApplyItemAt(base, items, k);
      ScannedElsewhere(base, front, user, k);
    }
  }

  /** One item decides its own key and no other. */
  lemma ApplyItemAt(base: Index, items: seq<Item>, k: Key)
    requires items != []
    ensures var front, it := items[..|items|-1], items[|items|-1];
            RowAt(Scanned(base, items), k) ==
              (if k != KeyOf(it.entry) then RowAt(Scanned(base, front), k)
               else if !Unchanged(base, it.entry) then Some(RowOf(it.entry))
               else match RowAt(Scanned(base, front), k)
                    case Some(r) => Some(r.(lastSeen := it.entry.lastSeen))
                    case None => None)
    ensures var front, it := items[..|items|-1], items[|items|-1];
            it.text.Some? ==> DocKey(it.text.value) == KeyOf(it.entry) ==>
            Contents(StagedTexts(base, items), k) ==
              Contents(StagedTexts(base, front), k) + (if k == KeyOf(it.entry) then TextFromItem(base, it) else [])
    ensures items[|items|-1].text.None? ==>
            Contents(StagedTexts(base, items), k) == Contents(StagedTexts(base, items[..|items|-1]), k)
  {
    var front, it := items[..|items|-1], items[|items|-1];
    ContentsConcat(StagedTexts(base, front),
                   if it.text.Some? && !Unchanged(base, it.entry) then [it.text.value] else [], k);
  }

  /** The consumed order does not matter: each key is decided by its own item. */
  lemma {:induction false} ScannedByItem(base: Index, items: seq<Item>, user: int, j: nat)
    requires DistinctPaths(items) && ItemKeys(items, user) && j < |items|
    ensures RowAt(Scanned(base, items), KeyOf(items[j].entry)) == Some(RowFromItem(base, items[j]))
    ensures Contents(StagedTexts(base, items), KeyOf(items[j].entry)) == TextFromItem(base, items[j])
    decreases |items|
  {
    var front, it := items[..|items|-1], items[|items|-1];
    var k := KeyOf(items[j].entry);
    ApplyItemAt(base, items, k);
    assert forall i :: 0 <= i < |front| ==> front[i] == items[i];
    if j == |front| {
      ScannedElsewhere(base, front, user, k);
    } else {
      ScannedByItem(base, front, user, j);
    }
  }

  /** A complete delivery from a tree, key by key. */
  lemma ScannedAt(base: Index, items: seq<Item>, user: int, tree: Tree, scan: string, names: Naming, k: Key)
    requires DistinctPaths(items) && FromTree(items, user, tree, scan, names) && PathsOf(items) == tree.Keys
    ensures k.user == user && k.path in tree ==>
              RowAt(Scanned(base, items), k) == RowAfter(base, k, tree, scan, names) &&
              Contents(StagedTexts(base, items), k) == StagedAt(base, k, tree, scan, names)
    ensures !(k.user == user && k.path in tree) ==>
              RowAt(Scanned(base, items), k) == RowAt(base, k) &&
              Contents(StagedTexts(base, items), k) == []
  {
    forall i | 0 <= i < |items|
      ensures items[i].entry.user == user && items[i].entry.path in tree
      ensures items[i].text.Some? ==> DocKey(items[i].text.value) == KeyOf(items[i].entry)
    {
      assert items[i] == ItemFor(user, items[i].entry.path, tree[items[i].entry.path], scan, names);
    }
    if k.user == user && k.path in tree {
      var j :| 0 <= j < |items| && items[j].entry.path == k.path;
      ScannedByItem(base, items, user, j);
    } else {
      ScannedElsewhere(base, items, user, k);
    }
  }

  // ---------------------------------------------------------------- the job

  datatype Status = Completed | Failed | Canceled

  function TreeOf(disk: map<int, Tree>, user: int): Tree {
    if user in disk then disk[user] else map[]
  }

  predicate DistinctUsers(users: seq<User>) {
    forall i, j :: 0 <= i < j < |users| ==> users[i].id != users[j].id
  }

  lemma DeliverOne(received: seq<Item>, user: int, tree: Tree, scan: string, names: Naming, p: string)
    requires DistinctPaths(received) && FromTree(received, user, tree, scan, names)
    requires p in tree && p !in PathsOf(received)
    ensures var more := received + [ItemFor(user, p, tree[p], scan, names)];
            DistinctPaths(more) && FromTree(more, user, tree, scan, names) && PathsOf(more) == PathsOf(received) + {p}
  {
    var it := ItemFor(user, p, tree[p], scan, names);
    forall i | 0 <= i < |received| ensures received[i].entry.path != p {
      assert received[i].entry.path in PathsOf(received);
    }
    PathsOfSnoc(received, it);
  }

  /** What the worker pipeline delivers from one tree: paths at most once, in any order, all of them
      when it finishes. A missing home root walks as an empty tree. */
  method Deliver(ctx: Context, user: int, tree: Tree, scan: string, names: Naming)
    returns (received: seq<Item>, ending: Ending)
    modifies ctx`cancels, ctx`walkErrors
    ensures ctx.cancels == old(ctx.cancels) + if ending.Stopped? then 1 else 0
    ensures ctx.walkErrors == old(ctx.walkErrors) + if ending.WalkFailed? then 1 else 0
    ensures DistinctPaths(received) && FromTree(received, user, tree, scan, names)
    ensures ending.Finished? ==> PathsOf(received) == tree.Keys
  {
    received := [];
    var left := tree.Keys;
    while left != {}
      invariant left <= tree.Keys
      invariant DistinctPaths(received) && FromTree(received, user, tree, scan, names)
      invariant PathsOf(received) == tree.Keys - left
      invariant ctx.cancels == old(ctx.cancels) && ctx.walkErrors == old(ctx.walkErrors)
      decreases |left|
    {
      ending := ctx.WalkStep();
      if !ending.Finished? { return; }
      var p :| p in left;
      DeliverOne(received, user, tree, scan, names, p);
      received := received + [ItemFor(user, p, tree[p], scan, names)];
      left := left - {p};
    }
    return received, Finished;
  }

  /** The tables as values. */
  datatype Tables = Tables(index: Index, documents: seq<Doc>, snippets: map<Key, string>, staging: seq<Doc>)

  function TablesOf(st: Store): Tables
    reads st
  {
    Tables(st.fileIndex, st.documents, st.snippets, st.staging)
  }

  /** What every key looks like once the users in done are finished and those in failed were given up. */
  ghost predicate JobAt(k: Key, now: Tables, start: Tables, done: set<int>, failed: set<int>,
                        disk: map<int, Tree>, scan: string, names: Naming)
  {
    && (k.user in done ==> RowAt(now.index, k) == RowAfter(start.index, k, TreeOf(disk, k.user), scan, names))
    && (k.user !in done && k.user !in failed ==> RowAt(now.index, k) == RowAt(start.index, k))
    && (k.user in failed && k in start.index ==> k in now.index)
    && (failed == {} ==>
          Contents(now.staging, k) ==
            (if k.user in done then StagedAt(start.index, k, TreeOf(disk, k.user), scan, names) else []))
    && (k in now.index || k.user !in done ==> Contents(now.documents, k) == Contents(start.documents, k))
    && (k in now.index || k.user !in done ==> At(now.snippets, k) == At(start.snippets, k))
  }

  ghost predicate JobState(now: Tables, start: Tables, done: set<int>, failed: set<int>,
                           disk: map<int, Tree>, scan: string, names: Naming)
  {
    forall k: Key :: JobAt(k, now, start, done, failed, disk, scan, names)
  }

  /** A finished scan and its sweep settle that user's keys and leave the others alone. */
  lemma FinishUser(now: Tables, next: Tables, start: Tables, done: set<int>, failed: set<int>, user: int,
                   items: seq<Item>, disk: map<int, Tree>, scan: string, names: Naming)
    requires JobState(now, start, done, failed, disk, scan, names) && user !in done && user !in failed
    requires forall k :: k in start.index ==> start.index[k].lastSeen != scan
    requires DistinctPaths(items) && FromTree(items, user, TreeOf(disk, user), scan, names)
    requires PathsOf(items) == TreeOf(disk, user).Keys
    requires var index1 := Scanned(now.index, items);
             next.index == map k | k in index1 && !NotSeen(index1, user, scan, k) :: index1[k]
    requires next.staging == now.staging + StagedTexts(now.index, items)
    requires forall k :: NotSeen(Scanned(now.index, items), user, scan, k) ||
                         (Contents(next.documents, k) == Contents(now.documents, k) &&
                          At(next.snippets, k) == At(now.snippets, k))
    ensures JobState(next, start, done + {user}, failed, disk, scan, names)
  {
    forall q: Key ensures q.user == user ==> RowAt(now.index, q) == RowAt(start.index, q) {
      assert JobAt(q, now, start, done, failed, disk, scan, names);
    }
    forall k: Key ensures JobAt(k, next, start, done + {user}, failed, disk, scan, names) {
      assert JobAt(k, now, start, done, failed, disk, scan, names);
      SweptAt(now.index, start.index, user, items, TreeOf(disk, user), scan, names, k);
      ContentsConcat(now.staging, StagedTexts(now.index, items), k);
    }
  }

  /** One enabled user: scan, then sweep the rows the scan did not reach. */
  method ReindexUser(st: Store, ctx: Context, user: int, disk: map<int, Tree>, scan: string, names: Naming,
                     ghost start: Tables, ghost done: set<int>, ghost failed: set<int>)
    returns (r: ScanOutcome)
    requires user !in done && user !in failed
    requires forall k :: k in start.index ==> start.index[k].lastSeen != scan
    requires JobState(TablesOf(st), start, done, failed, disk, scan, names)
    modifies st, ctx
    ensures r.ScanDone? ==> JobState(TablesOf(st), start, done + {user}, failed, disk, scan, names)
    ensures !r.ScanDone? ==> JobState(TablesOf(st), start, done, failed + {user}, disk, scan, names)
    ensures r.ScanCanceled? ==> ctx.done
    ensures ctx.done ==> old(ctx.done) || ctx.cancels > old(ctx.cancels)
    ensures r.ScanFailed? ==> ctx.walkErrors > old(ctx.walkErrors) || st.faults > old(st.faults)
    ensures st.faults >= old(st.faults) && ctx.cancels >= old(ctx.cancels) && (old(ctx.done) ==> ctx.done)
    ensures ctx.walkErrors >= old(ctx.walkErrors)
  {
    ghost var before := TablesOf(st);
    var received, ending := Deliver(ctx, user, TreeOf(disk, user), scan, names);
    ItemsBelong(received, user, TreeOf(disk, user), scan, names);
    r := ScanUserTree(st, ctx, user, received, ending, scan, REINDEX_BATCH_SIZE);
    if !r.ScanDone? {
      GiveUpUser(before, TablesOf(st), TablesOf(st), start, done, failed, user, disk, scan, names);
      return;
    }
    ghost var scanned := TablesOf(st);
    var deleted := st.DeleteFileIndexEntriesNotSeen(user, scan);
    if deleted.None? {
      assert TablesOf(st).index == scanned.index;
      GiveUpUser(before, scanned, TablesOf(st), start, done, failed, user, disk, scan, names);
      r := ScanFailed;
      return;
    }
    FinishUser(before, TablesOf(st), start, done, failed, user, received, disk, scan, names);
  }

  /** A user given up only gains or keeps rows, and loses no document. */
  lemma GiveUpUser(before: Tables, scanned: Tables, next: Tables, start: Tables, done: set<int>, failed: set<int>,
                    user: int, disk: map<int, Tree>, scan: string, names: Naming)
    requires JobState(before, start, done, failed, disk, scan, names) && user !in done
    requires KeepsRows(before.index, scanned.index, user) && next.index == scanned.index
    requires forall k :: Contents(next.documents, k) == Contents(before.documents, k)
    requires forall k :: At(next.snippets, k) == At(before.snippets, k)
    ensures JobState(next, start, done, failed + {user}, disk, scan, names)
  {
    forall k: Key ensures JobAt(k, next, start, done, failed + {user}, disk, scan, names) {
      assert JobAt(k, before, start, done, failed, disk, scan, names);
      assert k.user != user ==> RowAt(next.index, k) == RowAt(before.index, k);
    }
  }

  lemma ItemsBelong(items: seq<Item>, user: int, tree: Tree, scan: string, names: Naming)
    requires FromTree(items, user, tree, scan, names)
    ensures forall i :: 0 <= i < |items| ==> items[i].entry.user == user && items[i].entry.lastSeen == scan
  {
    forall i | 0 <= i < |items| ensures items[i].entry.user == user && items[i].entry.lastSeen == scan {
      assert items[i] == ItemFor(user, items[i].entry.path, tree[items[i].entry.path], scan, names);
    }
  }

  /** The scan depends on the table only through the scanned user's rows. */
  lemma AgreeOnUser(index0: Index, base: Index, user: int, items: seq<Item>, tree: Tree, scan: string, names: Naming)
    requires forall k: Key :: k.user == user ==> RowAt(index0, k) == RowAt(base, k)
    ensures forall k: Key :: k.user == user ==>
              RowAfter(index0, k, tree, scan, names) == RowAfter(base, k, tree, scan, names) &&
              StagedAt(index0, k, tree, scan, names) == StagedAt(base, k, tree, scan, names)
  {
    forall k: Key | k.user == user
      ensures RowAfter(index0, k, tree, scan, names) == RowAfter(base, k, tree, scan, names) &&
              StagedAt(index0, k, tree, scan, names) == StagedAt(base, k, tree, scan, names)
    {
      assert RowAt(index0, k) == RowAt(base, k);
    }
  }

  /** After a full scan with a fresh scan id, sweeping unseen rows leaves RowAfter at every key. */
  lemma SweptAt(index0: Index, base: Index, user: int, items: seq<Item>, tree: Tree, scan: string, names: Naming,
                k: Key)
    requires DistinctPaths(items) && FromTree(items, user, tree, scan, names) && PathsOf(items) == tree.Keys
    requires forall q: Key :: q.user == user ==> RowAt(index0, q) == RowAt(base, q)
    requires forall q :: q in base ==> base[q].lastSeen != scan
    ensures var index1 := Scanned(index0, items);
            var row := if NotSeen(index1, user, scan, k) then None else RowAt(index1, k);
            row == (if k.user == user then RowAfter(base, k, tree, scan, names) else RowAt(index0, k)) &&
            Contents(StagedTexts(index0, items), k) ==
              if k.user == user then StagedAt(base, k, tree, scan, names) else []
  {
    AgreeOnUser(index0, base, user, items, tree, scan, names);
    ScannedAt(index0, items, user, tree, scan, names, k);
    assert RowAt(index0, k) == RowAt(base, k) || k.user != user;
  }

  function EnabledIds(users: seq<User>): set<int> {
    set i | 0 <= i < |users| && !users[i].disabled :: users[i].id
  }

  /** What a completed job leaves at a key: the swept scan of its user, and staging applied. */
  ghost predicate CompletedAt(k: Key, now: Tables, start: Tables, enabled: set<int>, disk: map<int, Tree>,
                              scan: string, names: Naming)
  {
    && RowAt(now.index, k) == (if k.user in enabled then RowAfter(start.index, k, TreeOf(disk, k.user), scan, names)
                               else RowAt(start.index, k))
    && AppliedAt(k, k in now.index,
                 if k.user in enabled then StagedAt(start.index, k, TreeOf(disk, k.user), scan, names) else [],
                 Contents(start.documents, k), Contents(now.documents, k), At(start.snippets, k), At(now.snippets, k))
  }

  ghost predicate CompletedRun(now: Tables, start: Tables, enabled: set<int>, disk: map<int, Tree>,
                               scan: string, names: Naming)
  {
    forall k: Key :: CompletedAt(k, now, start, enabled, disk, scan, names)
  }

  /** runReindexUsers. */
  method RunReindexUsers(st: Store, ctx: Context, users: seq<User>, disk: map<int, Tree>, scan: string, names: Naming)
    returns (status: Status, ghost failed: set<int>)
    requires DistinctUsers(users)
    requires forall k :: k in st.fileIndex ==> st.fileIndex[k].lastSeen != scan
    modifies st, ctx
    ensures status.Completed? ==>
              && CompletedRun(TablesOf(st), old(TablesOf(st)), EnabledIds(users), disk, scan, names)
              && st.fileFts == map k | k in st.fileIndex :: st.fileIndex[k].name
    ensures status.Failed? ==> ctx.walkErrors > old(ctx.walkErrors) || st.faults > old(st.faults)
    ensures status.Canceled? ==> old(ctx.done) || ctx.cancels > old(ctx.cancels)
    ensures old(ctx.done) ==> !status.Completed?
    // Whatever the outcome: failed users lose no row, users that are disabled or not listed keep theirs as they are.
    ensures forall k :: k in old(st.fileIndex) && k.user in failed ==> k in st.fileIndex
    ensures forall k: Key :: k.user !in EnabledIds(users) ==> RowAt(st.fileIndex, k) == old(RowAt(st.fileIndex, k))
    ensures failed != {} ==> !status.Completed?
  {
    failed := {};
    ghost var start := TablesOf(st);
    ghost var done: set<int> := {};
    var ok := st.TruncateDocumentStaging();
    if !ok {
      return Failed, failed;
    }
    assert JobState(TablesOf(st), start, done, failed, disk, scan, names);
    var failures := 0;
    var i := 0;
    while i < |users|
      invariant 0 <= i <= |users|
      invariant done + failed == EnabledIds(users[..i])
      invariant JobState(TablesOf(st), start, done, failed, disk, scan, names)
      invariant failures > 0 <==> failed != {}
      invariant ctx.walkErrors >= old(ctx.walkErrors)
      invariant failures > 0 ==> ctx.walkErrors > old(ctx.walkErrors) || st.faults > old(st.faults)
      invariant failures >= 0 && st.faults >= old(st.faults) && ctx.cancels >= old(ctx.cancels)
      invariant ctx.done ==> old(ctx.done) || ctx.cancels > old(ctx.cancels)
      invariant old(ctx.done) ==> ctx.done
    {
      EnabledSnoc(users, i);
      var stop := ctx.Err();
      if stop {
        JobRows(TablesOf(st), start, done, failed, users, disk, scan, names);
        return Canceled, failed;
      }
      var user := users[i];
      i := i + 1;
      if !user.disabled {
        var r := ReindexUser(st, ctx, user.id, disk, scan, names, start, done, failed);
        if r.ScanDone? {
          done := done + {user.id};
        } else {
          failed := failed + {user.id};
          if r.ScanCanceled? {
            JobRows(TablesOf(st), start, done, failed, users, disk, scan, names);
            return Canceled, failed;
          }
          failures := failures + 1;
        }
      }
    }
    assert users[..i] == users;
    JobRows(TablesOf(st), start, done, failed, users, disk, scan, names);
    if failures > 0 {
      return Failed, failed;
    }
    var stop := ctx.Err();
    if stop {
      return Canceled, failed;
    }
    assert done == EnabledIds(users);
    ok := ApplyAndRebuild(st, start, done, disk, scan, names);
    return if ok then Completed else Failed, failed;
  }

  /** The end of a job: staging is applied, and the search names are rebuilt. */
  method ApplyAndRebuild(st: Store, ghost start: Tables, ghost done: set<int>, ghost disk: map<int, Tree>,
                         ghost scan: string, ghost names: Naming) returns (ok: bool)
    requires JobState(TablesOf(st), start, done, {}, disk, scan, names)
    modifies st
    ensures ok ==> CompletedRun(TablesOf(st), start, done, disk, scan, names)
    ensures ok ==> st.fileFts == map k | k in st.fileIndex :: st.fileIndex[k].name
    ensures ok <==> st.faults == old(st.faults)
    ensures st.faults >= old(st.faults) && st.fileIndex == old(st.fileIndex)
  {
    ghost var swept := TablesOf(st);
    ok := st.ApplyDocumentStaging();
    if !ok { return; }
    ghost var applied := TablesOf(st);
    FinishJob(applied, swept, start, done, disk, scan, names);
    ok := st.RebuildFileIndexFTS();
    assert TablesOf(st) == applied;
  }

  lemma EnabledSnoc(users: seq<User>, i: int)
    requires 0 <= i < |users| && DistinctUsers(users)
    ensures EnabledIds(users[..i+1]) == EnabledIds(users[..i]) + (if users[i].disabled then {} else {users[i].id})
    ensures users[i].id !in EnabledIds(users[..i])
    ensures EnabledIds(users[..i+1]) <= EnabledIds(users)
    ensures EnabledIds(users[..i]) <= EnabledIds(users)
  {
    var a, b := users[..i+1], users[..i];
    forall id ensures id in EnabledIds(a) <==> id in EnabledIds(b) + (if users[i].disabled then {} else {users[i].id}) {
      if id in EnabledIds(b) {
        var j :| 0 <= j < |b| && !b[j].disabled && b[j].id == id;
        assert a[j] == b[j];
      }
      assert a[i] == users[i];
    }
    forall id | id in EnabledIds(a) ensures id in EnabledIds(users) {
      var j :| 0 <= j < |a| && !a[j].disabled && a[j].id == id;
      assert users[j] == a[j];
    }
  }

  /** The row clauses of JobState that hold whatever the outcome. */
  lemma JobRows(now: Tables, start: Tables, done: set<int>, failed: set<int>, users: seq<User>,
                disk: map<int, Tree>, scan: string, names: Naming)
    requires JobState(now, start, done, failed, disk, scan, names) && done + failed <= EnabledIds(users)
    ensures forall k :: k in start.index && k.user in failed ==> k in now.index
    ensures forall k: Key :: k.user !in EnabledIds(users) ==> RowAt(now.index, k) == RowAt(start.index, k)
  {
    forall k: Key
      ensures k in start.index && k.user in failed ==> k in now.index
      ensures k.user !in EnabledIds(users) ==> RowAt(now.index, k) == RowAt(start.index, k)
    {
      assert JobAt(k, now, start, done, failed, disk, scan, names);
    }
  }

  lemma FinishJob(now: Tables, swept: Tables, start: Tables, done: set<int>, disk: map<int, Tree>,
                  scan: string, names: Naming)
    requires JobState(swept, start, done, {}, disk, scan, names)
    requires now.index == swept.index
    requires forall k :: AppliedAt(k, k in now.index, Contents(swept.staging, k), Contents(swept.documents, k),
                                   Contents(now.documents, k), At(swept.snippets, k), At(now.snippets, k))
    ensures CompletedRun(now, start, done, disk, scan, names)
  {
    forall k: Key ensures CompletedAt(k, now, start, done, disk, scan, names) {
      assert JobAt(k, swept, start, done, {}, disk, scan, names);
    }
  }

  // ---------------------------------------------------------------- incremental equals from scratch

  /** Derived columns are those indexEntryForPath and parentPathForIndex compute from the path. */
  predicate Derived(k: Key, r: Row, names: Naming) {
    r.parent == ParentPathForIndex(k.path) && r.name == Base(k.path) &&
    r.mime == names.mime(k.path) && r.kind == names.kind(k.path)
  }

  ghost predicate WellDerived(index: Index, names: Naming) {
    forall k :: k in index ==> Derived(k, index[k], names)
  }

  /** A stored row with the size and mtime now on disk and another column that is not what the path
      and the disk give today. */
  predicate StaleTwin(index: Index, k: Key, tree: Tree, names: Naming) {
    && k in index && k.path in tree
    && StampOf(index[k]) == StampOnDisk(tree[k.path])
    && (index[k].typ != tree[k.path].typ || !Derived(k, index[k], names))
  }

  /** A stored row of the other type with the size and mtime now on disk. */
  predicate TypeFlipped(index: Index, k: Key, tree: Tree) {
    k in index && k.path in tree && StampOf(index[k]) == StampOnDisk(tree[k.path]) && index[k].typ != tree[k.path].typ
  }

  /** Whatever the prior rows: the incremental result is the index built from scratch exactly when no
      row with a current size and mtime is out of date in any other column. */
  lemma IncrementalIsScratchIff(index: Index, user: int, tree: Tree, scan: string, names: Naming)
    ensures (forall k: Key :: k.user == user ==>
               RowAfter(index, k, tree, scan, names) == FreshRow(k, tree, scan, names))
       <==> (forall k: Key :: k.user == user ==> !StaleTwin(index, k, tree, names))
  {
    forall k: Key
      ensures RowAfter(index, k, tree, scan, names) == FreshRow(k, tree, scan, names) <==>
              !StaleTwin(index, k, tree, names)
    {
      RowAgreesIff(index, k, tree, scan, names);
    }
  }

  lemma RowAgreesIff(index: Index, k: Key, tree: Tree, scan: string, names: Naming)
    ensures RowAfter(index, k, tree, scan, names) == FreshRow(k, tree, scan, names) <==>
            !StaleTwin(index, k, tree, names)
  {}

  /** A folder replaced by a file of its size and mtime: the row still says folder. */
  lemma TypeFlipIsKept(names: Naming)
    ensures var k := Key(1, "/a");
            var row := Row("/", "a", DirEntry, 4096, 7, names.mime("/a"), names.kind("/a"), "scan-1");
            var tree := map["/a" := Info(FileEntry, 4096, 7, "")];
            && RowAfter(map[k := row], k, tree, "scan-2", names) == Some(row.(lastSeen := "scan-2"))
            && FreshRow(k, tree, "scan-2", names).value.typ == FileEntry
  {}

  /** The table of preview kinds changed between two jobs: the row keeps the old kind. */
  lemma OldKindIsKept(names: Naming, before: string)
    requires names.kind("/a") != before
    ensures var k := Key(1, "/a");
            var row := Row("/", "a", FileEntry, 10, 7, names.mime("/a"), before, "scan-1");
            var tree := map["/a" := Info(FileEntry, 10, 7, "text")];
            && RowAfter(map[k := row], k, tree, "scan-2", names) == Some(row.(lastSeen := "scan-2"))
            && FreshRow(k, tree, "scan-2", names) != Some(row.(lastSeen := "scan-2"))
  {}

  /** While the derived columns follow from the path, a changed type is the only way to be stale. */
  lemma DerivedStaleIff(index: Index, k: Key, tree: Tree, names: Naming)
    requires WellDerived(index, names)
    ensures StaleTwin(index, k, tree, names) <==> TypeFlipped(index, k, tree)
  {
    assert k in index ==> Derived(k, index[k], names);
  }

  /** A completed job over well-derived rows leaves well-derived rows. */
  lemma CompletedKeepsDerived(now: Tables, start: Tables, enabled: set<int>, disk: map<int, Tree>,
                              scan: string, names: Naming)
    requires CompletedRun(now, start, enabled, disk, scan, names) && WellDerived(start.index, names)
    ensures WellDerived(now.index, names)
  {
    forall k | k in now.index ensures Derived(k, now.index[k], names) {
      assert CompletedAt(k, now, start, enabled, disk, scan, names);
      assert RowAt(now.index, k) == Some(now.index[k]);
      assert k in start.index ==> Derived(k, start.index[k], names);
    }
  }

  /** The completed job against the tree itself: the enabled users' rows are those of a scan of the
      tree into an empty table exactly when none of them had a stale twin. */
  lemma CompletedIsScratch(now: Tables, start: Tables, enabled: set<int>, disk: map<int, Tree>,
                           scan: string, names: Naming)
    requires CompletedRun(now, start, enabled, disk, scan, names)
    ensures (forall k: Key :: k.user in enabled ==>
               RowAt(now.index, k) == RowAfter(map[], k, TreeOf(disk, k.user), scan, names))
       <==> (forall k: Key :: k.user in enabled ==> !StaleTwin(start.index, k, TreeOf(disk, k.user), names))
  {
    forall k: Key | k.user in enabled
      ensures RowAt(now.index, k) == RowAfter(map[], k, TreeOf(disk, k.user), scan, names) <==>
              !StaleTwin(start.index, k, TreeOf(disk, k.user), names)
    {
      assert CompletedAt(k, now, start, enabled, disk, scan, names);
      RowAgreesIff(start.index, k, TreeOf(disk, k.user), scan, names);
    }
  }

  // ---------------------------------------------------------------- document text

  /** Text files whose stored stamp is current have exactly their current content as document. */
  ghost predicate TextAgrees(t: Tables, enabled: set<int>, disk: map<int, Tree>, names: Naming) {
    forall k: Key :: k.user in enabled && k.path in TreeOf(disk, k.user) &&
                     IsTextFile(k.path, TreeOf(disk, k.user)[k.path], names) &&
                     k in t.index && StampOf(t.index[k]) == StampOnDisk(TreeOf(disk, k.user)[k.path]) ==>
      Contents(t.documents, k) == [TreeOf(disk, k.user)[k.path].text]
  }

  function StampOnDisk(i: Info): Stamp { Stamp(i.size, i.modifiedAt) }

  /** Every text file on disk has exactly one document row, with its current content. */
  ghost predicate AllTexts(t: Tables, enabled: set<int>, disk: map<int, Tree>, names: Naming) {
    forall k: Key :: k.user in enabled && k.path in TreeOf(disk, k.user) &&
                     IsTextFile(k.path, TreeOf(disk, k.user)[k.path], names) ==>
      Contents(t.documents, k) == [TreeOf(disk, k.user)[k.path].text]
  }

  /** No document or snippet without a file_index row. */
  ghost predicate NoOrphans(t: Tables) {
    forall k: Key :: k !in t.index ==> Contents(t.documents, k) == [] && At(t.snippets, k) == None
  }

  /** A completed job makes all document text current exactly when it was current wherever the stored
      stamp already matched; and it leaves no orphan in any case. */
  lemma CompletedTextIff(now: Tables, start: Tables, enabled: set<int>, disk: map<int, Tree>, scan: string,
                         names: Naming)
    requires CompletedRun(now, start, enabled, disk, scan, names)
    ensures AllTexts(now, enabled, disk, names) <==> TextAgrees(start, enabled, disk, names)
    ensures NoOrphans(now)
  {
    forall k: Key | k !in now.index ensures Contents(now.documents, k) == [] && At(now.snippets, k) == None {
      assert CompletedAt(k, now, start, enabled, disk, scan, names);
    }
    forall k: Key | k.user in enabled && k.path in TreeOf(disk, k.user) &&
                    IsTextFile(k.path, TreeOf(disk, k.user)[k.path], names)
      ensures Contents(now.documents, k) == [TreeOf(disk, k.user)[k.path].text] <==>
              (k in start.index && StampOf(start.index[k]) == StampOnDisk(TreeOf(disk, k.user)[k.path]) ==>
                 Contents(start.documents, k) == [TreeOf(disk, k.user)[k.path].text])
    {
      assert CompletedAt(k, now, start, enabled, disk, scan, names);
      TextAtIff(now, start, enabled, disk, scan, names, k);
    }
  }

  /** In terms of the kinds: a completed job that starts in agreement leaves every text, markdown and pdf
      file with exactly its content as document. */
  lemma CompletedStoresByKind(now: Tables, start: Tables, enabled: set<int>, disk: map<int, Tree>, scan: string,
                              names: Naming, k: Key)
    requires CompletedRun(now, start, enabled, disk, scan, names) && TextAgrees(start, enabled, disk, names)
    requires k.user in enabled && k.path in TreeOf(disk, k.user)
    ensures TreeOf(disk, k.user)[k.path].typ == FileEntry && names.kind(k.path) in {"text", "markdown", "pdf"} ==>
              Contents(now.documents, k) == [TreeOf(disk, k.user)[k.path].text]
    ensures TreeOf(disk, k.user)[k.path].typ == DirEntry || names.kind(k.path) !in {"text", "markdown", "pdf"} ==>
              Contents(now.documents, k) == Contents(start.documents, k) && At(now.snippets, k) == At(start.snippets, k)
  {
    CompletedTextIff(now, start, enabled, disk, scan, names);
    assert CompletedAt(k, now, start, enabled, disk, scan, names);
    assert RowAfter(start.index, k, TreeOf(disk, k.user), scan, names).Some?;
    assert k in now.index;
  }

  lemma TextAtIff(now: Tables, start: Tables, enabled: set<int>, disk: map<int, Tree>, scan: string, names: Naming,
                  k: Key)
    requires CompletedAt(k, now, start, enabled, disk, scan, names)
    requires k.user in enabled && k.path in TreeOf(disk, k.user)
    requires IsTextFile(k.path, TreeOf(disk, k.user)[k.path], names)
    ensures Contents(now.documents, k) == [TreeOf(disk, k.user)[k.path].text] <==>
            (k in start.index && StampOf(start.index[k]) == StampOnDisk(TreeOf(disk, k.user)[k.path]) ==>
               Contents(start.documents, k) == [TreeOf(disk, k.user)[k.path].text])
  {
    assert RowAfter(start.index, k, TreeOf(disk, k.user), scan, names).Some?;
    assert k in now.index;
  }

  /** Between two jobs a path that keeps its size and mtime keeps its type and text. */
  predicate HonestStamps(before: map<int, Tree>, after: map<int, Tree>, enabled: set<int>) {
    forall u :: u in enabled ==>
      forall p :: p in TreeOf(before, u) && p in TreeOf(after, u) &&
                  StampOnDisk(TreeOf(before, u)[p]) == StampOnDisk(TreeOf(after, u)[p]) ==>
        TreeOf(before, u)[p] == TreeOf(after, u)[p]
  }

  /** Agreement survives from one completed job to the start of the next. */
  lemma AgreementCarriesOver(now: Tables, start: Tables, enabled: set<int>, disk: map<int, Tree>,
                             next: map<int, Tree>, scan: string, names: Naming)
    requires CompletedRun(now, start, enabled, disk, scan, names) && TextAgrees(start, enabled, disk, names)
    requires HonestStamps(disk, next, enabled)
    ensures TextAgrees(now, enabled, next, names)
  {
    CompletedTextIff(now, start, enabled, disk, scan, names);
    forall k: Key | k.user in enabled && k.path in TreeOf(next, k.user) && k in now.index &&
                    IsTextFile(k.path, TreeOf(next, k.user)[k.path], names) &&
                    StampOf(now.index[k]) == StampOnDisk(TreeOf(next, k.user)[k.path])
      ensures Contents(now.documents, k) == [TreeOf(next, k.user)[k.path].text]
    {
      assert CompletedAt(k, now, start, enabled, disk, scan, names);
      assert RowAt(now.index, k) == Some(now.index[k]);
      assert k.path in TreeOf(disk, k.user);
      assert StampOf(now.index[k]) == StampOnDisk(TreeOf(disk, k.user)[k.path]);
      assert TreeOf(disk, k.user)[k.path] == TreeOf(next, k.user)[k.path];
    }
  }

  /** Over any run of completed jobs, with the disk changing in between, every job ends with the text
      of every file current and without orphans. */
  lemma {:induction false} EveryCompletedJobAgrees(runs: seq<Tables>, disks: seq<map<int, Tree>>, scans: seq<string>,
                                                   enabled: set<int>, names: Naming)
    requires |disks| == |scans| > 0 && |runs| == |disks| + 1
    requires forall i :: 0 <= i < |disks| ==> CompletedRun(runs[i+1], runs[i], enabled, disks[i], scans[i], names)
    requires forall i :: 0 <= i < |disks| - 1 ==> HonestStamps(disks[i], disks[i+1], enabled)
    requires TextAgrees(runs[0], enabled, disks[0], names)
    ensures forall i :: 0 <= i < |disks| ==> AllTexts(runs[i+1], enabled, disks[i], names) && NoOrphans(runs[i+1])
    decreases |disks|
  {
    CompletedTextIff(runs[1], runs[0], enabled, disks[0], scans[0], names);
    if |disks| > 1 {
      AgreementCarriesOver(runs[1], runs[0], enabled, disks[0], disks[1], scans[0], names);
      var rs, ds, ss := runs[1..], disks[1..], scans[1..];
      forall i | 0 <= i < |ds| ensures CompletedRun(rs[i+1], rs[i], enabled, ds[i], ss[i], names) {
        assert CompletedRun(runs[i+2], runs[i+1], enabled, disks[i+1], scans[i+1], names);
      }
      forall i | 0 <= i < |ds| - 1 ensures HonestStamps(ds[i], ds[i+1], enabled) {
        assert HonestStamps(disks[i+1], disks[i+2], enabled);
      }
      EveryCompletedJobAgrees(rs, ds, ss, enabled, names);
      forall i | 1 <= i < |disks|
        ensures AllTexts(runs[i+1], enabled, disks[i], names) && NoOrphans(runs[i+1])
      {
        assert AllTexts(rs[i], enabled, ds[i-1], names) && NoOrphans(rs[i]);
      }
    }
  }

  /** The row is current by its stamp, and the documents stored for it are these. */
  predicate HeldText(t: Tables, k: Key, stamp: Stamp, docs: seq<string>) {
    k in t.index && StampOf(t.index[k]) == stamp && Contents(t.documents, k) == docs
  }

  /** Over any run of completed jobs, as long as the file keeps its size and mtime its documents stay
      what they were: text missed once is never indexed. */
  lemma {:induction false} MissedTextStays(runs: seq<Tables>, disks: seq<map<int, Tree>>, scans: seq<string>,
                                           enabled: set<int>, names: Naming, k: Key, stamp: Stamp, docs: seq<string>)
    requires |disks| == |scans| && |runs| == |disks| + 1
    requires forall i :: 0 <= i < |disks| ==> CompletedRun(runs[i+1], runs[i], enabled, disks[i], scans[i], names)
    requires forall i :: 0 <= i < |disks| ==>
               k.path in TreeOf(disks[i], k.user) && StampOnDisk(TreeOf(disks[i], k.user)[k.path]) == stamp
    requires HeldText(runs[0], k, stamp, docs)
    ensures forall i :: 0 <= i < |runs| ==> HeldText(runs[i], k, stamp, docs)
    decreases |disks|
  {
    if |disks| > 0 {
      assert CompletedRun(runs[1], runs[0], enabled, disks[0], scans[0], names);
      JobKeepsText(runs[1], runs[0], enabled, disks[0], scans[0], names, k, stamp, docs);
      var rs, ds, ss := runs[1..], disks[1..], scans[1..];
      forall i | 0 <= i < |ds| ensures CompletedRun(rs[i+1], rs[i], enabled, ds[i], ss[i], names) {
        assert CompletedRun(runs[i+2], runs[i+1], enabled, disks[i+1], scans[i+1], names);
      }
      MissedTextStays(rs, ds, ss, enabled, names, k, stamp, docs);
      assert forall i :: 0 < i < |runs| ==> runs[i] == rs[i-1];
    }
  }

  lemma JobKeepsText(now: Tables, start: Tables, enabled: set<int>, disk: map<int, Tree>, scan: string, names: Naming,
                     k: Key, stamp: Stamp, docs: seq<string>)
    requires CompletedRun(now, start, enabled, disk, scan, names) && HeldText(start, k, stamp, docs)
    requires k.path in TreeOf(disk, k.user) && StampOnDisk(TreeOf(disk, k.user)[k.path]) == stamp
    ensures HeldText(now, k, stamp, docs)
  {
    assert CompletedAt(k, now, start, enabled, disk, scan, names);
    assert RowAt(start.index, k) == Some(start.index[k]);
    assert RowAt(now.index, k).Some? && k in now.index;
  }

  /** Where such a row comes from: any scan of a new or changed text file whose staging is not applied
      afterwards, be it a job that stops or a refresh of a folder. */
  lemma UnappliedScanMissesText(base: Index, docs: seq<Doc>, items: seq<Item>, user: int, tree: Tree, scan: string,
                                names: Naming, k: Key)
    requires DistinctPaths(items) && FromTree(items, user, tree, scan, names) && PathsOf(items) == tree.Keys
    requires k.user == user && k.path in tree && !Unchanged(base, EntryFor(user, k.path, tree[k.path], scan, names))
    ensures HeldText(Tables(Scanned(base, items), docs, map[], StagedTexts(base, items)), k,
                     StampOnDisk(tree[k.path]), Contents(docs, k))
  {
    ScannedAt(base, items, user, tree, scan, names, k);
    assert RowAt(Scanned(base, items), k).Some?;
  }

  /** A first scan of one file that is stopped before staging is applied: no later job indexes its text. */
  lemma InterruptedScanLosesText(path: string, info: Info, scan0: string, names: Naming, runs: seq<Tables>,
                                 disks: seq<map<int, Tree>>, scans: seq<string>)
    requires |disks| == |scans| && |runs| == |disks| + 1
    requires runs[0] == Tables(Scanned(map[], [ItemFor(1, path, info, scan0, names)]), [], map[], [])
    requires forall i :: 0 <= i < |disks| ==> CompletedRun(runs[i+1], runs[i], {1}, disks[i], scans[i], names)
    requires forall i :: 0 <= i < |disks| ==> disks[i] == map[1 := map[path := info]]
    ensures forall i :: 0 <= i < |runs| ==>
        Key(1, path) in runs[i].index && Contents(runs[i].documents, Key(1, path)) == []
  {
    var items := [ItemFor(1, path, info, scan0, names)];
    assert items[..0] == [];
    MissedTextStays(runs, disks, scans, {1}, names, Key(1, path), StampOnDisk(info), []);
  }

  /** A home root that is missing counts as empty: a completed job removes all its rows. */
  lemma MissingRootClearsIndex(now: Tables, start: Tables, enabled: set<int>, disk: map<int, Tree>, scan: string,
                               names: Naming, user: int)
    requires CompletedRun(now, start, enabled, disk, scan, names) && user in enabled && user !in disk
    ensures forall k :: k in now.index ==> k.user != user
  {
    forall k | k in now.index ensures k.user != user {
      assert CompletedAt(k, now, start, enabled, disk, scan, names);
    }
  }
}
