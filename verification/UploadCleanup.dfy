/** Expired uploads and orphaned staging files: internal/server/upload_cleanup.go over the uploads
    table of internal/store/uploads.go. */
module UploadCleanup {
  import opened Strings
  import opened Timestamps
  import UploadServer

  type PartKey = UploadServer.PartKey

  datatype Record = Record(user: int, temp: PartKey, updatedAt: Stamp, completed: bool)

  datatype Listed = Listed(id: string, record: Record)

  datatype CleanupResult = CleanupResult(expiredRecords: nat, expiredFiles: nat, orphanedFiles: nat)

  /** completed_at IS NULL AND updated_at < ?, on the stored text. */
  predicate IsExpired(r: Record, cutoff: Stamp) {
    !r.completed && Less(Text(r.updatedAt), Text(cutoff))
  }

  /** validateUploadTempPath. */
  predicate SafeTemp(id: string, r: Record) { r.temp == UploadServer.PartKey(r.user, id) }

  class Staging {
    var records: map<string, Record>
    var parts: set<PartKey>
    /** Failed system calls and queries. */
    ghost var faults: nat

    constructor ()
      ensures records == map[] && parts == {} && faults == 0
    {
      records, parts, faults := map[], {}, 0;
    }

    ghost predicate Valid()
      reads this
    {
      forall id :: id in records ==> SafeTemp(id, records[id])
    }

    /** Whether the next call or query fails. */
    method Fails() returns (failed: bool)
      modifies this`faults
      ensures faults == old(faults) + if failed then 1 else 0
    {
      failed := *;
      faults := faults + if failed then 1 else 0;
    }

    /** ListExpiredUploads: each expired row once, in any order. */
    method ListExpiredUploads(cutoff: Stamp) returns (r: Option<seq<Listed>>)
      modifies this`faults
      ensures faults == old(faults) + if r.Some? then 0 else 1
      ensures r.Some? ==> ExpiredList(records, cutoff, r.value)
    {
      var failed := Fails();
      if failed { return None; }
      var rows := RowsFor(ExpiredSet(records, cutoff));
      return Some(rows);
    }

    method RowsFor(ids: set<string>) returns (rows: seq<Listed>)
      requires ids <= records.Keys
      ensures ListsExactly(records, ids, rows)
    {
      var left := ids;
      rows := [];
      ListNone(records, ids);
      while left != {}
        invariant left <= ids && ListsExactly(records, ids - left, rows)
        decreases |left|
      {
        var id :| id in left;
        ListNext(records, ids, left, rows, id);
        rows := rows + [Listed(id, records[id])];
        left := left - {id};
      }
      assert ids - left == ids;
    }

    /** os.Remove of a staging file; fails on a missing one. */
    method Remove(key: PartKey) returns (ok: bool)
      modifies this`parts, this`faults
      ensures ok <==> key in old(parts) && faults == old(faults)
      ensures old(faults) <= faults <= old(faults) + 1
      ensures parts == if ok then old(parts) - {key} else old(parts)
    {
      var failed := Fails();
      if failed { return false; }
      if key !in parts { return false; }
      parts := parts - {key};
      return true;
    }

    method DeleteUpload(id: string) returns (ok: bool)
      modifies this`records, this`faults
      ensures ok <==> id in old(records) && faults == old(faults)
      ensures old(faults) <= faults <= old(faults) + 1
      ensures records == if ok then old(records) - {id} else old(records)
    {
      var failed := Fails();
      if failed { return false; }
      if id !in records { return false; }
      records := records - {id};
      return true;
    }

    method GetUpload(id: string) returns (r: Option<Record>)
      modifies this`faults
      ensures r.Some? ==> id in records && r.value == records[id]
      ensures r.None? <==> id !in records || faults > old(faults)
      ensures old(faults) <= faults <= old(faults) + 1
    {
      var failed := Fails();
      if failed { return None; }
      return if id in records then Some(records[id]) else None;
    }

    /** The loop over the expired rows. */
    method RemoveExpired(expired: seq<Listed>) returns (records': nat, files: nat)
      requires Valid() && ListsExactly(records, Ids(expired), expired)
      modifies this
      ensures faults >= old(faults)
      ensures faults == old(faults) ==>
        && records == old(records) - Ids(expired) && records' == |expired|
        && parts == old(parts) - Temps(expired) && files <= |expired|
    {
      records', files := 0, 0;
      var i := 0;
      while i < |expired|
        invariant 0 <= i <= |expired| && faults >= old(faults)
        invariant faults == old(faults) ==>
          && records == old(records) - Ids(expired[..i]) && records' == i
          && parts == old(parts) - Temps(expired[..i]) && files <= i
      {
        var u := expired[i];
        ListedNext(old(records), expired, i);
        if SafeTemp(u.id, u.record) {
          var ok := Remove(u.record.temp);
          if ok { files := files + 1; }
        }
        var ok := DeleteUpload(u.id);
        if ok { records' := records' + 1; }
        i := i + 1;
      }
      assert expired[..i] == expired;
    }

    /** scanOrphanedParts: a read error counts as "no record". */
    method ScanOrphanedParts(justDeleted: seq<Listed>) returns (orphans: seq<PartKey>)
      modifies this`faults
      ensures faults >= old(faults)
      ensures forall i, j :: 0 <= i < j < |orphans| ==> orphans[i] != orphans[j]
      ensures forall k :: k in orphans ==> k in parts
      ensures faults == old(faults) ==>
                forall k :: k in orphans <==> k in parts && k !in Temps(justDeleted) && k.id !in records
    {
      var known := {};
      var i := 0;
      while i < |justDeleted|
        invariant 0 <= i <= |justDeleted| && known == Temps(justDeleted[..i]) && faults == old(faults)
      {
        TempsSnoc(justDeleted, i);
        known := known + {justDeleted[i].record.temp};
        i := i + 1;
      }
      assert justDeleted[..i] == justDeleted;
      orphans := [];
      var left := parts;
      while left != {}
        invariant left <= parts && faults >= old(faults)
        invariant forall i, j :: 0 <= i < j < |orphans| ==> orphans[i] != orphans[j]
        invariant forall k :: k in orphans ==> k in parts - left
        invariant faults == old(faults) ==>
          forall k :: k in orphans <==> k in parts - left && k !in known && k.id !in records
        decreases |left|
      {
        var failed := Fails();
        if failed { return; }
        var k :| k in left;
        assert forall i :: 0 <= i < |orphans| ==> orphans[i] in orphans && orphans[i] != k;
        if k !in known {
          var r := GetUpload(k.id);
          if r.None? { orphans := orphans + [k]; }
        }
        left := left - {k};
      }
    }

    method RemoveOrphans(orphans: seq<PartKey>) returns (removed: nat)
      requires forall i, j :: 0 <= i < j < |orphans| ==> orphans[i] != orphans[j]
      requires forall k :: k in orphans ==> k in parts
      modifies this`parts, this`faults
      ensures faults >= old(faults)
      ensures faults == old(faults) ==> parts == old(parts) - Elements(orphans) && removed == |orphans|
    {
      removed := 0;
      var i := 0;
      while i < |orphans|
        invariant 0 <= i <= |orphans| && faults >= old(faults)
        invariant faults == old(faults) ==> parts == old(parts) - Elements(orphans[..i]) && removed == i
      {
        ElementsSnoc(orphans, i);
        var ok := Remove(orphans[i]);
        if ok { removed := removed + 1; }
        i := i + 1;
      }
      assert orphans[..i] == orphans;
    }

    /** RunUploadCleanup; cutoff is the current time less ttl. */
    method RunUploadCleanup(ttl: int, cutoff: Stamp) returns (result: CleanupResult)
      requires Valid()
      modifies this
      ensures ttl <= 0 ==> records == old(records) && parts == old(parts)
      ensures ttl <= 0 ==> result == CleanupResult(0, 0, 0)
      ensures ttl > 0 && faults == old(faults) ==>
        && records == (map id | id in old(records) && !IsExpired(old(records)[id], cutoff) :: old(records)[id])
        && parts == (set k | k in old(parts) && k.id in records)
        && result.expiredRecords == |old(records)| - |records|
      ensures ttl > 0 && faults == old(faults) ==> forall k :: k in parts ==> k.id in records
      ensures ttl > 0 && faults == old(faults) ==>
          forall id :: id in old(records) && Recent(old(records)[id], cutoff) ==>
                id in records && (old(records)[id].temp in old(parts) ==> records[id].temp in parts)
    {
      result := CleanupResult(0, 0, 0);
      if ttl <= 0 { return; }
      var listed := ListExpiredUploads(cutoff);
      if listed.None? { return; }
      var expired := listed.value;
      ghost var before, files := records, parts;
      ExpiredIds(records, cutoff, expired);
      var n, m := RemoveExpired(expired);
      result := CleanupResult(n, m, 0);
      var orphans := ScanOrphanedParts(expired);
      var removed := RemoveOrphans(orphans);
      result := result.(orphanedFiles := removed);
      if faults == old(faults) {
        RowsLeft(before, cutoff, expired);
        FilesLeft(before, files, expired, orphans);
        forall id | id in before && Recent(before[id], cutoff) ensures !IsExpired(before[id], cutoff) {
          RecentIsKept(before[id], cutoff);
        }
      }
    }
  }

  // ---------------------------------------------------------------- lists of rows

  function Ids(rows: seq<Listed>): set<string> { set i | 0 <= i < |rows| :: rows[i].id }

  function Temps(rows: seq<Listed>): set<PartKey> { set i | 0 <= i < |rows| :: rows[i].record.temp }

  function Elements(keys: seq<PartKey>): set<PartKey> { set k | k in keys }

  /** The rows with these ids, each once. */
  ghost predicate ListsExactly(records: map<string, Record>, ids: set<string>, rows: seq<Listed>) {
    && Ids(rows) == ids && |rows| == |ids|
    && (forall i :: 0 <= i < |rows| ==> rows[i].id in records && rows[i].record == records[rows[i].id])
    && (forall i, j :: 0 <= i < j < |rows| ==> rows[i].id != rows[j].id)
  }

  function ExpiredSet(records: map<string, Record>, cutoff: Stamp): set<string> {
    set id | id in records && IsExpired(records[id], cutoff)
  }

  ghost predicate ExpiredList(records: map<string, Record>, cutoff: Stamp, rows: seq<Listed>) {
    ListsExactly(records, ExpiredSet(records, cutoff), rows)
  }

  lemma IdsSnoc(rows: seq<Listed>, r: Listed)
    ensures Ids(rows + [r]) == Ids(rows) + {r.id}
  {
    forall id ensures id in Ids(rows + [r]) <==> id in Ids(rows) + {r.id} {
      if id in Ids(rows) {
        var i :| 0 <= i < |rows| && rows[i].id == id;
        assert (rows + [r])[i].id == id;
      }
      assert (rows + [r])[|rows|].id == r.id;
    }
  }

  lemma ListOne(records: map<string, Record>, ids: set<string>, rows: seq<Listed>, id: string)
    requires ListsExactly(records, ids, rows) && id !in ids && id in records
    ensures ListsExactly(records, ids + {id}, rows + [Listed(id, records[id])])
  {
    IdsSnoc(rows, Listed(id, records[id]));
    forall i | 0 <= i < |rows| ensures rows[i].id != id { assert rows[i].id in Ids(rows); }
  }

  lemma ListNone(records: map<string, Record>, ids: set<string>)
    ensures ListsExactly(records, ids - ids, [])
  {
    assert Ids([]) == {} && ids - ids == {};
  }

  lemma ListNext(records: map<string, Record>, ids: set<string>, left: set<string>, rows: seq<Listed>, id: string)
    requires ListsExactly(records, ids - left, rows) && left <= ids && id in left && id in records
    ensures ListsExactly(records, ids - (left - {id}), rows + [Listed(id, records[id])])
  {
    ListOne(records, ids - left, rows, id);
    assert ids - left + {id} == ids - (left - {id});
  }

  lemma TempsSnoc(rows: seq<Listed>, i: nat)
    requires i < |rows|
    ensures Temps(rows[..i+1]) == Temps(rows[..i]) + {rows[i].record.temp}
  {
    forall k ensures k in Temps(rows[..i+1]) <==> k in Temps(rows[..i]) + {rows[i].record.temp} {
      if k in Temps(rows[..i]) {
        var j :| 0 <= j < i && rows[..i][j].record.temp == k;
        assert rows[..i+1][j].record.temp == k;
      }
      assert rows[..i+1][i] == rows[i];
    }
  }

  lemma ElementsSnoc(keys: seq<PartKey>, i: nat)
    requires i < |keys|
    ensures Elements(keys[..i+1]) == Elements(keys[..i]) + {keys[i]}
  {
    assert keys[..i+1] == keys[..i] + [keys[i]];
  }

  lemma ListedNext(records: map<string, Record>, rows: seq<Listed>, i: nat)
    requires ListsExactly(records, Ids(rows), rows) && i < |rows|
    ensures Ids(rows[..i+1]) == Ids(rows[..i]) + {rows[i].id} && rows[i].id !in Ids(rows[..i])
    ensures Temps(rows[..i+1]) == Temps(rows[..i]) + {rows[i].record.temp}
    ensures rows[i].id in records && rows[i].record == records[rows[i].id]
  {
    assert rows[..i+1] == rows[..i] + [rows[i]];
    IdsSnoc(rows[..i], rows[i]);
    TempsSnoc(rows, i);
  }

  lemma ExpiredIds(records: map<string, Record>, cutoff: Stamp, rows: seq<Listed>)
    requires ExpiredList(records, cutoff, rows)
    ensures ListsExactly(records, Ids(rows), rows)
    ensures Ids(rows) == ExpiredSet(records, cutoff) && |rows| == |Ids(rows)|
  {}

  lemma Unexpired(records: map<string, Record>, cutoff: Stamp)
    ensures records - ExpiredSet(records, cutoff) ==
            (map id | id in records && !IsExpired(records[id], cutoff) :: records[id])
    ensures ExpiredSet(records, cutoff) <= records.Keys
  {}

  /** Deleting the listed rows leaves exactly the unexpired ones. */
  lemma RowsLeft(records: map<string, Record>, cutoff: Stamp, rows: seq<Listed>)
    requires ExpiredList(records, cutoff, rows)
    ensures records - Ids(rows) == (map id | id in records && !IsExpired(records[id], cutoff) :: records[id])
    ensures |records - Ids(rows)| == |records| - |rows|
  {
    ExpiredIds(records, cutoff, rows);
    Unexpired(records, cutoff);
    CountLeft(records, Ids(rows));
  }

  lemma CountLeft(records: map<string, Record>, drop: set<string>)
    requires drop <= records.Keys
    ensures |records - drop| == |records| - |drop|
  {
    assert (records - drop).Keys == records.Keys - drop;
    assert |records - drop| == |(records - drop).Keys| && |records| == |records.Keys|;
  }

  /** Deleting their files, and then the orphans, leaves exactly the files of remaining rows. */
  lemma FilesLeft(records: map<string, Record>, parts: set<PartKey>, rows: seq<Listed>, orphans: seq<PartKey>)
    requires forall id :: id in records ==> SafeTemp(id, records[id])
    requires ListsExactly(records, Ids(rows), rows)
    requires forall k :: k in orphans <==> k in parts - Temps(rows) && k !in Temps(rows) && k.id !in records - Ids(rows)
    ensures parts - Temps(rows) - Elements(orphans) == (set k | k in parts && k.id in records - Ids(rows))
  {
    forall k ensures k in Temps(rows) ==> k.id in Ids(rows) {
      if k in Temps(rows) {
        var i :| 0 <= i < |rows| && rows[i].record.temp == k;
        assert SafeTemp(rows[i].id, records[rows[i].id]);
      }
    }
  }

  // ---------------------------------------------------------------- who survives

  /** Touched within the TTL, to whole seconds. */
  predicate Recent(r: Record, cutoff: Stamp) {
    InRange(r.updatedAt) && InRange(cutoff) && EarlierSecond(cutoff, r.updatedAt)
  }

  lemma RecentIsKept(r: Record, cutoff: Stamp)
    requires Recent(r, cutoff)
    ensures !IsExpired(r, cutoff)
  {
    TextOrder(r.updatedAt, cutoff);
  }

  /** An unfinished upload last touched in a later second than the cutoff is never expired; one last
      touched in an earlier second always is. */
  lemma TtlInWholeSeconds(r: Record, cutoff: Stamp)
    requires InRange(r.updatedAt) && InRange(cutoff) && !r.completed
    ensures EarlierSecond(cutoff, r.updatedAt) ==> !IsExpired(r, cutoff)
    ensures EarlierSecond(r.updatedAt, cutoff) ==> IsExpired(r, cutoff)
  {
    TextOrder(r.updatedAt, cutoff);
  }

  /** Expiry follows the clock exactly, unless both times fall in one second and the printed fraction
      of one begins that of the other. */
  lemma ExpiryIsAgeIff(r: Record, cutoff: Stamp)
    requires InRange(r.updatedAt) && InRange(cutoff) && !r.completed
    ensures (IsExpired(r, cutoff) <==> Before(r.updatedAt, cutoff)) <==>
            !SameSecond(r.updatedAt, cutoff) || !Nested(r.updatedAt.nanos, cutoff.nanos)
  {
    TextOrderIff(r.updatedAt, cutoff);
  }

  /** A finished upload never expires, and keeps its record over a cleanup. */
  lemma FinishedIsKept(r: Record, cutoff: Stamp)
    requires r.completed
    ensures !IsExpired(r, cutoff)
  {}
}
