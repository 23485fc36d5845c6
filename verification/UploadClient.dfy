/** Resuming clients (web/src/lib/api.ts and the Android upload service) against UploadServer.Server
    over a network that loses requests and responses, cuts bodies and delivers old requests late. */
module UploadClient {
  import opened Strings
  import opened LogicalPaths
  import opened UploadServer

  datatype ClientResult =
    | NoAnswer
    | Gone
    | Refused(status: int)
    | AlreadySent            // HEAD says everything arrived; no final path is known
    | Sent(offset: nat, finalPath: Option<Comps>)

  /** The server's record of this upload is of this file, as far as it goes. */
  ghost predicate Mine(s: Server, user: int, id: string, file: Bytes)
    reads s
  {
    id in s.uploads ==>
      && s.uploads[id].user == user && s.uploads[id].length == |file|
      && id in s.accepted && s.accepted[id] <= file
  }

  /** The file stands complete in the user's home. */
  ghost predicate Delivered(s: Server, user: int, path: Comps, file: Bytes)
    reads s
  {
    HomeKey(user, path) in s.home && s.home[HomeKey(user, path)] == File(file)
  }

  /** The server would take the rest of the file from this offset, and could then place it. */
  ghost predicate CanFinish(s: Server, user: int, id: string, offset: nat)
    reads s
  {
    s.OpenAt(user, id, offset) && s.Placeable(user, s.uploads[id].targetDir, s.uploads[id].filename)
  }

  /** The server would take the rest of the file from this offset, and could not place it then. */
  ghost predicate FolderRefuses(s: Server, user: int, id: string, offset: nat)
    reads s
  {
    s.OpenAt(user, id, offset) && !s.Placeable(user, s.uploads[id].targetDir, s.uploads[id].filename)
  }

  /** The server holds exactly what it held. */
  twostate predicate Unmoved(s: Server)
    reads s
  {
    s.uploads == old(s.uploads) && s.parts == old(s.parts) && s.home == old(s.home) && s.accepted == old(s.accepted)
  }

  /** Whether the network loses the next request, cuts it or loses its answer. */
  method Loses() returns (lost: bool) {
    lost := *;
  }

  /** The request at the server: the rest of the file, or a part of it that ends abruptly. */
  method PatchArrives(s: Server, user: int, id: string, file: Bytes, offset: nat, body: Body) returns (resp: Response)
    requires s.Valid() && Mine(s, user, id, file) && offset <= |file|
    requires body.ok ==> body.data == file[offset..]
    modifies s
    ensures s.Valid() && s.Monotone(id) && s.OnlyTouches(id, PartKey(user, id)) && Mine(s, user, id, file)
    ensures s.faults >= old(s.faults) && (id in old(s.uploads) ==> id in s.uploads)
    ensures resp.Patched? && resp.finalPath.Some? ==>
              && id in old(s.uploads) && old(s.uploads[id].finalPath).None?
              && s.uploads[id].finalPath == resp.finalPath
              && Delivered(s, user, resp.finalPath.value, file)
    ensures body.ok && s.faults == old(s.faults) && old(CanFinish(s, user, id, offset)) ==>
              resp.Patched? && resp.finalPath.Some?
    ensures body.ok && s.faults == old(s.faults) && old(FolderRefuses(s, user, id, offset)) ==>
              !resp.Patched? && s.Waiting(id) && s.home == old(s.home)
  {
    ghost var before := if id in s.accepted then s.accepted[id] else [];
    assert id in s.uploads ==> UploadOk(id, s.uploads[id], s.parts, s.accepted);
    s.RefusalIff(user, id, Some(offset));
    if id in s.uploads { s.FinalizeRefusalIff(user, s.uploads[id].targetDir, s.uploads[id].filename); }
    resp := s.Patch(user, id, Some(offset), body);
    if id in s.uploads {
      ChunkFits(before, file, offset, body, s.accepted[id]);
      assert UploadOk(id, s.uploads[id], s.parts, s.accepted);
    }
    if resp.Patched? && resp.finalPath.Some? {
      assert s.accepted[id] == file;
    }
  }

  /** uploadTusPatch / patchUpload: the file from an offset to its end, over the network. */
  method SendPatch(s: Server, user: int, id: string, file: Bytes, offset: nat)
    returns (r: ClientResult, ghost answered: Response, ghost lost: bool)
    requires s.Valid() && Mine(s, user, id, file) && offset <= |file|
    modifies s
    ensures s.Valid() && s.Monotone(id) && s.OnlyTouches(id, PartKey(user, id)) && Mine(s, user, id, file)
    ensures id in old(s.uploads) ==> id in s.uploads
    ensures r.Sent? ==> answered == Patched(r.offset, r.finalPath)
    ensures answered.Patched? && answered.finalPath.Some? ==>
              && id in old(s.uploads) && old(s.uploads[id].finalPath).None?
              && s.uploads[id].finalPath == answered.finalPath
              && Delivered(s, user, answered.finalPath.value, file)
    ensures !r.AlreadySent?
    // nothing lost, nothing failing and the folder in order: the rest arrives and completes the upload
    ensures !lost && s.faults == old(s.faults) && old(CanFinish(s, user, id, offset)) ==> r.Sent? && r.finalPath.Some?
    // the same with the folder gone or full: the bytes are committed, nothing is placed
    ensures !lost && s.faults == old(s.faults) && old(FolderRefuses(s, user, id, offset)) ==>
              !r.Sent? && s.Waiting(id) && s.home == old(s.home)
    ensures s.faults >= old(s.faults)
  {
    answered := Crashed;
    var gone := Loses();
    lost := gone;
    if gone { return NoAnswer, answered, lost; }
    var rest := file[offset..];
    var body := Body(rest, true);
    gone := Loses();
    if gone {
      var cut: nat :| cut <= |rest|;
      body := Body(rest[..cut], false);
    }
    lost := gone;
    var resp := PatchArrives(s, user, id, file, offset, body);
    answered := resp;
    gone := Loses();
    lost := lost || gone;
    r := if gone then NoAnswer else Understood(resp);
  }

  /** What the client makes of the answer to a PATCH. */
  function Understood(resp: Response): ClientResult {
    match resp
    case Patched(n, p) => Sent(n, p)
    case Error(status) => if status == NOT_FOUND then Gone else Refused(status)
    case _ => NoAnswer
  }

  /** An accepted chunk of an unchanged file extends the accepted prefix of that file. */
  lemma ChunkFits(before: Bytes, file: Bytes, offset: nat, body: Body, after: Bytes)
    requires before <= file && offset <= |file|
    requires || after == before
             || (&& after == before + body.data && (body.ok ==> body.data == file[offset..])
                 && (after != before ==> body.ok && offset == |before|))
    ensures after <= file
    ensures after != before ==> after == file
  {
    if after != before {
      assert file == file[..offset] + file[offset..];
      assert before == file[..offset];
    }
  }

  /** The server could finish the upload from the offset it has recorded. */
  ghost predicate Resumable(s: Server, user: int, id: string)
    reads s
  {
    id in s.uploads && CanFinish(s, user, id, s.uploads[id].offset)
  }

  ghost predicate DeliveredBy(s: Server, user: int, r: ClientResult, file: Bytes)
    reads s
  {
    r.Sent? && r.finalPath.Some? && Delivered(s, user, r.finalPath.value, file)
  }

  /** resumeUploadTus / upload: ask for the offset, then send the rest. */
  method Resume(s: Server, user: int, id: string, file: Bytes)
    returns (r: ClientResult, ghost answered: Response, ghost lost: bool)
    requires s.Valid() && Mine(s, user, id, file)
    modifies s
    ensures s.Valid() && s.Monotone(id) && s.OnlyTouches(id, PartKey(user, id)) && Mine(s, user, id, file)
    ensures id in old(s.uploads) ==> id in s.uploads
    ensures r.Sent? ==> answered == Patched(r.offset, r.finalPath)
    ensures answered.Patched? && answered.finalPath.Some? ==>
              && id in old(s.uploads) && old(s.uploads[id].finalPath).None?
              && s.uploads[id].finalPath == answered.finalPath
              && Delivered(s, user, answered.finalPath.value, file)
    ensures r.AlreadySent? ==> id in s.uploads && s.accepted[id] == file
    // where the server could finish, and nothing is lost or fails, one resume delivers exactly when
    // some byte is still missing
    ensures !lost && s.faults == old(s.faults) && old(Resumable(s, user, id)) ==>
              (DeliveredBy(s, user, r, file) <==> old(s.uploads[id].offset) < |file|)
    // with every byte committed no resume does anything, whatever happens
    ensures id in old(s.uploads) && old(s.uploads[id].offset) == |file| ==> Unmoved(s) && !r.Sent?
    ensures s.faults >= old(s.faults)
  {
    answered := Crashed;
    var gone := Loses();
    lost := gone;
    if gone { return NoAnswer, answered, lost; }
    var head := s.Head(user, id);
    gone := Loses();
    lost := gone;
    if gone { return NoAnswer, answered, lost; }
    if head.Error? { return Gone, answered, false; }
    assert UploadOk(id, s.uploads[id], s.parts, s.accepted);
    if head.offset >= |file| { return AlreadySent, answered, false; }
    r, answered, lost := SendPatch(s, user, id, file, head.offset);
  }

  /** A waiting upload stays waiting however often its client resumes: HEAD reports the full length, and
      the client takes that for success. */
  method ResumeWaiting(s: Server, user: int, id: string, file: Bytes, tries: nat) returns (delivered: bool)
    requires s.Valid() && Mine(s, user, id, file) && s.Waiting(id)
    modifies s
    ensures s.Valid() && Unmoved(s) && s.Waiting(id) && !delivered
  {
    delivered := false;
    for i := 0 to tries
      invariant s.Valid() && Unmoved(s) && !delivered
    {
      var r;
      ghost var a: Response, lost: bool;
      r, a, lost := Resume(s, user, id, file);
      delivered := delivered || r.Sent?;
    }
  }

  /** The way there needs no crash: the folder is gone when the last bytes come, the request is refused,
      and no later resume delivers the file, not even with the folder back. */
  method SendIntoMissingFolder(s: Server, user: int, id: string, file: Bytes, tries: nat, home: map<HomeKey, Node>)
    returns (r: ClientResult, ghost lost: bool, ghost failed: bool, delivered: bool)
    requires s.Valid() && Mine(s, user, id, file) && id in s.uploads
    requires FolderRefuses(s, user, id, s.uploads[id].offset)
    modifies s
    ensures !lost && !failed ==> !r.Sent? && !delivered && s.Waiting(id) && s.home == home
  {
    ghost var before := s.faults;
    delivered := false;
    assert UploadOk(id, s.uploads[id], s.parts, s.accepted);
    ghost var answered: Response;
    r, answered, lost := SendPatch(s, user, id, file, s.uploads[id].offset);
    failed := s.faults > before;
    s.home := home;
    for i := 0 to tries
      invariant s.Valid() && Mine(s, user, id, file)
      invariant !lost && !failed ==> s.Waiting(id) && s.home == home && !delivered
    {
      var again;
      ghost var a: Response, l: bool;
      again, a, l := Resume(s, user, id, file);
      delivered := delivered || again.Sent?;
    }
  }

  /** What would finish it, and no client sends: an empty PATCH at the full offset. */
  method EmptyPatch(s: Server, user: int, id: string, file: Bytes) returns (r: Response)
    requires s.Valid() && Mine(s, user, id, file) && s.Waiting(id)
    modifies s
    ensures s.Valid()
    ensures s.faults == old(s.faults) && old(Resumable(s, user, id)) ==>
              r.Patched? && r.finalPath.Some? && Delivered(s, user, r.finalPath.value, file)
  {
    assert UploadOk(id, s.uploads[id], s.parts, s.accepted);
    ghost var before := s.accepted[id];
    s.RefusalIff(user, id, Some(|file|));
    s.FinalizeRefusalIff(user, s.uploads[id].targetDir, s.uploads[id].filename);
    r := s.Patch(user, id, Some(|file|), Body([], true));
    assert before + [] == before;
  }

  /** Any request about another upload, by anybody. */
  method OtherTraffic(s: Server, id: string, ghost user: int)
    requires s.Valid()
    modifies s
    ensures s.Valid() && s.KeepsHome()
    ensures s.View(id, PartKey(user, id)) == old(s.View(id, PartKey(user, id)))
  {
    var who: int, other: string, data: Bytes, off: Option<int>, ok: bool := *, *, *, *, *;
    if other == id { return; }
    if * {
      var _ := s.Patch(who, other, off, Body(data, ok));
    } else if * {
      var _ := s.Delete(who, other);
    } else if other !in s.uploads && PartKey(who, other) !in s.parts {
      var len: Option<nat>, name: string, dir: string, body: Option<Body> := *, *, *, *;
      var _ := s.Create(who, other, len, name, dir, body);
    }
  }

  /** Everything that can happen to one client's upload after it was created, in any order and number:
      resumes, late copies of earlier requests, a terminate, and other users' traffic. The client is
      told a final path at most once, and only when that path holds its file byte for byte. */
  method Session(s: Server, user: int, id: string, file: Bytes, steps: nat) returns (finals: nat, path: Option<Comps>)
    requires s.Valid() && Mine(s, user, id, file)
    requires id in s.uploads ==> s.uploads[id].finalPath.None?
    modifies s
    ensures s.Valid() && s.KeepsHome()
    ensures finals <= 1 && (finals == 1 <==> path.Some?)
    ensures path.Some? ==> Delivered(s, user, path.value, file)
    ensures path.Some? ==> id in s.uploads && s.uploads[id].finalPath == path && s.accepted[id] == file
  {
    finals, path := 0, None;
    for i := 0 to steps
      invariant s.Valid() && s.KeepsHome() && Mine(s, user, id, file)
      invariant finals <= 1 && (finals == 1 <==> path.Some?)
      invariant path.Some? ==>
          id in s.uploads && s.uploads[id].finalPath == path && Delivered(s, user, path.value, file)
    {
      if * {
        OtherTraffic(s, id, user);
      } else if * {
        var _ := s.Delete(user, id);
      } else {
        var r: ClientResult;
        ghost var a: Response, lost: bool;
        if * {
          var offset: nat :| offset <= |file|;
          r, a, lost := SendPatch(s, user, id, file, offset);
        } else {
          r, a, lost := Resume(s, user, id, file);
        }
        if r.Sent? && r.finalPath.Some? {
          finals, path := finals + 1, r.finalPath;
        }
      }
    }
    if path.Some? {
      assert UploadOk(id, s.uploads[id], s.parts, s.accepted);
    }
  }

  /** uploadTus: create, then patch from offset 0. An empty file has no PATCH, and its client learns no path. */
  method UploadNew(s: Server, user: int, id: string, file: Bytes, filename: string, targetDir: string)
    returns (r: ClientResult, ghost lost: bool)
    requires s.Valid() && id !in s.uploads && PartKey(user, id) !in s.parts
    modifies s
    ensures s.Valid() && s.KeepsHome() && s.faults >= old(s.faults) && Mine(s, user, id, file)
    ensures DeliveredBy(s, user, r, file) <==> r.Sent? && r.finalPath.Some?
    ensures r.Sent? && r.finalPath.Some? ==> id in s.uploads && s.uploads[id].finalPath == r.finalPath
    // an acceptable upload that can be placed is delivered, if nothing is lost and nothing fails
    ensures !lost && s.faults == old(s.faults) && old(CanUpload(s, user, file, filename, targetDir)) ==>
              if file == [] then r.AlreadySent? && PlacedAs(s, user, id, file) else DeliveredBy(s, user, r, file)
  {
    var gone := Loses();
    lost := gone;
    if gone { return NoAnswer, lost; }
    s.CreateRefusalIff(user, Some(|file|), s.NameOf(filename), targetDir);
    var created := s.Create(user, id, Some(|file|), filename, targetDir, None);
    assert id in s.uploads ==> s.accepted[id] == [] <= file;
    gone := Loses();
    lost := gone;
    if gone || created.Crashed? { return NoAnswer, lost; }
    if created.Error? { return Refused(created.status), lost; }
    assert UploadOk(id, s.uploads[id], s.parts, s.accepted);
    if file == [] { return AlreadySent, lost; }
    ghost var answered: Response;
    r, answered, lost := SendPatch(s, user, id, file, 0);
  }

  /** The server would take the upload, and could place it. */
  ghost predicate CanUpload(s: Server, user: int, file: Bytes, filename: string, targetDir: string)
    reads s
  {
    s.Acceptable(user, Some(|file|), s.NameOf(filename), targetDir) && s.Placeable(user, targetDir, s.NameOf(filename))
  }

  /** The upload is finished, and its file stands where the record says. */
  ghost predicate PlacedAs(s: Server, user: int, id: string, file: Bytes)
    reads s
  {
    id in s.uploads && s.uploads[id].finalPath.Some? && Delivered(s, user, s.uploads[id].finalPath.value, file)
  }

  /** A new upload and then anything: what the client reports as delivered is. */
  method UploadFile(s: Server, user: int, id: string, file: Bytes, filename: string, targetDir: string, steps: nat)
    returns (path: Option<Comps>)
    requires s.Valid() && id !in s.uploads && PartKey(user, id) !in s.parts
    modifies s
    ensures s.Valid() && s.KeepsHome()
    ensures path.Some? ==> Delivered(s, user, path.value, file)
  {
    path := None;
    ghost var lost;
    var r;
    r, lost := UploadNew(s, user, id, file, filename, targetDir);
    if r.Sent? && r.finalPath.Some? { return r.finalPath; }
    if id in s.uploads && s.uploads[id].finalPath.Some? { return; }
    var finals: nat;
    finals, path := Session(s, user, id, file, steps);
  }
}
