/** Resumable uploads: internal/server/tus.go, internal/store/uploads.go and FinalizeUpload of
    internal/files/service.go. Every handler may be cut short by a process crash between any two of
    its lasting effects; requests on one upload are serialized. */
module UploadServer {
  import opened Strings
  import opened LogicalPaths
  import opened Names

  /** A row of the uploads table. completed_at is set exactly when final_path is. */
  datatype Upload = Upload(user: int, length: nat, offset: nat, temp: PartKey, targetDir: string,
                           filename: string, finalPath: Option<Comps>)

  /** uploadDir/<user>/<id>.part. */
  datatype PartKey = PartKey(user: int, id: string)

  datatype Node = Folder | File(bytes: Bytes)

  /** A path in a user's home. */
  datatype HomeKey = HomeKey(user: int, path: Comps)

  /** A request body: what the reader yields, and whether it then ends cleanly. */
  datatype Body = Body(data: Bytes, ok: bool)

  datatype Response =
    | Crashed
    | Error(status: int)
    | Created(id: string, createdOffset: nat)
    | Offset(length: nat, offset: nat)
    | Patched(newOffset: nat, finalPath: Option<Comps>)
    | Deleted

  const BAD_REQUEST := 400
  const NOT_FOUND := 404
  const CONFLICT := 409
  const TOO_LARGE := 413
  const INTERNAL := 500

  datatype Copied = CopyOk(newOffset: nat) | CopyFailed | CopyCrashed

  datatype Finished = FinalAt(path: Comps) | FinishFailed(status: int) | FinishCrashed

  function Min(a: nat, b: nat): nat { if a < b then a else b }

  /** The recorded offset is backed by the staging file, and both by what was accepted. */
  ghost predicate UploadOk(id: string, u: Upload, parts: map<PartKey, Bytes>, accepted: map<string, Bytes>) {
    && u.temp == PartKey(u.user, id)
    && u.offset <= u.length
    && id in accepted && |accepted[id]| == u.offset
    && (u.temp in parts ==> u.offset <= |parts[u.temp]| && parts[u.temp][..u.offset] == accepted[id])
    && (u.finalPath.Some? ==> u.offset == u.length)
  }

  /** How one upload may change: same identity, accepted bytes only grow, completion is final. */
  ghost predicate Advances(u: Upload, u': Upload, was: Bytes, now: Bytes) {
    && u' == u.(offset := u'.offset, finalPath := u'.finalPath)
    && u.offset <= u'.offset && was <= now
    && (u.finalPath.Some? ==> u' == u && now == was)
  }

  class Server {
    /** 0 means no limit. */
    const maxUploadBytes: nat
    var uploads: map<string, Upload>
    var parts: map<PartKey, Bytes>
    var home: map<HomeKey, Node>
    /** The bytes of every chunk the server has accepted, in order. */
    ghost var accepted: map<string, Bytes>
    /** How many calls have failed, and how often the process has stopped in the middle. */
    ghost var faults: nat

    ghost predicate Valid()
      reads this
    {
      forall id :: id in uploads ==> UploadOk(id, uploads[id], parts, accepted)
    }

    constructor (limit: nat, folders: map<HomeKey, Node>)
      ensures Valid() && maxUploadBytes == limit
      ensures uploads == map[] && parts == map[] && home == folders
    {
      maxUploadBytes := limit;
      uploads, parts, home, accepted, faults := map[], map[], folders, map[], 0;
    }

    /** What the server holds for one upload. */
    ghost function View(id: string, key: PartKey): (Option<Upload>, Option<Bytes>, Option<Bytes>)
      reads this
    {
      (if id in uploads then Some(uploads[id]) else None,
       if key in parts then Some(parts[key]) else None,
       if id in accepted then Some(accepted[id]) else None)
    }

    /** It is the record, the staging file and the accepted bytes. */
    lemma ViewIs(id: string, key: PartKey)
      ensures id in uploads ==> View(id, key).0 == Some(uploads[id])
      ensures key in parts ==> View(id, key).1 == Some(parts[key])
      ensures id in accepted ==> View(id, key).2 == Some(accepted[id])
      ensures View(id, key).0.Some? ==> id in uploads
      ensures View(id, key).1.Some? ==> key in parts
    {}

    /** Other uploads are left alone. */
    twostate predicate OnlyTouches(id: string, key: PartKey)
      reads this
    {
      forall o, k :: o != id && k != key ==> View(o, k) == old(View(o, k))
    }

    /** This upload is never rolled back, and no existing home entry is replaced. */
    twostate predicate Monotone(id: string)
      reads this
    {
      && (id in old(uploads) && id in uploads && id in old(accepted) && id in accepted ==>
            Advances(old(uploads[id]), uploads[id], old(accepted[id]), accepted[id]))
      && KeepsHome()
    }

    twostate predicate KeepsHome()
      reads this
    {
      forall k :: k in old(home) ==> k in home && home[k] == old(home[k])
    }

    /** copyUploadChunk: appends at most length - offset bytes to a staging file that ends at offset. */
    method CopyUploadChunk(key: PartKey, body: Body, offset: nat, length: nat) returns (r: Copied)
      requires key in parts && |parts[key]| == offset
      modifies this`parts, this`faults
      ensures faults >= old(faults) && (r.CopyCrashed? ==> faults > old(faults))
      ensures r.CopyOk? <==> body.ok && offset + |body.data| <= length && faults == old(faults)
      ensures key in parts && old(parts[key]) <= parts[key]
      ensures parts == old(parts)[key := parts[key]]
      ensures r.CopyOk? ==> r.newOffset == offset + |body.data| && parts[key] == old(parts[key]) + body.data
    {
      if offset > length {
        return CopyFailed;
      }
      var remaining := length - offset;
      var n := Min(|body.data|, remaining + 1);
      var failed, crashed := Fault();
      if failed {
        var cut: nat :| cut <= n;
        parts := parts[key := parts[key] + body.data[..cut]];
        return if crashed then CopyCrashed else CopyFailed;
      }
      parts := parts[key := parts[key] + body.data[..n]];
      if n > remaining || (!body.ok && |body.data| <= remaining) {
        return CopyFailed;
      }
      return CopyOk(offset + n);
    }

    /** os.Remove of a staging file, its error ignored. */
    method RemovePart(key: PartKey)
      modifies this`parts, this`faults
      ensures faults >= old(faults)
      ensures parts == if faults == old(faults) then old(parts) - {key} else old(parts)
    {
      var failed, _ := Fault();
      if !failed {
        parts := parts - {key};
      }
    }

    /** Whether the next call fails, or the process stops at it; either counts as a fault. */
    method Fault() returns (failed: bool, crashed: bool)
      modifies this`faults
      ensures faults == old(faults) + (if failed then 1 else 0)
      ensures crashed ==> failed
    {
      failed, crashed := *, *;
      crashed := crashed && failed;
      faults := faults + if failed then 1 else 0;
    }

    /** Whether the process stops here. */
    method Stops() returns (crashed: bool)
      modifies this`faults
      ensures faults == old(faults) + if crashed then 1 else 0
    {
      crashed := *;
      faults := faults + if crashed then 1 else 0;
    }

    /** Something on the way to the path is a file, so that resolving it fails other than by absence. */
    predicate BelowFile(user: int, path: Comps)
      reads this
    {
      BelowFileIn(home, user, path)
    }

    static predicate BelowFileIn(home: map<HomeKey, Node>, user: int, path: Comps) {
      exists i :: 0 <= i < |path| && HomeKey(user, path[..i]) in home && home[HomeKey(user, path[..i])].File?
    }

    lemma BelowFileIff(user: int, path: Comps)
      ensures BelowFile(user, path) <==>
              exists q, rest :: path == q + rest && rest != [] && HomeKey(user, q) in home &&
                                home[HomeKey(user, q)].File?
    {
      if i :| 0 <= i < |path| && HomeKey(user, path[..i]) in home && home[HomeKey(user, path[..i])].File? {
        assert path == path[..i] + path[i..];
      }
      if q, rest :| path == q + rest && rest != [] && HomeKey(user, q) in home && home[HomeKey(user, q)].File? {
        assert path[..|q|] == q;
      }
    }

    /** The checks of tusCreate before anything is written. */
    function CreateRefusal(user: int, uploadLength: Option<nat>, filename: string, targetDir: string): Option<int>
      reads this
    {
      if uploadLength.None? || !ValidBaseName(filename) then Some(BAD_REQUEST)
      else
        match CleanLogical(targetDir)
        case None => Some(BAD_REQUEST)
        case Some(dir) =>
          if Parts(dir) != [] && HomeKey(user, Parts(dir)) !in home then
            Some(if BelowFile(user, Parts(dir)) then INTERNAL else NOT_FOUND)
          else if maxUploadBytes > 0 && uploadLength.value > maxUploadBytes then Some(TOO_LARGE)
          else None
    }

    /** A named file of known size, within the limit, for a folder that exists. A limit of 0 is no limit. */
    predicate Acceptable(user: int, uploadLength: Option<nat>, filename: string, targetDir: string)
      reads this
    {
      && uploadLength.Some? && ValidBaseName(filename) && CleanLogical(targetDir).Some?
      && (Parts(CleanLogical(targetDir).value) == [] || HomeKey(user, Parts(CleanLogical(targetDir).value)) in home)
      && (maxUploadBytes == 0 || uploadLength.value <= maxUploadBytes)
    }

    /** An upload is refused exactly when it is not acceptable, with the status of what is wrong first. */
    lemma CreateRefusalIff(user: int, uploadLength: Option<nat>, filename: string, targetDir: string)
      ensures var r := CreateRefusal(user, uploadLength, filename, targetDir);
              var dir := CleanLogical(targetDir);
              && (r.None? <==> Acceptable(user, uploadLength, filename, targetDir))
              && (r == Some(400) <==> uploadLength.None? || !ValidBaseName(filename) || dir.None?)
              && (r.Some? && r.value in {404, 500} <==>
                    uploadLength.Some? && ValidBaseName(filename) && dir.Some? &&
                    Parts(dir.value) != [] && HomeKey(user, Parts(dir.value)) !in home)
              && (r == Some(500) ==> BelowFile(user, Parts(dir.value)))
              && (r == Some(404) ==> !BelowFile(user, Parts(dir.value)))
              && (r == Some(413) <==> Acceptable(user, Some(0), filename, targetDir) && uploadLength.Some? &&
                                      0 < maxUploadBytes < uploadLength.value)
              && (r.Some? ==> r.value in {400, 404, 413, 500})
    {}

    /** The first chunk, if the request carries one, is complete and fits. */
    predicate FirstFits(body: Option<Body>, length: nat) {
      body.Some? ==> body.value.ok && |body.value.data| <= length
    }

    /** The staging file of a new upload, with the first chunk if the request carries one. */
    method StageFile(key: PartKey, length: nat, body: Option<Body>) returns (r: Copied)
      requires key !in parts
      modifies this`parts, this`faults
      ensures faults >= old(faults) && (r.CopyCrashed? ==> faults > old(faults))
      ensures r.CopyOk? <==> FirstFits(body, length) && faults == old(faults)
      // unless its removal fails too, nothing is left of a refused or failed one
      ensures r.CopyFailed? && faults <= old(faults) + (if FirstFits(body, length) then 1 else 0) ==>
                parts == old(parts)
      ensures parts == old(parts) || (key in parts && parts == old(parts)[key := parts[key]])
      ensures r.CopyOk? ==> parts == old(parts)[key := if body.Some? then body.value.data else []]
      ensures r.CopyOk? ==> r.newOffset == (if body.Some? then |body.value.data| else 0) <= length
    {
      var failed, crashed := Fault();
      if failed {
        return if crashed then CopyCrashed else CopyFailed;
      }
      parts := parts[key := []];
      r := CopyOk(0);
      if body.Some? {
        r := CopyUploadChunk(key, body.value, 0, length);
        assert [] + body.value.data == body.value.data;
        if r.CopyFailed? { RemovePart(key); }
      }
    }

    /** The staging file and then the record of a new upload. */
    method StageNew(user: int, id: string, length: nat, filename: string, targetDir: string, body: Option<Body>)
      returns (r: Copied)
      requires Valid() && id !in uploads && PartKey(user, id) !in parts
      modifies this`uploads, this`parts, this`accepted, this`faults
      ensures Valid() && OnlyTouches(id, PartKey(user, id))
      ensures faults >= old(faults) && (r.CopyCrashed? ==> faults > old(faults))
      ensures r.CopyOk? <==> FirstFits(body, length) && faults == old(faults)
      ensures !r.CopyOk? ==> uploads == old(uploads) && accepted == old(accepted)
      ensures r.CopyFailed? && faults <= old(faults) + (if FirstFits(body, length) then 1 else 0) ==>
                parts == old(parts)
      ensures r.CopyOk? ==> id in uploads && id in accepted && PartKey(user, id) in parts
      ensures r.CopyOk? ==>
                && accepted[id] == (if body.Some? then body.value.data else [])
                && r.newOffset == |accepted[id]|
                && uploads[id] == Upload(user, length, r.newOffset, PartKey(user, id), targetDir, filename, None)
                && parts[PartKey(user, id)] == accepted[id]
    {
      var key := PartKey(user, id);
      r := StageFile(key, length, body);
      if r.CopyOk? {
        var failed, crashed := Fault();
        if failed {
          if !crashed { RemovePart(key); }
          r := if crashed then CopyCrashed else CopyFailed;
        } else {
          uploads := uploads[id := Upload(user, length, r.newOffset, key, targetDir, filename, None)];
          accepted := accepted[id := if body.Some? then body.value.data else []];
        }
      }
    }

    /** The name an upload gets when its metadata give none. */
    function NameOf(metaFilename: string): string { if metaFilename == "" then "upload.bin" else metaFilename }

    /** tusCreate. id is the fresh random id; a present body is written before the record exists. */
    method Create(user: int, id: string, uploadLength: Option<nat>, metaFilename: string, targetDir: string,
                  body: Option<Body>)
      returns (r: Response)
      requires Valid() && id !in uploads && PartKey(user, id) !in parts
      modifies this
      ensures Valid() && KeepsHome() && OnlyTouches(id, PartKey(user, id)) && faults >= old(faults)
      ensures var filename := if metaFilename == "" then "upload.bin" else metaFilename;
              old(CreateRefusal(user, uploadLength, filename, targetDir)).Some? ==>
                r == Error(old(CreateRefusal(user, uploadLength, filename, targetDir)).value) && parts == old(parts)
      // a request that is not refused, whose body is whole and fits, is accepted unless something fails
      ensures var filename := if metaFilename == "" then "upload.bin" else metaFilename;
              old(CreateRefusal(user, uploadLength, filename, targetDir)).None? && faults == old(faults) ==>
                (if FirstFits(body, uploadLength.value) then r.Created?
                 else r == Error(BAD_REQUEST) && parts == old(parts))
      ensures r.Error? ==> uploads == old(uploads) && home == old(home)
      ensures r.Error? && uploadLength.Some? &&
              faults <= old(faults) + (if FirstFits(body, uploadLength.value) then 1 else 0) ==>
                parts == old(parts)
      // a record, whether the answer arrives or the process stops, is that of the first chunk
      ensures id in uploads ==> id in accepted && uploadLength.Some?
      ensures id in uploads ==>
                && accepted[id] == (if body.Some? then body.value.data else [])
                && uploads[id] == Upload(user, uploadLength.value, |accepted[id]|, PartKey(user, id), targetDir,
                                         if metaFilename == "" then "upload.bin" else metaFilename,
                                         uploads[id].finalPath)
      ensures r.Created? || r.Error? || r.Crashed?
      ensures r.Created? ==> id in uploads && r.id == id && r.createdOffset == |accepted[id]|
      ensures r.Created? && r.createdOffset < uploadLength.value ==> PartKey(user, id) in parts && home == old(home)
      // an upload that is whole at once is completed, unless its folder is gone or full or something fails
      ensures r.Created? && faults == old(faults) ==>
                (uploads[id].finalPath.Some? <==> r.createdOffset == uploads[id].length &&
                                                  old(Placeable(user, targetDir, NameOf(metaFilename))))
      ensures r.Created? && uploads[id].finalPath.Some? ==>
                HomeKey(user, uploads[id].finalPath.value) in home &&
                home[HomeKey(user, uploads[id].finalPath.value)] == File(accepted[id])
    {
      var filename := if metaFilename == "" then "upload.bin" else metaFilename;
      var refusal := CreateRefusal(user, uploadLength, filename, targetDir);
      if refusal.Some? { return Error(refusal.value); }
      var length := uploadLength.value;
      var staged := StageNew(user, id, length, filename, targetDir, body);
      if staged.CopyCrashed? { return Crashed; }
      if staged.CopyFailed? {
        var atRecord: bool := *;
        return Error(if body.Some? && !(FirstFits(body, length) && atRecord) then BAD_REQUEST else INTERNAL);
      }
      r := Created(id, staged.newOffset);
      var stopped := Stops();
      if stopped {
        return Crashed;
      }
      if staged.newOffset == length {
        // the response has been sent; a failure to finalize is only logged
        FinalizeRefusalIff(user, targetDir, filename);
        var done := CompleteUpload(user, id);
        if done.FinishCrashed? { return Crashed; }
      }
    }

    /** tusHead. */
    method Head(user: int, id: string) returns (r: Response)
      ensures r == if id in uploads && uploads[id].user == user
                   then Offset(uploads[id].length, uploads[id].offset) else Error(NOT_FOUND)
    {
      if id !in uploads || uploads[id].user != user { return Error(NOT_FOUND); }
      return Offset(uploads[id].length, uploads[id].offset);
    }

    /** Why tusPatch refuses before touching the staging file. */
    function Refusal(user: int, id: string, clientOffset: Option<int>): Option<int>
      reads this
    {
      if id !in uploads || uploads[id].user != user then Some(NOT_FOUND)
      else if uploads[id].finalPath.Some? then Some(CONFLICT)
      else if clientOffset != Some(uploads[id].offset) then Some(CONFLICT)
      else if uploads[id].offset > uploads[id].length then Some(CONFLICT)
      else if uploads[id].temp != PartKey(user, id) then Some(INTERNAL)
      else if uploads[id].temp !in parts then Some(NOT_FOUND)
      else None
    }

    /** The user's own unfinished upload, recorded up to n, with its staging file in place. */
    predicate OpenAt(user: int, id: string, n: int)
      reads this
    {
      && id in uploads && uploads[id].user == user && uploads[id].finalPath.None?
      && uploads[id].offset == n && uploads[id].offset <= uploads[id].length
      && PartKey(user, id) in parts
    }

    /** A chunk is let in exactly when the upload is open at the offset it names. Somebody else's upload,
        or a missing staging file, is not found; a finished upload or another offset is a conflict. */
    lemma RefusalIff(user: int, id: string, clientOffset: Option<int>)
      requires Valid()
      ensures var r := Refusal(user, id, clientOffset);
              var own := id in uploads && uploads[id].user == user;
              && (r.None? <==> clientOffset.Some? && OpenAt(user, id, clientOffset.value))
              && (r == Some(409) <==> own && (uploads[id].finalPath.Some? || clientOffset != Some(uploads[id].offset)))
              && (r == Some(404) <==>
                    !own || (uploads[id].finalPath.None? && clientOffset == Some(uploads[id].offset) &&
                             PartKey(user, id) !in parts))
              && (r.Some? ==> r.value in {404, 409})
    {
      assert id in uploads ==> UploadOk(id, uploads[id], parts, accepted);
    }

    /** Opens the staging file, cuts it at the offset and appends; a failed copy is cut again. */
    method WriteChunk(key: PartKey, body: Body, offset: nat, length: nat) returns (r: Copied)
      requires key in parts && offset <= |parts[key]|
      modifies this`parts, this`faults
      ensures faults >= old(faults) && (r.CopyCrashed? ==> faults > old(faults))
      ensures r.CopyOk? <==> body.ok && offset + |body.data| <= length && faults == old(faults)
      ensures key in parts && parts == old(parts)[key := parts[key]]
      ensures offset <= |parts[key]| && parts[key][..offset] == old(parts[key])[..offset]
      ensures r.CopyOk? ==> r.newOffset == offset + |body.data| && parts[key] == old(parts[key])[..offset] + body.data
    {
      var failed, crashed := Fault();
      if failed {
        return if crashed then CopyCrashed else CopyFailed;
      }
      parts := parts[key := parts[key][..offset]];
      r := CopyUploadChunk(key, body, offset, length);
      var cutAgain: bool := *;
      if r.CopyFailed? && cutAgain { parts := parts[key := parts[key][..offset]]; }
    }

    /** The body of tusPatch up to the committed offset: truncate, append, commit. */
    method AppendChunk(user: int, id: string, body: Body) returns (r: Copied)
      requires Valid() && id in uploads && Refusal(user, id, Some(uploads[id].offset)).None?
      modifies this`uploads, this`parts, this`accepted, this`faults
      ensures Valid() && OnlyTouches(id, PartKey(user, id)) && id in uploads && id in accepted
      ensures uploads[id].temp in parts
      ensures faults >= old(faults) && (r.CopyCrashed? ==> faults > old(faults))
      ensures r.CopyOk? <==>
          body.ok && old(uploads[id].offset) + |body.data| <= uploads[id].length && faults == old(faults)
      ensures !r.CopyOk? ==> uploads == old(uploads) && accepted == old(accepted)
      ensures r.CopyOk? ==>
                && r.newOffset == old(uploads[id].offset) + |body.data|
                && uploads == old(uploads)[id := old(uploads[id]).(offset := r.newOffset)]
                && accepted == old(accepted)[id := old(accepted[id]) + body.data]
                && parts[uploads[id].temp] == accepted[id]
    {
      var u := uploads[id];
      assert UploadOk(id, u, parts, accepted);
      r := WriteChunk(u.temp, body, u.offset, u.length);
      if r.CopyOk? {
        var failed, crashed := Fault();
        if failed {
          r := if crashed then CopyCrashed else CopyFailed;
        } else {
          uploads := uploads[id := u.(offset := r.newOffset)];
          accepted := accepted[id := accepted[id] + body.data];
        }
      }
    }

    /** tusPatch. clientOffset is the parsed Upload-Offset header. */
    method Patch(user: int, id: string, clientOffset: Option<int>, body: Body) returns (r: Response)
      requires Valid()
      modifies this
      ensures Valid() && Monotone(id) && OnlyTouches(id, PartKey(user, id)) && faults >= old(faults)
      ensures old(Refusal(user, id, clientOffset)).Some? ==>
                && r == Error(old(Refusal(user, id, clientOffset)).value)
                && uploads == old(uploads) && parts == old(parts) && home == old(home) && accepted == old(accepted)
      // a chunk that is not refused, is whole and fits, is accepted unless something fails; the last one
      // completes the upload unless its folder is gone or full
      ensures old(Refusal(user, id, clientOffset)).None? && faults == old(faults) ==>
                r == old(PatchAnswer(user, id, body, FinishedPath(r)))
      // a last chunk that is accepted but cannot be placed leaves the upload waiting
      ensures old(Refusal(user, id, clientOffset)).None? && faults == old(faults) &&
              old(CannotPlace(user, id, body)) ==>
                Waiting(id) && home == old(home)
      // the accepted bytes are as they were or have grown by exactly this chunk
      ensures id in old(uploads) ==> id in uploads && id in accepted
      ensures id in old(uploads) ==> accepted[id] in {old(accepted[id]), old(accepted[id]) + body.data}
      ensures id in old(uploads) && accepted[id] != old(accepted[id]) ==> body.ok
      ensures r.Patched? ==>
                && old(Refusal(user, id, clientOffset)).None? && body.ok
                && accepted[id] == old(accepted[id]) + body.data
                && r.newOffset == uploads[id].offset == |accepted[id]|
                && r.finalPath == uploads[id].finalPath
                && (r.finalPath.Some? <==> r.newOffset == uploads[id].length)
                && (r.finalPath.None? ==> home == old(home) && uploads[id].temp in parts)
      ensures r.Patched? && r.finalPath.Some? ==>
                && HomeKey(user, r.finalPath.value) !in old(home)
                && home == old(home)[HomeKey(user, r.finalPath.value) := File(accepted[id])]
    {
      var refusal := Refusal(user, id, clientOffset);
      if refusal.Some? { return Error(refusal.value); }
      assert UploadOk(id, uploads[id], parts, accepted);
      var copied := AppendChunk(user, id, body);
      if copied.CopyCrashed? {
        r := Crashed;
      } else if copied.CopyFailed? {
        // a failing copy answers 413 whatever its cause, the calls around it 500
        var atCopy: bool := *;
        var tooLong := !body.ok || uploads[id].offset + |body.data| > uploads[id].length;
        r := Error(if atCopy || tooLong then TOO_LARGE else INTERNAL);
      } else {
        r := AnswerChunk(user, id);
      }
    }

    /** tusPatch from the committed offset on: the answer, after finalizing when every byte is there. */
    method AnswerChunk(user: int, id: string) returns (r: Response)
      requires Valid() && id in uploads && uploads[id].user == user && uploads[id].finalPath.None?
      requires uploads[id].temp in parts && parts[uploads[id].temp] == accepted[id]
      modifies this`uploads, this`parts, this`home, this`faults
      ensures Valid() && id in uploads && KeepsHome() && OnlyTouches(id, old(uploads[id].temp))
      ensures faults >= old(faults) && (r.Crashed? ==> faults > old(faults))
      ensures uploads == old(uploads)[id := old(uploads[id]).(finalPath := uploads[id].finalPath)]
      ensures faults == old(faults) ==>
                (if uploads[id].offset < uploads[id].length then r.Patched?
                 else var refusal := old(FinalizeRefusal(user, uploads[id].targetDir, uploads[id].filename));
                   if refusal.Some? then r == Error(refusal.value) && parts == old(parts) && home == old(home)
                   else r.Patched?)
      ensures r.Crashed? || r.Error? || r.Patched?
      ensures r.Error? ==> uploads == old(uploads)
      ensures r.Patched? ==>
                && r.newOffset == uploads[id].offset && r.finalPath == uploads[id].finalPath
                && (r.finalPath.Some? <==> r.newOffset == uploads[id].length)
                && (r.finalPath.None? ==> home == old(home) && parts == old(parts))
      ensures r.Patched? && r.finalPath.Some? ==>
                && HomeKey(user, r.finalPath.value) !in old(home)
                && home == old(home)[HomeKey(user, r.finalPath.value) := File(accepted[id])]
    {
      assert UploadOk(id, uploads[id], parts, accepted);
      r := Patched(uploads[id].offset, None);
      var stopped := Stops();
      if stopped {
        r := Crashed;
      } else if uploads[id].offset == uploads[id].length {
        var done := CompleteUpload(user, id);
        match done {
          case FinishCrashed => r := Crashed;
          case FinishFailed(status) => r := Error(status);
          case FinalAt(path) => r := Patched(uploads[id].offset, Some(path));
        }
      }
    }

    /** Every byte is committed and none is placed: what a refused completion leaves, or a crash before it. */
    ghost predicate Waiting(id: string)
      reads this
    {
      id in uploads && uploads[id].offset == uploads[id].length && uploads[id].finalPath.None? &&
      id in accepted && uploads[id].temp in parts && parts[uploads[id].temp] == accepted[id]
    }

    /** The chunk is the last one, and finalizing would be refused. */
    ghost predicate CannotPlace(user: int, id: string, body: Body)
      reads this
    {
      id in uploads && body.ok && uploads[id].offset + |body.data| == uploads[id].length &&
      !Placeable(user, uploads[id].targetDir, uploads[id].filename)
    }

    function FinishedPath(r: Response): Option<Comps> { if r.Patched? then r.finalPath else None }

    /** What a PATCH that is not refused answers when nothing fails; path is where it finished. */
    ghost function PatchAnswer(user: int, id: string, body: Body, path: Option<Comps>): Response
      requires id in uploads
      reads this
    {
      var n := uploads[id].offset + |body.data|;
      if !body.ok || n > uploads[id].length then Error(TOO_LARGE)
      else if n < uploads[id].length then Patched(n, None)
      else
        var refusal := FinalizeRefusal(user, uploads[id].targetDir, uploads[id].filename);
        if refusal.Some? then Error(refusal.value) else Patched(n, path)
    }

    /** completeUpload, called only where the staging file has just been truncated and written. */
    method CompleteUpload(user: int, id: string) returns (r: Finished)
      requires Valid() && id in uploads && uploads[id].user == user
      requires uploads[id].finalPath.None? && uploads[id].offset == uploads[id].length
      requires uploads[id].temp in parts && parts[uploads[id].temp] == accepted[id]
      modifies this`uploads, this`parts, this`home, this`faults
      ensures Valid() && id in uploads
      ensures faults >= old(faults) && (r.FinishCrashed? ==> faults > old(faults))
      ensures faults == old(faults) ==>
                var refusal := old(FinalizeRefusal(user, uploads[id].targetDir, uploads[id].filename));
                (if refusal.Some? then r == FinishFailed(refusal.value) && parts == old(parts) && home == old(home)
                 else r.FinalAt?)
      ensures uploads == old(uploads)[id := old(uploads[id]).(finalPath := uploads[id].finalPath)]
      ensures OnlyTouches(id, old(uploads[id].temp)) && KeepsHome()
      ensures r.FinalAt? ==>
                && uploads[id].finalPath == Some(r.path)
                && HomeKey(user, r.path) !in old(home)
                && home == old(home)[HomeKey(user, r.path) := File(accepted[id])]
                && uploads[id].temp !in parts
      ensures r.FinishFailed? ==> uploads == old(uploads)
      ensures !r.FinalAt? && uploads != old(uploads) ==>
                HomeKey(user, uploads[id].finalPath.value) in home &&
                home[HomeKey(user, uploads[id].finalPath.value)] == File(accepted[id])
    {
      var u := uploads[id];
      r := FinalizeUpload(user, u.temp, u.targetDir, u.filename);
      if r.FinalAt? {
        var failed, crashed := Fault();
        var recorded: bool := *;
        if !failed || (crashed && recorded) {
          uploads := uploads[id := u.(offset := u.length, finalPath := Some(r.path))];
        }
        if failed {
          r := if crashed then FinishCrashed else FinishFailed(INTERNAL);
        }
      }
    }

    /** No candidate name is free in the folder. */
    ghost predicate NoNameFree(user: int, dir: Comps, filename: string)
      reads this
    {
      NoNameFreeIn(home, user, dir, filename)
    }

    static ghost predicate NoNameFreeIn(home: map<HomeKey, Node>, user: int, dir: Comps, filename: string) {
      forall i :: 0 <= i < MAX_SUFFIXES ==> HomeKey(user, dir + [Candidate(filename, i)]) in home
    }

    /** Why FinalizeUpload refuses: bad name, folder missing, below a file or not a folder, or full. */
    ghost function FinalizeRefusal(user: int, targetDir: string, filename: string): Option<int>
      reads this
    {
      FinalizeRefusalIn(home, user, targetDir, filename)
    }

    static ghost function FinalizeRefusalIn(home: map<HomeKey, Node>, user: int, targetDir: string, filename: string)
      : Option<int>
    {
      if !ValidBaseName(filename) then Some(BAD_REQUEST)
      else
        match CleanLogical(targetDir)
        case None => Some(BAD_REQUEST)
        case Some(clean) =>
          var dir := Parts(clean);
          if dir != [] && HomeKey(user, dir) !in home then
            Some(if BelowFileIn(home, user, dir) then INTERNAL else NOT_FOUND)
          else if dir != [] && home[HomeKey(user, dir)] != Folder then Some(BAD_REQUEST)
          else if NoNameFreeIn(home, user, dir, filename) then Some(CONFLICT)
          else None
    }

    /** The folder exists and one of the ten thousand candidate names is free in it. */
    ghost predicate Placeable(user: int, targetDir: string, filename: string)
      reads this
    {
      && ValidBaseName(filename) && CleanLogical(targetDir).Some?
      && var dir := Parts(CleanLogical(targetDir).value);
      && (dir == [] || (HomeKey(user, dir) in home && home[HomeKey(user, dir)] == Folder))
      && exists i :: 0 <= i < 10000 && HomeKey(user, dir + [Candidate(filename, i)]) !in home
    }

    /** Finalizing is refused exactly when the file cannot be placed, with the status of what is wrong first. */
    lemma FinalizeRefusalIff(user: int, targetDir: string, filename: string)
      ensures var r := FinalizeRefusal(user, targetDir, filename);
              && (r.None? <==> Placeable(user, targetDir, filename))
              && (r.Some? ==> r.value in {400, 404, 409, 500})
              && (!ValidBaseName(filename) || CleanLogical(targetDir).None? ==> r == Some(400))
              && (ValidBaseName(filename) && CleanLogical(targetDir).Some? ==>
                    var dir := Parts(CleanLogical(targetDir).value);
                    && (r == Some(404) <==> dir != [] && HomeKey(user, dir) !in home && !BelowFile(user, dir))
                    && (r == Some(500) <==> dir != [] && HomeKey(user, dir) !in home && BelowFile(user, dir))
                    && (r == Some(400) <==> dir != [] && HomeKey(user, dir) in home && home[HomeKey(user, dir)].File?))
    {}

    /** FinalizeUpload: a free name in the target folder, then rename or copy and remove. */
    method FinalizeUpload(user: int, temp: PartKey, targetDir: string, filename: string) returns (r: Finished)
      requires temp in parts
      modifies this`parts, this`home, this`faults
      ensures faults >= old(faults) && (r.FinishCrashed? ==> faults > old(faults))
      ensures var refusal := old(FinalizeRefusal(user, targetDir, filename));
        if refusal.Some? then r == FinishFailed(refusal.value) && home == old(home) && parts == old(parts)
        else (r.FinalAt? <==> faults == old(faults))
      ensures KeepsHome()
      ensures parts == old(parts) || parts == old(parts) - {temp}
      ensures r.FinalAt? ==>
                && HomeKey(user, r.path) !in old(home)
                && home == old(home)[HomeKey(user, r.path) := File(old(parts[temp]))]
                && temp !in parts
      ensures r.FinishFailed? ==> forall k :: k in home ==> k in old(home) || home[k] == File(old(parts[temp]))
    {
      if !ValidBaseName(filename) { return FinishFailed(BAD_REQUEST); }
      var clean := CleanLogical(targetDir);
      if clean.None? { return FinishFailed(BAD_REQUEST); }
      var dir := Parts(clean.value);
      if dir != [] && HomeKey(user, dir) !in home {
        return FinishFailed(if BelowFile(user, dir) then INTERNAL else NOT_FOUND);
      }
      if dir != [] && home[HomeKey(user, dir)] != Folder { return FinishFailed(BAD_REQUEST); }
      var name := FreeName(user, dir, filename);
      if name.None? { return FinishFailed(CONFLICT); }
      r := MoveFile(temp, HomeKey(user, dir + [name.value]));
    }

    /** AvailableName in a folder of the home. */
    method FreeName(user: int, dir: Comps, filename: string) returns (name: Option<string>)
      requires ValidBaseName(filename)
      ensures name.None? <==> NoNameFree(user, dir, filename)
      ensures name.Some? ==> HomeKey(user, dir + [name.value]) !in home
    {
      var taken := set k | k in home && k.user == user && |k.path| == |dir| + 1 && k.path[..|dir|] == dir
                         :: k.path[|dir|];
      forall n ensures n in taken <==> HomeKey(user, dir + [n]) in home {
        assert (dir + [n])[..|dir|] == dir && (dir + [n])[|dir|] == n;
        if n in taken {
          var k :| k in home && k.user == user && |k.path| == |dir| + 1 && k.path[..|dir|] == dir && k.path[|dir|] == n;
          assert k.path == dir + [n];
        }
      }
      name := AvailableName(taken, filename);
    }

    /** movePath of a staging file to a free place. */
    method MoveFile(temp: PartKey, target: HomeKey) returns (r: Finished)
      requires temp in parts && target !in home
      modifies this`parts, this`home, this`faults
      ensures faults >= old(faults)
      ensures r == FinalAt(target.path) || ((r.FinishFailed? || r.FinishCrashed?) && faults > old(faults))
      ensures r.FinalAt? ==> faults == old(faults)
      ensures KeepsHome()
      ensures parts == old(parts) || parts == old(parts) - {temp}
      ensures r.FinalAt? ==> home == old(home)[target := File(old(parts[temp]))] && temp !in parts
      // a failure that is no crash leaves no part of a file
      ensures r.FinishFailed? ==> home == old(home) || home == old(home)[target := File(old(parts[temp]))]
    {
      var failed, crashed := Fault();
      if failed {
        return if crashed then FinishCrashed else FinishFailed(INTERNAL);
      }
      var sameDevice: bool := *;
      if sameDevice {
        // os.Rename on one device
        home, parts := home[target := File(parts[temp])], parts - {temp};
        return FinalAt(target.path);
      }
      // EXDEV: copy, then remove the source
      var copied: nat := 0;
      var bytes := parts[temp];
      home := home[target := File([])];
      while copied < |bytes|
        invariant copied <= |bytes| && faults == old(faults)
        invariant home == old(home)[target := File(bytes[..copied])] && parts == old(parts)
      {
        failed, crashed := Fault();
        if failed {
          if crashed { return FinishCrashed; }
          home := home - {target};
          return FinishFailed(INTERNAL);
        }
        copied := copied + 1;
        home := home[target := File(bytes[..copied])];
      }
      assert bytes[..copied] == bytes;
      failed, crashed := Fault();
      if failed {
        return if crashed then FinishCrashed else FinishFailed(INTERNAL);
      }
      parts := parts - {temp};
      return FinalAt(target.path);
    }

    /** Why tusDelete refuses. */
    function DeleteRefusal(user: int, id: string): Option<int>
      reads this
    {
      if id !in uploads || uploads[id].user != user then Some(NOT_FOUND)
      else if uploads[id].finalPath.Some? then Some(CONFLICT)
      else if uploads[id].temp != PartKey(user, id) || uploads[id].temp !in parts then Some(INTERNAL)
      else None
    }

    /** A terminate is let in exactly for the user's own unfinished upload with its staging file. */
    lemma DeleteRefusalIff(user: int, id: string)
      requires Valid()
      ensures var r := DeleteRefusal(user, id);
              var own := id in uploads && uploads[id].user == user;
              && (r.None? <==> own && OpenAt(user, id, uploads[id].offset))
              && (r == Some(404) <==> !own)
              && (r == Some(409) <==> own && uploads[id].finalPath.Some?)
              && (r == Some(500) <==> own && uploads[id].finalPath.None? && PartKey(user, id) !in parts)
    {
      assert id in uploads ==> UploadOk(id, uploads[id], parts, accepted);
    }

    /** tusDelete: a staging file that cannot be removed is left to the cleanup. */
    method Delete(user: int, id: string) returns (r: Response)
      requires Valid()
      modifies this
      ensures Valid() && Monotone(id) && OnlyTouches(id, PartKey(user, id)) && home == old(home) &&
              faults >= old(faults)
      ensures old(DeleteRefusal(user, id)).Some? ==>
                r == Error(old(DeleteRefusal(user, id)).value) && uploads == old(uploads) && parts == old(parts)
      ensures old(DeleteRefusal(user, id)).None? && faults == old(faults) ==>
          r.Deleted? && parts == old(parts) - {PartKey(user, id)}
      ensures r.Deleted? ==> uploads == old(uploads) - {id}
      ensures id in uploads ==> id in old(uploads) && uploads[id] == old(uploads[id]) && accepted == old(accepted)
    {
      if id !in uploads || uploads[id].user != user { return Error(NOT_FOUND); }
      var u := uploads[id];
      if u.finalPath.Some? { return Error(CONFLICT); }
      if u.temp != PartKey(u.user, id) || u.temp !in parts { return Error(INTERNAL); }
      RemovePart(u.temp);
      r := Deleted;
      var failed, crashed := Fault();
      var deleted: bool := *;
      if !failed || (crashed && deleted) {
        uploads := uploads - {id};
      }
      if failed {
        r := if crashed then Crashed else Error(INTERNAL);
      }
    }
  }
}
