/** Ingestion of one uploaded file: read the content into a store record,
    enforce the owner's quota, reuse a byte-identical stored copy when one
    exists (deduplication) or reserve and insert a new store, then reserve a
    file identity on the resolved store and insert the file.

    The first failing step aborts the whole call with that step's error and
    no store; steps already committed are not undone. Reading and hashing the
    upload, and the store and file collaborators' own checks, are outside
    this model: their answers are parameters. A store or file insert that
    succeeds records the item in the shared database maps. */
module Ingest {
  import opened DbTypes
  import opened Owners

  /** The caller's file object; ingestion sets its identity. */
  class File {
    var id: FileID
    var owner: OwnerID

    constructor (id: FileID, owner: OwnerID)
      ensures this.id == id && this.owner == owner
    {
      this.id, this.owner := id, owner;
    }

    method SetID(nid: FileID)
      modifies this
      ensures id == nid && owner == old(owner)
    {
      id := nid;
    }
  }

  /** The answers of the store collaborator: the stores whose hash matches,
      the identity a reservation yields, the outcome of an insert. */
  datatype StoreBase = StoreBase(
    matchHash: nat -> Result<seq<FileStore>>,
    reserve: StoreID -> Result<StoreID>,
    insert: FileStore -> Outcome)

  /** The answers of the file collaborator. */
  datatype FileBase = FileBase(
    reserve: FileID -> Result<FileID>,
    insert: FileRecord -> Outcome)

  /** The position of the first candidate whose bytes equal `content`. */
  function FirstIdentical(content: string, ms: seq<FileStore>): (r: Option<nat>)
    ensures r.Some? ==> r.value < |ms| && ms[r.value].content == content
    ensures r.Some? ==> forall j :: 0 <= j < r.value ==> ms[j].content != content
    ensures r.None? ==> forall j :: 0 <= j < |ms| ==> ms[j].content != content
  {
    if ms == [] then None
    else if ms[0].content == content then Some(0)
    else match FirstIdentical(content, ms[1..]) {
      case None => None
      case Some(k) => Some(k + 1)
    }
  }

  /** The deduplication scan: the first byte-identical candidate. */
  method FindIdentical(content: string, ms: seq<FileStore>) returns (r: Option<nat>)
    ensures r == FirstIdentical(content, ms)
  {
    for i := 0 to |ms|
      invariant forall j :: 0 <= j < i ==> ms[j].content != content
    {
      if ms[i].content == content {
        FirstIsUnique(content, ms, i);
        return Some(i);
      }
    }
    FirstIsUnique(content, ms, |ms|);
    return None;
  }

  /** `FirstIdentical` is determined by where the first identical candidate
      sits (`k == |ms|` when there is none). */
  lemma FirstIsUnique(content: string, ms: seq<FileStore>, k: nat)
    requires k <= |ms| && forall j :: 0 <= j < k ==> ms[j].content != content
    requires k < |ms| ==> ms[k].content == content
    ensures FirstIdentical(content, ms) == if k < |ms| then Some(k) else None
  {
    var r := FirstIdentical(content, ms);
    if r.Some? {
      assert r.value >= k;
    }
  }

  /** The store step for the content record `s`: the first byte-identical
      stored copy, or else a newly reserved store that the collaborator
      accepted; a failing collaborator's error otherwise. */
  function ResolveStore(s: FileStore, sb: StoreBase): (r: Result<FileStore>)
    ensures r.Success? ==> r.value.content == s.content
    ensures sb.matchHash(s.id.hash).Failure? ==> r == Failure(sb.matchHash(s.id.hash).error)
  {
    var matches := sb.matchHash(s.id.hash);
    if matches.Failure? then Failure(matches.error)
    else match FirstIdentical(s.content, matches.value) {
      case Some(k) => Success(matches.value[k])
      case None =>
        var sid := sb.reserve(s.id);
        if sid.Failure? then Failure(sid.error)
        else
          var inserted := sb.insert(s.(id := sid.value));
          if inserted.Fail? then Failure(inserted.error)
          else Success(s.(id := sid.value))
    }
  }

  /** The store step of an ingestion: reuse the first byte-identical stored
      copy, or reserve a store for `s` and record it once the collaborator
      has inserted it. */
  method StoreContent(db: Ownerbase, s: FileStore, sb: StoreBase) returns (r: Result<FileStore>)
    requires db.Valid()
    modifies db
    ensures db.Valid()
    ensures r == ResolveStore(s, sb)
    ensures db.ids == old(db.ids) && db.userNames == old(db.userNames) && db.groupNames == old(db.groupNames)
    ensures db.files == old(db.files)
    // only a newly reserved store is recorded
    ensures db.stores == if r.Success? && FirstIdentical(s.content, sb.matchHash(s.id.hash).value).None?
                         then old(db.stores)[r.value.id := r.value] else old(db.stores)
  {
    var matches := sb.matchHash(s.id.hash);
    if matches.Failure? {
      return Failure(matches.error);
    }
    var found := FindIdentical(s.content, matches.value);
    if found.Some? {
      return Success(matches.value[found.value]);
    }
    var sid := sb.reserve(s.id);
    if sid.Failure? {
      return Failure(sid.error);
    }
    var inserted := sb.insert(s.(id := sid.value));
    if inserted.Fail? {
      return Failure(inserted.error);
    }
    db.stores := db.stores[sid.value := s.(id := sid.value)];
    return Success(s.(id := sid.value));
  }

  /** The owner is committed in the registry. */
  ghost predicate IsCommitted(ids: map<OwnerID, Slot>, o: OwnerID)
  {
    o in ids && ids[o].Committed?
  }

  /** The quota `GetTotalSpace` reports for a committed owner. */
  function Quota(o: OwnerID): nat
  {
    if o.kind == 'u' then USER_QUOTA else 0
  }

  /** What the space accounting of an ingestion relies on from the
      collaborators and the database: every recorded file's store is
      recorded; a new file identity keeps the store it was made for and is
      not yet recorded; a reserved store identity is not yet recorded; and a
      hash match is a recorded store whose size is its content's length. */
  ghost predicate CollaboratorsAgree(files: map<FileID, FileRecord>, stores: map<StoreID, FileStore>,
                                     sb: StoreBase, fb: FileBase, newFileID: StoreID -> FileID)
  {
    && (forall f :: f in files ==> files[f].id.store in stores)
    && (forall s :: newFileID(s).store == s)
    && (forall x :: fb.reserve(x).Success? ==> fb.reserve(x).value.store == x.store && fb.reserve(x).value !in files)
    && (forall x :: sb.reserve(x).Success? ==> sb.reserve(x).value !in stores)
    && (forall h, m :: sb.matchHash(h).Success? && m in sb.matchHash(h).value ==>
          m.id in stores && stores[m.id] == m && m.fileSize == |m.content|)
  }

  /** Recording a file on store `s` charges its owner `s`'s size and
      nothing else, whether `s` was already recorded or is recorded now. */
  lemma IngestCharge(files: map<FileID, FileRecord>, stores0: map<StoreID, FileStore>, stores1: map<StoreID, FileStore>,
                     s: FileStore, fid: FileID, o: OwnerID)
    requires forall f :: f in files ==> files[f].id.store in stores0
    requires stores1 == stores0 || (s.id !in stores0 && stores1 == stores0[s.id := s])
    requires s.id in stores1 && stores1[s.id] == s
    requires fid.store == s.id && fid !in files
    ensures SpaceOf(files[fid := FileRecord(fid, o)].Keys, files[fid := FileRecord(fid, o)], stores1, o)
         == SpaceOf(files.Keys, files, stores0, o) + s.fileSize
  {
    SpaceAddFile(files, stores1, o, fid, FileRecord(fid, o));
    SpaceOfStores(files.Keys, files, stores1, stores0, o);
  }

  /** The space an ingestion charges, when the collaborators agree with the
      database: the resolved store `s` is a hash match of the upload
      (`dedup`) or a newly reserved store for it, and `fid` is the file
      identity reserved on it. */
  lemma IngestSpace(files: map<FileID, FileRecord>, stores0: map<StoreID, FileStore>, stores1: map<StoreID, FileStore>,
                    sb: StoreBase, fb: FileBase, newFileID: StoreID -> FileID,
                    up: FileStore, s: FileStore, dedup: bool, fid: FileID, o: OwnerID)
    requires sb.matchHash(up.id.hash).Success?
    requires dedup ==> s in sb.matchHash(up.id.hash).value && s.content == up.content && stores1 == stores0
    requires !dedup ==> && sb.reserve(up.id).Success? && s.id == sb.reserve(up.id).value
                        && s.fileSize == up.fileSize && stores1 == stores0[s.id := s]
    requires fb.reserve(newFileID(s.id)).Success? && fid == fb.reserve(newFileID(s.id)).value
    ensures CollaboratorsAgree(files, stores0, sb, fb, newFileID) ==>
      SpaceOf(files[fid := FileRecord(fid, o)].Keys, files[fid := FileRecord(fid, o)], stores1, o)
        == SpaceOf(files.Keys, files, stores0, o) + s.fileSize
    ensures CollaboratorsAgree(files, stores0, sb, fb, newFileID) && up.fileSize == |up.content| ==>
      s.fileSize == up.fileSize
  {
    if CollaboratorsAgree(files, stores0, sb, fb, newFileID) {
      IngestCharge(files, stores0, stores1, s, fid, o);
    }
  }

  /** InjestFile: store `read` (the content record the upload was read into)
      for `file`, then record the file. */
  method InjestFile(db: Ownerbase, file: File, contentType: string, read: Result<FileStore>,
                    sb: StoreBase, fb: FileBase, newFileID: StoreID -> FileID)
    returns (fs: Option<FileStore>, err: Option<Error>)
    requires db.Valid()
    modifies db, file
    ensures db.Valid()
    ensures err.Some? <==> fs.None?
    // the owner registry is only read
    ensures db.ids == old(db.ids) && db.userNames == old(db.userNames) && db.groupNames == old(db.groupNames)
    ensures read.Failure? ==> err == Some(read.error) && unchanged(db) && unchanged(file)
    ensures read.Success? && !IsCommitted(db.ids, file.owner) ==>
      err == Some(NotFound) && unchanged(db) && unchanged(file)
    // the quota: over it nothing is written; reaching it exactly is allowed
    ensures (read.Success? && IsCommitted(db.ids, file.owner) &&
             SpaceOf(old(db.files).Keys, old(db.files), old(db.stores), file.owner) + read.value.fileSize > Quota(file.owner)) ==>
      err == Some(NoSpace) && unchanged(db) && unchanged(file)
    ensures err == None ==>
      && read.Success? && IsCommitted(db.ids, file.owner)
      && SpaceOf(old(db.files).Keys, old(db.files), old(db.stores), file.owner) + read.value.fileSize <= Quota(file.owner)
      && sb.matchHash(read.value.id.hash).Success?
    // deduplication: the first byte-identical stored copy is reused and no store is written
    ensures err == None && FirstIdentical(read.value.content, sb.matchHash(read.value.id.hash).value).Some? ==>
      && fs.value == sb.matchHash(read.value.id.hash).value[FirstIdentical(read.value.content, sb.matchHash(read.value.id.hash).value).value]
      && db.stores == old(db.stores)
    // otherwise a new store is reserved and inserted
    ensures err == None && FirstIdentical(read.value.content, sb.matchHash(read.value.id.hash).value).None? ==>
      && sb.reserve(read.value.id).Success?
      && fs.value == read.value.(contentType := contentType, id := sb.reserve(read.value.id).value)
      && sb.insert(fs.value) == Pass
      && db.stores == old(db.stores)[fs.value.id := fs.value]
    // the file gets the identity reserved on the resolved store, and is recorded
    ensures err == None ==>
      && fb.reserve(newFileID(fs.value.id)).Success?
      && file.id == fb.reserve(newFileID(fs.value.id)).value && file.owner == old(file.owner)
      && fb.insert(FileRecord(file.id, file.owner)) == Pass
      && db.files == old(db.files)[file.id := FileRecord(file.id, file.owner)]
    // within quota, each later step decides the outcome: the first failing
    // collaborator's error, or success; a failing step writes nothing itself
    ensures (read.Success? && IsCommitted(db.ids, file.owner) &&
             SpaceOf(old(db.files).Keys, old(db.files), old(db.stores), file.owner) + read.value.fileSize <= Quota(file.owner)) ==>
      var r := ResolveStore(read.value.(contentType := contentType), sb);
      && (r.Failure? ==> err == Some(r.error) && db.stores == old(db.stores) && db.files == old(db.files) && unchanged(file))
      && (r.Success? ==> db.stores == (if FirstIdentical(read.value.content, sb.matchHash(read.value.id.hash).value).Some?
                                       then old(db.stores) else old(db.stores)[r.value.id := r.value]))
      && (r.Success? && fb.reserve(newFileID(r.value.id)).Failure? ==>
            err == Some(fb.reserve(newFileID(r.value.id)).error) && db.files == old(db.files) && unchanged(file))
      && (r.Success? && fb.reserve(newFileID(r.value.id)).Success? ==>
            var rec := FileRecord(fb.reserve(newFileID(r.value.id)).value, old(file.owner));
            && (fb.insert(rec).Fail? ==> err == Some(fb.insert(rec).error) && db.files == old(db.files))
            && (fb.insert(rec) == Pass ==> err == None && fs == Some(r.value)))
    // a new file charges its owner the resolved store's size
    ensures err == None && file.id !in old(db.files) ==>
      SpaceOf(db.files.Keys, db.files, db.stores, file.owner)
        == SpaceOf(old(db.files).Keys, old(db.files), db.stores, file.owner) + StoreSize(db.stores, file.id.store)
    // when the collaborators agree with the database, the owner is charged
    // the resolved store's size on top of the old charge, within the quota
    ensures err == None && CollaboratorsAgree(old(db.files), old(db.stores), sb, fb, newFileID) ==>
      SpaceOf(db.files.Keys, db.files, db.stores, file.owner)
        == SpaceOf(old(db.files).Keys, old(db.files), old(db.stores), file.owner) + fs.value.fileSize
    ensures err == None && CollaboratorsAgree(old(db.files), old(db.stores), sb, fb, newFileID)
            && read.value.fileSize == |read.value.content| ==>
      SpaceOf(db.files.Keys, db.files, db.stores, file.owner) <= Quota(file.owner)
  {
    if read.Failure? {
      return None, Some(read.error);
    }
    ghost var files0, stores0 := db.files, db.stores;
    var s := read.value.(contentType := contentType);
    var owner := file.owner;

    var currentSpace, e := db.GetSpace(owner);
    if e.Some? {
      return None, e;
    }
    var totalSpace, e' := db.GetTotalSpace(owner);
    if e'.Some? {
      return None, e';
    }
    if currentSpace + s.fileSize > totalSpace {
      return None, Some(NoSpace);
    }

    var resolved := StoreContent(db, s, sb);
    if resolved.Failure? {
      return None, Some(resolved.error);
    }
    ghost var dedup := FirstIdentical(s.content, sb.matchHash(s.id.hash).value).Some?;
    s := resolved.value;

    var tempID := fb.reserve(newFileID(s.id));
    if tempID.Failure? {
      return None, Some(tempID.error);
    }
    file.SetID(tempID.value);
    var rec := FileRecord(file.id, file.owner);
    var filed := fb.insert(rec);
    if filed.Fail? {
      return None, Some(filed.error);
    }
    if file.id !in db.files {
      SpaceAddFile(db.files, db.stores, owner, file.id, rec);
    }
    IngestSpace(files0, stores0, db.stores, sb, fb, newFileID, read.value, s, dedup, file.id, owner);
    db.files := db.files[file.id := rec];
    return Some(s), None;
  }
}
