/** Identities, records and errors shared by the in-memory backend and the
    ingestion path. Identities are used directly as map keys: the backend keys
    its maps by the string form of an identity, and that encoding is taken to
    be injective, so keying by the identity itself loses nothing. */
module DbTypes {

  /** An owner identity: a kind byte ('u' for users, 'g' for groups) and an
      opaque random payload. */
  datatype OwnerID = OwnerID(kind: char, payload: nat)

  /** A content identity: the content hash plus a disambiguator. */
  datatype StoreID = StoreID(hash: nat, disambiguator: nat)

  /** A file identity: the content it refers to plus a per-file payload. */
  datatype FileID = FileID(store: StoreID, payload: nat)

  /** A content blob. */
  datatype FileStore = FileStore(id: StoreID, content: string, fileSize: nat, contentType: string)

  /** The committed form of a file record: its identity and its owner. */
  datatype FileRecord = FileRecord(id: FileID, owner: OwnerID)

  /** The error taxonomy of the backend. `ServerError` carries the HTTP-like
      status the source attaches to it (500 for an unrecognised kind). */
  datatype Error =
    | NotFound
    | NameTaken
    | IDNotReserved
    | NoSpace          // status 460, "No Space"
    | ServerError(status: nat, message: string)

  datatype Option<T> = None | Some(value: T)

  datatype Result<T> = Success(value: T) | Failure(error: Error) {
    predicate IsFailure() { Failure? }
  }

  /** The outcome of a call that returns only an error. */
  datatype Outcome = Pass | Fail(error: Error)

  /** `s` lists no element twice. */
  predicate Distinct<T(==)>(s: seq<T>)
  {
    forall i, j :: 0 <= i < j < |s| ==> s[i] != s[j]
  }
}
