/** The in-memory tag index (memory/tagbase.go): store-scoped tags keyed by
    store and word, file-scoped tags keyed by file, owner and word, with the
    operations that upsert, remove, read and search them. Every operation runs
    under one process-wide lock in the source; here each is atomic. */
module TagIndex {
  import opened DbTypes
  import opened Tags

  /** TagStores[store][word] */
  type StoreMap = map<StoreID, map<string, StoreTag>>
  /** TagFiles[file][owner][word] */
  type FileMap = map<FileID, map<OwnerID, map<string, FileTag>>>

  // ---------------------------------------------------------------------
  // Reading one slot
  // ---------------------------------------------------------------------

  function StoreAt(m: StoreMap, s: StoreID, w: string): Option<StoreTag>
  {
    if s in m && w in m[s] then Some(m[s][w]) else None
  }

  function FileAt(m: FileMap, f: FileID, o: OwnerID, w: string): Option<FileTag>
  {
    if f in m && o in m[f] && w in m[f][o] then Some(m[f][o][w]) else None
  }

  /** The value Go reads for a key of an inner map: the entry or the zero tag. */
  function StoreOrZero(inner: map<string, StoreTag>, w: string): StoreTag
  {
    if w in inner then inner[w] else ZeroStoreTag
  }

  function FileOrZero(inner: map<string, FileTag>, w: string): FileTag
  {
    if w in inner then inner[w] else ZeroFileTag
  }

  // ---------------------------------------------------------------------
  // The index invariant: an entry sits under its own store (or file and
  // owner) and word, its type is never empty, and it carries only bits of
  // its own scope.
  // ---------------------------------------------------------------------

  predicate StoreEntryOK(e: StoreTag, s: StoreID, w: string)
  {
    e.store == s && e.tag.word == w && e.tag.typ != {} && e.tag.typ * ALLFILE == {}
  }

  predicate FileEntryOK(e: FileTag, f: FileID, o: OwnerID, w: string)
  {
    e.file == f && e.owner == o && e.tag.word == w && e.tag.typ != {} && e.tag.typ * ALLSTORE == {}
  }

  ghost predicate StoresValid(m: StoreMap)
  {
    forall s, w :: s in m && w in m[s] ==> StoreEntryOK(m[s][w], s, w)
  }

  ghost predicate FilesValid(m: FileMap)
  {
    forall f, o, w :: f in m && o in m[f] && w in m[f][o] ==> FileEntryOK(m[f][o][w], f, o, w)
  }

  // ---------------------------------------------------------------------
  // divideTags
  // ---------------------------------------------------------------------

  /** The store parts of `tags` whose type is not empty, in input order. */
  function StoreParts(tags: seq<FileTag>): seq<StoreTag>
  {
    if tags == [] then []
    else
      var st := StorePart(tags[|tags| - 1]);
      StoreParts(tags[..|tags| - 1]) + (if st.tag.typ != {} then [st] else [])
  }

  /** The file parts of `tags` whose type is not empty, in input order. */
  function FileParts(tags: seq<FileTag>): seq<FileTag>
  {
    if tags == [] then []
    else
      var ft := FilePart(tags[|tags| - 1]);
      FileParts(tags[..|tags| - 1]) + (if ft.tag.typ != {} then [ft] else [])
  }

  /** A store part fit to enter the index: a non-empty type of store bits. */
  predicate StorePartOK(st: StoreTag)
  {
    st.tag.typ != {} && st.tag.typ * ALLFILE == {}
  }

  predicate FilePartOK(ft: FileTag)
  {
    ft.tag.typ != {} && ft.tag.typ * ALLSTORE == {}
  }

  /** A tag contributes to the store list exactly when its store part has a
      non-empty type, and to the file list exactly when its file part has;
      nothing else enters either list. */
  lemma {:induction false} DivideTagsSpec(tags: seq<FileTag>)
    ensures forall t :: t in tags && StorePart(t).tag.typ != {} ==> StorePart(t) in StoreParts(tags)
    ensures forall t :: t in tags && FilePart(t).tag.typ != {} ==> FilePart(t) in FileParts(tags)
    ensures forall st :: st in StoreParts(tags) ==> StorePartOK(st) && exists t :: t in tags && st == StorePart(t)
    ensures forall ft :: ft in FileParts(tags) ==> FilePartOK(ft) && exists t :: t in tags && ft == FilePart(t)
  {
    if tags != [] {
      var init := tags[..|tags| - 1];
      DivideTagsSpec(init);
      assert tags == init + [tags[|tags| - 1]];
      PartsCoverType(tags[|tags| - 1]);
    }
  }

  /** A tag whose type spans both groups contributes to both lists. */
  lemma SpanningTagGoesBothWays(tags: seq<FileTag>, t: FileTag)
    requires t in tags && t.tag.typ * ALLSTORE != {} && t.tag.typ * ALLFILE != {}
    ensures StorePart(t) in StoreParts(tags) && FilePart(t) in FileParts(tags)
  {
    DivideTagsSpec(tags);
  }

  /** divideTags: split each tag into its store part and its file part. */
  method DivideTags(tags: seq<FileTag>) returns (stags: seq<StoreTag>, ftags: seq<FileTag>)
    ensures stags == StoreParts(tags) && ftags == FileParts(tags)
  {
    stags, ftags := [], [];
    for i := 0 to |tags|
      invariant stags == StoreParts(tags[..i]) && ftags == FileParts(tags[..i])
    {
      assert tags[..i + 1][..i] == tags[..i];
      var st := StorePart(tags[i]);
      if st.tag.typ != {} {
        stags := stags + [st];
      }
      var ft := FilePart(tags[i]);
      if ft.tag.typ != {} {
        ftags := ftags + [ft];
      }
    }
    assert tags[..|tags|] == tags;
  }

  // ---------------------------------------------------------------------
  // Upsert
  // ---------------------------------------------------------------------

  /** One store part merged into the store layer. */
  function UpsertStore(m: StoreMap, st: StoreTag): StoreMap
  {
    if st.store !in m then m[st.store := map[st.tag.word := st]]
    else m[st.store := m[st.store][st.tag.word := UpdateStore(StoreOrZero(m[st.store], st.tag.word), st)]]
  }

  function UpsertStores(m: StoreMap, sts: seq<StoreTag>): StoreMap
  {
    if sts == [] then m else UpsertStore(UpsertStores(m, sts[..|sts| - 1]), sts[|sts| - 1])
  }

  /** One file part merged into the file layer. */
  function UpsertFile(m: FileMap, ft: FileTag): FileMap
  {
    if ft.file !in m then m[ft.file := map[ft.owner := map[ft.tag.word := ft]]]
    else if ft.owner !in m[ft.file] then m[ft.file := m[ft.file][ft.owner := map[ft.tag.word := ft]]]
    else
      var inner := m[ft.file][ft.owner];
      m[ft.file := m[ft.file][ft.owner := inner[ft.tag.word := UpdateFile(FileOrZero(inner, ft.tag.word), ft)]]]
  }

  function UpsertFiles(m: FileMap, fts: seq<FileTag>): FileMap
  {
    if fts == [] then m else UpsertFile(UpsertFiles(m, fts[..|fts| - 1]), fts[|fts| - 1])
  }

  /** Some part in `sts` is filed under store `s` and word `w`. */
  ghost predicate TouchesStore(sts: seq<StoreTag>, s: StoreID, w: string)
  {
    exists st :: st in sts && st.store == s && st.tag.word == w
  }

  ghost predicate TouchesFile(fts: seq<FileTag>, f: FileID, o: OwnerID, w: string)
  {
    exists ft :: ft in fts && ft.file == f && ft.owner == o && ft.tag.word == w
  }

  /** The entry an upsert of `st` leaves in the part's own slot. */
  function UpsertedStore(m: StoreMap, st: StoreTag): StoreTag
  {
    UpdateStore(StoreOrZero(StoreScope(m, st.store), st.tag.word), st)
  }

  function UpsertedFile(m: FileMap, ft: FileTag): FileTag
  {
    UpdateFile(FileOrZero(FileScope(m, ft.file, ft.owner), ft.tag.word), ft)
  }

  /** One upsert changes exactly the part's own slot. */
  lemma UpsertStoreAt(m: StoreMap, st: StoreTag)
    ensures forall s, w ::
      StoreAt(UpsertStore(m, st), s, w) == (if s == st.store && w == st.tag.word then Some(UpsertedStore(m, st)) else StoreAt(m, s, w))
  {
    UpdateZero(st.tag);
  }

  lemma UpsertFileAt(m: FileMap, ft: FileTag)
    ensures forall f, o, w ::
      FileAt(UpsertFile(m, ft), f, o, w) == (if f == ft.file && o == ft.owner && w == ft.tag.word then Some(UpsertedFile(m, ft)) else FileAt(m, f, o, w))
  {
    UpdateZero(ft.tag);
  }

  /** A map that differs from a valid one in one slot only, where it holds
      nothing or a well-formed entry, is valid. */
  lemma StoreSlotChangeValid(m: StoreMap, r: StoreMap, s0: StoreID, w0: string, u: Option<StoreTag>)
    requires StoresValid(m)
    requires u.Some? ==> StoreEntryOK(u.value, s0, w0)
    requires forall s, w :: StoreAt(r, s, w) == (if s == s0 && w == w0 then u else StoreAt(m, s, w))
    ensures StoresValid(r)
  {
    forall s, w | s in r && w in r[s]
      ensures StoreEntryOK(r[s][w], s, w)
    {
      assert StoreAt(r, s, w) == Some(r[s][w]);
      if s != s0 || w != w0 {
        assert StoreAt(m, s, w).Some?;
      }
    }
  }

  lemma FileSlotChangeValid(m: FileMap, r: FileMap, f0: FileID, o0: OwnerID, w0: string, u: Option<FileTag>)
    requires FilesValid(m)
    requires u.Some? ==> FileEntryOK(u.value, f0, o0, w0)
    requires forall f, o, w :: FileAt(r, f, o, w) == (if f == f0 && o == o0 && w == w0 then u else FileAt(m, f, o, w))
    ensures FilesValid(r)
  {
    forall f, o, w | f in r && o in r[f] && w in r[f][o]
      ensures FileEntryOK(r[f][o][w], f, o, w)
    {
      assert FileAt(r, f, o, w) == Some(r[f][o][w]);
      if f != f0 || o != o0 || w != w0 {
        assert FileAt(m, f, o, w).Some?;
      }
    }
  }

  /** A slot of a valid index, read with Go's zero default, carries no bit
      of the other scope. */
  lemma StoreSlotInScope(m: StoreMap, s: StoreID, w: string)
    requires StoresValid(m)
    ensures StoreOrZero(StoreScope(m, s), w).tag.typ * ALLFILE == {}
  {
    if s in m && w in m[s] {
      assert StoreEntryOK(m[s][w], s, w);
    }
  }

  lemma FileSlotInScope(m: FileMap, f: FileID, o: OwnerID, w: string)
    requires FilesValid(m)
    ensures FileOrZero(FileScope(m, f, o), w).tag.typ * ALLSTORE == {}
  {
    if f in m && o in m[f] && w in m[f][o] {
      assert FileEntryOK(m[f][o][w], f, o, w);
    }
  }

  /** Merging a part into an entry of the same scope gives a well-formed
      entry holding the bits of both. */
  lemma UpdatedStoreOK(e: StoreTag, st: StoreTag)
    requires e.tag.typ * ALLFILE == {} && StorePartOK(st)
    ensures StoreEntryOK(UpdateStore(e, st), st.store, st.tag.word)
    ensures Covers(st.tag.typ, UpdateStore(e, st).tag.typ) && Covers(e.tag.typ, UpdateStore(e, st).tag.typ)
  {
  }

  lemma UpdatedFileOK(e: FileTag, ft: FileTag)
    requires e.tag.typ * ALLSTORE == {} && FilePartOK(ft)
    ensures FileEntryOK(UpdateFile(e, ft), ft.file, ft.owner, ft.tag.word)
    ensures Covers(ft.tag.typ, UpdateFile(e, ft).tag.typ) && Covers(e.tag.typ, UpdateFile(e, ft).tag.typ)
  {
  }

  /** The upserted entry is well-formed and holds the bits of the part and
      of the entry it replaces. */
  lemma UpsertedStoreOK(m: StoreMap, st: StoreTag)
    requires StoresValid(m) && StorePartOK(st)
    ensures StoreEntryOK(UpsertedStore(m, st), st.store, st.tag.word)
    ensures Covers(st.tag.typ, UpsertedStore(m, st).tag.typ)
    ensures StoreAt(m, st.store, st.tag.word).Some? ==>
      Covers(StoreAt(m, st.store, st.tag.word).value.tag.typ, UpsertedStore(m, st).tag.typ)
  {
    StoreSlotInScope(m, st.store, st.tag.word);
    UpdatedStoreOK(StoreOrZero(StoreScope(m, st.store), st.tag.word), st);
  }

  lemma UpsertedFileOK(m: FileMap, ft: FileTag)
    requires FilesValid(m) && FilePartOK(ft)
    ensures FileEntryOK(UpsertedFile(m, ft), ft.file, ft.owner, ft.tag.word)
    ensures Covers(ft.tag.typ, UpsertedFile(m, ft).tag.typ)
    ensures FileAt(m, ft.file, ft.owner, ft.tag.word).Some? ==>
      Covers(FileAt(m, ft.file, ft.owner, ft.tag.word).value.tag.typ, UpsertedFile(m, ft).tag.typ)
  {
    FileSlotInScope(m, ft.file, ft.owner, ft.tag.word);
    UpdatedFileOK(FileOrZero(FileScope(m, ft.file, ft.owner), ft.tag.word), ft);
  }

  lemma UpsertStoreStep(m: StoreMap, st: StoreTag)
    requires StoresValid(m) && StorePartOK(st)
    ensures StoresValid(UpsertStore(m, st))
    ensures StoreAt(UpsertStore(m, st), st.store, st.tag.word).Some?
    ensures Covers(st.tag.typ, StoreAt(UpsertStore(m, st), st.store, st.tag.word).value.tag.typ)
    ensures forall s, w :: (s != st.store || w != st.tag.word) ==> StoreAt(UpsertStore(m, st), s, w) == StoreAt(m, s, w)
    ensures forall s, w :: StoreAt(m, s, w).Some? ==>
      StoreAt(UpsertStore(m, st), s, w).Some? &&
      Covers(StoreAt(m, s, w).value.tag.typ, StoreAt(UpsertStore(m, st), s, w).value.tag.typ)
  {
    UpsertStoreAt(m, st);
    UpsertedStoreOK(m, st);
    StoreSlotChangeValid(m, UpsertStore(m, st), st.store, st.tag.word, Some(UpsertedStore(m, st)));
  }

  lemma UpsertFileStep(m: FileMap, ft: FileTag)
    requires FilesValid(m) && FilePartOK(ft)
    ensures FilesValid(UpsertFile(m, ft))
    ensures FileAt(UpsertFile(m, ft), ft.file, ft.owner, ft.tag.word).Some?
    ensures Covers(ft.tag.typ, FileAt(UpsertFile(m, ft), ft.file, ft.owner, ft.tag.word).value.tag.typ)
    ensures forall f, o, w :: (f != ft.file || o != ft.owner || w != ft.tag.word) ==>
      FileAt(UpsertFile(m, ft), f, o, w) == FileAt(m, f, o, w)
    ensures forall f, o, w :: FileAt(m, f, o, w).Some? ==>
      FileAt(UpsertFile(m, ft), f, o, w).Some? &&
      Covers(FileAt(m, f, o, w).value.tag.typ, FileAt(UpsertFile(m, ft), f, o, w).value.tag.typ)
  {
    UpsertFileAt(m, ft);
    UpsertedFileOK(m, ft);
    FileSlotChangeValid(m, UpsertFile(m, ft), ft.file, ft.owner, ft.tag.word, Some(UpsertedFile(m, ft)));
  }

  /** After upserting store parts: the index stays valid, every part has an
      entry under its store and word holding at least its bits, entries only
      gain bits, and every other (store, word) slot is unchanged. */
  lemma {:induction false} UpsertStoresSpec(m: StoreMap, sts: seq<StoreTag>)
    requires StoresValid(m)
    requires forall st :: st in sts ==> StorePartOK(st)
    ensures StoresValid(UpsertStores(m, sts))
    ensures forall st :: st in sts ==>
      StoreAt(UpsertStores(m, sts), st.store, st.tag.word).Some? &&
      Covers(st.tag.typ, StoreAt(UpsertStores(m, sts), st.store, st.tag.word).value.tag.typ)
    ensures forall s, w :: !TouchesStore(sts, s, w) ==> StoreAt(UpsertStores(m, sts), s, w) == StoreAt(m, s, w)
    ensures forall s, w :: StoreAt(m, s, w).Some? ==>
      StoreAt(UpsertStores(m, sts), s, w).Some? &&
      Covers(StoreAt(m, s, w).value.tag.typ, StoreAt(UpsertStores(m, sts), s, w).value.tag.typ)
  {
    if sts != [] {
      var init := sts[..|sts| - 1];
      var last := sts[|sts| - 1];
      assert sts == init + [last];
      UpsertStoresSpec(m, init);
      var mid := UpsertStores(m, init);
      UpsertStoreStep(mid, last);
      forall s, w | !TouchesStore(sts, s, w)
        ensures StoreAt(UpsertStores(m, sts), s, w) == StoreAt(m, s, w)
      {
        assert !TouchesStore(init, s, w);
      }
    }
  }

  /** The file-layer counterpart of `UpsertStoresSpec`. */
  lemma {:induction false} UpsertFilesSpec(m: FileMap, fts: seq<FileTag>)
    requires FilesValid(m)
    requires forall ft :: ft in fts ==> FilePartOK(ft)
    ensures FilesValid(UpsertFiles(m, fts))
    ensures forall ft :: ft in fts ==>
      FileAt(UpsertFiles(m, fts), ft.file, ft.owner, ft.tag.word).Some? &&
      Covers(ft.tag.typ, FileAt(UpsertFiles(m, fts), ft.file, ft.owner, ft.tag.word).value.tag.typ)
    ensures forall f, o, w :: !TouchesFile(fts, f, o, w) ==> FileAt(UpsertFiles(m, fts), f, o, w) == FileAt(m, f, o, w)
    ensures forall f, o, w :: FileAt(m, f, o, w).Some? ==>
      FileAt(UpsertFiles(m, fts), f, o, w).Some? &&
      Covers(FileAt(m, f, o, w).value.tag.typ, FileAt(UpsertFiles(m, fts), f, o, w).value.tag.typ)
  {
    if fts != [] {
      var init := fts[..|fts| - 1];
      var last := fts[|fts| - 1];
      assert fts == init + [last];
      UpsertFilesSpec(m, init);
      var mid := UpsertFiles(m, init);
      UpsertFileStep(mid, last);
      forall f, o, w | !TouchesFile(fts, f, o, w)
        ensures FileAt(UpsertFiles(m, fts), f, o, w) == FileAt(m, f, o, w)
      {
        assert !TouchesFile(init, f, o, w);
      }
    }
  }

  // ---------------------------------------------------------------------
  // Remove
  // ---------------------------------------------------------------------

  /** One removal applied to the store layer: clear the removal's bits from
      the matching entry, deleting it when no bit remains. */
  function RemoveStore(m: StoreMap, st: StoreTag): StoreMap
  {
    if st.store in m && st.tag.word in m[st.store] then
      var prev := m[st.store][st.tag.word];
      var rest := AndNot(prev.tag.typ, st.tag.typ);
      if rest == {} then m[st.store := m[st.store] - {st.tag.word}]
      else m[st.store := m[st.store][st.tag.word := StoreTag(prev.store, Tag(prev.tag.word, rest, FilterType(prev.tag.data, rest)))]]
    else m
  }

  function RemoveStores(m: StoreMap, sts: seq<StoreTag>): StoreMap
  {
    if sts == [] then m else RemoveStore(RemoveStores(m, sts[..|sts| - 1]), sts[|sts| - 1])
  }

  /** One removal applied to the file layer. */
  function RemoveFile(m: FileMap, ft: FileTag): FileMap
  {
    if ft.file in m && ft.owner in m[ft.file] && ft.tag.word in m[ft.file][ft.owner] then
      var inner := m[ft.file][ft.owner];
      var prev := inner[ft.tag.word];
      var rest := AndNot(prev.tag.typ, ft.tag.typ);
      if rest == {} then m[ft.file := m[ft.file][ft.owner := inner - {ft.tag.word}]]
      else
        var updated := FileTag(prev.file, prev.owner, Tag(prev.tag.word, rest, FilterType(prev.tag.data, rest)));
        m[ft.file := m[ft.file][ft.owner := inner[ft.tag.word := updated]]]
    else m
  }

  function RemoveFiles(m: FileMap, fts: seq<FileTag>): FileMap
  {
    if fts == [] then m else RemoveFile(RemoveFiles(m, fts[..|fts| - 1]), fts[|fts| - 1])
  }

  /** The entry `b` is `a` with some bits cleared: same identity and word,
      no bit that `a` lacks. */
  predicate StoreShrunk(a: StoreTag, b: StoreTag)
  {
    b.store == a.store && b.tag.word == a.tag.word && Covers(b.tag.typ, a.tag.typ)
  }

  predicate FileShrunk(a: FileTag, b: FileTag)
  {
    b.file == a.file && b.owner == a.owner && b.tag.word == a.tag.word && Covers(b.tag.typ, a.tag.typ)
  }

  /** What a slot holds once the bits `r` are cleared from it. */
  function ClearedStore(e: Option<StoreTag>, r: TagType): Option<StoreTag>
  {
    if e.None? then None
    else
      var rest := AndNot(e.value.tag.typ, r);
      if rest == {} then None
      else Some(StoreTag(e.value.store, Tag(e.value.tag.word, rest, FilterType(e.value.tag.data, rest))))
  }

  function ClearedFile(e: Option<FileTag>, r: TagType): Option<FileTag>
  {
    if e.None? then None
    else
      var rest := AndNot(e.value.tag.typ, r);
      if rest == {} then None
      else Some(FileTag(e.value.file, e.value.owner, Tag(e.value.tag.word, rest, FilterType(e.value.tag.data, rest))))
  }

  /** One removal changes exactly the part's own slot and drops no outer key. */
  lemma RemoveStoreAt(m: StoreMap, st: StoreTag)
    ensures RemoveStore(m, st).Keys == m.Keys
    ensures forall s, w ::
      StoreAt(RemoveStore(m, st), s, w) == (if s == st.store && w == st.tag.word then ClearedStore(StoreAt(m, s, w), st.tag.typ) else StoreAt(m, s, w))
  {
  }

  lemma RemoveFileAt(m: FileMap, ft: FileTag)
    ensures RemoveFile(m, ft).Keys == m.Keys
    ensures forall f, o, w ::
      FileAt(RemoveFile(m, ft), f, o, w) == (if f == ft.file && o == ft.owner && w == ft.tag.word then ClearedFile(FileAt(m, f, o, w), ft.tag.typ) else FileAt(m, f, o, w))
  {
  }

  /** Clearing bits keeps a subset of the entry's bits and none of the
      cleared ones. */
  lemma ClearedStoreShrinks(e: Option<StoreTag>, r: TagType)
    ensures ClearedStore(e, r).Some? ==>
      e.Some? && Covers(ClearedStore(e, r).value.tag.typ, e.value.tag.typ) && ClearedStore(e, r).value.tag.typ * r == {}
  {
    if e.Some? {
    }
  }

  lemma ClearedFileShrinks(e: Option<FileTag>, r: TagType)
    ensures ClearedFile(e, r).Some? ==>
      e.Some? && Covers(ClearedFile(e, r).value.tag.typ, e.value.tag.typ) && ClearedFile(e, r).value.tag.typ * r == {}
  {
    if e.Some? {
    }
  }

  /** Clearing bits from a well-formed entry leaves nothing or a well-formed
      entry with fewer bits and none of the cleared ones. */
  lemma ClearedStoreOK(e: Option<StoreTag>, r: TagType, s: StoreID, w: string)
    requires e.Some? ==> StoreEntryOK(e.value, s, w)
    ensures ClearedStore(e, r).Some? ==>
      && e.Some?
      && StoreEntryOK(ClearedStore(e, r).value, s, w)
      && StoreShrunk(e.value, ClearedStore(e, r).value)
      && ClearedStore(e, r).value.tag.typ * r == {}
  {
    if e.Some? {
    }
  }

  lemma ClearedFileOK(e: Option<FileTag>, r: TagType, f: FileID, o: OwnerID, w: string)
    requires e.Some? ==> FileEntryOK(e.value, f, o, w)
    ensures ClearedFile(e, r).Some? ==>
      && e.Some?
      && FileEntryOK(ClearedFile(e, r).value, f, o, w)
      && FileShrunk(e.value, ClearedFile(e, r).value)
      && ClearedFile(e, r).value.tag.typ * r == {}
  {
    if e.Some? {
    }
  }

  lemma RemoveStoreStep(m: StoreMap, st: StoreTag)
    requires StoresValid(m)
    ensures StoresValid(RemoveStore(m, st)) && RemoveStore(m, st).Keys == m.Keys
    ensures forall s, w :: (s != st.store || w != st.tag.word) ==> StoreAt(RemoveStore(m, st), s, w) == StoreAt(m, s, w)
    ensures StoreAt(RemoveStore(m, st), st.store, st.tag.word).None? ||
            StoreAt(RemoveStore(m, st), st.store, st.tag.word).value.tag.typ * st.tag.typ == {}
    ensures forall s, w :: StoreAt(RemoveStore(m, st), s, w).Some? ==>
      StoreAt(m, s, w).Some? && StoreShrunk(StoreAt(m, s, w).value, StoreAt(RemoveStore(m, st), s, w).value)
  {
    RemoveStoreAt(m, st);
    var prev := StoreAt(m, st.store, st.tag.word);
    if prev.Some? {
      assert StoreEntryOK(m[st.store][st.tag.word], st.store, st.tag.word);
    }
    ClearedStoreOK(prev, st.tag.typ, st.store, st.tag.word);
    StoreSlotChangeValid(m, RemoveStore(m, st), st.store, st.tag.word, ClearedStore(prev, st.tag.typ));
    forall s, w | StoreAt(RemoveStore(m, st), s, w).Some? && (s != st.store || w != st.tag.word)
      ensures StoreShrunk(StoreAt(m, s, w).value, StoreAt(RemoveStore(m, st), s, w).value)
    {
    }
  }

  lemma RemoveFileStep(m: FileMap, ft: FileTag)
    requires FilesValid(m)
    ensures FilesValid(RemoveFile(m, ft)) && RemoveFile(m, ft).Keys == m.Keys
    ensures forall f, o, w :: (f != ft.file || o != ft.owner || w != ft.tag.word) ==>
      FileAt(RemoveFile(m, ft), f, o, w) == FileAt(m, f, o, w)
    ensures FileAt(RemoveFile(m, ft), ft.file, ft.owner, ft.tag.word).None? ||
            FileAt(RemoveFile(m, ft), ft.file, ft.owner, ft.tag.word).value.tag.typ * ft.tag.typ == {}
    ensures forall f, o, w :: FileAt(RemoveFile(m, ft), f, o, w).Some? ==>
      FileAt(m, f, o, w).Some? && FileShrunk(FileAt(m, f, o, w).value, FileAt(RemoveFile(m, ft), f, o, w).value)
  {
    RemoveFileAt(m, ft);
    var prev := FileAt(m, ft.file, ft.owner, ft.tag.word);
    if prev.Some? {
      assert FileEntryOK(m[ft.file][ft.owner][ft.tag.word], ft.file, ft.owner, ft.tag.word);
    }
    ClearedFileOK(prev, ft.tag.typ, ft.file, ft.owner, ft.tag.word);
    FileSlotChangeValid(m, RemoveFile(m, ft), ft.file, ft.owner, ft.tag.word, ClearedFile(prev, ft.tag.typ));
    forall f, o, w | FileAt(RemoveFile(m, ft), f, o, w).Some? && (f != ft.file || o != ft.owner || w != ft.tag.word)
      ensures FileShrunk(FileAt(m, f, o, w).value, FileAt(RemoveFile(m, ft), f, o, w).value)
    {
    }
  }

  lemma {:induction false} RemoveStoresValid(m: StoreMap, sts: seq<StoreTag>)
    requires StoresValid(m)
    ensures StoresValid(RemoveStores(m, sts)) && RemoveStores(m, sts).Keys == m.Keys
  {
    if sts != [] {
      RemoveStoresValid(m, sts[..|sts| - 1]);
      RemoveStoreStep(RemoveStores(m, sts[..|sts| - 1]), sts[|sts| - 1]);
    }
  }

  lemma {:induction false} RemoveStoresFrame(m: StoreMap, sts: seq<StoreTag>)
    ensures RemoveStores(m, sts).Keys == m.Keys
    ensures forall s, w :: !TouchesStore(sts, s, w) ==> StoreAt(RemoveStores(m, sts), s, w) == StoreAt(m, s, w)
  {
    if sts != [] {
      var init, last := sts[..|sts| - 1], sts[|sts| - 1];
      assert sts == init + [last];
      RemoveStoresFrame(m, init);
      RemoveStoreAt(RemoveStores(m, init), last);
      forall s, w | !TouchesStore(sts, s, w)
        ensures StoreAt(RemoveStores(m, sts), s, w) == StoreAt(m, s, w)
      {
        assert !TouchesStore(init, s, w);
      }
    }
  }

  lemma {:induction false} RemoveStoresShrinks(m: StoreMap, sts: seq<StoreTag>)
    requires StoresValid(m)
    ensures forall s, w :: StoreAt(RemoveStores(m, sts), s, w).Some? ==>
      StoreAt(m, s, w).Some? && StoreShrunk(StoreAt(m, s, w).value, StoreAt(RemoveStores(m, sts), s, w).value)
  {
    if sts != [] {
      var init, last := sts[..|sts| - 1], sts[|sts| - 1];
      RemoveStoresShrinks(m, init);
      RemoveStoresValid(m, init);
      var mid := RemoveStores(m, init);
      RemoveStoreStep(mid, last);
      var r := RemoveStores(m, sts);
      forall s, w | StoreAt(r, s, w).Some?
        ensures StoreAt(m, s, w).Some? && StoreShrunk(StoreAt(m, s, w).value, StoreAt(r, s, w).value)
      {
      }
    }
  }

  /** One removal step keeps an earlier removal's bits out of its slot and
      clears its own bits from its own slot. */
  lemma RemoveStoreClearsSlot(mid: StoreMap, last: StoreTag, st: StoreTag, earlier: bool)
    requires earlier ==> StoreAt(mid, st.store, st.tag.word).None? || StoreAt(mid, st.store, st.tag.word).value.tag.typ * st.tag.typ == {}
    requires !earlier ==> st == last
    ensures StoreAt(RemoveStore(mid, last), st.store, st.tag.word).None? || StoreAt(RemoveStore(mid, last), st.store, st.tag.word).value.tag.typ * st.tag.typ == {}
  {
    RemoveStoreAt(mid, last);
    var prev := StoreAt(mid, st.store, st.tag.word);
    var now := StoreAt(RemoveStore(mid, last), st.store, st.tag.word);
    if st.store == last.store && st.tag.word == last.tag.word {
      ClearedStoreShrinks(prev, last.tag.typ);
      if earlier && now.Some? {
      }
    } else {
      assert now == prev;
    }
  }

  lemma {:induction false} RemoveStoresClears(m: StoreMap, sts: seq<StoreTag>)
    ensures forall st :: st in sts ==>
      StoreAt(RemoveStores(m, sts), st.store, st.tag.word).None? ||
      StoreAt(RemoveStores(m, sts), st.store, st.tag.word).value.tag.typ * st.tag.typ == {}
  {
    if sts != [] {
      var init, last := sts[..|sts| - 1], sts[|sts| - 1];
      assert sts == init + [last];
      RemoveStoresClears(m, init);
      var mid := RemoveStores(m, init);
      var r := RemoveStores(m, sts);
      forall st | st in sts
        ensures StoreAt(r, st.store, st.tag.word).None? || StoreAt(r, st.store, st.tag.word).value.tag.typ * st.tag.typ == {}
      {
        RemoveStoreClearsSlot(mid, last, st, st in init);
      }
    }
  }

  /** After removing store parts: the index stays valid and keeps every
      store key, no entry under a removed (store, word) keeps any removed
      bit, entries only lose bits, and every other slot is unchanged. */
  lemma RemoveStoresSpec(m: StoreMap, sts: seq<StoreTag>)
    requires StoresValid(m)
    ensures StoresValid(RemoveStores(m, sts)) && RemoveStores(m, sts).Keys == m.Keys
    ensures forall s, w :: !TouchesStore(sts, s, w) ==> StoreAt(RemoveStores(m, sts), s, w) == StoreAt(m, s, w)
    ensures forall st :: st in sts ==>
      StoreAt(RemoveStores(m, sts), st.store, st.tag.word).None? ||
      StoreAt(RemoveStores(m, sts), st.store, st.tag.word).value.tag.typ * st.tag.typ == {}
    ensures forall s, w :: StoreAt(RemoveStores(m, sts), s, w).Some? ==>
      StoreAt(m, s, w).Some? && StoreShrunk(StoreAt(m, s, w).value, StoreAt(RemoveStores(m, sts), s, w).value)
  {
    RemoveStoresValid(m, sts);
    RemoveStoresFrame(m, sts);
    RemoveStoresClears(m, sts);
    RemoveStoresShrinks(m, sts);
  }

  lemma {:induction false} RemoveFilesValid(m: FileMap, fts: seq<FileTag>)
    requires FilesValid(m)
    ensures FilesValid(RemoveFiles(m, fts)) && RemoveFiles(m, fts).Keys == m.Keys
  {
    if fts != [] {
      RemoveFilesValid(m, fts[..|fts| - 1]);
      RemoveFileStep(RemoveFiles(m, fts[..|fts| - 1]), fts[|fts| - 1]);
    }
  }

  lemma {:induction false} RemoveFilesFrame(m: FileMap, fts: seq<FileTag>)
    ensures RemoveFiles(m, fts).Keys == m.Keys
    ensures forall f, o, w :: !TouchesFile(fts, f, o, w) ==> FileAt(RemoveFiles(m, fts), f, o, w) == FileAt(m, f, o, w)
  {
    if fts != [] {
      var init, last := fts[..|fts| - 1], fts[|fts| - 1];
      assert fts == init + [last];
      RemoveFilesFrame(m, init);
      RemoveFileAt(RemoveFiles(m, init), last);
      forall f, o, w | !TouchesFile(fts, f, o, w)
        ensures FileAt(RemoveFiles(m, fts), f, o, w) == FileAt(m, f, o, w)
      {
        assert !TouchesFile(init, f, o, w);
      }
    }
  }

  lemma {:induction false} RemoveFilesShrinks(m: FileMap, fts: seq<FileTag>)
    requires FilesValid(m)
    ensures forall f, o, w :: FileAt(RemoveFiles(m, fts), f, o, w).Some? ==>
      FileAt(m, f, o, w).Some? && FileShrunk(FileAt(m, f, o, w).value, FileAt(RemoveFiles(m, fts), f, o, w).value)
  {
    if fts != [] {
      var init, last := fts[..|fts| - 1], fts[|fts| - 1];
      RemoveFilesShrinks(m, init);
      RemoveFilesValid(m, init);
      var mid := RemoveFiles(m, init);
      RemoveFileStep(mid, last);
      var r := RemoveFiles(m, fts);
      forall f, o, w | FileAt(r, f, o, w).Some?
        ensures FileAt(m, f, o, w).Some? && FileShrunk(FileAt(m, f, o, w).value, FileAt(r, f, o, w).value)
      {
      }
    }
  }

  /** One removal step keeps an earlier removal's bits out of its slot and
      clears its own bits from its own slot. */
  lemma RemoveFileClearsSlot(mid: FileMap, last: FileTag, ft: FileTag, earlier: bool)
    requires earlier ==> FileAt(mid, ft.file, ft.owner, ft.tag.word).None? || FileAt(mid, ft.file, ft.owner, ft.tag.word).value.tag.typ * ft.tag.typ == {}
    requires !earlier ==> ft == last
    ensures FileAt(RemoveFile(mid, last), ft.file, ft.owner, ft.tag.word).None? || FileAt(RemoveFile(mid, last), ft.file, ft.owner, ft.tag.word).value.tag.typ * ft.tag.typ == {}
  {
    RemoveFileAt(mid, last);
    var prev := FileAt(mid, ft.file, ft.owner, ft.tag.word);
    var now := FileAt(RemoveFile(mid, last), ft.file, ft.owner, ft.tag.word);
    if ft.file == last.file && ft.owner == last.owner && ft.tag.word == last.tag.word {
      ClearedFileShrinks(prev, last.tag.typ);
      if earlier && now.Some? {
      }
    } else {
      assert now == prev;
    }
  }

  lemma {:induction false} RemoveFilesClears(m: FileMap, fts: seq<FileTag>)
    ensures forall ft :: ft in fts ==>
      FileAt(RemoveFiles(m, fts), ft.file, ft.owner, ft.tag.word).None? ||
      FileAt(RemoveFiles(m, fts), ft.file, ft.owner, ft.tag.word).value.tag.typ * ft.tag.typ == {}
  {
    if fts != [] {
      var init, last := fts[..|fts| - 1], fts[|fts| - 1];
      assert fts == init + [last];
      RemoveFilesClears(m, init);
      var mid := RemoveFiles(m, init);
      var r := RemoveFiles(m, fts);
      forall ft | ft in fts
        ensures FileAt(r, ft.file, ft.owner, ft.tag.word).None? || FileAt(r, ft.file, ft.owner, ft.tag.word).value.tag.typ * ft.tag.typ == {}
      {
        RemoveFileClearsSlot(mid, last, ft, ft in init);
      }
    }
  }

  /** The file-layer counterpart of `RemoveStoresSpec`. */
  lemma RemoveFilesSpec(m: FileMap, fts: seq<FileTag>)
    requires FilesValid(m)
    ensures FilesValid(RemoveFiles(m, fts)) && RemoveFiles(m, fts).Keys == m.Keys
    ensures forall f, o, w :: !TouchesFile(fts, f, o, w) ==> FileAt(RemoveFiles(m, fts), f, o, w) == FileAt(m, f, o, w)
    ensures forall ft :: ft in fts ==>
      FileAt(RemoveFiles(m, fts), ft.file, ft.owner, ft.tag.word).None? ||
      FileAt(RemoveFiles(m, fts), ft.file, ft.owner, ft.tag.word).value.tag.typ * ft.tag.typ == {}
    ensures forall f, o, w :: FileAt(RemoveFiles(m, fts), f, o, w).Some? ==>
      FileAt(m, f, o, w).Some? && FileShrunk(FileAt(m, f, o, w).value, FileAt(RemoveFiles(m, fts), f, o, w).value)
  {
    RemoveFilesValid(m, fts);
    RemoveFilesFrame(m, fts);
    RemoveFilesClears(m, fts);
    RemoveFilesShrinks(m, fts);
  }

  /** Removing a type that covers the entry's whole type deletes the entry. */
  lemma ClearToEmptyDeletes(m: StoreMap, st: StoreTag)
    requires StoreAt(m, st.store, st.tag.word).Some?
    requires Covers(StoreAt(m, st.store, st.tag.word).value.tag.typ, st.tag.typ)
    ensures StoreAt(RemoveStore(m, st), st.store, st.tag.word).None?
  {
  }

  /** Upserting a fresh entry of type A|B and then removing A leaves type B,
      with its data filtered down to B. */
  lemma PartialClearRetainsRemainder(m: StoreMap, st: StoreTag, a: TagType, b: TagType)
    requires StoreAt(m, st.store, st.tag.word).None?
    requires st.tag.typ == a + b && a !! b && b != {}
    ensures var r := RemoveStore(UpsertStore(m, st), StoreTag(st.store, Tag(st.tag.word, a, map[])));
      StoreAt(r, st.store, st.tag.word) == Some(StoreTag(st.store, Tag(st.tag.word, b, FilterType(st.tag.data, b))))
  {
    var u := UpsertStore(m, st);
    assert StoreAt(u, st.store, st.tag.word) == Some(st) by { UpdateZero(st.tag); }
    assert AndNot(a + b, a) == b;
  }

  /** Removing a part whose slot is empty changes nothing. */
  lemma RemoveAbsentIsNoOp(ms: StoreMap, st: StoreTag, mf: FileMap, ft: FileTag)
    requires StoreAt(ms, st.store, st.tag.word).None?
    requires FileAt(mf, ft.file, ft.owner, ft.tag.word).None?
    ensures RemoveStore(ms, st) == ms && RemoveFile(mf, ft) == mf
  {
  }

  // ---------------------------------------------------------------------
  // Get
  // ---------------------------------------------------------------------

  /** The file-scoped entries of one (file, owner) pair. */
  function FileScope(m: FileMap, f: FileID, o: OwnerID): map<string, FileTag>
  {
    if f in m && o in m[f] then m[f][o] else map[]
  }

  /** The store-scoped entries of one store. */
  function StoreScope(m: StoreMap, s: StoreID): map<string, StoreTag>
  {
    if s in m then m[s] else map[]
  }

  /** The type of the entry under `w`, empty when there is none. */
  function FileTypeIn(scope: map<string, FileTag>, w: string): TagType
  {
    if w in scope then scope[w].tag.typ else {}
  }

  function StoreTypeIn(scope: map<string, StoreTag>, w: string): TagType
  {
    if w in scope then scope[w].tag.typ else {}
  }

  /** The merged entry for word `w` of one pair: the file entry with the
      store entry of the same word merged into it, or, for a word only the
      store carries, the store's tag under the pair's identity. */
  function MergedEntry(fs: map<string, FileTag>, ss: map<string, StoreTag>, f: FileID, o: OwnerID, w: string): FileTag
    requires w in fs || w in ss
  {
    if w in fs then
      (if w in ss then FileTag(fs[w].file, fs[w].owner, Update(fs[w].tag, ss[w].tag)) else fs[w])
    else FileTag(f, o, ss[w].tag)
  }

  /** A word both layers hold merges into the file entry's identity with
      the union of the two types; on every data key both entries carry the
      store's value wins, and a key only the file entry carries keeps the
      file's value. */
  lemma MergedEntryOfBoth(fs: map<string, FileTag>, ss: map<string, StoreTag>, f: FileID, o: OwnerID, w: string)
    requires w in fs && w in ss
    ensures var e, fd, sd := MergedEntry(fs, ss, f, o, w), fs[w].tag.data, ss[w].tag.data;
      && e.file == fs[w].file && e.owner == fs[w].owner
      && e.tag.typ == fs[w].tag.typ + ss[w].tag.typ
      && e.tag.data.Keys == fd.Keys + sd.Keys
      && (forall k, key :: k in sd && key in sd[k] ==> key in e.tag.data[k] && e.tag.data[k][key] == sd[k][key])
      && (forall k, key :: k in fd && key in fd[k] && (k !in sd || key !in sd[k]) ==>
            key in e.tag.data[k] && e.tag.data[k][key] == fd[k][key])
  {
  }

  /** The merge of one pair's file entries with its store's entries, by word. */
  function MergeScopes(fs: map<string, FileTag>, ss: map<string, StoreTag>, f: FileID, o: OwnerID): map<string, FileTag>
  {
    map w | w in fs.Keys + ss.Keys :: MergedEntry(fs, ss, f, o, w)
  }

  /** The merged view of a (file, owner) pair. */
  function MergedView(ms: StoreMap, mf: FileMap, f: FileID, o: OwnerID): map<string, FileTag>
  {
    MergeScopes(FileScope(mf, f, o), StoreScope(ms, f.store), f, o)
  }

  /** In a valid index the merged view holds one entry per word of either
      layer, each filed under the asked file, owner and word; its type is the
      union of the two layers' types; a store-only word carries the store's
      tag unchanged. */
  lemma MergedViewLayers(ms: StoreMap, mf: FileMap, f: FileID, o: OwnerID)
    requires StoresValid(ms) && FilesValid(mf)
    ensures var v := MergedView(ms, mf, f, o);
      && v.Keys == FileScope(mf, f, o).Keys + StoreScope(ms, f.store).Keys
      && (forall w :: w in v ==> v[w].file == f && v[w].owner == o && v[w].tag.word == w)
      && (forall w :: w in v ==>
            v[w].tag.typ == FileTypeIn(FileScope(mf, f, o), w) + StoreTypeIn(StoreScope(ms, f.store), w))
      && (forall w :: w in v && w !in FileScope(mf, f, o) ==> v[w].tag == StoreScope(ms, f.store)[w].tag)
  {
  }

  /** Upsert then Get: the upserted word shows in the merged view of the
      tag's own file and owner with at least all of the tag's bits. */
  lemma UpsertThenGet(ms: StoreMap, mf: FileMap, t: FileTag)
    requires StoresValid(ms) && FilesValid(mf) && t.tag.typ != {}
    ensures var v := MergedView(UpsertStores(ms, StoreParts([t])), UpsertFiles(mf, FileParts([t])), t.file, t.owner);
      t.tag.word in v && Covers(t.tag.typ, v[t.tag.word].tag.typ)
  {
    DivideTagsSpec([t]);
    PartsCoverType(t);
    var ms' := UpsertStores(ms, StoreParts([t]));
    var mf' := UpsertFiles(mf, FileParts([t]));
    UpsertStoresSpec(ms, StoreParts([t]));
    UpsertFilesSpec(mf, FileParts([t]));
    MergedViewLayers(ms', mf', t.file, t.owner);
    var st, ft := StorePart(t), FilePart(t);
    if st.tag.typ != {} {
      assert st in StoreParts([t]);
    }
    if ft.tag.typ != {} {
      assert ft in FileParts([t]);
    }
  }

  /** The merged view at one word, read off the word's two slots: present
      when either slot is, the file entry with the store tag merged in when
      both are, the store's tag under the pair when only the store has it. */
  lemma ViewAt(ms: StoreMap, mf: FileMap, f: FileID, o: OwnerID, w: string)
    ensures var v := MergedView(ms, mf, f, o);
      var fe, se := FileAt(mf, f, o, w), StoreAt(ms, f.store, w);
      && (w in v <==> fe.Some? || se.Some?)
      && (fe.Some? && se.Some? ==> v[w] == FileTag(fe.value.file, fe.value.owner, Update(fe.value.tag, se.value.tag)))
      && (fe.Some? && se.None? ==> v[w] == fe.value)
      && (fe.None? && se.Some? ==> v[w] == FileTag(f, o, se.value.tag))
  {
  }

  /** The slots of word `w` hold the store part and the file part of a tag
      of type `x` and data `d` for the pair: exactly the parts a fresh upsert
      of that tag writes. */
  predicate HoldsParts(ms: StoreMap, mf: FileMap, f: FileID, o: OwnerID, w: string, x: TagType, d: Data)
  {
    && StoreAt(ms, f.store, w) ==
         (if x * ALLSTORE == {} then None else Some(StoreTag(f.store, Tag(w, x * ALLSTORE, FilterType(d, x * ALLSTORE)))))
    && FileAt(mf, f, o, w) ==
         (if x * ALLFILE == {} then None else Some(FileTag(f, o, Tag(w, x * ALLFILE, FilterType(d, x * ALLFILE)))))
  }

  /** Slots holding the two parts of a tag show in the view as the whole
      tag: its full type, and its data restricted to that type. */
  lemma PartsShowWhole(ms: StoreMap, mf: FileMap, f: FileID, o: OwnerID, w: string, x: TagType, d: Data)
    requires x != {} && HoldsParts(ms, mf, f, o, w, x, d)
    ensures var v := MergedView(ms, mf, f, o);
      w in v && v[w] == FileTag(f, o, Tag(w, x, FilterType(d, x)))
  {
    ViewAt(ms, mf, f, o, w);
    TypeSplits(x);
    FilterMerge(d, x * ALLFILE, x * ALLSTORE);
    assert x * ALLFILE + x * ALLSTORE == x;
  }

  /** A single tag divides into at most one part per layer. */
  lemma OneTagParts(t: FileTag)
    ensures StoreParts([t]) == if StorePart(t).tag.typ != {} then [StorePart(t)] else []
    ensures FileParts([t]) == if FilePart(t).tag.typ != {} then [FilePart(t)] else []
  {
    assert [t][..0] == [];
  }

  /** The store slot of `t`'s word once `t` is upserted into an empty one. */
  lemma UpsertFreshStoreSlot(ms: StoreMap, t: FileTag)
    requires StoreAt(ms, t.file.store, t.tag.word).None?
    ensures StoreAt(UpsertStores(ms, StoreParts([t])), t.file.store, t.tag.word)
         == if StorePart(t).tag.typ == {} then None else Some(StorePart(t))
  {
    OneTagParts(t);
    var st := StorePart(t);
    if st.tag.typ != {} {
      assert [st][..0] == [];
      UpsertStoreAt(ms, st);
      UpdateZero(st.tag);
    }
  }

  lemma UpsertFreshFileSlot(mf: FileMap, t: FileTag)
    requires FileAt(mf, t.file, t.owner, t.tag.word).None?
    ensures FileAt(UpsertFiles(mf, FileParts([t])), t.file, t.owner, t.tag.word)
         == if FilePart(t).tag.typ == {} then None else Some(FilePart(t))
  {
    OneTagParts(t);
    var ft := FilePart(t);
    if ft.tag.typ != {} {
      assert [ft][..0] == [];
      UpsertFileAt(mf, ft);
      UpdateZero(ft.tag);
    }
  }

  /** The store slot of `r`'s word once `r` is removed. */
  lemma RemoveOneStoreSlot(ms: StoreMap, r: FileTag)
    ensures StoreAt(RemoveStores(ms, StoreParts([r])), r.file.store, r.tag.word)
         == if StorePart(r).tag.typ == {} then StoreAt(ms, r.file.store, r.tag.word)
            else ClearedStore(StoreAt(ms, r.file.store, r.tag.word), StorePart(r).tag.typ)
  {
    OneTagParts(r);
    var st := StorePart(r);
    if st.tag.typ != {} {
      assert [st][..0] == [];
      RemoveStoreAt(ms, st);
    }
  }

  lemma RemoveOneFileSlot(mf: FileMap, r: FileTag)
    ensures FileAt(RemoveFiles(mf, FileParts([r])), r.file, r.owner, r.tag.word)
         == if FilePart(r).tag.typ == {} then FileAt(mf, r.file, r.owner, r.tag.word)
            else ClearedFile(FileAt(mf, r.file, r.owner, r.tag.word), FilePart(r).tag.typ)
  {
    OneTagParts(r);
    var ft := FilePart(r);
    if ft.tag.typ != {} {
      assert [ft][..0] == [];
      RemoveFileAt(mf, ft);
    }
  }

  /** Upsert then Get, data half: for a word neither layer held, the view
      shows the tag under its own pair with all of its type and its data
      restricted to that type. */
  lemma UpsertThenGetFresh(ms: StoreMap, mf: FileMap, t: FileTag)
    requires t.tag.typ != {}
    requires FileAt(mf, t.file, t.owner, t.tag.word).None? && StoreAt(ms, t.file.store, t.tag.word).None?
    ensures var v := MergedView(UpsertStores(ms, StoreParts([t])), UpsertFiles(mf, FileParts([t])), t.file, t.owner);
      t.tag.word in v && v[t.tag.word] == FileTag(t.file, t.owner, Tag(t.tag.word, t.tag.typ, FilterType(t.tag.data, t.tag.typ)))
  {
    UpsertFreshStoreSlot(ms, t);
    UpsertFreshFileSlot(mf, t);
    PartsShowWhole(UpsertStores(ms, StoreParts([t])), UpsertFiles(mf, FileParts([t])),
                   t.file, t.owner, t.tag.word, t.tag.typ, t.tag.data);
  }

  /** Clearing a type that covers every bit of a well-formed entry's scope
      part empties the slot. */
  lemma ClearStoreSlot(ms: StoreMap, t: FileTag)
    requires StoresValid(ms)
    requires Covers(StoreTypeIn(StoreScope(ms, t.file.store), t.tag.word), t.tag.typ)
    ensures StoreAt(RemoveStores(ms, StoreParts([t])), t.file.store, t.tag.word).None?
  {
    RemoveOneStoreSlot(ms, t);
    var se := StoreAt(ms, t.file.store, t.tag.word);
    if se.Some? {
      GroupsPartition();
      var e := se.value.tag.typ;
      assert e * ALLFILE == {};
      forall x | x in e
        ensures x in t.tag.typ * ALLSTORE
      {
        assert x in ALLSTORE + ALLFILE;
      }
      assert AndNot(e, StorePart(t).tag.typ) == {};
    }
  }

  lemma ClearFileSlot(mf: FileMap, t: FileTag)
    requires FilesValid(mf)
    requires Covers(FileTypeIn(FileScope(mf, t.file, t.owner), t.tag.word), t.tag.typ)
    ensures FileAt(RemoveFiles(mf, FileParts([t])), t.file, t.owner, t.tag.word).None?
  {
    RemoveOneFileSlot(mf, t);
    var fe := FileAt(mf, t.file, t.owner, t.tag.word);
    if fe.Some? {
      GroupsPartition();
      var e := fe.value.tag.typ;
      assert e * ALLSTORE == {};
      forall x | x in e
        ensures x in t.tag.typ * ALLFILE
      {
        assert x in ALLSTORE + ALLFILE;
      }
      assert AndNot(e, FilePart(t).tag.typ) == {};
    }
  }

  /** Remove then Get, clear to empty: removing a tag whose type covers
      everything both layers hold at its word leaves the word out of the
      view entirely. */
  lemma ClearThenGetOmits(ms: StoreMap, mf: FileMap, t: FileTag)
    requires StoresValid(ms) && FilesValid(mf)
    requires Covers(FileTypeIn(FileScope(mf, t.file, t.owner), t.tag.word), t.tag.typ)
    requires Covers(StoreTypeIn(StoreScope(ms, t.file.store), t.tag.word), t.tag.typ)
    ensures t.tag.word !in MergedView(RemoveStores(ms, StoreParts([t])), RemoveFiles(mf, FileParts([t])), t.file, t.owner)
  {
    ClearStoreSlot(ms, t);
    ClearFileSlot(mf, t);
    ViewAt(RemoveStores(ms, StoreParts([t])), RemoveFiles(mf, FileParts([t])), t.file, t.owner, t.tag.word);
  }

  /** The store slot of a fresh A|B tag once A is removed: the B part. */
  lemma PartialStoreSlot(ms: StoreMap, t: FileTag, a: TagType, b: TagType)
    requires StoreAt(ms, t.file.store, t.tag.word).None?
    requires t.tag.typ == a + b && a !! b
    ensures var r := FileTag(t.file, t.owner, Tag(t.tag.word, a, map[]));
      var sb := b * ALLSTORE;
      StoreAt(RemoveStores(UpsertStores(ms, StoreParts([t])), StoreParts([r])), t.file.store, t.tag.word)
        == if sb == {} then None else Some(StoreTag(t.file.store, Tag(t.tag.word, sb, FilterType(t.tag.data, sb))))
  {
    var r := FileTag(t.file, t.owner, Tag(t.tag.word, a, map[]));
    var ms1 := UpsertStores(ms, StoreParts([t]));
    var sAll, sa, sb := (a + b) * ALLSTORE, a * ALLSTORE, b * ALLSTORE;
    UpsertFreshStoreSlot(ms, t);
    RemoveOneStoreSlot(ms1, r);
    assert sAll - sa == sb;
    if sAll != {} && sa != {} {
      FilterTwice(t.tag.data, sAll, sb);
    } else if sAll != {} {
      assert sAll == sb;
    }
  }

  lemma PartialFileSlot(mf: FileMap, t: FileTag, a: TagType, b: TagType)
    requires FileAt(mf, t.file, t.owner, t.tag.word).None?
    requires t.tag.typ == a + b && a !! b
    ensures var r := FileTag(t.file, t.owner, Tag(t.tag.word, a, map[]));
      var fb := b * ALLFILE;
      FileAt(RemoveFiles(UpsertFiles(mf, FileParts([t])), FileParts([r])), t.file, t.owner, t.tag.word)
        == if fb == {} then None else Some(FileTag(t.file, t.owner, Tag(t.tag.word, fb, FilterType(t.tag.data, fb))))
  {
    var r := FileTag(t.file, t.owner, Tag(t.tag.word, a, map[]));
    var mf1 := UpsertFiles(mf, FileParts([t]));
    var fAll, fa, fb := (a + b) * ALLFILE, a * ALLFILE, b * ALLFILE;
    UpsertFreshFileSlot(mf, t);
    RemoveOneFileSlot(mf1, r);
    assert fAll - fa == fb;
    if fAll != {} && fa != {} {
      FilterTwice(t.tag.data, fAll, fb);
    } else if fAll != {} {
      assert fAll == fb;
    }
  }

  /** Remove then Get, partial clear: after upserting a fresh tag of type
      A|B and removing A, the view shows type B alone, with the data
      restricted to B. */
  lemma PartialClearThenGet(ms: StoreMap, mf: FileMap, t: FileTag, a: TagType, b: TagType)
    requires FileAt(mf, t.file, t.owner, t.tag.word).None? && StoreAt(ms, t.file.store, t.tag.word).None?
    requires t.tag.typ == a + b && a !! b && b != {}
    ensures var r := FileTag(t.file, t.owner, Tag(t.tag.word, a, map[]));
      var v := MergedView(RemoveStores(UpsertStores(ms, StoreParts([t])), StoreParts([r])),
                          RemoveFiles(UpsertFiles(mf, FileParts([t])), FileParts([r])), t.file, t.owner);
      t.tag.word in v && v[t.tag.word] == FileTag(t.file, t.owner, Tag(t.tag.word, b, FilterType(t.tag.data, b)))
  {
    var r := FileTag(t.file, t.owner, Tag(t.tag.word, a, map[]));
    PartialStoreSlot(ms, t, a, b);
    PartialFileSlot(mf, t, a, b);
    PartsShowWhole(RemoveStores(UpsertStores(ms, StoreParts([t])), StoreParts([r])),
                   RemoveFiles(UpsertFiles(mf, FileParts([t])), FileParts([r])),
                   t.file, t.owner, t.tag.word, b, t.tag.data);
  }

  // ---------------------------------------------------------------------
  // Search
  // ---------------------------------------------------------------------

  /** Stored entry `e` answers filter `t`: they share a type bit and the
      filter accepts the entry's word. */
  predicate Hits(e: Tag, t: Tag, regex: (string, string) -> bool)
  {
    e.typ * t.typ != {} && WordMatches(t, e.word, regex)
  }

  /** Some owner's file-scoped entry on file `f` answers `t` (entries of
      every owner of the file count). */
  ghost predicate FileEvidence(mf: FileMap, f: FileID, t: Tag, regex: (string, string) -> bool)
  {
    exists o, w :: f in mf && o in mf[f] && w in mf[f][o] && Hits(mf[f][o][w].tag, t, regex)
  }

  /** Some store-scoped entry of store `s` answers `t`. */
  ghost predicate StoreEvidence(ms: StoreMap, s: StoreID, t: Tag, regex: (string, string) -> bool)
  {
    exists w :: s in ms && w in ms[s] && Hits(ms[s][w].tag, t, regex)
  }

  /** Some filter targets the store layer, so the store layer is scanned. */
  predicate ExpectStoreTag(filters: seq<Tag>)
  {
    exists i :: 0 <= i < |filters| && filters[i].typ * ALLSTORE != {}
  }

  /** Filter `i` holds for file `f`: by file-scoped evidence when the filter
      targets the file layer, or by store-scoped evidence when the store
      layer is scanned at all. */
  ghost predicate Satisfied(ms: StoreMap, mf: FileMap, f: FileID, filters: seq<Tag>, i: int, regex: (string, string) -> bool)
    requires 0 <= i < |filters|
  {
    || (filters[i].typ * ALLFILE != {} && FileEvidence(mf, f, filters[i], regex))
    || (ExpectStoreTag(filters) && StoreEvidence(ms, f.store, filters[i], regex))
  }

  /** A file passes when every filter holds. */
  ghost predicate Passes(ms: StoreMap, mf: FileMap, f: FileID, filters: seq<Tag>, regex: (string, string) -> bool)
  {
    forall i :: 0 <= i < |filters| ==> Satisfied(ms, mf, f, filters, i, regex)
  }

  /** One filter on its own, looking in exactly the layers its type targets. */
  ghost predicate FilterHolds(ms: StoreMap, mf: FileMap, f: FileID, t: Tag, regex: (string, string) -> bool)
  {
    || (t.typ * ALLFILE != {} && FileEvidence(mf, f, t, regex))
    || (t.typ * ALLSTORE != {} && StoreEvidence(ms, f.store, t, regex))
  }

  /** In a valid index a filter's store evidence forces a store bit in the
      filter, so search is a plain conjunction of independent filters, each
      looking only in the layers its type targets. */
  lemma {:induction false} PassesIsConjunction(ms: StoreMap, mf: FileMap, f: FileID, filters: seq<Tag>, regex: (string, string) -> bool)
    requires StoresValid(ms)
    ensures Passes(ms, mf, f, filters, regex) <==> forall t :: t in filters ==> FilterHolds(ms, mf, f, t, regex)
  {
    forall i | 0 <= i < |filters|
      ensures Satisfied(ms, mf, f, filters, i, regex) <==> FilterHolds(ms, mf, f, filters[i], regex)
    {
      var t := filters[i];
      if StoreEvidence(ms, f.store, t, regex) {
        var w :| f.store in ms && w in ms[f.store] && Hits(ms[f.store][w].tag, t, regex);
        var e := ms[f.store][w].tag.typ;
        assert e * ALLFILE == {} && e * t.typ != {};
        assert t.typ * ALLSTORE != {};
      }
    }
  }

  /** Adding a filter can only narrow a search: a file failing filter F2
      fails [F1, F2] even when it passes [F1]. */
  lemma SearchIsAnd(ms: StoreMap, mf: FileMap, f: FileID, f1: Tag, f2: Tag, regex: (string, string) -> bool)
    requires StoresValid(ms)
    ensures Passes(ms, mf, f, [f1, f2], regex) <==> FilterHolds(ms, mf, f, f1, regex) && FilterHolds(ms, mf, f, f2, regex)
    ensures Passes(ms, mf, f, [f1], regex) <==> FilterHolds(ms, mf, f, f1, regex)
  {
    PassesIsConjunction(ms, mf, f, [f1, f2], regex);
    PassesIsConjunction(ms, mf, f, [f1], regex);
  }

  // ---------------------------------------------------------------------
  // Loops shared by the read operations
  // ---------------------------------------------------------------------

  /** Every entry sits under its own word. */
  predicate FilesKeyed(entries: map<string, FileTag>)
  {
    forall w :: w in entries ==> entries[w].tag.word == w
  }

  predicate StoresKeyed(entries: map<string, StoreTag>)
  {
    forall w :: w in entries ==> entries[w].tag.word == w
  }

  /** The entries of one (file, owner) pair whose type meets `typ`. */
  method FileHits(entries: map<string, FileTag>, typ: TagType) returns (hits: seq<FileTag>)
    requires FilesKeyed(entries)
    ensures Distinct(hits)
    ensures forall x :: x in hits <==> exists w :: w in entries && entries[w] == x && x.tag.typ * typ != {}
  {
    hits := [];
    var rest := entries.Keys;
    while rest != {}
      invariant rest <= entries.Keys
      invariant Distinct(hits)
      invariant forall x :: x in hits ==> x.tag.word !in rest
      invariant forall x :: x in hits <==> exists w :: w in entries.Keys - rest && entries[w] == x && x.tag.typ * typ != {}
      decreases rest
    {
      var w :| w in rest;
      if entries[w].tag.typ * typ != {} {
        hits := hits + [entries[w]];
      }
      rest := rest - {w};
    }
  }

  /** The entries of one store whose type meets `typ`, each under the given
      file and owner. */
  method StoreHits(entries: map<string, StoreTag>, typ: TagType, fid: FileID, oid: OwnerID) returns (hits: seq<FileTag>)
    requires StoresKeyed(entries)
    ensures Distinct(hits)
    ensures forall x :: x in hits <==> exists w :: w in entries && FileTag(fid, oid, entries[w].tag) == x && x.tag.typ * typ != {}
  {
    hits := [];
    var rest := entries.Keys;
    while rest != {}
      invariant rest <= entries.Keys
      invariant Distinct(hits)
      invariant forall x :: x in hits ==> x.tag.word !in rest
      invariant forall x :: x in hits <==> exists w :: w in entries.Keys - rest && FileTag(fid, oid, entries[w].tag) == x && x.tag.typ * typ != {}
      decreases rest
    {
      var w :| w in rest;
      if entries[w].tag.typ * typ != {} {
        hits := hits + [FileTag(fid, oid, entries[w].tag)];
      }
      rest := rest - {w};
    }
  }

  /** Whether some entry answers filter `t`; `tagOf` reads the tag of an
      entry of either layer. */
  method AnyHit<E>(entries: map<string, E>, tagOf: E -> Tag, t: Tag, regex: (string, string) -> bool) returns (found: bool)
    ensures found <==> exists w :: w in entries && Hits(tagOf(entries[w]), t, regex)
  {
    found := false;
    var rest := entries.Keys;
    while rest != {} && !found
      invariant rest <= entries.Keys
      invariant found <==> exists w :: w in entries.Keys - rest && Hits(tagOf(entries[w]), t, regex)
      decreases rest
    {
      var w :| w in rest;
      found := Hits(tagOf(entries[w]), t, regex);
      rest := rest - {w};
    }
  }

  /** Whether every filter was satisfied. */
  method AllValid(valid: array<bool>) returns (all: bool)
    ensures all <==> forall i :: 0 <= i < valid.Length ==> valid[i]
  {
    all := true;
    for i := 0 to valid.Length
      invariant all <==> forall j :: 0 <= j < i ==> valid[j]
    {
      if !valid[i] {
        return false;
      }
    }
  }

  /** `out` lists the view's entries, one per word. */
  predicate ListsView(out: seq<FileTag>, view: map<string, FileTag>)
  {
    && (forall i :: 0 <= i < |out| ==> out[i].tag.word in view && out[i] == view[out[i].tag.word])
    && (forall w :: w in view ==> exists i :: 0 <= i < |out| && out[i].tag.word == w)
    && (forall i, j :: 0 <= i < j < |out| ==> out[i].tag.word != out[j].tag.word)
  }

  /** Each entry of `out` is the merged entry of its own word. */
  predicate MergedEntries(out: seq<FileTag>, fs: map<string, FileTag>, ss: map<string, StoreTag>, f: FileID, o: OwnerID)
  {
    forall i :: 0 <= i < |out| ==>
      (out[i].tag.word in fs || out[i].tag.word in ss) && out[i] == MergedEntry(fs, ss, f, o, out[i].tag.word)
  }

  /** `pos` and the words of `out` are inverse: each word of `pos` is listed
      at its position and each position holds a word of `pos` listed there,
      so no word is listed twice. */
  ghost predicate Positions(out: seq<FileTag>, pos: map<string, nat>)
  {
    && (forall w :: w in pos ==> pos[w] < |out| && out[pos[w]].tag.word == w)
    && (forall i :: 0 <= i < |out| ==> out[i].tag.word in pos && pos[out[i].tag.word] == i)
  }

  lemma ListedIsView(out: seq<FileTag>, pos: map<string, nat>, fs: map<string, FileTag>, ss: map<string, StoreTag>, f: FileID, o: OwnerID)
    requires MergedEntries(out, fs, ss, f, o) && Positions(out, pos) && pos.Keys == fs.Keys + ss.Keys
    ensures ListsView(out, MergeScopes(fs, ss, f, o))
  {
    forall w | w in MergeScopes(fs, ss, f, o)
      ensures exists i :: 0 <= i < |out| && out[i].tag.word == w
    {
      assert out[pos[w]].tag.word == w;
    }
    forall i, j | 0 <= i < j < |out|
      ensures out[i].tag.word != out[j].tag.word
    {
      assert pos[out[i].tag.word] == i && pos[out[j].tag.word] == j;
    }
  }

  /** The body of Get's first loop: a file entry, with the store entry of
      the same word merged in when there is one. */
  method MergeFileWord(fs: map<string, FileTag>, ss: map<string, StoreTag>, f: FileID, o: OwnerID, w: string)
    returns (ft: FileTag)
    requires FilesKeyed(fs) && StoresKeyed(ss) && w in fs
    ensures ft == MergedEntry(fs, ss, f, o, w) && ft.tag.word == w
  {
    ft := fs[w];
    if w in ss {
      ft := FileTag(ft.file, ft.owner, Update(ft.tag, ss[w].tag));
    }
  }

  /** The first loop of Get: every file entry of the pair, merged with the
      store entry of the same word, each word marked as seen. */
  method ListFileWords(fs: map<string, FileTag>, ss: map<string, StoreTag>, f: FileID, o: OwnerID)
    returns (out: seq<FileTag>, words: map<string, bool>, ghost pos: map<string, nat>)
    requires FilesKeyed(fs) && StoresKeyed(ss)
    ensures words.Keys == fs.Keys && forall w :: w in words ==> words[w]
    ensures MergedEntries(out, fs, ss, f, o) && Positions(out, pos) && pos.Keys == fs.Keys
  {
    words := map[];
    out := [];
    pos := map[];
    var rest := fs.Keys;
    while rest != {}
      invariant rest <= fs.Keys && words.Keys == fs.Keys - rest && pos.Keys == words.Keys
      invariant forall w :: w in words ==> words[w]
      invariant MergedEntries(out, fs, ss, f, o) && Positions(out, pos)
      decreases rest
    {
      var w :| w in rest;
      var ft := MergeFileWord(fs, ss, f, o, w);
      words := words[w := true];
      pos := pos[w := |out|];
      out := out + [ft];
      rest := rest - {w};
    }
  }

  /** The second loop of Get: the store entries whose word was not seen,
      under the pair's identity. */
  method ListStoreWords(fs: map<string, FileTag>, ss: map<string, StoreTag>, f: FileID, o: OwnerID,
                        prefix: seq<FileTag>, words: map<string, bool>, ghost pos0: map<string, nat>)
    returns (out: seq<FileTag>, ghost pos: map<string, nat>)
    requires StoresKeyed(ss)
    requires words.Keys == fs.Keys && forall w :: w in words ==> words[w]
    requires MergedEntries(prefix, fs, ss, f, o) && Positions(prefix, pos0) && pos0.Keys == fs.Keys
    ensures MergedEntries(out, fs, ss, f, o)
    ensures Positions(out, pos) && pos.Keys == fs.Keys + ss.Keys
  {
    out, pos := prefix, pos0;
    var rest := ss.Keys;
    while rest != {}
      invariant rest <= ss.Keys
      invariant MergedEntries(out, fs, ss, f, o) && Positions(out, pos) && pos.Keys == fs.Keys + (ss.Keys - rest)
      decreases rest
    {
      var w :| w in rest;
      if !(w in words && words[w]) {
        var ft := FileTag(f, o, ss[w].tag);
        assert ft == MergedEntry(fs, ss, f, o, w) && ft.tag.word == w;
        pos := pos[w := |out|];
        out := out + [ft];
      }
      rest := rest - {w};
    }
  }

  // ---------------------------------------------------------------------
  // The index object
  // ---------------------------------------------------------------------

  class Tagbase {
    var tagStores: StoreMap
    var tagFiles: FileMap

    ghost predicate Valid()
      reads this
    {
      StoresValid(tagStores) && FilesValid(tagFiles)
    }

    constructor ()
      ensures Valid() && tagStores == map[] && tagFiles == map[]
    {
      tagStores, tagFiles := map[], map[];
    }

    /** Upsert: merge each tag's store part and file part into the index. */
    method Upsert(tags: seq<FileTag>) returns (err: Option<Error>)
      requires Valid()
      modifies this
      ensures Valid() && err == None
      ensures tagStores == UpsertStores(old(tagStores), StoreParts(tags))
      ensures tagFiles == UpsertFiles(old(tagFiles), FileParts(tags))
    {
      var stags, ftags := DivideTags(tags);
      DivideTagsSpec(tags);
      UpsertStoreLayer(stags);
      UpsertFileLayer(ftags);
      UpsertStoresSpec(old(tagStores), stags);
      UpsertFilesSpec(old(tagFiles), ftags);
      err := None;
    }

    /** The first loop of Upsert. */
    method UpsertStoreLayer(stags: seq<StoreTag>)
      modifies this
      ensures tagStores == UpsertStores(old(tagStores), stags) && tagFiles == old(tagFiles)
    {
      for i := 0 to |stags|
        invariant tagStores == UpsertStores(old(tagStores), stags[..i]) && tagFiles == old(tagFiles)
      {
        assert stags[..i + 1][..i] == stags[..i];
        var st := stags[i];
        if st.store !in tagStores {
          tagStores := tagStores[st.store := map[st.tag.word := st]];
        } else {
          var inner := tagStores[st.store];
          tagStores := tagStores[st.store := inner[st.tag.word := UpdateStore(StoreOrZero(inner, st.tag.word), st)]];
        }
      }
      assert stags[..|stags|] == stags;
    }

    /** The second loop of Upsert. */
    method UpsertFileLayer(ftags: seq<FileTag>)
      modifies this
      ensures tagFiles == UpsertFiles(old(tagFiles), ftags) && tagStores == old(tagStores)
    {
      for i := 0 to |ftags|
        invariant tagFiles == UpsertFiles(old(tagFiles), ftags[..i]) && tagStores == old(tagStores)
      {
        assert ftags[..i + 1][..i] == ftags[..i];
        var ft := ftags[i];
        if ft.file !in tagFiles {
          tagFiles := tagFiles[ft.file := map[ft.owner := map[ft.tag.word := ft]]];
        } else if ft.owner !in tagFiles[ft.file] {
          tagFiles := tagFiles[ft.file := tagFiles[ft.file][ft.owner := map[ft.tag.word := ft]]];
        } else {
          var inner := tagFiles[ft.file][ft.owner];
          tagFiles := tagFiles[ft.file := tagFiles[ft.file][ft.owner := inner[ft.tag.word := UpdateFile(FileOrZero(inner, ft.tag.word), ft)]]];
        }
      }
      assert ftags[..|ftags|] == ftags;
    }

    /** Remove: clear each tag's bits from the matching entries. */
    method Remove(tags: seq<FileTag>) returns (err: Option<Error>)
      requires Valid()
      modifies this
      ensures Valid() && err == None
      ensures tagStores == RemoveStores(old(tagStores), StoreParts(tags))
      ensures tagFiles == RemoveFiles(old(tagFiles), FileParts(tags))
    {
      var stags, ftags := DivideTags(tags);
      RemoveStoreLayer(stags);
      RemoveFileLayer(ftags);
      RemoveStoresValid(old(tagStores), stags);
      RemoveFilesValid(old(tagFiles), ftags);
      err := None;
    }

    /** The first loop of Remove. */
    method RemoveStoreLayer(stags: seq<StoreTag>)
      modifies this
      ensures tagStores == RemoveStores(old(tagStores), stags) && tagFiles == old(tagFiles)
    {
      for i := 0 to |stags|
        invariant tagStores == RemoveStores(old(tagStores), stags[..i]) && tagFiles == old(tagFiles)
      {
        assert stags[..i + 1][..i] == stags[..i];
        var st := stags[i];
        if st.store in tagStores {
          if st.tag.word in tagStores[st.store] {
            var prev := tagStores[st.store][st.tag.word];
            if AndNot(prev.tag.typ, st.tag.typ) == {} {
              tagStores := tagStores[st.store := tagStores[st.store] - {st.tag.word}];
            } else {
              var rest := AndNot(prev.tag.typ, st.tag.typ);
              var updated := StoreTag(prev.store, Tag(prev.tag.word, rest, FilterType(prev.tag.data, rest)));
              tagStores := tagStores[st.store := tagStores[st.store][st.tag.word := updated]];
            }
          }
        }
      }
      assert stags[..|stags|] == stags;
    }

    /** The second loop of Remove. */
    method RemoveFileLayer(ftags: seq<FileTag>)
      modifies this
      ensures tagFiles == RemoveFiles(old(tagFiles), ftags) && tagStores == old(tagStores)
    {
      for i := 0 to |ftags|
        invariant tagFiles == RemoveFiles(old(tagFiles), ftags[..i]) && tagStores == old(tagStores)
      {
        assert ftags[..i + 1][..i] == ftags[..i];
        var ft := ftags[i];
        if ft.file in tagFiles && ft.owner in tagFiles[ft.file] {
          var inner := tagFiles[ft.file][ft.owner];
          if ft.tag.word in inner {
            var prev := inner[ft.tag.word];
            if AndNot(prev.tag.typ, ft.tag.typ) == {} {
              tagFiles := tagFiles[ft.file := tagFiles[ft.file][ft.owner := inner - {ft.tag.word}]];
            } else {
              var rest := AndNot(prev.tag.typ, ft.tag.typ);
              var updated := FileTag(prev.file, prev.owner, Tag(prev.tag.word, rest, FilterType(prev.tag.data, rest)));
              tagFiles := tagFiles[ft.file := tagFiles[ft.file][ft.owner := inner[ft.tag.word := updated]]];
            }
          }
        }
      }
      assert ftags[..|ftags|] == ftags;
    }

    /** Get: the merged view of a (file, owner) pair, one tag per word. */
    method Get(fid: FileID, oid: OwnerID) returns (out: seq<FileTag>, err: Option<Error>)
      requires Valid()
      ensures err == None
      ensures ListsView(out, MergedView(tagStores, tagFiles, fid, oid))
    {
      var fs := FileScope(tagFiles, fid, oid);
      var ss := StoreScope(tagStores, fid.store);
      var words;
      ghost var pos;
      out, words, pos := ListFileWords(fs, ss, fid, oid);
      out, pos := ListStoreWords(fs, ss, fid, oid, out, words, pos);
      ListedIsView(out, pos, fs, ss, fid, oid);
      err := None;
    }

    /** GetType: the tags of a (file, owner) pair whose type meets `typ`,
        file-scoped entries when `typ` has a file bit, then store-scoped
        entries under the pair's identity when `typ` has a store bit. A word
        present in both layers is listed once per layer, unmerged. */
    method GetType(fid: FileID, oid: OwnerID, typ: TagType) returns (tags: seq<FileTag>, err: Option<Error>)
      requires Valid()
      ensures err == None && Distinct(tags)
      ensures forall x :: x in tags <==>
        || (typ * ALLFILE != {} && FileAt(tagFiles, fid, oid, x.tag.word) == Some(x) && x.tag.typ * typ != {})
        || (typ * ALLSTORE != {} && x.file == fid && x.owner == oid &&
            StoreAt(tagStores, fid.store, x.tag.word).Some? && StoreAt(tagStores, fid.store, x.tag.word).value.tag == x.tag &&
            x.tag.typ * typ != {})
    {
      var fs := FileScope(tagFiles, fid, oid);
      var ss := StoreScope(tagStores, fid.store);
      var fileHits: seq<FileTag> := [];
      var storeHits: seq<FileTag> := [];
      if typ * ALLFILE != {} {
        if fid in tagFiles && oid in tagFiles[fid] {
          fileHits := FileHits(tagFiles[fid][oid], typ);
        }
      }
      if typ * ALLSTORE != {} {
        if fid.store in tagStores {
          storeHits := StoreHits(tagStores[fid.store], typ, fid, oid);
        }
      }
      tags := fileHits + storeHits;
      forall i, j | 0 <= i < |fileHits| && 0 <= j < |storeHits|
        ensures fileHits[i] != storeHits[j]
      {
        assert fileHits[i].tag.typ * ALLSTORE == {} && storeHits[j].tag.typ * ALLFILE == {};
      }
      err := None;
    }

    /** GetAll: every file-scoped entry of one owner, across all files,
        whose type meets `typ`. */
    method GetAll(typ: TagType, oid: OwnerID) returns (tags: seq<FileTag>, err: Option<Error>)
      requires Valid()
      ensures err == None && Distinct(tags)
      ensures forall x :: x in tags <==>
        x.owner == oid && FileAt(tagFiles, x.file, oid, x.tag.word) == Some(x) && x.tag.typ * typ != {}
    {
      tags := [];
      var rest := tagFiles.Keys;
      while rest != {}
        invariant rest <= tagFiles.Keys
        invariant Distinct(tags)
        invariant forall x :: x in tags ==> x.file !in rest
        invariant forall x :: x in tags <==>
          x.file in tagFiles.Keys - rest && x.owner == oid && FileAt(tagFiles, x.file, oid, x.tag.word) == Some(x) && x.tag.typ * typ != {}
        decreases rest
      {
        var f :| f in rest;
        if oid in tagFiles[f] {
          var hits := FileHits(tagFiles[f][oid], typ);
          tags := tags + hits;
        }
        rest := rest - {f};
      }
      err := None;
    }

    /** The file-layer pass of SearchFiles for one file: a filter with a file
        bit becomes valid when some owner's entry on the file answers it. */
    method FileLayer(fid: FileID, filters: seq<Tag>, regex: (string, string) -> bool, valid: array<bool>)
      requires valid.Length == |filters|
      modifies valid
      ensures forall i :: 0 <= i < |filters| ==>
        valid[i] == (old(valid[i]) || (filters[i].typ * ALLFILE != {} && FileEvidence(tagFiles, fid, filters[i], regex)))
    {
      var owners := if fid in tagFiles then tagFiles[fid] else map[];
      var rest := owners.Keys;
      while rest != {}
        invariant rest <= owners.Keys
        invariant forall i :: 0 <= i < |filters| ==>
          valid[i] == (old(valid[i]) || (filters[i].typ * ALLFILE != {} &&
            exists o, w :: o in owners.Keys - rest && w in owners[o] && Hits(owners[o][w].tag, filters[i], regex)))
        decreases rest
      {
        var o :| o in rest;
        var maps := owners[o];
        ghost var before := valid[..];
        for i := 0 to |filters|
          invariant forall j :: 0 <= j < |filters| ==>
            valid[j] == (before[j] || (j < i && filters[j].typ * ALLFILE != {} &&
              exists w :: w in maps && Hits(maps[w].tag, filters[j], regex)))
        {
          if filters[i].typ * ALLFILE != {} {
            var found := AnyHit(maps, (e: FileTag) => e.tag, filters[i], regex);
            if found {
              valid[i] := true;
            }
          }
        }
        rest := rest - {o};
      }
    }

    /** The store-layer pass of SearchFiles for one file: every filter becomes
        valid when some entry of the file's store answers it. */
    method StoreLayer(fid: FileID, filters: seq<Tag>, regex: (string, string) -> bool, valid: array<bool>)
      requires valid.Length == |filters|
      modifies valid
      ensures forall i :: 0 <= i < |filters| ==>
        valid[i] == (old(valid[i]) || StoreEvidence(tagStores, fid.store, filters[i], regex))
    {
      var entries := StoreScope(tagStores, fid.store);
      for i := 0 to |filters|
        invariant forall j :: 0 <= j < |filters| ==>
          valid[j] == (old(valid[j]) || (j < i && StoreEvidence(tagStores, fid.store, filters[j], regex)))
      {
        var found := AnyHit(entries, (e: StoreTag) => e.tag, filters[i], regex);
        if found {
          valid[i] := true;
        }
      }
    }

    /** SearchFiles: the files of `input` that satisfy every filter, each
        listed once. */
    method SearchFiles(input: seq<FileID>, filters: seq<Tag>, regex: (string, string) -> bool)
      returns (out: seq<FileID>, err: Option<Error>)
      ensures err == None && Distinct(out)
      ensures forall f :: f in out <==> f in input && Passes(tagStores, tagFiles, f, filters, regex)
    {
      var expectFileTag, expectStoreTag := false, false;
      for i := 0 to |filters|
        invariant expectFileTag <==> exists j :: 0 <= j < i && filters[j].typ * ALLFILE != {}
        invariant expectStoreTag <==> exists j :: 0 <= j < i && filters[j].typ * ALLSTORE != {}
      {
        if filters[i].typ * ALLFILE != {} {
          expectFileTag := true;
        }
        if filters[i].typ * ALLSTORE != {} {
          expectStoreTag := true;
        }
      }
      var matched: map<FileID, bool> := map[];
      for n := 0 to |input|
        invariant forall f :: f in matched <==> f in input[..n]
        invariant forall f :: f in matched ==> (matched[f] <==> Passes(tagStores, tagFiles, f, filters, regex))
      {
        var fid := input[n];
        var valid := new bool[|filters|](_ => false);
        if expectFileTag {
          FileLayer(fid, filters, regex, valid);
        }
        if expectStoreTag {
          StoreLayer(fid, filters, regex, valid);
        }
        var all := AllValid(valid);
        assert all <==> Passes(tagStores, tagFiles, fid, filters, regex) by {
          forall i | 0 <= i < |filters|
            ensures valid[i] <==> Satisfied(tagStores, tagFiles, fid, filters, i, regex)
          {
            assert filters[i].typ * ALLFILE != {} ==> expectFileTag;
          }
        }
        matched := matched[fid := all];
        assert input[..n + 1] == input[..n] + [fid];
      }
      assert input[..|input|] == input;
      out := [];
      var rest := matched.Keys;
      while rest != {}
        invariant rest <= matched.Keys
        invariant Distinct(out)
        invariant forall f :: f in out <==> f in matched.Keys - rest && matched[f]
        decreases rest
      {
        var f :| f in rest;
        if matched[f] {
          out := out + [f];
        }
        rest := rest - {f};
      }
      err := None;
    }

    /** SearchOwned: search among the files `oid` owns; the owned list comes
        from the file collaborator, whose failure is passed through. */
    method SearchOwned(oid: OwnerID, filters: seq<Tag>, regex: (string, string) -> bool,
                       getOwned: OwnerID -> Result<seq<FileID>>)
      returns (out: seq<FileID>, err: Option<Error>)
      ensures getOwned(oid).Failure? ==> out == [] && err == Some(getOwned(oid).error)
      ensures getOwned(oid).Success? ==>
        && err == None && Distinct(out)
        && forall f :: f in out <==> f in getOwned(oid).value && Passes(tagStores, tagFiles, f, filters, regex)
    {
      var fs := getOwned(oid);
      if fs.Failure? {
        return [], Some(fs.error);
      }
      out, err := SearchFiles(fs.value, filters, regex);
    }

    /** SearchAccess: search among the files `oid` may reach under permission
        `key`; the list comes from the file collaborator. */
    method SearchAccess(oid: OwnerID, key: string, filters: seq<Tag>, regex: (string, string) -> bool,
                        getPermKey: (OwnerID, string) -> Result<seq<FileID>>)
      returns (out: seq<FileID>, err: Option<Error>)
      ensures getPermKey(oid, key).Failure? ==> out == [] && err == Some(getPermKey(oid, key).error)
      ensures getPermKey(oid, key).Success? ==>
        && err == None && Distinct(out)
        && forall f :: f in out <==> f in getPermKey(oid, key).value && Passes(tagStores, tagFiles, f, filters, regex)
    {
      var fs := getPermKey(oid, key);
      if fs.Failure? {
        return [], Some(fs.error);
      }
      out, err := SearchFiles(fs.value, filters, regex);
    }
  }
}
