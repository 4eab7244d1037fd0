# knaxim document index core, modelled in Dafny

This project models the in-memory backend and the ingestion path of the knaxim
document index. It has five parts:

- **Tag index** (`tagbase.dfy`, module `TagIndex`). Tags are kept in two layers:
  - store-scoped tags under `TagStores[store][word]`, shared by every file on the same content;
  - file-scoped tags under `TagFiles[file][owner][word]`.

  The index is a class with both maps as fields. Each method is proved against a specification function:
  - `Upsert` and `Remove` are folds of per-tag steps.
  - `Get` is a merged view of the two layers.
  - Search uses the `Passes` predicate.

  Lemmas prove the layer invariant, frame properties and round trips.
- **Owner registry** (`ownerbase.dfy`, module `Owners`). Three namespaces (identities, user names, group names) form a two-phase state machine. A slot is absent, reserved or committed. A class invariant ties committed slots to their keys. The registry also keeps per-file space accounting over the shared file and store records.
- **Ingestion** (`ingest.dfy`, module `Ingest`):
  1. quota check;
  2. deduplication against byte-identical stored content, or reserve and insert a new store;
  3. reserve and insert the file.
- **Tokenizer** (`scan.dfy`, module `Scan`): the word split function, the scanner loop, content tags and name tags.
- **Collection-name defaults** (`collnames.dfy`, module `CollNames`).

Shared types live in `types.dfy` (`DbTypes`). The tag model lives in `tag.dfy` (`Tags`).

A tag type is a 32-bit flag word. It is represented as the set of its bit positions. `&`, `|` and `&^` become `*`, `+` and `-`, and "is zero" becomes "is empty".

The definitions of the type constants and of `Tag.Update`, `Data.FilterType`, `FileTag.StoreTag()` and `FileTag.Pure()` belong to the tag package's type file, which is not part of this model. `tag.dfy` fixes them as follows:
- ALLSTORE is bits 0-15 and ALLFILE is bits 16-31;
- CONTENT and SEARCH are store bits, and NAME is a file bit;
- `Update` ORs the types and merges the data, with the argument's values winning; the word, and for a store or file tag its identity, are taken from the argument;
- `StoreTag()` and `Pure()` keep the bits of their own group and filter the data to the categories those bits still meet;
- `FilterType` keeps the data categories that still meet the type.

Where the code and the written design disagree, the model follows the code:
- `GetType` lists a word present in both layers twice, unmerged (tagbase.go 134-161). The design describes it as "Get, restricted".
- `Get` merges with `ft.Tag.Update(st.Tag)`. With `Update` as above, store data wins on a shared key. The design says file data wins.
- `GetSpace` counts a store once per file that uses it (ownerbase.go 149-153). The design says distinct stores.

## Model

| member | source | states |
|---|---|---|
| `Tags.TypeSplits` | internal/database/memory/tagbase.go:10-22 | any type is the disjoint union of its store bits and its file bits |
| `Tags.FilterMerge` | internal/database/memory/tagbase.go:115-118 | merging data kept for one type with data kept for another is the data kept for their union |
| `Tags.FilterTwice` | internal/database/memory/tagbase.go:71-80 | keeping data for a type and then for a narrower one is keeping it for the narrower one |
| `Tags.PartsCoverType` | internal/database/memory/tagbase.go:14-18 | a tag's type is the disjoint union of its store part and its file part |
| `Tags.UpdateZero` | internal/database/memory/tagbase.go:35-40 | updating a missing (zero) entry yields the incoming tag, so creating a fresh inner map and updating the zero value agree |
| `Tags.ExactMatchIsEquality` | internal/database/memory/tagbase.go:240-244 | outside regex mode a filter accepts only its own word |
| `TagIndex.DivideTagsSpec` | internal/database/memory/tagbase.go:10-22 | a tag enters the store list exactly when its store part's type is non-empty, and the file list likewise; every listed part is well-formed and comes from an input tag |
| `TagIndex.SpanningTagGoesBothWays` | internal/database/memory/tagbase.go:13-19 | a tag whose type spans both groups contributes to both lists |
| `TagIndex.DivideTags` | internal/database/memory/tagbase.go:10-22 | the loop's output equals the specification lists of store parts and file parts, in input order |
| `TagIndex.UpsertStoreAt` | internal/database/memory/tagbase.go:34-42 | one store upsert changes exactly the part's own (store, word) slot, to the old entry updated with the part |
| `TagIndex.UpsertFileAt` | internal/database/memory/tagbase.go:43-57 | one file upsert changes exactly the part's own (file, owner, word) slot, whichever of the three branches runs |
| `TagIndex.UpsertStoresSpec` | internal/database/memory/tagbase.go:34-42 | after upserting store parts: the index stays valid, every part has an entry holding all its bits, entries only gain bits, untouched slots are unchanged |
| `TagIndex.UpsertFilesSpec` | internal/database/memory/tagbase.go:43-57 | the same four facts for the file layer |
| `TagIndex.Tagbase.Upsert` | internal/database/memory/tagbase.go:29-59 | always succeeds, keeps the index valid, and leaves both layers equal to the folds of the divided parts |
| `TagIndex.Tagbase.UpsertStoreLayer` | internal/database/memory/tagbase.go:34-42 | the store loop computes the store-layer fold and leaves the file layer alone |
| `TagIndex.Tagbase.UpsertFileLayer` | internal/database/memory/tagbase.go:43-57 | the file loop computes the file-layer fold and leaves the store layer alone |
| `TagIndex.RemoveStoreAt` | internal/database/memory/tagbase.go:66-84 | one store removal changes only its own slot: the entry is deleted when no bit remains and otherwise keeps the remaining bits with filtered data; no store key is dropped |
| `TagIndex.RemoveFileAt` | internal/database/memory/tagbase.go:85-103 | the same for the file layer, with no file key dropped |
| `TagIndex.RemoveStoresValid` | internal/database/memory/tagbase.go:66-84 | removing store parts keeps the store layer valid |
| `TagIndex.RemoveStoresFrame` | internal/database/memory/tagbase.go:66-84 | removing store parts keeps every store key and leaves untouched slots unchanged |
| `TagIndex.RemoveStoresShrinks` | internal/database/memory/tagbase.go:66-84 | every surviving entry existed before, under the same identity and word, with a subset of its bits |
| `TagIndex.RemoveStoresClears` | internal/database/memory/tagbase.go:66-84 | no entry under a removed (store, word) keeps any removed bit |
| `TagIndex.RemoveStoresSpec` | internal/database/memory/tagbase.go:66-84 | the four store-layer removal facts together |
| `TagIndex.RemoveFilesValid` | internal/database/memory/tagbase.go:85-103 | removing file parts keeps the file layer valid |
| `TagIndex.RemoveFilesFrame` | internal/database/memory/tagbase.go:85-103 | removing file parts keeps every file key and leaves untouched slots unchanged |
| `TagIndex.RemoveFilesShrinks` | internal/database/memory/tagbase.go:85-103 | every surviving file entry existed before, with a subset of its bits |
| `TagIndex.RemoveFilesClears` | internal/database/memory/tagbase.go:85-103 | no entry under a removed (file, owner, word) keeps any removed bit |
| `TagIndex.RemoveFilesSpec` | internal/database/memory/tagbase.go:85-103 | the four file-layer removal facts together |
| `TagIndex.ClearToEmptyDeletes` | internal/database/memory/tagbase.go:69-70 | removing a type that covers the entry's whole type deletes the entry |
| `TagIndex.PartialClearRetainsRemainder` | internal/database/memory/tagbase.go:71-80 | upserting a fresh A-or-B entry and removing A leaves type B with data filtered to B |
| `TagIndex.RemoveAbsentIsNoOp` | internal/database/memory/tagbase.go:67-68 | removing a part whose slot is empty changes neither layer |
| `TagIndex.Tagbase.Remove` | internal/database/memory/tagbase.go:61-105 | always succeeds, keeps the index valid, and leaves both layers equal to the removal folds of the divided parts |
| `TagIndex.Tagbase.RemoveStoreLayer` | internal/database/memory/tagbase.go:66-84 | the store loop computes the store-layer removal fold |
| `TagIndex.Tagbase.RemoveFileLayer` | internal/database/memory/tagbase.go:85-103 | the file loop computes the file-layer removal fold |
| `TagIndex.MergedViewLayers` | internal/database/memory/tagbase.go:111-130 | in a valid index the merged view has one entry per word of either layer, filed under the asked file, owner and word; its type is the union of the layers' types, and a store-only word carries the store tag |
| `TagIndex.UpsertThenGet` | internal/database/memory/tagbase.go:113-130 | after upserting a tag, its word appears in the merged view of its own file and owner with at least all its bits |
| `TagIndex.UpsertThenGetFresh` | internal/database/memory/tagbase.go:30-59 | for a word neither layer holds yet, upserting a tag with a non-empty type makes the merged view's entry that tag under its own file and owner, with its whole type and its data kept for that type |
| `TagIndex.ClearThenGetOmits` | internal/database/memory/tagbase.go:62-105 | removing a tag whose type covers every bit both layers hold for its word drops the word from the merged view |
| `TagIndex.PartialClearThenGet` | internal/database/memory/tagbase.go:62-105 | upserting a fresh A-or-B tag and then removing A leaves a merged-view entry of type B whose data is the tag's data kept for B |
| `TagIndex.ViewAt` | internal/database/memory/tagbase.go:108-132 | the merged view holds a word iff either layer does; both layers give the file entry updated by the store entry, the file layer alone gives the file entry, the store layer alone gives the store tag filed under the asked file and owner |
| `TagIndex.PartsShowWhole` | internal/database/memory/tagbase.go:108-132 | a tag whose store part and file part sit in the two layers reads back whole through the merged view |
| `TagIndex.MergedEntryOfBoth` | internal/database/memory/tagbase.go:115-118 | a word both layers hold keeps the file entry's file and owner, has the union of the two types, takes the store's value on every data key both carry and keeps the file's value on the others |
| `TagIndex.ListFileWords` | internal/database/memory/tagbase.go:115-121 | the first loop lists each file word once, as its merged entry, and marks exactly the file words as seen |
| `TagIndex.ListStoreWords` | internal/database/memory/tagbase.go:122-130 | the second loop adds each store word not seen, so every word of either layer is listed exactly once |
| `TagIndex.ListedIsView` | internal/database/memory/tagbase.go:113-130 | a listing of merged entries indexed by every word of both layers lists the view with no word twice |
| `TagIndex.Tagbase.Get` | internal/database/memory/tagbase.go:107-132 | returns exactly one entry per word of the union of the two layers, each equal to the merged view's entry |
| `TagIndex.FileHits` | internal/database/memory/tagbase.go:140-144 | lists exactly the pair's file entries whose type meets the mask, each once |
| `TagIndex.StoreHits` | internal/database/memory/tagbase.go:149-157 | lists exactly the store entries whose type meets the mask, under the asked file and owner, each once |
| `TagIndex.Tagbase.GetType` | internal/database/memory/tagbase.go:134-161 | a tag is returned exactly when it is a file entry meeting the mask and the mask has a file bit, or a store entry meeting the mask and the mask has a store bit; nothing is listed twice |
| `TagIndex.Tagbase.GetAll` | internal/database/memory/tagbase.go:163-177 | returns exactly the file-scoped entries of the owner, across all files, that meet the mask, each once |
| `TagIndex.AnyHit` | internal/database/memory/tagbase.go:231-247 | true exactly when some entry of the scanned layer shares a bit with the filter and its word matches; the file loop and the store loop (lines 255-271) are this one scan over their own entry type |
| `TagIndex.AllValid` | internal/database/memory/tagbase.go:274-281 | true exactly when every filter flag is set |
| `TagIndex.Tagbase.FileLayer` | internal/database/memory/tagbase.go:225-251 | sets a filter's flag exactly when the filter has a file bit and some owner's entry on the file answers it; other flags are kept |
| `TagIndex.Tagbase.StoreLayer` | internal/database/memory/tagbase.go:252-273 | sets a filter's flag exactly when some entry of the file's store answers it |
| `TagIndex.Tagbase.SearchFiles` | internal/database/memory/tagbase.go:209-290 | a file is returned exactly when it is in the input and satisfies every filter; no file is returned twice |
| `TagIndex.PassesIsConjunction` | internal/database/memory/tagbase.go:223-282 | in a valid index, passing the search is the conjunction of the filters, each checked independently in the layers its type targets |
| `TagIndex.SearchIsAnd` | internal/database/memory/tagbase.go:274-281 | adding a second filter narrows the result to files satisfying both |
| `TagIndex.Tagbase.SearchOwned` | internal/database/memory/tagbase.go:179-192 | a failing owned-file lookup is passed through with no result; otherwise it searches exactly the owned files |
| `TagIndex.Tagbase.SearchAccess` | internal/database/memory/tagbase.go:194-207 | a failing permission lookup is passed through; otherwise it searches exactly the accessible files |
| `Owners.Ownerbase.Reserve` | internal/database/memory/ownerbase.go:12-41 | an unknown kind is a 500 error and a taken name is NameTaken, both with no change; otherwise the first free mutation of the identity is claimed, and both slots hold placeholders |
| `Owners.Ownerbase.Insert` | internal/database/memory/ownerbase.go:43-76 | IDNotReserved for an absent identity or name slot, NameTaken for a committed one, with nothing written; on success both slots hold the owner and the invariant holds |
| `Owners.Ownerbase.Get` | internal/database/memory/ownerbase.go:78-85 | succeeds exactly for a committed identity and returns the owner with that identity; otherwise NotFound |
| `Owners.Ownerbase.FindUserName` | internal/database/memory/ownerbase.go:87-94 | succeeds exactly for a committed user name and returns the user of that name; otherwise NotFound |
| `Owners.Ownerbase.FindGroupName` | internal/database/memory/ownerbase.go:96-103 | succeeds exactly for a committed group name and returns the group of that name; otherwise NotFound |
| `Owners.IsMember` | internal/database/memory/ownerbase.go:114-119 | true exactly when the identity is among the members |
| `Owners.Ownerbase.GetGroups` | internal/database/memory/ownerbase.go:105-122 | owned lists exactly the committed groups the identity administers; member lists exactly the others that count it as a member; neither lists a group twice |
| `Owners.Ownerbase.GetGroupsAsWritten` | internal/database/memory/ownerbase.go:108-120 | the walk stops exactly when some group name is still a placeholder; otherwise it returns what `GetGroups` does; neither list repeats a group |
| `Owners.ReservedGroupStopsGetGroups` | internal/database/memory/ownerbase.go:12-41 | reserving a free group name succeeds, and the as-written group walk run right after it stops on the placeholder |
| `Owners.Ownerbase.Update` | internal/database/memory/ownerbase.go:124-140 | NotFound with no change unless the identity is committed; otherwise the identity slot and the current name's slot hold the new owner |
| `Owners.SpaceOfRemove` | internal/database/memory/ownerbase.go:149-153 | the per-file sum may take any file out first |
| `Owners.SpaceOfFrame` | internal/database/memory/ownerbase.go:149-153 | the sum depends only on the file records it ranges over |
| `Owners.SpaceOfStores` | internal/database/memory/ownerbase.go:149-153 | the sum depends on the store records only through what each counted file is charged |
| `Owners.SpaceAddFile` | internal/database/memory/ownerbase.go:149-153 | recording a new file adds exactly what that file charges its owner |
| `Owners.SpaceWithoutFiles` | internal/database/memory/ownerbase.go:148-154 | an owner with no files is charged nothing |
| `Owners.Ownerbase.GetSpace` | internal/database/memory/ownerbase.go:142-155 | NotFound unless committed; otherwise the sum, over every file the owner has, of its store's size |
| `Owners.Ownerbase.GetTotalSpace` | internal/database/memory/ownerbase.go:157-167 | NotFound unless committed; otherwise 50 MiB for a user and 0 for a group |
| `Ingest.FirstIdentical` | internal/database/process/filereading.go:57-63 | the chosen candidate has identical bytes and no earlier candidate does; none is chosen only when no candidate is identical |
| `Ingest.FindIdentical` | internal/database/process/filereading.go:56-63 | the scan finds the first byte-identical candidate |
| `Ingest.FirstIsUnique` | internal/database/process/filereading.go:57-62 | the first identical candidate is determined by its position |
| `Ingest.File.SetID` | internal/database/process/filereading.go:82 | sets the file's identity and keeps its owner |
| `Ingest.ResolveStore` | internal/database/process/filereading.go:52-73 | the resolved store always carries the uploaded bytes, and a failing hash lookup is passed through |
| `Ingest.StoreContent` | internal/database/process/filereading.go:52-73 | the store step yields exactly the resolved store or the first failing collaborator's error, records only a newly reserved store, and leaves the files and the owner registry alone |
| `Ingest.IngestCharge` | internal/database/process/filereading.go:74-89 | recording a new file on a store, already recorded or recorded just now with a fresh identity, makes its owner's space the space before (over the old stores) plus that store's size |
| `Ingest.IngestSpace` | internal/database/process/filereading.go:34-89 | when the collaborators agree with the database, an ingestion charges its owner exactly the resolved store's size, and a deduplicated store has the upload's size |
| `Ingest.InjestFile` | internal/database/process/filereading.go:14-89 | every outcome is fixed by the collaborators' answers: a read failure, an uncommitted owner and exceeding the quota abort with their error and nothing written; within quota, including exactly at it, the first failing store or file step gives that step's error and writes nothing itself, and when every step succeeds the call succeeds; the first identical stored copy is reused with no store written, otherwise the reserved store is inserted; the file gets the identity reserved on the resolved store and is recorded; a new file adds that store's size to its owner's space; when the collaborators agree with the database, the owner's space after the call is the space before it (over the old stores) plus the resolved store's size, and stays within the quota |
| `CollNames.InitColl` | internal/database/mongo/database.go:296-334 | the result is the input (a missing table reading as empty) with every default collection not configured named after itself |
| `CollNames.ExtendsStep` | internal/database/mongo/database.go:299-301 | one conditional default insert keeps configured names and names the new key after itself |
| `CollNames.FilledByDefaults` | internal/database/mongo/database.go:296-334 | a table that extends the input by exactly the defaults, each under its own name, is the filled table |
| `CollNames.FilledNamesEverything` | internal/database/mongo/database.go:296-334 | every default is named, configured names are kept, and no other key is added |
| `CollNames.FilledIdempotent` | internal/database/mongo/database.go:296-334 | filling twice gives the same table as filling once |
| `Scan.LowerKeepsChar` | internal/database/types/tag/scan.go:12-23 | lower-casing maps exactly the letters and digits onto lower-case letters and digits |
| `Scan.SplitWord` | internal/database/types/tag/scan.go:26-44 | never advances past the buffer, and a token always advances |
| `Scan.SplitWordSpec` | internal/database/types/tag/scan.go:26-44 | a token is the lower-cased first maximal run of letters and digits, and the advance is its end; a run reaching the buffer's end is a token only at end of input and otherwise waits; a buffer with no letter or digit is consumed whole with no token |
| `Scan.ScanWords` | internal/database/types/tag/scan.go:26-44 | the loop returns what the split specification prescribes |
| `Scan.ScanText` | internal/database/types/tag/scan.go:50-53 | driving the split function to the end of input yields the specification's word sequence |
| `Scan.ScanAllWordsAreLower` | internal/database/types/tag/scan.go:53-54 | every scanned word is non-empty and made of lower-case letters and digits |
| `Scan.NoCharNoWords` | internal/database/types/tag/scan.go:37-38 | input without letters or digits yields no word |
| `Scan.DedupSpec` | internal/database/types/tag/scan.go:82-92 | first-occurrence de-duplication keeps every word, adds none, repeats none, and lists the words in the order of their first occurrences |
| `Scan.CacheWords` | internal/database/types/tag/scan.go:52-60 | the cache holds exactly the scanned words, each mapped to its own tag of the requested type |
| `Scan.CacheValues` | internal/database/types/tag/scan.go:66-69 | returns every cached tag and nothing else, as many as the cache holds, so none twice |
| `Scan.ExtractContentTags` | internal/database/types/tag/scan.go:47-71 | one CONTENT tag per distinct scanned word: every tag's word was scanned, every scanned word has a tag, and no word has two |
| `Scan.BuildNameTags` | internal/database/types/tag/scan.go:74-95 | the whole name first, then one NAME tag per distinct scanned word, in first-occurrence order |

## Left out

- Locking is not modelled. Every operation is atomic. This includes the read lock that `SearchOwned` and `SearchAccess` take again inside `SearchFiles`.
- Identities are map keys directly. Their string encodings and `DecodeFileID` are taken to be injective and inverse.
- Regular-expression matching is a parameter, and a compile failure reads as no match. `Owner.Copy()` is the identity on values.
- The owned-file and permission lookups behind `SearchOwned` and `SearchAccess` are parameters, as are the answers of the store and file collaborators in ingestion.
- `OwnerID.Mutate()` is a parameter acting on the payload only, so the kind byte is kept.
- Owners.Ownerbase.Reserve: a reservation that gets past the name check requires some mutation of the candidate to be free. Without one, the source's identity search loops forever; calls with a taken name or an unknown kind need nothing.
- Results built by iterating a Go map come in unspecified order. The contracts say which elements appear, not their order.
- Go integers are unbounded here. The `int64` space total is not checked for overflow.
- The memory database's map types are not part of this model, so a file whose store is missing counts 0 in `GetSpace`.
- The source's `default:` branches for an owner that is neither user nor group cannot arise, because `Owner` has only those two constructors.
- Ingest.InjestFile:
  - Reading and hashing the upload (`NewFileStore`) is an input result.
  - The panic/recover plumbing becomes early returns, and every collaborator error is passed through unchanged. Wrapping of non-server errors is not modelled.
  - A store inserted before a failing file step is kept, as in the source; nothing is rolled back.
  - The exact charge and the quota bound after the call are stated only when `CollaboratorsAgree` holds. That means every recorded file's store is recorded, `newFileID` keeps the store it is given, and a file reservation keeps the store and yields an unrecorded identity. It also means a store reservation yields an unrecorded identity and every hash match is a recorded store whose size is its content's length. The quota bound also needs the upload's size to be its content's length. The source checks the quota against the upload's size but charges the resolved store's size.
- Scan.ScanText:
  - The input is delivered as one chunk at end of input. Chunked reads and the scanner's 64 KiB token limit are not modelled.
  - I/O errors are not modelled, so `ExtractContentTags` and `BuildNameTags` have no error result.
- TagIndex.UpsertThenGet: for a word a layer already holds, only the type is stated: the view's type contains the tag's type. The data is not stated, because the view merges with `Update` and the store entry's value wins on a shared key (internal/database/memory/tagbase.go:116), so an older store value can hide the tag's value. `TagIndex.UpsertThenGetFresh` states the data for a fresh word.
- Tags.UpdateZero, TagIndex.UpsertStoreAt, TagIndex.UpsertFileAt: these rest on the chosen `Update`, which takes the word and identity from its argument. Updating the zero value therefore yields the incoming tag, and upserted entries stay filed under their own key. The store and file parts also filter their data to the bits they keep. Both choices are assumptions about definitions outside this model.
- The Mongo driver code around `initcoll` is outside this model.

## Findings

| source | as written | input that shows it | evidently intended | confidence | as-written member | corrected member |
|---|---|---|---|---|---|---|
| internal/database/memory/ownerbase.go:109-110 | `GetGroups` walks every group-name slot and calls `GetOwner()` on its value. | Reserve a group name (`Reserve(OwnerID('g', p), "team")`) and then call `GetGroups` for any identity before `Insert`. The `"team"` slot holds the nil placeholder, and the call dereferences it (`Owners.ReservedGroupStopsGetGroups`). | Skip reserved placeholders, as `Get`, `FindUserName` and `FindGroupName` do. | medium, not executed | `Owners.Ownerbase.GetGroupsAsWritten` | `Owners.Ownerbase.GetGroups` |
