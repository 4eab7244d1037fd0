/** The tag model: a word with a bit-flagged type and per-type data.
    A tag is attached either to content (a `StoreTag`) or to one (file, owner)
    pair (a `FileTag`). The reserved groups ALLSTORE and ALLFILE partition the
    type bits into the two scopes.

    A type is a 32-bit flag word; it is represented by the set of its bit
    positions that are on, so that `&`, `|`, `&^` and "is zero" become set
    intersection, union, difference and emptiness.

    The bit positions of the type constants and the bodies of `Update`,
    `FilterType`, `StoreTag()` and `Pure()` belong to the tag package's type
    definitions, which are not part of this model. The definitions below fix
    them as follows, and the rest of the model relies only on these facts:
    `Update` ORs the types and merges the data, `StorePart` keeps only the
    ALLSTORE bits, `FilePart` keeps only the ALLFILE bits, and `FilterType`
    keeps the data categories that still intersect the given type. */
module Tags {
  import opened DbTypes

  /** A bit position of the 32-bit type word. */
  type Bit = i: int | 0 <= i < 32

  /** A tag type: the set of bits that are on. The empty set is the zero type. */
  type TagType = set<Bit>

  const CONTENT: TagType := {0}
  const SEARCH: TagType := {1}
  const ALLSTORE: TagType := set i: Bit | 0 <= i < 16
  const NAME: TagType := {16}
  const ALLFILE: TagType := set i: Bit | 16 <= i < 32

  /** The groups partition the bit space, and each named flag sits in one. */
  lemma GroupsPartition()
    ensures ALLSTORE * ALLFILE == {}
    ensures forall b: Bit :: b in ALLSTORE + ALLFILE
    ensures CONTENT <= ALLSTORE && SEARCH <= ALLSTORE && NAME <= ALLFILE
  {
    assert 0 in ALLSTORE && 1 in ALLSTORE && 16 in ALLFILE;
  }

  /** A data value; the source stores arbitrary values, of which only the
      boolean `true` is ever inspected. */
  datatype Value = BoolValue(b: bool) | StringValue(s: string) | IntValue(i: int)

  /** Per-type data: type to key to value. */
  type Data = map<TagType, map<string, Value>>

  datatype Tag = Tag(word: string, typ: TagType, data: Data)

  datatype StoreTag = StoreTag(store: StoreID, tag: Tag)

  datatype FileTag = FileTag(file: FileID, owner: OwnerID, tag: Tag)

  /** The zero values a missing map entry reads as. */
  const ZeroTag: Tag := Tag("", {}, map[])
  const ZeroStoreTag: StoreTag := StoreTag(StoreID(0, 0), ZeroTag)
  const ZeroFileTag: FileTag := FileTag(FileID(StoreID(0, 0), 0), OwnerID(0 as char, 0), ZeroTag)

  /** The category map of `d` at `k`, empty when absent. */
  function CategoryOf(d: Data, k: TagType): map<string, Value>
  {
    if k in d then d[k] else map[]
  }

  /** Union of data, per category and per key; `b` wins on a shared key. */
  function MergeData(a: Data, b: Data): Data
  {
    map k | k in a.Keys + b.Keys :: CategoryOf(a, k) + CategoryOf(b, k)
  }

  lemma MergeIntoEmpty(d: Data)
    ensures MergeData(map[], d) == d
  {
    var z: Data := map[];
    var m := MergeData(z, d);
    forall k | k in d
      ensures m[k] == d[k]
    {
      var e: map<string, Value> := map[];
      assert k in z.Keys + d.Keys;
      assert m[k] == CategoryOf(z, k) + CategoryOf(d, k);
      assert CategoryOf(z, k) == e && CategoryOf(d, k) == d[k];
      assert e + d[k] == d[k];
    }
    assert m.Keys == d.Keys;
  }

  /** Data restricted to the categories that intersect `t`. */
  function FilterType(d: Data, t: TagType): Data
  {
    map k | k in d && k * t != {} :: d[k]
  }

  /** Tag.Update: union of the types and of the data. */
  function Update(t: Tag, n: Tag): Tag
  {
    Tag(n.word, t.typ + n.typ, MergeData(t.data, n.data))
  }

  function UpdateStore(e: StoreTag, n: StoreTag): StoreTag
  {
    StoreTag(n.store, Update(e.tag, n.tag))
  }

  function UpdateFile(e: FileTag, n: FileTag): FileTag
  {
    FileTag(n.file, n.owner, Update(e.tag, n.tag))
  }

  /** Updating the zero value yields the incoming tag itself. */
  lemma UpdateZero(n: Tag)
    ensures Update(ZeroTag, n) == n
  {
    MergeIntoEmpty(n.data);
    assert {} + n.typ == n.typ;
  }

  /** The bits of `a` that are not in `b` (Go's `a &^ b`). */
  function AndNot(a: TagType, b: TagType): TagType
  {
    a - b
  }

  /** `b` holds every bit of `a`. */
  predicate Covers(a: TagType, b: TagType)
  {
    a <= b
  }

  /** FileTag.StoreTag(): the store-scoped part of a tag. */
  function StorePart(ft: FileTag): StoreTag
  {
    var typ := ft.tag.typ * ALLSTORE;
    StoreTag(ft.file.store, Tag(ft.tag.word, typ, FilterType(ft.tag.data, typ)))
  }

  /** FileTag.Pure(): the file-scoped part of a tag. */
  function FilePart(ft: FileTag): FileTag
  {
    var typ := ft.tag.typ * ALLFILE;
    FileTag(ft.file, ft.owner, Tag(ft.tag.word, typ, FilterType(ft.tag.data, typ)))
  }

  /** A tag's type is the disjoint union of its two parts. */
  lemma PartsCoverType(ft: FileTag)
    ensures StorePart(ft).tag.typ + FilePart(ft).tag.typ == ft.tag.typ
    ensures StorePart(ft).tag.typ * FilePart(ft).tag.typ == {}
  {
    GroupsPartition();
    var s, f := StorePart(ft).tag.typ, FilePart(ft).tag.typ;
    forall b | b in ft.tag.typ
      ensures b in s + f
    {
      assert b in ALLSTORE + ALLFILE;
    }
  }

  /** Any type is the disjoint union of its store bits and its file bits. */
  lemma TypeSplits(x: TagType)
    ensures x * ALLSTORE + x * ALLFILE == x
    ensures (x * ALLSTORE) * (x * ALLFILE) == {}
  {
    GroupsPartition();
    forall b | b in x
      ensures b in x * ALLSTORE + x * ALLFILE
    {
      assert b in ALLSTORE + ALLFILE;
    }
  }

  /** Filtering by two types and merging the results is filtering by their
      union. */
  lemma FilterMerge(d: Data, a: TagType, b: TagType)
    ensures MergeData(FilterType(d, a), FilterType(d, b)) == FilterType(d, a + b)
  {
    var da, db := FilterType(d, a), FilterType(d, b);
    var l, r := MergeData(da, db), FilterType(d, a + b);
    forall k
      ensures k in l <==> k in r
    {
      assert k * (a + b) == k * a + k * b;
    }
    forall k | k in r
      ensures l[k] == r[k]
    {
      var e: map<string, Value> := map[];
      if k in da && k in db {
        assert d[k] + d[k] == d[k];
      } else if k in da {
        assert CategoryOf(db, k) == e && d[k] + e == d[k];
      } else {
        assert CategoryOf(da, k) == e && e + d[k] == d[k];
      }
    }
  }

  /** Filtering by a narrower type after a wider one is filtering by the
      narrower one. */
  lemma FilterTwice(d: Data, x: TagType, y: TagType)
    requires y <= x
    ensures FilterType(FilterType(d, x), y) == FilterType(d, y)
  {
    forall k | k * y != {}
      ensures k * x != {}
    {
      var b :| b in k * y;
      assert b in k * x;
    }
  }

  /** Regex mode: the filter has the SEARCH bit and `Data[SEARCH]["regex"]`
      holds the boolean true. */
  predicate IsRegex(t: Tag)
  {
    && t.typ * SEARCH != {}
    && SEARCH in t.data
    && "regex" in t.data[SEARCH]
    && t.data[SEARCH]["regex"] == BoolValue(true)
  }

  /** Whether filter `t` accepts the stored word `w`: regular-expression
      matching through `regex` in regex mode, string equality otherwise. */
  predicate WordMatches(t: Tag, w: string, regex: (string, string) -> bool)
  {
    if IsRegex(t) then regex(t.word, w) else t.word == w
  }

  /** Outside regex mode a filter matches only its own word. */
  lemma ExactMatchIsEquality(t: Tag, w: string, regex: (string, string) -> bool)
    requires !IsRegex(t)
    ensures WordMatches(t, w, regex) <==> t.word == w
  {
  }
}
