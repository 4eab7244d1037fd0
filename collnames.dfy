/** The collection-name table of the document database backend: a map from
    a logical collection to the collection name used in the database, with
    every logical collection the backend uses defaulting to its own name. */
module CollNames {
  import opened DbTypes

  /** The logical collections the backend uses, in the order they are filled. */
  const ORDER: seq<string> :=
    ["user", "group", "file", "store", "lines", "chunk", "filetags", "storetags", "acronym", "reset", "view"]

  const DEFAULTS: set<string> := set k | k in ORDER

  /** The table with every default filled in: a configured name is kept, a
      missing one is the key itself. */
  function Filled(c: map<string, string>): map<string, string>
  {
    map k | k in c.Keys + DEFAULTS :: if k in c then c[k] else k
  }

  /** `r` is `c` with the keys of `added` given their own names where `c`
      does not configure them. */
  ghost predicate Extends(c: map<string, string>, r: map<string, string>, added: set<string>)
  {
    && r.Keys == c.Keys + added
    && (forall j :: j in c ==> r[j] == c[j])
    && (forall j :: j in r && j !in c ==> r[j] == j)
  }

  /** Giving one more key its default keeps `Extends`. */
  lemma ExtendsStep(c: map<string, string>, r: map<string, string>, k: string, added: set<string>)
    requires Extends(c, r, added)
    ensures Extends(c, if k in r then r else r[k := k], added + {k})
  {
  }

  /** initcoll: allocate the table when there is none, then give every
      default collection that is not configured its own name. The source
      spells out one conditional insert per default; here they run in the
      same order from `ORDER`. */
  method InitColl(c: Option<map<string, string>>) returns (r: map<string, string>)
    ensures c.Some? ==> r == Filled(c.value)
    ensures c.None? ==> r == Filled(map[])
  {
    r := if c.None? then map[] else c.value;
    ghost var c0 := r;
    for i := 0 to |ORDER|
      invariant Extends(c0, r, set k | k in ORDER[..i])
    {
      ExtendsStep(c0, r, ORDER[i], set k | k in ORDER[..i]);
      assert ORDER[..i + 1] == ORDER[..i] + [ORDER[i]];
      if ORDER[i] !in r {
        r := r[ORDER[i] := ORDER[i]];
      }
    }
    assert ORDER[..|ORDER|] == ORDER;
    FilledByDefaults(c0, r);
  }

  /** A table that extends `c` with exactly the defaults, each missing one
      under its own name, is `Filled(c)`. */
  lemma FilledByDefaults(c: map<string, string>, r: map<string, string>)
    requires r.Keys == c.Keys + DEFAULTS
    requires forall j :: j in c ==> r[j] == c[j]
    requires forall j :: j in r && j !in c ==> r[j] == j
    ensures r == Filled(c)
  {
  }

  /** Every default collection is named, configured names are kept, and no
      other key is added. */
  lemma FilledNamesEverything(c: map<string, string>)
    ensures forall d :: d in DEFAULTS ==> d in Filled(c)
    ensures forall k :: k in c ==> k in Filled(c) && Filled(c)[k] == c[k]
    ensures forall k :: k in Filled(c) ==> k in c || k in DEFAULTS
    ensures forall d :: d in DEFAULTS && d !in c ==> Filled(c)[d] == d
  {
  }

  /** Filling twice gives the table filling once gives. */
  lemma FilledIdempotent(c: map<string, string>)
    ensures Filled(Filled(c)) == Filled(c)
  {
    var f := Filled(c);
    assert Filled(f).Keys == f.Keys;
    forall k | k in f
      ensures Filled(f)[k] == f[k]
    {
    }
  }
}
