/** The owner registry of the in-memory backend: a two-phase reservation
    state machine over three namespaces (owner identities, user names and
    group names), plus the space accounting that reads the shared file and
    store maps.

    Each slot of a namespace is absent, reserved (the nil placeholder that
    `Reserve` writes) or committed (holding an owner). */
module Owners {
  import opened DbTypes

  /** A registered owner. A group names the owner that administers it and
      the identities of its members. */
  datatype Owner =
    | User(id: OwnerID, name: string)
    | Group(id: OwnerID, name: string, ownedBy: OwnerID, members: seq<OwnerID>)

  datatype Slot = Reserved | Committed(owner: Owner)

  /** The quota of a user, 50 MiB (`50 << 20`). Groups have none. */
  const USER_QUOTA: nat := 50 * 1024 * 1024

  // ---------------------------------------------------------------------
  // Identity mutation
  // ---------------------------------------------------------------------

  /** The payload after `k` applications of the mutation. */
  function Iterate(mutate: nat -> nat, p: nat, k: nat): nat
  {
    if k == 0 then p else mutate(Iterate(mutate, p, k - 1))
  }

  /** `id` mutated `k` times; the kind byte is kept. */
  function Mutated(id: OwnerID, mutate: nat -> nat, k: nat): (r: OwnerID)
    ensures r.kind == id.kind
  {
    OwnerID(id.kind, Iterate(mutate, id.payload, k))
  }

  // ---------------------------------------------------------------------
  // Space accounting
  // ---------------------------------------------------------------------

  /** The size of a store, zero when the store is not recorded. */
  function StoreSize(stores: map<StoreID, FileStore>, s: StoreID): nat
  {
    if s in stores then stores[s].fileSize else 0
  }

  /** What one file record charges owner `o`. */
  function Charge(r: FileRecord, stores: map<StoreID, FileStore>, o: OwnerID): nat
  {
    if r.owner == o then StoreSize(stores, r.id.store) else 0
  }

  /** The space charged to `o` by the files under `keys`, counted per file:
      two files on one store both count the store's size. */
  ghost function SpaceOf(keys: set<FileID>, files: map<FileID, FileRecord>, stores: map<StoreID, FileStore>, o: OwnerID): nat
    requires keys <= files.Keys
    decreases keys
  {
    if keys == {} then 0
    else
      var f :| f in keys;
      Charge(files[f], stores, o) + SpaceOf(keys - {f}, files, stores, o)
  }

  /** Any file of `keys` may be taken out first. */
  lemma {:induction false} SpaceOfRemove(keys: set<FileID>, files: map<FileID, FileRecord>, stores: map<StoreID, FileStore>, o: OwnerID, x: FileID)
    requires keys <= files.Keys && x in keys
    ensures SpaceOf(keys, files, stores, o) == Charge(files[x], stores, o) + SpaceOf(keys - {x}, files, stores, o)
    decreases keys
  {
    var y :| y in keys && SpaceOf(keys, files, stores, o) == Charge(files[y], stores, o) + SpaceOf(keys - {y}, files, stores, o);
    if y != x {
      SpaceOfRemove(keys - {y}, files, stores, o, x);
      SpaceOfRemove(keys - {x}, files, stores, o, y);
      assert keys - {y} - {x} == keys - {x} - {y};
    }
  }

  /** The space depends only on the records under `keys`. */
  lemma {:induction false} SpaceOfFrame(keys: set<FileID>, f1: map<FileID, FileRecord>, f2: map<FileID, FileRecord>, stores: map<StoreID, FileStore>, o: OwnerID)
    requires keys <= f1.Keys && keys <= f2.Keys
    requires forall k :: k in keys ==> f1[k] == f2[k]
    ensures SpaceOf(keys, f1, stores, o) == SpaceOf(keys, f2, stores, o)
    decreases keys
  {
    if keys != {} {
      var f :| f in keys && SpaceOf(keys, f1, stores, o) == Charge(f1[f], stores, o) + SpaceOf(keys - {f}, f1, stores, o);
      SpaceOfFrame(keys - {f}, f1, f2, stores, o);
      SpaceOfRemove(keys, f2, stores, o, f);
    }
  }

  /** The space depends on the stores only through what each file under
      `keys` is charged. */
  lemma {:induction false} SpaceOfStores(keys: set<FileID>, files: map<FileID, FileRecord>, s1: map<StoreID, FileStore>, s2: map<StoreID, FileStore>, o: OwnerID)
    requires keys <= files.Keys
    requires forall k :: k in keys ==> Charge(files[k], s1, o) == Charge(files[k], s2, o)
    ensures SpaceOf(keys, files, s1, o) == SpaceOf(keys, files, s2, o)
    decreases keys
  {
    if keys != {} {
      var f :| f in keys && SpaceOf(keys, files, s1, o) == Charge(files[f], s1, o) + SpaceOf(keys - {f}, files, s1, o);
      SpaceOfStores(keys - {f}, files, s1, s2, o);
      SpaceOfRemove(keys, files, s2, o, f);
    }
  }

  /** Recording a new file adds exactly what that file charges. */
  lemma SpaceAddFile(files: map<FileID, FileRecord>, stores: map<StoreID, FileStore>, o: OwnerID, f: FileID, r: FileRecord)
    requires f !in files
    ensures SpaceOf(files[f := r].Keys, files[f := r], stores, o)
         == SpaceOf(files.Keys, files, stores, o) + Charge(r, stores, o)
  {
    var g := files[f := r];
    SpaceOfRemove(g.Keys, g, stores, o, f);
    assert g.Keys - {f} == files.Keys;
    SpaceOfFrame(files.Keys, g, files, stores, o);
  }

  /** An owner with no file is charged nothing. */
  lemma {:induction false} SpaceWithoutFiles(keys: set<FileID>, files: map<FileID, FileRecord>, stores: map<StoreID, FileStore>, o: OwnerID)
    requires keys <= files.Keys
    requires forall k :: k in keys ==> files[k].owner != o
    ensures SpaceOf(keys, files, stores, o) == 0
    decreases keys
  {
    if keys != {} {
      var f :| f in keys;
      SpaceOfRemove(keys, files, stores, o, f);
      SpaceWithoutFiles(keys - {f}, files, stores, o);
    }
  }

  /** The invariant of the namespaces: a committed identity slot holds the
      owner with that identity; a committed user-name slot holds the user of
      that name; a committed group-name slot holds the group of that name. */
  ghost predicate Consistent(ids: map<OwnerID, Slot>, userNames: map<string, Slot>, groupNames: map<string, Slot>)
  {
    && (forall k :: k in ids && ids[k].Committed? ==> ids[k].owner.id == k)
    && (forall n :: n in userNames && userNames[n].Committed? ==> userNames[n].owner.User? && userNames[n].owner.name == n)
    && (forall n :: n in groupNames && groupNames[n].Committed? ==> groupNames[n].owner.Group? && groupNames[n].owner.name == n)
  }

  /** Group `g` is committed under its own name. */
  predicate Registered(groupNames: map<string, Slot>, g: Owner)
  {
    g.Group? && g.name in groupNames && groupNames[g.name] == Committed(g)
  }

  /** Some group name is still a reserved placeholder. */
  predicate HasReservedGroup(groupNames: map<string, Slot>)
  {
    exists n :: n in groupNames && groupNames[n] == Reserved
  }

  /** Whether `id` is listed among `members`. */
  method IsMember(members: seq<OwnerID>, id: OwnerID) returns (found: bool)
    ensures found <==> id in members
  {
    for i := 0 to |members|
      invariant id !in members[..i]
    {
      if members[i] == id {
        return true;
      }
    }
    assert members[..|members|] == members;
    return false;
  }

  class Ownerbase {
    var ids: map<OwnerID, Slot>
    var userNames: map<string, Slot>
    var groupNames: map<string, Slot>
    /** The file and store records of the shared database, read by the
        space queries and written by ingestion. */
    var files: map<FileID, FileRecord>
    var stores: map<StoreID, FileStore>

    ghost predicate Valid()
      reads this
    {
      && Consistent(ids, userNames, groupNames)
      && (forall f :: f in files ==> files[f].id == f)
    }

    constructor ()
      ensures Valid()
      ensures ids == map[] && userNames == map[] && groupNames == map[] && files == map[] && stores == map[]
    {
      ids, userNames, groupNames := map[], map[], map[];
      files, stores := map[], map[];
    }

    /** Reserve: claim a name in the namespace of the identity's kind and an
        identity, mutating the candidate until it is free; both slots then
        hold placeholders. */
    method Reserve(id: OwnerID, name: string, mutate: nat -> nat) returns (rid: OwnerID, err: Option<Error>)
      requires Valid()
      // only a reservation that reaches the identity search needs a free mutation
      requires (id.kind == 'u' && name !in userNames) || (id.kind == 'g' && name !in groupNames) ==>
        exists k: nat :: Mutated(id, mutate, k) !in ids
      modifies this
      ensures Valid()
      ensures id.kind != 'u' && id.kind != 'g' ==>
        rid == id && err == Some(ServerError(500, "unrecognized id type")) && unchanged(this)
      ensures id.kind == 'u' && name in old(userNames) ==> rid == id && err == Some(NameTaken) && unchanged(this)
      ensures id.kind == 'g' && name in old(groupNames) ==> rid == id && err == Some(NameTaken) && unchanged(this)
      ensures (id.kind == 'u' && name !in old(userNames)) || (id.kind == 'g' && name !in old(groupNames)) ==>
        && err == None
        && rid !in old(ids)
        && (exists k: nat :: rid == Mutated(id, mutate, k) && forall j: nat :: j < k ==> Mutated(id, mutate, j) in old(ids))
        && ids == old(ids)[rid := Reserved]
        && userNames == (if id.kind == 'u' then old(userNames)[name := Reserved] else old(userNames))
        && groupNames == (if id.kind == 'g' then old(groupNames)[name := Reserved] else old(groupNames))
        && files == old(files) && stores == old(stores)
    {
      if id.kind == 'u' {
        if name in userNames {
          return id, Some(NameTaken);
        }
      } else if id.kind == 'g' {
        if name in groupNames {
          return id, Some(NameTaken);
        }
      } else {
        return id, Some(ServerError(500, "unrecognized id type"));
      }
      ghost var bound: nat :| Mutated(id, mutate, bound) !in ids;
      ghost var k: nat := 0;
      rid := id;
      while rid in ids
        invariant k <= bound && rid == Mutated(id, mutate, k)
        invariant forall j: nat :: j < k ==> Mutated(id, mutate, j) in ids
        decreases bound - k
      {
        rid := OwnerID(rid.kind, mutate(rid.payload));
        k := k + 1;
      }
      ids := ids[rid := Reserved];
      if rid.kind == 'u' {
        userNames := userNames[name := Reserved];
      } else if rid.kind == 'g' {
        groupNames := groupNames[name := Reserved];
      }
      err := None;
    }

    /** Insert: commit an owner into its reserved identity slot and its
        reserved name slot. */
    method Insert(u: Owner) returns (err: Option<Error>)
      requires Valid()
      modifies this
      ensures Valid()
      ensures u.id !in old(ids) ==> err == Some(IDNotReserved) && unchanged(this)
      ensures u.id in old(ids) && old(ids)[u.id].Committed? ==> err == Some(NameTaken) && unchanged(this)
      ensures u.id in old(ids) && old(ids)[u.id] == Reserved && u.User? ==>
        && (u.name !in old(userNames) ==> err == Some(IDNotReserved) && unchanged(this))
        && (u.name in old(userNames) && old(userNames)[u.name].Committed? ==> err == Some(NameTaken) && unchanged(this))
        && (u.name in old(userNames) && old(userNames)[u.name] == Reserved ==>
              err == None && ids == old(ids)[u.id := Committed(u)] &&
              userNames == old(userNames)[u.name := Committed(u)] && groupNames == old(groupNames) &&
              files == old(files) && stores == old(stores))
      ensures u.id in old(ids) && old(ids)[u.id] == Reserved && u.Group? ==>
        && (u.name !in old(groupNames) ==> err == Some(IDNotReserved) && unchanged(this))
        && (u.name in old(groupNames) && old(groupNames)[u.name].Committed? ==> err == Some(NameTaken) && unchanged(this))
        && (u.name in old(groupNames) && old(groupNames)[u.name] == Reserved ==>
              err == None && ids == old(ids)[u.id := Committed(u)] &&
              groupNames == old(groupNames)[u.name := Committed(u)] && userNames == old(userNames) &&
              files == old(files) && stores == old(stores))
    {
      if u.id !in ids {
        return Some(IDNotReserved);
      } else if ids[u.id].Committed? {
        return Some(NameTaken);
      }
      match u {
        case User(_, name) =>
          if name !in userNames {
            return Some(IDNotReserved);
          }
          if userNames[name].Committed? {
            return Some(NameTaken);
          }
          userNames := userNames[name := Committed(u)];
        case Group(_, name, _, _) =>
          if name !in groupNames {
            return Some(IDNotReserved);
          }
          if groupNames[name].Committed? {
            return Some(NameTaken);
          }
          groupNames := groupNames[name := Committed(u)];
      }
      ids := ids[u.id := Committed(u)];
      err := None;
    }

    /** Get: the committed owner of an identity. */
    method Get(id: OwnerID) returns (r: Result<Owner>)
      requires Valid()
      ensures r.Success? <==> id in ids && ids[id].Committed?
      ensures r.Success? ==> ids[id] == Committed(r.value) && r.value.id == id
      ensures r.Failure? ==> r.error == NotFound
    {
      if id !in ids || ids[id] == Reserved {
        return Failure(NotFound);
      }
      return Success(ids[id].owner);
    }

    /** FindUserName: the committed user of a name. */
    method FindUserName(name: string) returns (r: Result<Owner>)
      requires Valid()
      ensures r.Success? <==> name in userNames && userNames[name].Committed?
      ensures r.Success? ==> userNames[name] == Committed(r.value) && r.value.User? && r.value.name == name
      ensures r.Failure? ==> r.error == NotFound
    {
      if name !in userNames || userNames[name] == Reserved {
        return Failure(NotFound);
      }
      return Success(userNames[name].owner);
    }

    /** FindGroupName: the committed group of a name. */
    method FindGroupName(name: string) returns (r: Result<Owner>)
      requires Valid()
      ensures r.Success? <==> name in groupNames && groupNames[name].Committed?
      ensures r.Success? ==> groupNames[name] == Committed(r.value) && r.value.Group? && r.value.name == name
      ensures r.Failure? ==> r.error == NotFound
    {
      if name !in groupNames || groupNames[name] == Reserved {
        return Failure(NotFound);
      }
      return Success(groupNames[name].owner);
    }

    /** GetGroups: the committed groups `id` administers, and those it is a
        member of without administering them. Reserved group names are
        passed over. */
    method GetGroups(id: OwnerID) returns (owned: seq<Owner>, member: seq<Owner>)
      requires Valid()
      ensures Distinct(owned) && Distinct(member)
      ensures forall g :: g in owned <==> Registered(groupNames, g) && g.ownedBy == id
      ensures forall g :: g in member <==> Registered(groupNames, g) && g.ownedBy != id && id in g.members
    {
      owned, member := [], [];
      var rest := groupNames.Keys;
      while rest != {}
        invariant rest <= groupNames.Keys
        invariant Distinct(owned) && Distinct(member)
        invariant forall g :: g in owned ==> g.Group? && g.name !in rest
        invariant forall g :: g in member ==> g.Group? && g.name !in rest
        invariant forall g :: g in owned <==> Registered(groupNames, g) && g.name !in rest && g.ownedBy == id
        invariant forall g :: g in member <==> Registered(groupNames, g) && g.name !in rest && g.ownedBy != id && id in g.members
        decreases rest
      {
        var n :| n in rest;
        rest := rest - {n};
        if groupNames[n].Committed? {
          var grp := groupNames[n].owner;
          if grp.ownedBy == id {
            owned := owned + [grp];
          } else {
            var found := IsMember(grp.members, id);
            if found {
              member := member + [grp];
            }
          }
        }
      }
    }

    /** GetGroups as the source writes it: the group-name map is walked
        without skipping placeholders, and reading the administrator of a
        reserved placeholder stops the call (`stopped`). */
    method GetGroupsAsWritten(id: OwnerID) returns (owned: seq<Owner>, member: seq<Owner>, stopped: bool)
      requires Valid()
      ensures stopped <==> HasReservedGroup(groupNames)
      ensures Distinct(owned) && Distinct(member)
      ensures !stopped ==> forall g :: g in owned <==> Registered(groupNames, g) && g.ownedBy == id
      ensures !stopped ==> forall g :: g in member <==> Registered(groupNames, g) && g.ownedBy != id && id in g.members
    {
      owned, member := [], [];
      var rest := groupNames.Keys;
      while rest != {}
        invariant rest <= groupNames.Keys
        invariant forall n :: n in groupNames && n !in rest ==> groupNames[n].Committed?
        invariant Distinct(owned) && Distinct(member)
        invariant forall g :: g in owned ==> g.Group? && g.name !in rest
        invariant forall g :: g in member ==> g.Group? && g.name !in rest
        invariant forall g :: g in owned <==> Registered(groupNames, g) && g.name !in rest && g.ownedBy == id
        invariant forall g :: g in member <==> Registered(groupNames, g) && g.name !in rest && g.ownedBy != id && id in g.members
        decreases rest
      {
        var n :| n in rest;
        if groupNames[n] == Reserved {
          return owned, member, true;
        }
        rest := rest - {n};
        var grp := groupNames[n].owner;
        if grp.ownedBy == id {
          owned := owned + [grp];
        } else {
          var found := IsMember(grp.members, id);
          if found {
            member := member + [grp];
          }
        }
      }
      stopped := false;
    }

    /** Update: overwrite a committed owner, in its identity slot and in the
        name slot of its current name. */
    method Update(o: Owner) returns (err: Option<Error>)
      requires Valid()
      modifies this
      ensures Valid()
      ensures !(o.id in old(ids) && old(ids)[o.id].Committed?) ==> err == Some(NotFound) && unchanged(this)
      ensures o.id in old(ids) && old(ids)[o.id].Committed? ==>
        && err == None
        && ids == old(ids)[o.id := Committed(o)]
        && userNames == (if o.User? then old(userNames)[o.name := Committed(o)] else old(userNames))
        && groupNames == (if o.Group? then old(groupNames)[o.name := Committed(o)] else old(groupNames))
        && files == old(files) && stores == old(stores)
    {
      if o.id !in ids || ids[o.id] == Reserved {
        return Some(NotFound);
      }
      match o {
        case User(_, name) =>
          userNames := userNames[name := Committed(o)];
        case Group(_, name, _, _) =>
          groupNames := groupNames[name := Committed(o)];
      }
      ids := ids[o.id := Committed(o)];
      err := None;
    }

    /** GetSpace: the space charged to a committed owner, summed per file. */
    method GetSpace(o: OwnerID) returns (total: nat, err: Option<Error>)
      ensures !(o in ids && ids[o].Committed?) ==> total == 0 && err == Some(NotFound)
      ensures o in ids && ids[o].Committed? ==> err == None && total == SpaceOf(files.Keys, files, stores, o)
    {
      if o !in ids || ids[o] == Reserved {
        return 0, Some(NotFound);
      }
      total := 0;
      var rest := files.Keys;
      while rest != {}
        invariant rest <= files.Keys
        invariant total + SpaceOf(rest, files, stores, o) == SpaceOf(files.Keys, files, stores, o)
        decreases rest
      {
        var f :| f in rest;
        SpaceOfRemove(rest, files, stores, o, f);
        if files[f].owner == o {
          total := total + StoreSize(stores, files[f].id.store);
        }
        rest := rest - {f};
      }
      err := None;
    }

    /** GetTotalSpace: the quota of a committed owner. */
    method GetTotalSpace(o: OwnerID) returns (total: nat, err: Option<Error>)
      ensures !(o in ids && ids[o].Committed?) ==> total == 0 && err == Some(NotFound)
      ensures o in ids && ids[o].Committed? ==> err == None && total == (if o.kind == 'u' then USER_QUOTA else 0)
    {
      if o !in ids || ids[o] == Reserved {
        return 0, Some(NotFound);
      }
      if o.kind == 'u' {
        return 50 * 1024 * 1024, None;
      }
      return 0, None;
    }
  }

  /** The scenario behind the as-written `GetGroups`: reserving a free group
      name succeeds, and a walk of the groups right after it, before the
      group is inserted, reaches the placeholder and stops. */
  method ReservedGroupStopsGetGroups(db: Ownerbase, id: OwnerID, name: string, mutate: nat -> nat, asker: OwnerID)
    returns (err: Option<Error>, stopped: bool)
    requires db.Valid()
    requires id.kind == 'g' && name !in db.groupNames
    requires exists k: nat :: Mutated(id, mutate, k) !in db.ids
    modifies db
    ensures err == None && stopped
  {
    var rid;
    rid, err := db.Reserve(id, name, mutate);
    assert db.groupNames[name] == Reserved;
    var owned, member;
    owned, member, stopped := db.GetGroupsAsWritten(asker);
  }
}
