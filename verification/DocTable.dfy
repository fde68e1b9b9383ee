/** hw2/doctable.c: document names and document ids, each found from the other. */
module DocTables {
  import opened Chains
  import opened LinkedLists
  import opened HashTables
  import opened Fnv

  /** The 1-based position of the last name with the hash, or 0. */
  function IdOf(names: seq<seq<byte>>, h: uint64): (id: nat)
    ensures id <= |names| && (id > 0 ==> Hash(names[id - 1]) == h)
  {
    if names == [] then 0
    else if Hash(names[|names| - 1]) == h then |names|
    else IdOf(names[..|names| - 1], h)
  }

  /** Registering a name: only a name whose hash is new is added. */
  function Registered(names: seq<seq<byte>>, docname: seq<byte>): seq<seq<byte>> {
    if IdOf(names, Hash(docname)) == 0 then names + [docname] else names
  }

  /** The contents of docid_to_docname and of docname_to_docid after names got ids 1, 2, ... */
  ghost function IdMap(names: seq<seq<byte>>): map<uint64, seq<byte>>
    requires |names| < TWO64
  {
    if names == [] then map[] else IdMap(names[..|names| - 1])[|names| as uint64 := names[|names| - 1]]
  }

  ghost function NameMap(names: seq<seq<byte>>): map<uint64, uint64>
    requires |names| < TWO64
  {
    if names == [] then map[] else NameMap(names[..|names| - 1])[Hash(names[|names| - 1]) := |names| as uint64]
  }

  /** No two registered names share a hash. */
  ghost predicate DistinctHashes(names: seq<seq<byte>>) {
    forall i, j :: 0 <= i < j < |names| ==> Hash(names[i]) != Hash(names[j])
  }

  class DocTable {
    var docidToDocname: HashTable<seq<byte>>
    var docnameToDocid: HashTable<uint64>
    var maxId: nat

    /** The registered names in the order of their ids, 1, 2, ... */
    ghost var names: seq<seq<byte>>
    ghost var Repr: set<object>

    ghost predicate Valid()
      reads this, Repr
      ensures Valid() ==> this in Repr
    {
      && this in Repr && docidToDocname in Repr && docnameToDocid in Repr
      && docidToDocname.Repr <= Repr - {this} && docnameToDocid.Repr <= Repr - {this}
      && docidToDocname.Repr !! docnameToDocid.Repr
      && docidToDocname.Valid() && docnameToDocid.Valid()
      && maxId == |names| < TWO32 && DistinctHashes(names)
      && docidToDocname.m == IdMap(names) && docnameToDocid.m == NameMap(names)
    }

    constructor ()
      ensures Valid() && fresh(Repr) && names == []
      ensures docidToDocname.numBuckets == docnameToDocid.numBuckets == 1024
    {
      hide HashTable.Valid, Hash;
      var byId := new HashTable<seq<byte>>(1024);
      var byName := new HashTable<uint64>(1024);
      docidToDocname, docnameToDocid, maxId := byId, byName, 0;
      names := [];
      Repr := {this} + byId.Repr + byName.Repr;
    }

    /** DTRegisterDocumentName. */
    method RegisterDocumentName(docname: seq<byte>) returns (docid: nat)
      requires Valid() && (IdOf(names, Hash(docname)) != 0 || |names| + 1 < TWO32)
      modifies Repr
      ensures Valid() && fresh(Repr - old(Repr))
      ensures names == Registered(old(names), docname)
      ensures docid == IdOf(names, Hash(docname)) > 0
    {
      hide HashTable.Valid, Hash, IdOf, IdMap, NameMap, DistinctHashes;
      var key := FNVHash64(docname);
      var ret, oldkv := docnameToDocid.Lookup(key);
      NameLookup(names, key);
      if ret == 1 {
        return oldkv.value.value as nat;
      }
      docid := AddName(docname, key);
    }

    /** The insertions of DTRegisterDocumentName. */
    method AddName(docname: seq<byte>, key: uint64) returns (docid: nat)
      requires Valid() && |names| + 1 < TWO32 && key == Hash(docname) && IdOf(names, key) == 0
      modifies Repr
      ensures Valid() && fresh(Repr - old(Repr))
      ensures names == old(names) + [docname]
      ensures docid == IdOf(names, key) == |names|
    {
      hide HashTable.Valid, Hash, IdOf, IdMap, NameMap, DistinctHashes;
      Grows(names, docname);
      CountIds(names);
      NameCount(names);
      docidToDocname.SizeBound();
      docnameToDocid.SizeBound();
      maxId := maxId + 1;
      docid := maxId;
      InsertBoth(docid as uint64, docname, key);
      docidToDocname.SizeBound();
      names := names + [docname];
      Repr := Repr + docidToDocname.Repr + docnameToDocid.Repr;
    }

    method InsertBoth(docid: uint64, docname: seq<byte>, key: uint64)
      requires docidToDocname.Valid() && docnameToDocid.Valid()
      requires docidToDocname.numElements + 1 < TWO32 && docnameToDocid.numElements + 1 < TWO32
      requires docidToDocname.Repr !! docnameToDocid.Repr && this !in docidToDocname.Repr && this !in docnameToDocid.Repr
      requires docid !in docidToDocname.m && key !in docnameToDocid.m
      modifies docidToDocname.Repr, docnameToDocid.Repr
      ensures docidToDocname.Valid() && docnameToDocid.Valid() && docidToDocname.Repr !! docnameToDocid.Repr
      ensures fresh(docidToDocname.Repr - old(docidToDocname.Repr)) && fresh(docnameToDocid.Repr - old(docnameToDocid.Repr))
      ensures docidToDocname.m == old(docidToDocname.m)[docid := docname]
      ensures docnameToDocid.m == old(docnameToDocid.m)[key := docid]
    {
      hide HashTable.Valid;
      var ret, _ := docidToDocname.Insert(KeyValue(docid, docname));
      assert ret == 1;
      var ret', _ := docnameToDocid.Insert(KeyValue(key, docid));
      assert ret' == 1;
    }

    /** DTLookupDocumentName: 0 when the name is unknown. */
    method LookupDocumentName(docname: seq<byte>) returns (docid: nat)
      requires Valid()
      ensures docid == IdOf(names, Hash(docname))
    {
      hide HashTable.Valid, Hash, IdOf, IdMap, NameMap, DistinctHashes;
      var key := FNVHash64(docname);
      NameLookup(names, key);
      var res, kv := docnameToDocid.Lookup(key);
      if res == 0 {
        return 0;
      }
      return kv.value.value as nat;
    }

    /** DTLookupDocID: NULL (None) when the id was never given out. */
    method LookupDocID(docid: uint64) returns (docname: Option<seq<byte>>)
      requires Valid() && docid != 0
      ensures docname == if docid as nat <= |names| then Some(names[docid as nat - 1]) else None
    {
      hide HashTable.Valid, Hash, IdMap, NameMap, DistinctHashes;
      IdLookup(names, docid);
      var res, kv := docidToDocname.Lookup(docid);
      if res == 0 {
        return None;
      }
      return Some(kv.value.value);
    }
  }

  lemma {:induction false} NameLookup(names: seq<seq<byte>>, key: uint64)
    requires |names| < TWO64
    ensures IdOf(names, key) == if key in NameMap(names) then NameMap(names)[key] as nat else 0
    ensures key in NameMap(names) <==> IdOf(names, key) > 0
  {
    hide Hash;
    if names != [] {
      NameLookup(names[..|names| - 1], key);
    }
  }

  lemma {:induction false} IdLookup(names: seq<seq<byte>>, id: uint64)
    requires |names| < TWO64
    ensures id in IdMap(names) <==> 1 <= id as nat <= |names|
    ensures id in IdMap(names) ==> IdMap(names)[id] == names[id as nat - 1]
  {
    if names != [] {
      IdLookup(names[..|names| - 1], id);
    }
  }

  lemma {:induction false} CountIds(names: seq<seq<byte>>)
    requires |names| < TWO64
    ensures |IdMap(names)| == |names|
  {
    if names != [] {
      CountIds(names[..|names| - 1]);
      IdLookup(names[..|names| - 1], |names| as uint64);
    }
  }

  lemma {:induction false} NameCount(names: seq<seq<byte>>)
    requires |names| < TWO64
    ensures |NameMap(names)| <= |names|
  {
    hide Hash;
    if names != [] {
      NameCount(names[..|names| - 1]);
    }
  }

  /** What giving the next id to a name with a new hash does to both maps. */
  lemma Grows(names: seq<seq<byte>>, docname: seq<byte>)
    requires |names| < TWO32 && DistinctHashes(names) && IdOf(names, Hash(docname)) == 0
    ensures var all, id := names + [docname], (|names| + 1) as uint64;
      && id !in IdMap(names) && Hash(docname) !in NameMap(names)
      && IdMap(all) == IdMap(names)[id := docname] && NameMap(all) == NameMap(names)[Hash(docname) := id]
      && DistinctHashes(all) && IdOf(all, Hash(docname)) == |all| == |IdMap(all)|
  {
    hide Hash;
    var all := names + [docname];
    assert all[..|all| - 1] == names;
    NameLookup(names, Hash(docname));
    IdLookup(names, |all| as uint64);
    CountIds(all);
    NoneBefore(names, Hash(docname));
  }

  lemma {:induction false} NoneBefore(names: seq<seq<byte>>, h: uint64)
    ensures IdOf(names, h) == 0 <==> forall i :: 0 <= i < |names| ==> Hash(names[i]) != h
  {
    hide Hash;
    if names != [] {
      NoneBefore(names[..|names| - 1], h);
    }
  }

  /** The two maps are inverse to each other, on exactly the ids 1..max_id. */
  lemma MapsAreInverse(names: seq<seq<byte>>)
    requires |names| < TWO64 && DistinctHashes(names)
    ensures forall k :: k in IdMap(names) <==> 1 <= k as nat <= |names|
    ensures forall k :: k in IdMap(names) ==>
      Hash(IdMap(names)[k]) in NameMap(names) && NameMap(names)[Hash(IdMap(names)[k])] == k
    ensures forall h :: h in NameMap(names) ==>
      NameMap(names)[h] in IdMap(names) && Hash(IdMap(names)[NameMap(names)[h]]) == h
  {
    hide Hash, IdMap, NameMap, IdOf;
    forall k: uint64
      ensures k in IdMap(names) <==> 1 <= k as nat <= |names|
      ensures k in IdMap(names) ==>
        Hash(IdMap(names)[k]) in NameMap(names) && NameMap(names)[Hash(IdMap(names)[k])] == k
    {
      IdLookup(names, k);
      if k in IdMap(names) {
        NameLookup(names, Hash(names[k as nat - 1]));
        NoneBefore(names, Hash(names[k as nat - 1]));
      }
    }
    forall h | h in NameMap(names)
      ensures NameMap(names)[h] in IdMap(names) && Hash(IdMap(names)[NameMap(names)[h]]) == h
    {
      NameLookup(names, h);
      IdLookup(names, NameMap(names)[h]);
    }
  }

  /** Registering a name and looking its id up gives the name back exactly when the name is
      already registered or no registered name has its hash. */
  lemma RegisterRoundTrips(names: seq<seq<byte>>, docname: seq<byte>)
    requires DistinctHashes(names)
    ensures var after := Registered(names, docname);
      var id := IdOf(after, Hash(docname));
      id > 0 && DistinctHashes(after) &&
      (after[id - 1] == docname <==> docname in names || forall n :: n in names ==> Hash(n) != Hash(docname))
  {
    hide Hash, IdOf;
    var id := IdOf(names, Hash(docname));
    NoneBefore(names, Hash(docname));
    if id == 0 {
      IdOfAppend(names, docname);
    } else if docname in names {
      var i :| 0 <= i < |names| && names[i] == docname;
      assert i == id - 1;
    } else {
      assert names[id - 1] in names;
    }
  }

  lemma IdOfAppend(names: seq<seq<byte>>, docname: seq<byte>)
    ensures IdOf(names + [docname], Hash(docname)) == |names| + 1
  {}

  /** Registering again changes nothing and returns the same id. */
  lemma RegisterIsIdempotent(names: seq<seq<byte>>, docname: seq<byte>)
    ensures Registered(Registered(names, docname), docname) == Registered(names, docname)
  {
    hide Hash;
  }

  /** The table after a run of registrations. */
  function RegisterAll(docnames: seq<seq<byte>>): seq<seq<byte>> {
    if docnames == [] then []
    else Registered(RegisterAll(docnames[..|docnames| - 1]), docnames[|docnames| - 1])
  }

  ghost predicate NoCollisions(docnames: seq<seq<byte>>) {
    forall a, b :: a in docnames && b in docnames && Hash(a) == Hash(b) ==> a == b
  }

  /** The table t answers for exactly the names of the run, each under one id. */
  ghost predicate Answers(t: seq<seq<byte>>, docnames: seq<seq<byte>>) {
    && DistinctHashes(t)
    && (forall n :: n in t <==> n in docnames)
    && (forall n :: n in docnames ==> IdOf(t, Hash(n)) > 0 && t[IdOf(t, Hash(n)) - 1] == n)
  }

  /** Over every run whose names do not collide, the table holds each name once and both
      lookups round-trip for every name of the run. */
  lemma {:induction false} EveryRunRoundTrips(docnames: seq<seq<byte>>)
    requires NoCollisions(docnames)
    ensures Answers(RegisterAll(docnames), docnames)
  {
    hide Hash, IdOf, Answers, NoCollisions, Registered;
    if docnames == [] {
      NothingRegistered();
    } else {
      ShorterRun(docnames);
      EveryRunRoundTrips(docnames[..|docnames| - 1]);
      OneMoreRegistration(docnames, RegisterAll(docnames[..|docnames| - 1]));
    }
  }

  lemma NothingRegistered()
    ensures Answers([], [])
  {}

  lemma ShorterRun(docnames: seq<seq<byte>>)
    requires NoCollisions(docnames) && docnames != []
    ensures NoCollisions(docnames[..|docnames| - 1])
  {
    hide Hash;
  }

  lemma OneMoreRegistration(docnames: seq<seq<byte>>, before: seq<seq<byte>>)
    requires docnames != [] && NoCollisions(docnames) && Answers(before, docnames[..|docnames| - 1])
    ensures Answers(Registered(before, docnames[|docnames| - 1]), docnames)
  {
    hide Hash, IdOf;
    var init, last := docnames[..|docnames| - 1], docnames[|docnames| - 1];
    var t := Registered(before, last);
    assert forall n :: n in docnames <==> n in init || n == last by { assert docnames == init + [last]; }
    RegisterRoundTrips(before, last);
    if IdOf(before, Hash(last)) > 0 {
      assert before[IdOf(before, Hash(last)) - 1] in before;
    }
    AnswersItself(t, docnames);
  }

  lemma AnswersItself(t: seq<seq<byte>>, docnames: seq<seq<byte>>)
    requires DistinctHashes(t) && NoCollisions(docnames) && forall n :: n in t <==> n in docnames
    ensures Answers(t, docnames)
  {
    hide Hash, IdOf;
    forall n | n in docnames
      ensures IdOf(t, Hash(n)) > 0 && t[IdOf(t, Hash(n)) - 1] == n
    {
      var i :| 0 <= i < |t| && t[i] == n;
      NoneBefore(t, Hash(n));
      assert t[IdOf(t, Hash(n)) - 1] in docnames;
    }
  }
}
