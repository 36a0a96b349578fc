/** resolver.c: device names and (node, instance, command) triples, each leading to the
    other, kept in the hash table under a checksum of the name. */
module Resolver {
  import opened Prelude
  import opened HashTable

  const MAX_DEVICE_NAME_LEN: nat := 128

  /** Stands for "no instance" and "no command". */
  const NONE: int := -1

  datatype Id = Id(nodeId: int, instanceId: int, commandId: int)

  /** device_record_t; the pointer to the parent is looked up anew by every reader. */
  datatype Record = Record(devtype: int, name: string, id: Id)

  /** What strncpy keeps of a name. */
  function Stored(name: string): (s: string)
    ensures |s| < MAX_DEVICE_NAME_LEN
    ensures |name| < MAX_DEVICE_NAME_LEN ==> s == name
    ensures s <= name && (|name| >= MAX_DEVICE_NAME_LEN ==> |s| == 127)
  {
    if |name| < MAX_DEVICE_NAME_LEN then name else name[..MAX_DEVICE_NAME_LEN - 1]
  }

  /** The checksum of a name: crc32(0, name, strlen(name)). */
  type Checksum = string -> Key

  type Entries = map<Key, Record>

  // ----- What adding and removing mean -------------------------------------

  /** Every record lies under the checksum of its name, and no two have the same id. */
  ghost predicate Consistent(hash: Checksum, m: Entries) {
    && (forall k | k in m :: hash(m[k].name) == k)
    && (forall j, k | j in m && k in m && m[j].id == m[k].id :: j == k)
  }

  ghost function WithoutId(m: Entries, id: Id): Entries {
    map k | k in m && m[k].id != id :: m[k]
  }

  /** resolver_add_entry: what was under the name and what had the id go, the new record
      comes in, under the checksum of the stored name. */
  ghost function Added(hash: Checksum, m: Entries, devtype: int, name: string, id: Id): Entries {
    WithoutId(m - {hash(name)}, id)[hash(Stored(name)) := Record(devtype, Stored(name), id)]
  }

  ghost function Removed(hash: Checksum, m: Entries, name: string): Entries {
    m - {hash(name)}
  }

  /** resolver_get_device_record */
  ghost function RecordOf(hash: Checksum, m: Entries, name: string): Option<Record> {
    if hash(name) in m then Some(m[hash(name)]) else None
  }

  /** resolver_name_from_id: the name of the record with this id. */
  ghost predicate NameOf(m: Entries, id: Id, name: Option<string>) {
    match name
    case Some(n) => exists k :: k in m && m[k].id == id && m[k].name == n
    case None => forall k | k in m :: m[k].id != id
  }

  lemma AddKeepsConsistent(hash: Checksum, m: Entries, devtype: int, name: string, id: Id)
    requires Consistent(hash, m)
    ensures Consistent(hash, Added(hash, m, devtype, name, id))
  {
  }

  /** Names lead to ids and ids lead back to the same names. */
  lemma LookupsAreInverse(hash: Checksum, m: Entries, name: string, id: Id)
    requires Consistent(hash, m)
    ensures NameOf(m, id, Some(name)) ==> RecordOf(hash, m, name).Some? && RecordOf(hash, m, name).value.id == id
    ensures RecordOf(hash, m, name).Some? && RecordOf(hash, m, name).value.name == name ==>
              NameOf(m, RecordOf(hash, m, name).value.id, Some(name))
    ensures forall other :: NameOf(m, id, Some(name)) && NameOf(m, id, Some(other)) ==> name == other
  {
  }

  // ----- With names instead of checksums -----------------------------------

  /** The checksum tells the given names apart. */
  ghost predicate Injective(hash: Checksum, names: set<string>) {
    forall a, b | a in names && b in names && hash(a) == hash(b) :: a == b
  }

  ghost function NamesIn(m: Entries): set<string> {
    set k | k in m :: m[k].name
  }

  /** What is known under a name. */
  ghost function ByName(m: Entries): map<string, (int, Id)>
  {
    map n | n in NamesIn(m) :: var k :| k in m && m[k].name == n; (m[k].devtype, m[k].id)
  }

  /** `m` keeps exactly the pairs of `t`. */
  ghost predicate Keeps(m: Entries, t: map<string, (int, Id)>) {
    && (forall k | k in m :: m[k].name in t && t[m[k].name] == (m[k].devtype, m[k].id))
    && (forall n | n in t :: exists k :: k in m && m[k].name == n)
  }

  lemma ByNameKeeps(hash: Checksum, m: Entries)
    requires Consistent(hash, m)
    ensures Keeps(m, ByName(m))
  {
    forall k | k in m ensures m[k].name in ByName(m) && ByName(m)[m[k].name] == (m[k].devtype, m[k].id) {
      assert m[k].name in NamesIn(m);
      var j :| j in m && m[j].name == m[k].name && ByName(m)[m[k].name] == (m[j].devtype, m[j].id);
      assert j == hash(m[j].name) == k;
    }
  }

  /** Taking out a name and an id, then putting in a pair. */
  ghost function Replaced(t: map<string, (int, Id)>, name: string, devtype: int, id: Id): map<string, (int, Id)> {
    (map n | n in t && n != name && t[n].1 != id :: t[n])[name := (devtype, id)]
  }

  /** The record under the checksum of a name, if any, is in the way of another name. */
  ghost predicate Clashes(hash: Checksum, m: Entries, name: string) {
    hash(name) in m && m[hash(name)].name != name
  }

  /** No clash can arise while the checksum tells the names in use apart. */
  lemma InjectiveNeverClashes(hash: Checksum, m: Entries, name: string)
    requires Consistent(hash, m) && Injective(hash, NamesIn(m) + {name})
    ensures !Clashes(hash, m, name)
  {
    if hash(name) in m {
      assert m[hash(name)].name in NamesIn(m);
    }
  }

  lemma AddReplacesUnlessClash(hash: Checksum, m: Entries, devtype: int, name: string, id: Id)
    requires Consistent(hash, m) && |name| < MAX_DEVICE_NAME_LEN
    requires !Clashes(hash, m, name) || m[hash(name)].id == id
    ensures Keeps(Added(hash, m, devtype, name, id), Replaced(ByName(m), name, devtype, id))
  {
    hide ByName;
    var a := Added(hash, m, devtype, name, id);
    var t := Replaced(ByName(m), name, devtype, id);
    ByNameKeeps(hash, m);
    forall n | n in t ensures exists k :: k in a && a[k].name == n {
      if n == name {
        assert a[hash(name)].name == n;
      } else {
        var k :| k in m && m[k].name == n;
        assert a[k].name == n;
      }
    }
  }

  lemma ClashLosesRecord(hash: Checksum, m: Entries, devtype: int, name: string, id: Id)
    requires Consistent(hash, m) && |name| < MAX_DEVICE_NAME_LEN
    requires Clashes(hash, m, name) && m[hash(name)].id != id
    ensures !Keeps(Added(hash, m, devtype, name, id), Replaced(ByName(m), name, devtype, id))
  {
    hide ByName;
    ByNameKeeps(hash, m);
    assert m[hash(name)].name in Replaced(ByName(m), name, devtype, id);
  }

  /** An add takes out that name and that id and puts in the new pair, and nothing else,
      exactly when there is no clash or the clashing record has the id that goes anyway. */
  lemma AddReplaces(hash: Checksum, m: Entries, devtype: int, name: string, id: Id)
    requires Consistent(hash, m) && |name| < MAX_DEVICE_NAME_LEN
    ensures Keeps(Added(hash, m, devtype, name, id), Replaced(ByName(m), name, devtype, id))
            <==> !Clashes(hash, m, name) || m[hash(name)].id == id
  {
    hide ByName, Keeps, Added, Replaced, Consistent;
    if !Clashes(hash, m, name) || m[hash(name)].id == id {
      AddReplacesUnlessClash(hash, m, devtype, name, id);
    } else {
      ClashLosesRecord(hash, m, devtype, name, id);
    }
  }

  /** Removing a name that is present takes out just that name, exactly when there is no
      clash. */
  lemma RemoveTakesOut(hash: Checksum, m: Entries, name: string)
    requires Consistent(hash, m)
    ensures Keeps(Removed(hash, m, name), ByName(m) - {name}) <==> !Clashes(hash, m, name)
  {
    hide ByName;
    var a := Removed(hash, m, name);
    ByNameKeeps(hash, m);
    if Clashes(hash, m, name) {
      assert m[hash(name)].name in ByName(m) - {name};
    } else {
      forall n | n in ByName(m) - {name} ensures exists k :: k in a && a[k].name == n {
        var k :| k in m && m[k].name == n;
        assert a[k].name == n;
      }
    }
  }

  // ----- Runs --------------------------------------------------------------

  /** What can happen to the entries: an add, or a removal, which empties a slot and takes
      out whatever key is there. */
  datatype Change = Addition(devtype: int, name: string, id: Id) | Removal(keys: set<Key>)

  ghost function Changed(hash: Checksum, m: Entries, c: Change): Entries {
    match c
    case Addition(devtype, name, id) => Added(hash, m, devtype, name, id)
    case Removal(keys) => m - keys
  }

  ghost function After(hash: Checksum, m: Entries, changes: seq<Change>): Entries
    decreases |changes|
  {
    if changes == [] then m else After(hash, Changed(hash, m, changes[0]), changes[1..])
  }

  /** Over every run no two records share an id and every record is under its name. */
  lemma {:induction false} RunKeepsConsistent(hash: Checksum, m: Entries, changes: seq<Change>)
    requires Consistent(hash, m)
    ensures Consistent(hash, After(hash, m, changes))
    decreases |changes|
  {
    if changes != [] {
      if changes[0].Addition? {
        AddKeepsConsistent(hash, m, changes[0].devtype, changes[0].name, changes[0].id);
      }
      RunKeepsConsistent(hash, Changed(hash, m, changes[0]), changes[1..]);
    }
  }

  lemma {:induction false} AfterLast(hash: Checksum, m: Entries, changes: seq<Change>, c: Change)
    ensures After(hash, m, changes + [c]) == Changed(hash, After(hash, m, changes), c)
    decreases |changes|
  {
    hide Changed;
    if changes == [] {
      assert ([] + [c])[1..] == [];
    } else {
      assert (changes + [c])[1..] == changes[1..] + [c];
      AfterLast(hash, Changed(hash, m, changes[0]), changes[1..], c);
    }
  }

  /** What a caller asks for. */
  datatype Request = AddRequest(devtype: int, name: string, id: Id) | RemoveRequest(name: string)

  /** The change that a request makes of the entries `m`: a removal takes out the name's key
      when it is present, and at most one other when it is not. */
  ghost predicate Answers(hash: Checksum, m: Entries, q: Request, c: Change) {
    match q
    case AddRequest(devtype, name, id) => c == Addition(devtype, name, id)
    case RemoveRequest(name) =>
      c.Removal? && |c.keys| <= 1 && (hash(name) in m ==> c.keys == {hash(name)})
  }

  ghost predicate AllAnswer(hash: Checksum, m: Entries, requests: seq<Request>, changes: seq<Change>) {
    && |changes| == |requests|
    && forall i | 0 <= i < |requests| :: Answers(hash, After(hash, m, changes[..i]), requests[i], changes[i])
  }

  // ----- The resolver ------------------------------------------------------

  class Handle {
    const recordTable: Table<Record>
    const hash: Checksum

    ghost predicate Valid()
      reads this, recordTable, recordTable.nodeArray
    {
      recordTable.Valid() && Consistent(hash, recordTable.Contents())
    }

    ghost function Entries(): Entries
      reads this, recordTable, recordTable.nodeArray
      requires Valid()
    {
      recordTable.Contents()
    }

    /** resolver_init */
    constructor (hash: Checksum)
      ensures Valid() && this.hash == hash && Entries() == map[]
      ensures fresh(recordTable) && fresh(recordTable.nodeArray)
    {
      this.hash := hash;
      recordTable := new Table<Record>();
    }

    /** resolver_name_from_id: a walk over the table with its iterator. */
    method NameFromId(id: Id) returns (name: Option<string>)
      requires Valid()
      ensures NameOf(Entries(), id, name)
    {
      hide Placed, MapOf, Consistent;
      var index := recordTable.NextIndex(-1);
      while index != recordTable.hashSize + 1
        invariant 0 <= index
        invariant index == recordTable.hashSize + 1 ||
                  (index < recordTable.hashSize && recordTable.nodeArray[index].Some?)
        invariant forall i | 0 <= i < index && i < recordTable.hashSize && recordTable.nodeArray[i].Some? ::
                    recordTable.nodeArray[i].value.data.id != id
        decreases recordTable.hashSize + 1 - index
      {
        var record := recordTable.nodeArray[index].value.data;
        if record.id == id {
          SlotHolds(recordTable.nodeArray[..], index);
          return Some(record.name);
        }
        index := recordTable.NextIndex(index);
      }
      forall k | k in Entries() ensures Entries()[k].id != id {
        KeyHasSlot(recordTable.nodeArray[..], k);
        var at := k % recordTable.nodeArray.Length;
        assert 0 <= at < recordTable.hashSize && recordTable.nodeArray[at].Some?;
      }
      name := None;
    }

    /** resolver_get_device_record, with the parent it finds for an instance's command. */
    method GetDeviceRecord(name: string) returns (record: Option<Record>, parent: Option<Record>)
      requires Valid()
      ensures record == RecordOf(hash, Entries(), name)
      ensures parent.Some? <==> record.Some? && record.value.id.commandId != -1 && record.value.id.nodeId != -1
                                && exists k :: k in Entries() && Entries()[k].id == Id(record.value.id.nodeId, -1, -1)
      ensures parent.Some? ==> parent.value.id == Id(record.value.id.nodeId, -1, -1)
      decreases var r := RecordOf(hash, Entries(), name); if r.Some? && r.value.id.commandId != NONE then 1 else 0
    {
      parent := None;
      record := recordTable.Get(hash(name));
      if record.Some? && record.value.id.commandId != NONE && record.value.id.nodeId != NONE {
        var parentId := Id(record.value.id.nodeId, NONE, NONE);
        var parentName := NameFromId(parentId);
        if parentName.Some? {
          LookupsAreInverse(hash, Entries(), parentName.value, parentId);
          var grandparent;
          parent, grandparent := GetDeviceRecord(parentName.value);
        }
      }
    }

    /** resolver_remove_entry: whatever record is in the slot goes, which is exact when the
        name is present. */
    method RemoveEntry(name: string)
      requires Valid()
      modifies recordTable, recordTable.nodeArray
      ensures Valid() && recordTable.nodeArray == old(recordTable.nodeArray)
      ensures Entries() == old(Entries()) - Occupant(old(recordTable.nodeArray[..]), hash(name))
      ensures hash(name) in old(Entries()) ==> Entries() == Removed(hash, old(Entries()), name)
    {
      ghost var before := recordTable.nodeArray[..];
      RemovesKeyIff(before, hash(name));
      ClearedRemovesOccupant(before, hash(name));
      recordTable.Remove(hash(name));
    }

    /** resolver_add_entry */
    method AddEntry(devtype: int, name: string, id: Id)
      requires Valid()
      modifies recordTable, recordTable.nodeArray
      ensures Valid() && Entries() == Added(hash, old(Entries()), devtype, name, id)
      ensures recordTable.nodeArray == old(recordTable.nodeArray) || fresh(recordTable.nodeArray)
      decreases hash(name) in Entries()
    {
      hide Consistent, WithoutId, MapOf, Placed;
      ghost var m := Entries();
      AddKeepsConsistent(hash, m, devtype, name, id);
      var record, parent := GetDeviceRecord(name);
      if record.None? {
        assert m - {hash(name)} == m;
        var existingName := NameFromId(id);
        if existingName.Some? {
          LookupsAreInverse(hash, m, existingName.value, id);
          RemoveEntry(existingName.value);
          HolderGone(hash, m, existingName.value, id);
        } else {
          NoHolder(m, id);
        }
        recordTable.InsertData(Node(hash(Stored(name)), Record(devtype, Stored(name), id)));
      } else {
        RemoveEntry(name);
        assert m - {hash(name)} - {hash(name)} == m - {hash(name)};
        AddEntry(devtype, name, id);
      }
    }

    /** resolver_resolve_id */
    method ResolveId(id: Id) returns (record: Option<Record>)
      requires Valid()
      ensures record.Some? <==> exists k :: k in Entries() && Entries()[k].id == id
      ensures record.Some? ==> record.value.id == id
    {
      record := None;
      var name := NameFromId(id);
      if name.Some? {
        LookupsAreInverse(hash, Entries(), name.value, id);
        var parent;
        record, parent := GetDeviceRecord(name.value);
      }
    }
  }

  /** A run of requests on the resolver: every request makes its change, and no two records
      ever share an id. */
  method Run(resolver: Handle, requests: seq<Request>) returns (ghost changes: seq<Change>)
    requires resolver.Valid()
    modifies resolver.recordTable, resolver.recordTable.nodeArray
    ensures resolver.Valid()
    ensures resolver.Entries() == After(resolver.hash, old(resolver.Entries()), changes)
    ensures AllAnswer(resolver.hash, old(resolver.Entries()), requests, changes)
  {
    hide Consistent, Changed, Answers, Placed, MapOf;
    ghost var m := resolver.Entries();
    changes := [];
    var i := 0;
    while i < |requests|
      invariant i <= |requests| && resolver.Valid()
      invariant resolver.recordTable.nodeArray == old(resolver.recordTable.nodeArray) || fresh(resolver.recordTable.nodeArray)
      invariant resolver.Entries() == After(resolver.hash, m, changes)
      invariant AllAnswer(resolver.hash, m, requests[..i], changes)
    {
      ghost var change := Serve(resolver, requests[i]);
      AfterLast(resolver.hash, m, changes, change);
      AnswersLast(resolver.hash, m, requests, i, changes, change);
      changes := changes + [change];
      i := i + 1;
    }
    assert requests[..i] == requests;
  }

  method Serve(resolver: Handle, q: Request) returns (ghost change: Change)
    requires resolver.Valid()
    modifies resolver.recordTable, resolver.recordTable.nodeArray
    ensures resolver.Valid()
    ensures resolver.recordTable.nodeArray == old(resolver.recordTable.nodeArray) || fresh(resolver.recordTable.nodeArray)
    ensures resolver.Entries() == Changed(resolver.hash, old(resolver.Entries()), change)
    ensures Answers(resolver.hash, old(resolver.Entries()), q, change)
  {
    hide Consistent, MapOf;
    match q
    case AddRequest(devtype, name, id) =>
      change := Addition(devtype, name, id);
      resolver.AddEntry(devtype, name, id);
    case RemoveRequest(name) =>
      ghost var slots := resolver.recordTable.nodeArray[..];
      change := Removal(Occupant(slots, resolver.hash(name)));
      OccupantIsKey(slots, resolver.hash(name));
      resolver.RemoveEntry(name);
  }

  /** A key that is present is the one that its slot holds. */
  lemma OccupantIsKey(slots: Slots<Record>, key: Key)
    requires Placed(slots)
    ensures |Occupant(slots, key)| <= 1
    ensures key in MapOf(slots) ==> Occupant(slots, key) == {key}
  {
    if key in MapOf(slots) {
      KeyHasSlot(slots, key);
    }
  }

  lemma AnswersLast(hash: Checksum, m: Entries, requests: seq<Request>, i: nat, changes: seq<Change>, c: Change)
    requires i < |requests| && AllAnswer(hash, m, requests[..i], changes)
    requires Answers(hash, After(hash, m, changes), requests[i], c)
    ensures AllAnswer(hash, m, requests[..i + 1], changes + [c])
  {
    hide Answers, After;
    assert (changes + [c])[..i] == changes;
    forall j | 0 <= j < i ensures Answers(hash, After(hash, m, (changes + [c])[..j]), requests[j], (changes + [c])[j]) {
      assert (changes + [c])[..j] == changes[..j] && requests[..i][j] == requests[j];
    }
  }

  lemma NoHolder(m: Entries, id: Id)
    requires NameOf(m, id, None)
    ensures WithoutId(m, id) == m
  {
  }

  lemma HolderGone(hash: Checksum, m: Entries, name: string, id: Id)
    requires Consistent(hash, m) && hash(name) in m && m[hash(name)].id == id
    ensures Removed(hash, m, name) == WithoutId(m, id)
  {
  }
}
