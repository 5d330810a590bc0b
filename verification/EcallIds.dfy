/** Ecall ids (host/ecall_ids.c): a global append-only table of names, a table of function
    ids per enclave, and global ids that callers cache.

    The point of the tables is that a lookup through a cached global id agrees with a plain
    search of the enclave's ecalls by name, whatever has been registered since. */
module EcallIds {
  import opened Bytes
  import opened Results

  const NULL_ID := UINT64_LIMIT - 1
  const INITIAL_SIZE := 16

  /** The 32-bit capacity doubles up to this many names; one more and it would wrap to zero. */
  const MAX_NAMES := 0x8000_0000

  // ----- what the tables mean

  predicate Distinct(names: seq<string>) {
    forall i, j :: 0 <= i < j < |names| ==> names[i] != names[j]
  }

  /** The position of a name, or -1. */
  function IndexOf(names: seq<string>, name: string): (i: int)
    ensures -1 <= i < |names|
    ensures i >= 0 ==> names[i] == name && forall k :: 0 <= k < i ==> names[k] != name
    ensures i < 0 ==> forall k :: 0 <= k < |names| ==> names[k] != name
  {
    if names == [] then -1
    else if names[0] == name then 0
    else
      var i := IndexOf(names[1..], name);
      assert forall k :: 0 < k < |names| ==> names[k] == names[1..][k - 1];
      if i < 0 then -1 else i + 1
  }

  /** The last position of a name, or -1: the plain search that lookups stand for. */
  function LastIndexOf(names: seq<string>, name: string): (i: int)
    ensures -1 <= i < |names|
    ensures i >= 0 ==> names[i] == name && forall k :: i < k < |names| ==> names[k] != name
    ensures i < 0 ==> forall k :: 0 <= k < |names| ==> names[k] != name
  {
    if names == [] then -1
    else if names[|names| - 1] == name then |names| - 1
    else LastIndexOf(names[..|names| - 1], name)
  }

  function Intern(names: seq<string>, name: string): (r: seq<string>)
    ensures names <= r && name in r
  {
    if IndexOf(names, name) >= 0 then names else names + [name]
  }

  function InternAll(names: seq<string>, ecalls: seq<string>): (r: seq<string>)
    ensures names <= r
    decreases |ecalls|
  {
    if ecalls == [] then names else Intern(InternAll(names, ecalls[..|ecalls| - 1]), ecalls[|ecalls| - 1])
  }

  /** The largest global id among these ecalls. */
  function MaxId(names: seq<string>, ecalls: seq<string>): nat {
    if ecalls == [] then 0
    else
      var n := |ecalls| - 1;
      var m, id := MaxId(names, ecalls[..n]), IndexOf(names, ecalls[n]);
      if id > m then id else m
  }

  lemma {:induction false} MaxIdBounds(names: seq<string>, ecalls: seq<string>, i: nat)
    requires i < |ecalls|
    ensures IndexOf(names, ecalls[i]) <= MaxId(names, ecalls)
    decreases |ecalls|
  {
    hide IndexOf;
    var n := |ecalls| - 1;
    if i < n {
      assert ecalls[i] == ecalls[..n][i];
      MaxIdBounds(names, ecalls[..n], i);
    }
  }

  lemma MaxIdSnoc(names: seq<string>, ecalls: seq<string>, i: nat)
    requires i < |ecalls|
    ensures MaxId(names, ecalls[..i + 1]) ==
            var m, id := MaxId(names, ecalls[..i]), IndexOf(names, ecalls[i]); if id > m then id else m
  {
    hide IndexOf;
    assert ecalls[..i + 1][..i] == ecalls[..i];
  }

  lemma InternAllSnoc(names: seq<string>, ecalls: seq<string>, i: nat)
    requires i < |ecalls|
    ensures InternAll(names, ecalls[..i + 1]) == Intern(InternAll(names, ecalls[..i]), ecalls[i])
  {
    hide Intern;
    assert ecalls[..i + 1][..i] == ecalls[..i];
  }

  lemma StoredIdSnoc(ecalls: seq<string>, i: nat, name: string)
    requires i < |ecalls|
    ensures StoredId(ecalls[..i + 1], name) == if ecalls[i] == name then i else StoredId(ecalls[..i], name)
  {
    assert ecalls[..i + 1][..i] == ecalls[..i];
  }

  /** The function id stored for a name. */
  function StoredId(ecalls: seq<string>, name: string): nat {
    var i := LastIndexOf(ecalls, name);
    if i < 0 then NULL_ID else i
  }

  /** The id table of an enclave with these ecalls, given the global names. */
  function IdTable(names: seq<string>, ecalls: seq<string>): (t: seq<nat>)
    requires MaxId(names, ecalls) < |names|
    ensures |t| == MaxId(names, ecalls) + 1
  {
    seq(MaxId(names, ecalls) + 1, g requires 0 <= g < MaxId(names, ecalls) + 1 => StoredId(ecalls, names[g]))
  }

  lemma {:induction false} InternAllHas(names: seq<string>, ecalls: seq<string>)
    ensures forall i :: 0 <= i < |ecalls| ==> IndexOf(InternAll(names, ecalls), ecalls[i]) >= 0
    decreases |ecalls|
  {
    if ecalls != [] {
      var n := |ecalls| - 1;
      var before, after := InternAll(names, ecalls[..n]), InternAll(names, ecalls);
      InternAllHas(names, ecalls[..n]);
      forall i | 0 <= i < |ecalls| ensures IndexOf(after, ecalls[i]) >= 0 {
        if i < n {
          assert ecalls[i] == ecalls[..n][i];
          assert after[IndexOf(before, ecalls[i])] == ecalls[i];
        }
      }
    }
  }

  lemma {:induction false} InternAllDistinct(names: seq<string>, ecalls: seq<string>)
    requires Distinct(names)
    ensures Distinct(InternAll(names, ecalls))
    decreases |ecalls|
  {
    if ecalls != [] {
      InternAllDistinct(names, ecalls[..|ecalls| - 1]);
    }
  }

  /** A registration adds the names of its ecalls and no others. */
  lemma {:induction false} InternAllNames(names: seq<string>, ecalls: seq<string>, name: string)
    ensures name in InternAll(names, ecalls) <==> name in names || name in ecalls
    decreases |ecalls|
  {
    if ecalls != [] {
      var n := |ecalls| - 1;
      InternAllNames(names, ecalls[..n], name);
      assert name in ecalls <==> name in ecalls[..n] || name == ecalls[n];
    }
  }

  /** New names get the next ids, in the order in which they first occur. */
  lemma NewNameNextId(names: seq<string>, ecalls: seq<string>, i: nat)
    requires i < |ecalls| && ecalls[i] !in names && ecalls[i] !in ecalls[..i]
    ensures IndexOf(InternAll(names, ecalls), ecalls[i]) == |InternAll(names, ecalls[..i])|
  {
    hide IndexOf, InternAll;
    var before, after := InternAll(names, ecalls[..i]), InternAll(names, ecalls);
    InternAllNames(names, ecalls[..i], ecalls[i]);
    InternAllSnoc(names, ecalls, i);
    InternAllPrefix(names, ecalls, i + 1);
    assert before + [ecalls[i]] <= after;
    assert after[|before|] == ecalls[i];
    assert forall k :: 0 <= k < |before| ==> after[k] == before[k];
  }

  lemma {:induction false} InternAllPrefix(names: seq<string>, ecalls: seq<string>, i: nat)
    requires i <= |ecalls|
    ensures InternAll(names, ecalls[..i]) <= InternAll(names, ecalls)
    decreases |ecalls| - i
  {
    hide Intern;
    if i < |ecalls| {
      InternAllSnoc(names, ecalls, i);
      InternAllPrefix(names, ecalls, i + 1);
    } else {
      assert ecalls[..i] == ecalls;
    }
  }

  /** A name's id, once given, is the id of that name for good. */
  lemma IdStable(names: seq<string>, names': seq<string>, name: string)
    requires Distinct(names') && names <= names' && IndexOf(names, name) >= 0
    ensures IndexOf(names', name) == IndexOf(names, name)
  {
    var i := IndexOf(names, name);
    assert names'[i] == name;
  }

  // ----- what the two operations come to

  lemma MaxIdInRange(names: seq<string>, ecalls: seq<string>)
    requires ecalls != []
    ensures MaxId(InternAll(names, ecalls), ecalls) < |InternAll(names, ecalls)|
  {
    hide IndexOf, MaxId, InternAll;
    var all := InternAll(names, ecalls);
    InternAllHas(names, ecalls);
    MaxIdBelow(all, ecalls);
  }

  lemma {:induction false} MaxIdBelow(names: seq<string>, ecalls: seq<string>)
    requires ecalls != [] && forall i :: 0 <= i < |ecalls| ==> IndexOf(names, ecalls[i]) >= 0
    ensures MaxId(names, ecalls) < |names|
    decreases |ecalls|
  {
    hide IndexOf;
    var n := |ecalls| - 1;
    assert IndexOf(names, ecalls[n]) >= 0;
    if n > 0 {
      forall i | 0 <= i < n ensures IndexOf(names, ecalls[..n][i]) >= 0 {
        assert ecalls[i] == ecalls[..n][i];
      }
      MaxIdBelow(names, ecalls[..n]);
    }
  }

  /** The names and the enclave's table after a registration. */
  function Registered(names: seq<string>, ecalls: seq<string>): (seq<string>, seq<nat>)
    requires ecalls != []
  {
    MaxIdInRange(names, ecalls);
    (InternAll(names, ecalls), IdTable(InternAll(names, ecalls), ecalls))
  }

  datatype Answer = Answer(names: seq<string>, result: OeResult, globalId: nat, id: nat)

  /** The names, the id to cache and the function id after a lookup in a table. */
  function Fetched(names: seq<string>, ids: seq<nat>, name: string, globalId: nat): Answer {
    var names' := if globalId == NULL_ID then Intern(names, name) else names;
    var globalId' := if globalId == NULL_ID then (InternedId(names, name); IndexOf(names', name)) else globalId;
    var id := Lookup(ids, globalId');
    Answer(names', if id == NULL_ID then NOT_FOUND else OK, globalId', id)
  }

  // ----- the registry

  class Enclave {
    var ecallIdTable: array<nat>

    constructor ()
      ensures fresh(ecallIdTable) && ecallIdTable.Length == 0
    {
      ecallIdTable := new nat[0];
    }
  }

  class Registry {
    var table: array<string>
    var capacity: nat
    var size: nat

    ghost predicate Valid()
      reads this, table
    {
      size <= capacity == table.Length && size <= MAX_NAMES && Distinct(Names())
    }

    ghost function Names(): seq<string>
      requires size <= table.Length
      reads this, table
    {
      table[..size]
    }

    constructor ()
      ensures Valid() && fresh(table) && Names() == []
    {
      table, capacity, size := new string[0], 0, 0;
    }

    /** _get_global_id: an id that was passed in is kept when the name is not found. */
    method GetGlobalId(name: string, globalId: nat) returns (id: nat)
      requires Valid() && (globalId == NULL_ID ==> |Intern(Names(), name)| <= MAX_NAMES)
      modifies this, table
      ensures Valid() && (table == old(table) || fresh(table))
      ensures Names() == if globalId == NULL_ID then Intern(old(Names()), name) else old(Names())
      ensures id == if IndexOf(old(Names()), name) >= 0 then IndexOf(old(Names()), name)
                    else if globalId == NULL_ID then |old(Names())| else globalId
    {
      id := globalId;
      var i := 0;
      while i < size
        invariant i <= size && id == globalId
        invariant forall k :: 0 <= k < i ==> table[k] != name
      {
        if table[i] == name {
          id := i;
          break;
        }
        i := i + 1;
      }
      ghost var found := IndexOf(Names(), name);
      assert i < size ==> Names()[i] == name;
      assert found == if i < size then i else -1;
      if id == NULL_ID {
        Append(name);
        id := size - 1;
      }
    }

    /** Adds a name at the end, doubling the capacity when it is used up. */
    method Append(name: string)
      requires Valid() && size < MAX_NAMES && IndexOf(Names(), name) < 0
      modifies this, table
      ensures Valid() && (table == old(table) || fresh(table))
      ensures Names() == old(Names()) + [name]
    {
      if size == capacity {
        capacity := if capacity == 0 then INITIAL_SIZE else capacity * 2;
        var bigger := new string[capacity](_ => "");
        forall k | 0 <= k < size {
          bigger[k] := table[k];
        }
        table := bigger;
      }
      table[size] := name;
      size := size + 1;
      assert table[..size] == old(table[..size]) + [name];
    }

    /** oe_register_ecalls: two passes over the ecalls, around the allocation of the table. */
    method RegisterEcalls(enclave: Enclave, ecalls: seq<string>) returns (result: OeResult)
      requires Valid() && |InternAll(Names(), ecalls)| <= MAX_NAMES
      modifies this, table, enclave
      ensures Valid() && (table == old(table) || fresh(table))
      ensures ecalls == [] ==>
                result == INVALID_PARAMETER && Names() == old(Names()) && enclave.ecallIdTable == old(enclave.ecallIdTable)
      ensures ecalls != [] ==>
                && result == OK && fresh(enclave.ecallIdTable)
                && (Names(), enclave.ecallIdTable[..]) == Registered(old(Names()), ecalls)
    {
      if ecalls == [] {
        return INVALID_PARAMETER;
      }
      hide IndexOf, InternAll, MaxId, IdTable;
      var maxGlobalId := AssignIds(ecalls);
      InternAllHas(old(Names()), ecalls);
      var ids := new nat[maxGlobalId + 1](_ => NULL_ID);
      FillIds(ecalls, ids);
      enclave.ecallIdTable := ids;
      return OK;
    }

    /** The first pass: assign global ids and find the largest. */
    method AssignIds(ecalls: seq<string>) returns (maxGlobalId: nat)
      requires Valid() && |InternAll(Names(), ecalls)| <= MAX_NAMES && ecalls != []
      modifies this, table
      ensures Valid() && (table == old(table) || fresh(table))
      ensures Names() == InternAll(old(Names()), ecalls)
      ensures maxGlobalId == MaxId(Names(), ecalls) < |Names()|
    {
      hide IndexOf, InternAll, MaxId, Distinct;
      ghost var names := Names();
      maxGlobalId := 0;
      InternNone(names);
      assert ecalls[..0] == [];
      var i := 0;
      while i < |ecalls|
        invariant i <= |ecalls| && Valid() && (table == old(table) || fresh(table))
        invariant Names() == InternAll(names, ecalls[..i])
        invariant maxGlobalId == MaxId(Names(), ecalls[..i])
        invariant i > 0 ==> maxGlobalId < |Names()|
      {
        ghost var before := Names();
        InternAllSnoc(names, ecalls, i);
        InternAllPrefix(names, ecalls, i + 1);
        var globalId := GetGlobalId(ecalls[i], NULL_ID);
        InternedId(before, ecalls[i]);
        MaxIdKept(names, ecalls[..i], before, Names());
        MaxIdSnoc(Names(), ecalls, i);
        if globalId > maxGlobalId {
          maxGlobalId := globalId;
        }
        i := i + 1;
      }
      assert ecalls[..i] == ecalls;
    }

    /** The second pass: every id found again lies inside the table. */
    method FillIds(ecalls: seq<string>, ids: array<nat>)
      requires Valid()
      requires forall i :: 0 <= i < |ecalls| ==> IndexOf(Names(), ecalls[i]) >= 0
      requires MaxId(Names(), ecalls) < |Names()| && ids.Length == MaxId(Names(), ecalls) + 1
      requires forall g :: 0 <= g < ids.Length ==> ids[g] == NULL_ID
      modifies this, table, ids
      ensures Valid() && (table == old(table) || fresh(table)) && Names() == old(Names())
      ensures ids[..] == IdTable(Names(), ecalls)
    {
      hide IndexOf, MaxId, StoredId, Distinct;
      ghost var names := Names();
      assert forall name :: StoredId([], name) == NULL_ID by { NothingStored(); }
      assert ecalls[..0] == [];
      var i := 0;
      while i < |ecalls|
        invariant i <= |ecalls| && Valid() && (table == old(table) || fresh(table))
        invariant Names() == names && size == old(size)
        invariant forall g :: 0 <= g < ids.Length ==> ids[g] == StoredId(ecalls[..i], names[g])
      {
        MaxIdBounds(names, ecalls, i);
        var globalId := GetGlobalId(ecalls[i], NULL_ID);
        assert Names() == names;
        forall g | 0 <= g < ids.Length
          ensures StoredId(ecalls[..i + 1], names[g]) == if g == globalId then i else StoredId(ecalls[..i], names[g])
        {
          StoredIdSnoc(ecalls, i, names[g]);
          SameNameSameId(names, g, globalId);
        }
        ids[globalId] := i;
        i := i + 1;
      }
      assert ecalls[..i] == ecalls;
    }

    /** oe_get_ecall_ids: `globalId` is the caller's cached id, or NULL_ID the first time. */
    method GetEcallIds(enclave: Enclave, name: string, globalId: nat)
      returns (result: OeResult, globalId': nat, id: nat)
      requires Valid() && (globalId == NULL_ID ==> |Intern(Names(), name)| <= MAX_NAMES)
      modifies this, table
      ensures Valid() && (table == old(table) || fresh(table))
      ensures Answer(Names(), result, globalId', id)
           == Fetched(old(Names()), old(enclave.ecallIdTable[..]), name, globalId)
      ensures result == if id == 0xFFFF_FFFF_FFFF_FFFF then NOT_FOUND else OK
      ensures id == if globalId' < enclave.ecallIdTable.Length then enclave.ecallIdTable[globalId'] else 0xFFFF_FFFF_FFFF_FFFF
      ensures globalId != 0xFFFF_FFFF_FFFF_FFFF ==> globalId' == globalId && Names() == old(Names())
    {
      hide IndexOf;
      var idTable := enclave.ecallIdTable;
      id, globalId' := NULL_ID, globalId;
      if globalId' == NULL_ID {
        InternedId(Names(), name);
        globalId' := GetGlobalId(name, globalId');
      }
      if globalId' >= idTable.Length {
        return NOT_FOUND, globalId', NULL_ID;
      }
      id := idTable[globalId'];
      if id == NULL_ID {
        return NOT_FOUND, globalId', id;
      }
      return OK, globalId', id;
    }
  }

  function Lookup(ids: seq<nat>, globalId: nat): nat {
    if globalId < |ids| then ids[globalId] else NULL_ID
  }

  lemma {:induction false} MaxIdStable(names: seq<string>, names': seq<string>, ecalls: seq<string>)
    requires Distinct(names') && names <= names'
    requires forall i :: 0 <= i < |ecalls| ==> IndexOf(names, ecalls[i]) >= 0
    ensures MaxId(names', ecalls) == MaxId(names, ecalls)
    decreases |ecalls|
  {
    hide IndexOf, Distinct;
    if ecalls != [] {
      var n := |ecalls| - 1;
      forall i | 0 <= i < n ensures IndexOf(names, ecalls[..n][i]) >= 0 {
        assert ecalls[i] == ecalls[..n][i];
      }
      MaxIdStable(names, names', ecalls[..n]);
      IdStable(names, names', ecalls[n]);
    }
  }

  lemma MaxIdKept(start: seq<string>, ecalls: seq<string>, names: seq<string>, names': seq<string>)
    requires names == InternAll(start, ecalls) && Distinct(names') && names <= names'
    ensures MaxId(names', ecalls) == MaxId(names, ecalls)
  {
    hide IndexOf, MaxId, InternAll;
    InternAllHas(start, ecalls);
    MaxIdStable(names, names', ecalls);
  }

  lemma InternNone(names: seq<string>)
    ensures InternAll(names, []) == names && MaxId(names, []) == 0
  {
  }

  lemma NothingStored()
    ensures forall name :: StoredId([], name) == NULL_ID
  {
  }

  /** A name's id in the table it has just been added to. */
  lemma InternedId(names: seq<string>, name: string)
    ensures IndexOf(Intern(names, name), name) == if IndexOf(names, name) >= 0 then IndexOf(names, name) else |names|
  {
    hide IndexOf;
    assert Intern(names, name)[|Intern(names, name)| - 1] == name || IndexOf(names, name) >= 0;
  }

  lemma SameNameSameId(names: seq<string>, i: nat, j: nat)
    requires Distinct(names) && i < |names| && j < |names|
    ensures names[i] == names[j] <==> i == j
  {
  }
}
