/** Runs of registrations and lookups over one registry and any number of enclaves. */
module EcallRuns {
  import opened Bytes
  import opened Results
  import opened EcallIds

  /** An enclave's ecalls and the table that registering them left. */
  datatype Registration = Registration(ecalls: seq<string>, ids: seq<nat>)

  datatype World = World(names: seq<string>, enclaves: map<nat, Registration>)

  datatype Op =
    | Register(enclave: nat, ecalls: seq<string>)
    | Fetch(enclave: nat, name: string, globalId: nat)

  const INITIAL := World([], map[])

  /** An enclave that has not been registered has an empty table. */
  function TableOf(w: World, enclave: nat): seq<nat> {
    if enclave in w.enclaves then w.enclaves[enclave].ids else []
  }

  /** One operation, as the registry's own methods are proved to carry it out. */
  function Step(w: World, op: Op): World {
    match op
    case Register(e, ecalls) =>
      if ecalls == [] then w
      else
        var (names, ids) := Registered(w.names, ecalls);
        World(names, w.enclaves[e := Registration(ecalls, ids)])
    case Fetch(e, name, globalId) =>
      World(Fetched(w.names, TableOf(w, e), name, globalId).names, w.enclaves)
  }

  function Run(ops: seq<Op>): World {
    if ops == [] then INITIAL else Step(Run(ops[..|ops| - 1]), ops[|ops| - 1])
  }

  /** An enclave's table is the one its ecalls have under the current names. */
  predicate Consistent(names: seq<string>, r: Registration) {
    && (forall i :: 0 <= i < |r.ecalls| ==> IndexOf(names, r.ecalls[i]) >= 0)
    && MaxId(names, r.ecalls) < |names| && r.ids == IdTable(names, r.ecalls)
  }

  predicate Invariant(w: World) {
    Distinct(w.names) && forall e :: e in w.enclaves ==> Consistent(w.names, w.enclaves[e])
  }

  /** Adding names leaves every enclave's table right. */
  lemma ConsistentGrows(names: seq<string>, names': seq<string>, r: Registration)
    requires Consistent(names, r) && Distinct(names') && names <= names'
    ensures Consistent(names', r)
  {
    hide IndexOf, MaxId, Distinct, StoredId;
    MaxIdStable(names, names', r.ecalls);
    forall i | 0 <= i < |r.ecalls| ensures IndexOf(names', r.ecalls[i]) >= 0 {
      IdStable(names, names', r.ecalls[i]);
    }
    assert IdTable(names', r.ecalls) == IdTable(names, r.ecalls);
  }

  lemma StepKeepsInvariant(w: World, op: Op)
    requires Invariant(w)
    ensures Invariant(Step(w, op)) && w.names <= Step(w, op).names
  {
    hide IndexOf, MaxId, InternAll, IdTable;
    var w' := Step(w, op);
    assert Distinct(w'.names) by {
      if op.Register? {
        InternAllDistinct(w.names, op.ecalls);
      } else {
        InternDistinct(w.names, op.name);
      }
    }
    forall e | e in w'.enclaves ensures Consistent(w'.names, w'.enclaves[e]) {
      if op.Register? && op.ecalls != [] && e == op.enclave {
        InternAllHas(w.names, op.ecalls);
        MaxIdInRange(w.names, op.ecalls);
      } else {
        ConsistentGrows(w.names, w'.names, w.enclaves[e]);
      }
    }
  }

  lemma InternDistinct(names: seq<string>, name: string)
    requires Distinct(names)
    ensures Distinct(Intern(names, name))
  {
  }

  /** After any run, global ids are injective on names and every table is right. */
  lemma {:induction false} RunInvariant(ops: seq<Op>)
    ensures Invariant(Run(ops))
  {
    hide Consistent;
    if ops != [] {
      RunInvariant(ops[..|ops| - 1]);
      StepKeepsInvariant(Run(ops[..|ops| - 1]), ops[|ops| - 1]);
    }
  }

  /** Global ids never change: a longer run only adds names at the end. */
  lemma {:induction false} NamesOnlyGrow(ops: seq<Op>, k: nat)
    requires k <= |ops|
    ensures Run(ops[..k]).names <= Run(ops).names
    decreases |ops|
  {
    if k < |ops| {
      var init := ops[..|ops| - 1];
      assert init[..k] == ops[..k];
      NamesOnlyGrow(init, k);
      RunInvariant(init);
      StepKeepsInvariant(Run(init), ops[|ops| - 1]);
    } else {
      assert ops[..k] == ops;
    }
  }

  /** No cached id yet, or the id that the name has. */
  predicate CorrectlyCached(names: seq<string>, name: string, globalId: nat) {
    globalId == NULL_ID || (globalId < |names| && names[globalId] == name)
  }

  /** A correctly cached id stays correct. */
  lemma CacheStaysCorrect(ops: seq<Op>, k: nat, name: string, globalId: nat)
    requires k <= |ops| && CorrectlyCached(Run(ops[..k]).names, name, globalId)
    ensures CorrectlyCached(Run(ops).names, name, globalId)
  {
    NamesOnlyGrow(ops, k);
  }

  /** In any reachable world, a lookup with a fresh or correctly cached id gives the last of the
      enclave's ecalls with that name, and nothing if there is none. The id that the caller then
      caches is that of the name: the one it has, or that of the name now added at the end. */
  lemma LookupIsSearch(ops: seq<Op>, enclave: nat, name: string, globalId: nat)
    requires enclave in Run(ops).enclaves && CorrectlyCached(Run(ops).names, name, globalId)
    ensures var w := Run(ops);
            var answer := Fetched(w.names, w.enclaves[enclave].ids, name, globalId);
            && answer.id == StoredId(w.enclaves[enclave].ecalls, name)
            && answer.result == (if answer.id == NULL_ID then NOT_FOUND else OK)
            && ((forall i :: 0 <= i < |w.enclaves[enclave].ecalls| ==> w.enclaves[enclave].ecalls[i] != name) ==>
                  answer.id == 0xFFFF_FFFF_FFFF_FFFF)
            && answer.globalId < |answer.names| && answer.names[answer.globalId] == name
            && (globalId != NULL_ID ==> answer.globalId == globalId && answer.names == w.names)
            && answer.names == (if globalId == NULL_ID && name !in w.names then w.names + [name] else w.names)
  {
    hide IndexOf, MaxId, IdTable, Run, StoredId;
    var w := Run(ops);
    RunInvariant(ops);
    var r := w.enclaves[enclave];
    InternedId(w.names, name);
    StepKeepsInvariant(w, Fetch(enclave, name, globalId));
    var answer := Fetched(w.names, r.ids, name, globalId);
    TableIsSearch(answer.names, r, name, answer.globalId);
    NoneStored(r.ecalls, name);
  }

  lemma NoneStored(ecalls: seq<string>, name: string)
    ensures (forall i :: 0 <= i < |ecalls| ==> ecalls[i] != name) ==> StoredId(ecalls, name) == 0xFFFF_FFFF_FFFF_FFFF
  {
  }

  lemma TableIsSearch(names: seq<string>, r: Registration, name: string, id: nat)
    requires Distinct(names) && Consistent(names, r) && id < |names| && names[id] == name
    ensures Lookup(r.ids, id) == StoredId(r.ecalls, name)
  {
    hide IndexOf, MaxId, LastIndexOf;
    if id >= |r.ids| {
      forall i | 0 <= i < |r.ecalls| ensures r.ecalls[i] != name {
        MaxIdBounds(names, r.ecalls, i);
        SameNameSameId(names, id, IndexOf(names, r.ecalls[i]));
      }
    }
  }
}
