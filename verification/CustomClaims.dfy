/** Custom claims in a flat buffer (common/custom_claims.c): a header, then per claim two sizes,
    the name with its terminator, and the value. */
module CustomClaims {
  import opened Bytes
  import opened Results

  const CLAIMS_VERSION := 1
  const HEADER_SIZE := 16
  const ENTRY_SIZE := 16
  const CLAIM_STRUCT_SIZE := 24

  /** A claim given to the serializer; the name is the C string's characters. */
  datatype Claim = Claim(name: seq<byte>, value: seq<byte>)

  predicate Valid(c: Claim) {
    && (forall i :: 0 <= i < |c.name| ==> c.name[i] != 0)
    && |c.name| + 1 < UINT64_LIMIT && |c.value| < UINT64_LIMIT
  }

  predicate AllValid(claims: seq<Claim>) {
    forall i :: 0 <= i < |claims| ==> Valid(claims[i])
  }

  /** A claim as the deserializer stores it: the name's memory, terminator included. */
  datatype Stored = Stored(name: seq<byte>, value: seq<byte>)

  function Terminated(c: Claim): Stored {
    Stored(c.name + [0], c.value)
  }

  function AllTerminated(claims: seq<Claim>): seq<Stored> {
    seq(|claims|, i requires 0 <= i < |claims| => Terminated(claims[i]))
  }

  // ----- the format

  function Entry(c: Stored): (s: seq<byte>)
    ensures |s| == ENTRY_SIZE + |c.name| + |c.value|
  {
    LittleEndian(|c.name|, 8) + (LittleEndian(|c.value|, 8) + (c.name + c.value))
  }

  function Entries(claims: seq<Stored>): seq<byte> {
    if claims == [] then [] else Entries(claims[..|claims| - 1]) + Entry(claims[|claims| - 1])
  }

  function Header(count: nat): (s: seq<byte>)
    ensures |s| == HEADER_SIZE
  {
    LittleEndian(CLAIMS_VERSION, 8) + LittleEndian(count, 8)
  }

  function Encoded(claims: seq<Claim>): seq<byte> {
    Header(|claims|) + Entries(AllTerminated(claims))
  }

  lemma EntriesSnoc(claims: seq<Claim>, n: nat)
    requires n < |claims|
    ensures Entries(AllTerminated(claims[..n + 1]))
         == Entries(AllTerminated(claims[..n])) + Entry(Terminated(claims[n]))
  {
    var s := AllTerminated(claims[..n + 1]);
    assert s[..|s| - 1] == AllTerminated(claims[..n]);
  }

  lemma {:induction false} EntriesGrow(claims: seq<Claim>, n: nat)
    requires n <= |claims|
    ensures |Entries(AllTerminated(claims[..n]))| <= |Entries(AllTerminated(claims))|
    decreases |claims| - n
  {
    if n < |claims| {
      EntriesSnoc(claims, n);
      EntriesGrow(claims, n + 1);
    } else {
      assert claims[..n] == claims;
    }
  }

  // ----- what stands where in the encoding

  /** Where claim `k` begins: behind the header of 16 bytes and the claims before it. */
  function Place(claims: seq<Claim>, k: nat): nat
    requires k <= |claims|
  {
    if k == 0 then 16 else Place(claims, k - 1) + 16 + |claims[k - 1].name| + 1 + |claims[k - 1].value|
  }

  /** The size of the name with its terminator, the size of the value, the name, a zero, the value. */
  predicate ClaimAt(s: seq<byte>, at: nat, c: Claim) {
    && at + 16 + |c.name| + 1 + |c.value| <= |s|
    && FromLittleEndian(s[at..at + 8]) == |c.name| + 1
    && FromLittleEndian(s[at + 8..at + 16]) == |c.value|
    && s[at + 16..at + 16 + |c.name|] == c.name && s[at + 16 + |c.name|] == 0
    && s[at + 17 + |c.name|..at + 17 + |c.name| + |c.value|] == c.value
  }

  lemma {:induction false} PlaceIsLength(claims: seq<Claim>, k: nat)
    requires k <= |claims|
    ensures 16 + |Entries(AllTerminated(claims[..k]))| == Place(claims, k)
  {
    hide Entry, AllTerminated;
    if k == 0 {
      assert claims[..0] == [];
      EntriesOfNone();
    } else {
      PlaceIsLength(claims, k - 1);
      EntriesSnoc(claims, k - 1);
    }
  }

  lemma EntryLayout(before: seq<byte>, c: Claim, after: seq<byte>)
    requires Valid(c)
    ensures ClaimAt(before + Entry(Terminated(c)) + after, |before|, c)
  {
    hide LittleEndian, FromLittleEndian;
    var s, at, n, v := before + Entry(Terminated(c)) + after, |before|, |c.name| + 1, |c.value|;
    Pow256Values();
    LittleEndianRoundTrip(n, 8);
    LittleEndianRoundTrip(v, 8);
    assert s[at..at + 8] == LittleEndian(n, 8);
    assert s[at + 8..at + 16] == LittleEndian(v, 8);
    EntryAssoc(before, Terminated(c));
    var name := before + LittleEndian(n, 8) + LittleEndian(v, 8);
    var value := name + (c.name + [0]);
    assert s == value + c.value + after && |value| == at + 17 + |c.name|;
    assert s[|value|..|value| + |c.value|] == c.value;
    assert s[|name|..|name| + |c.name|] == c.name;
  }

  lemma {:induction false} EntriesSplit(claims: seq<Claim>, k: nat, n: nat)
    requires k < n <= |claims|
    ensures exists after :: Entries(AllTerminated(claims[..n]))
                         == Entries(AllTerminated(claims[..k])) + Entry(Terminated(claims[k])) + after
    decreases n
  {
    hide Entry, AllTerminated, Entries;
    var before, e := Entries(AllTerminated(claims[..k])), Entry(Terminated(claims[k]));
    EntriesSnoc(claims, n - 1);
    if k == n - 1 {
      assert before + e == before + e + [];
    } else {
      EntriesSplit(claims, k, n - 1);
      var after :| Entries(AllTerminated(claims[..n - 1])) == before + e + after;
      var last := Entry(Terminated(claims[n - 1]));
      assert before + e + after + last == before + e + (after + last);
    }
  }

  lemma HeaderLayout(count: uint64, after: seq<byte>)
    ensures var s := Header(count) + after;
            FromLittleEndian(s[0..8]) == 1 && FromLittleEndian(s[8..16]) == count
  {
    hide LittleEndian, FromLittleEndian;
    var s := Header(count) + after;
    Pow256Values();
    LittleEndianRoundTrip(1, 8);
    LittleEndianRoundTrip(count, 8);
    assert s[0..8] == LittleEndian(1, 8) && s[8..16] == LittleEndian(count, 8);
  }

  /** The version, the number of claims, and each claim in its place. */
  lemma EncodedLayout(claims: seq<Claim>, k: nat)
    requires AllValid(claims) && k < |claims| < UINT64_LIMIT
    ensures |Encoded(claims)| == Place(claims, |claims|) >= 16
    ensures FromLittleEndian(Encoded(claims)[0..8]) == 1 && FromLittleEndian(Encoded(claims)[8..16]) == |claims|
    ensures ClaimAt(Encoded(claims), Place(claims, k), claims[k])
  {
    hide FromLittleEndian, Header, Entry, AllTerminated, Entries, ClaimAt, AllValid;
    var n := |claims|;
    assert claims[..n] == claims;
    PlaceIsLength(claims, n);
    PlaceIsLength(claims, k);
    var before, e, all := Entries(AllTerminated(claims[..k])), Entry(Terminated(claims[k])), Entries(AllTerminated(claims));
    HeaderLayout(n, all);
    EntriesSplit(claims, k, n);
    var after :| all == before + e + after;
    Regrouped(Header(n), before, e, after);
    assert Valid(claims[k]) by { ValidAt(claims, k); }
    EntryLayout(Header(n) + before, claims[k], after);
  }

  lemma Regrouped(a: seq<byte>, b: seq<byte>, c: seq<byte>, d: seq<byte>)
    ensures a + (b + c + d) == (a + b) + c + d
  {
  }

  lemma ValidAt(claims: seq<Claim>, k: nat)
    requires AllValid(claims) && k < |claims|
    ensures Valid(claims[k])
  {
  }

  // ----- serializing

  /** The size of the encoding, or an overflow exactly when that size needs more than 64 bits. */
  method GetClaimsSize(claims: seq<Claim>) returns (r: Result<nat, OeResult>)
    requires AllValid(claims)
    ensures r == if |Encoded(claims)| < UINT64_LIMIT then Success(|Encoded(claims)|) else Failure(INTEGER_OVERFLOW)
  {
    hide Entries, Entry, AllTerminated;
    var size: nat := HEADER_SIZE;
    var i := 0;
    assert |Entries(AllTerminated(claims[..0]))| == 0 by { assert claims[..0] == []; EntriesOfNone(); }
    while i < |claims|
      invariant 0 <= i <= |claims|
      invariant size == HEADER_SIZE + |Entries(AllTerminated(claims[..i]))| < UINT64_LIMIT
    {
      EntriesSnoc(claims, i);
      EntriesGrow(claims, i + 1);
      size := size + ENTRY_SIZE;
      if size >= UINT64_LIMIT {
        return Failure(INTEGER_OVERFLOW);
      }
      size := size + |claims[i].name| + 1;
      if size >= UINT64_LIMIT {
        return Failure(INTEGER_OVERFLOW);
      }
      size := size + |claims[i].value|;
      if size >= UINT64_LIMIT {
        return Failure(INTEGER_OVERFLOW);
      }
      i := i + 1;
    }
    assert claims[..i] == claims;
    return Success(size);
  }

  lemma EntriesOfNone()
    ensures Entries(AllTerminated([])) == []
  {
  }

  /** Writes one entry at `pos`. */
  method FillEntry(c: Claim, out: array<byte>, pos: nat) returns (next: nat)
    requires Valid(c) && pos + |Entry(Terminated(c))| <= out.Length
    modifies out
    ensures next == pos + |Entry(Terminated(c))|
    ensures out[..next] == old(out[..pos]) + Entry(Terminated(c))
  {
    hide LittleEndian;
    var nameSize, valueSize := |c.name| + 1, |c.value|;
    ghost var was := out[..pos];
    Put(out, pos, LittleEndian(nameSize, 8));
    Put(out, pos + 8, LittleEndian(valueSize, 8));
    assert out[..pos + 16] == was + LittleEndian(nameSize, 8) + LittleEndian(valueSize, 8);
    Put(out, pos + 16, c.name + [0]);
    Put(out, pos + 16 + nameSize, c.value);
    next := pos + 16 + nameSize + valueSize;
    EntryAssoc(was, Terminated(c));
  }

  lemma EntryAssoc(was: seq<byte>, c: Stored)
    ensures was + LittleEndian(|c.name|, 8) + LittleEndian(|c.value|, 8) + c.name + c.value == was + Entry(c)
  {
    hide LittleEndian;
  }

  /** The buffer, which has exactly the computed size, ends up holding exactly the encoding. */
  method FillBuffer(claims: seq<Claim>, out: array<byte>)
    requires AllValid(claims) && out.Length == |Encoded(claims)|
    modifies out
    ensures out[..] == Encoded(claims)
  {
    hide Entries, Entry, AllTerminated, LittleEndian;
    Put(out, 0, LittleEndian(CLAIMS_VERSION, 8));
    Put(out, 8, LittleEndian(|claims|, 8));
    assert out[..HEADER_SIZE] == Header(|claims|);
    var pos: nat := HEADER_SIZE;
    var i := 0;
    assert claims[..0] == [];
    EntriesOfNone();
    while i < |claims|
      invariant 0 <= i <= |claims|
      invariant pos == HEADER_SIZE + |Entries(AllTerminated(claims[..i]))| <= out.Length
      invariant out[..pos] == Header(|claims|) + Entries(AllTerminated(claims[..i]))
    {
      EntriesSnoc(claims, i);
      EntriesGrow(claims, i + 1);
      pos := FillEntry(claims[i], out, pos);
      i := i + 1;
    }
    assert claims[..i] == claims && out[..] == out[..pos];
  }

  method Serialize(claims: seq<Claim>) returns (r: Result<seq<byte>, OeResult>)
    requires AllValid(claims)
    ensures r == if |Encoded(claims)| < UINT64_LIMIT then Success(Encoded(claims)) else Failure(INTEGER_OVERFLOW)
  {
    var size :- GetClaimsSize(claims);
    var buffer := new byte[size];
    FillBuffer(claims, buffer);
    return Success(buffer[..]);
  }

  // ----- deserializing

  /** Reads one entry, giving the claim and the place after it. The byte tested for the
      terminator is the one before the value, even when the name is said to be empty. */
  function ReadEntry(buf: seq<byte>, pos: nat): (r: Result<(Stored, nat), OeResult>)
    requires pos <= |buf|
    ensures r.Success? ==> pos + ENTRY_SIZE <= r.value.1 <= |buf|
  {
    if |buf| - pos < ENTRY_SIZE then Failure(CONSTRAINT_FAILED)
    else
      var nameSize, valueSize := Read64(buf, pos), Read64(buf, pos + 8);
      var size := ENTRY_SIZE + nameSize + valueSize;
      if size >= UINT64_LIMIT then Failure(INTEGER_OVERFLOW)
      else if |buf| - pos < size then Failure(CONSTRAINT_FAILED)
      else
        var name := pos + ENTRY_SIZE;
        if buf[name + nameSize - 1] != 0 then Failure(CONSTRAINT_FAILED)
        else Success((Stored(buf[name..name + nameSize], buf[name + nameSize..pos + size]), pos + size))
  }

  /** When an entry is refused, and why. */
  lemma EntryRefused(buf: seq<byte>, pos: nat)
    requires pos <= |buf|
    ensures pos + 16 > |buf| ==> ReadEntry(buf, pos) == Failure(CONSTRAINT_FAILED)
    ensures pos + 16 <= |buf| ==>
              var n, v := FromLittleEndian(buf[pos..pos + 8]), FromLittleEndian(buf[pos + 8..pos + 16]);
              && (ReadEntry(buf, pos) == Failure(INTEGER_OVERFLOW) <==> 16 + n + v >= UINT64_LIMIT)
              && (ReadEntry(buf, pos).Success? <==> pos + 16 + n + v <= |buf| && 16 + n + v < UINT64_LIMIT && buf[pos + 16 + n - 1] == 0)
              && (ReadEntry(buf, pos).Success? ==>
                    ReadEntry(buf, pos).value == (Stored(buf[pos + 16..pos + 16 + n], buf[pos + 16 + n..pos + 16 + n + v]), pos + 16 + n + v))
  {
  }

  /** The first `n` entries after `pos`. */
  function ReadEntries(buf: seq<byte>, pos: nat, n: nat): (r: Result<(seq<Stored>, nat), OeResult>)
    requires pos <= |buf|
    ensures r.Success? ==> pos <= r.value.1 <= |buf| && |r.value.0| == n
  {
    if n == 0 then Success(([], pos))
    else
      var (claims, at) :- ReadEntries(buf, pos, n - 1);
      var (claim, next) :- ReadEntry(buf, at);
      Success((claims + [claim], next))
  }

  function Decoded(buf: seq<byte>): Result<seq<Stored>, OeResult> {
    if |buf| < HEADER_SIZE || Read64(buf, 0) != CLAIMS_VERSION then Failure(CONSTRAINT_FAILED)
    else
      var count := Read64(buf, 8);
      if count * CLAIM_STRUCT_SIZE >= UINT64_LIMIT then Failure(INTEGER_OVERFLOW)
      else
        var (claims, _) :- ReadEntries(buf, HEADER_SIZE, count);
        Success(claims)
  }

  /** Which buffers are refused before any claim is read. */
  lemma HeaderRefused(buf: seq<byte>)
    ensures |buf| < 16 ==> Decoded(buf) == Failure(CONSTRAINT_FAILED)
    ensures |buf| >= 16 && FromLittleEndian(buf[0..8]) != 1 ==> Decoded(buf) == Failure(CONSTRAINT_FAILED)
    ensures |buf| >= 16 && FromLittleEndian(buf[0..8]) == 1 && FromLittleEndian(buf[8..16]) * 24 >= UINT64_LIMIT ==>
              Decoded(buf) == Failure(INTEGER_OVERFLOW)
  {
  }

  lemma {:induction false} FailureStays(buf: seq<byte>, pos: nat, k: nat, n: nat)
    requires pos <= |buf| && k <= n && ReadEntries(buf, pos, k).Failure?
    ensures ReadEntries(buf, pos, n) == ReadEntries(buf, pos, k)
    decreases n
  {
    hide ReadEntry;
    if k < n {
      FailureStays(buf, pos, k, n - 1);
    }
  }

  /** The first entry that is refused decides the error of the whole. */
  lemma FirstRefusedDecides(buf: seq<byte>, k: nat)
    requires |buf| >= 16 && FromLittleEndian(buf[0..8]) == 1 && FromLittleEndian(buf[8..16]) * 24 < UINT64_LIMIT
    requires k < FromLittleEndian(buf[8..16]) && ReadEntries(buf, 16, k).Success?
    requires ReadEntry(buf, ReadEntries(buf, 16, k).value.1).Failure?
    ensures Decoded(buf) == Failure(ReadEntry(buf, ReadEntries(buf, 16, k).value.1).error)
  {
    hide ReadEntry, FromLittleEndian;
    FailureStays(buf, 16, k + 1, FromLittleEndian(buf[8..16]));
  }

  method FillArray(buf: seq<byte>) returns (r: Result<seq<Stored>, OeResult>)
    requires |buf| >= HEADER_SIZE
    ensures var spec := ReadEntries(buf, HEADER_SIZE, Read64(buf, 8));
            r == if spec.Success? then Success(spec.value.0) else Failure(spec.error)
  {
    hide Read64;
    var count := Read64(buf, 8);
    var claims: seq<Stored> := [];
    var pos, i := HEADER_SIZE, 0;
    while i < count
      invariant 0 <= i <= count && HEADER_SIZE <= pos <= |buf|
      invariant ReadEntries(buf, HEADER_SIZE, i) == Success((claims, pos))
    {
      hide ReadEntry;
      var entry := ReadEntry(buf, pos);
      if entry.Failure? {
        FailureStays(buf, HEADER_SIZE, i + 1, count);
        return Failure(entry.error);
      }
      claims, pos, i := claims + [entry.value.0], entry.value.1, i + 1;
    }
    return Success(claims);
  }

  /** A missing buffer is noticed only when its stated size could hold a header. */
  method Deserialize(buffer: Option<seq<byte>>, size: nat) returns (r: Result<seq<Stored>, OeResult>)
    requires buffer.Some? ==> |buffer.value| == size
    ensures buffer.Some? ==> r == Decoded(buffer.value)
    ensures buffer.None? ==> r == Failure(if size < HEADER_SIZE then CONSTRAINT_FAILED else INVALID_PARAMETER)
  {
    hide ReadEntries, Read64;
    if size < HEADER_SIZE {
      return Failure(CONSTRAINT_FAILED);
    }
    if buffer.None? {
      return Failure(INVALID_PARAMETER);
    }
    if Read64(buffer.value, 0) != CLAIMS_VERSION {
      return Failure(CONSTRAINT_FAILED);
    }
    if Read64(buffer.value, 8) * CLAIM_STRUCT_SIZE >= UINT64_LIMIT {
      return Failure(INTEGER_OVERFLOW);
    }
    r := FillArray(buffer.value);
  }

  // ----- the two undo each other

  lemma EntryAt(buf: seq<byte>, pos: nat, c: Stored)
    requires |Entry(c)| < UINT64_LIMIT && c.name != [] && c.name[|c.name| - 1] == 0
    requires At(buf, pos, Entry(c))
    ensures ReadEntry(buf, pos) == Success((c, pos + |Entry(c)|))
  {
    hide LittleEndian, Read64, At, ReadEntry;
    var n, v := |c.name|, |c.value|;
    AtAppend(buf, pos, LittleEndian(n, 8), LittleEndian(v, 8) + (c.name + c.value));
    AtAppend(buf, pos + 8, LittleEndian(v, 8), c.name + c.value);
    AtAppend(buf, pos + 16, c.name, c.value);
    Read64At(buf, pos, n);
    Read64At(buf, pos + 8, v);
    FieldsAt(buf, pos + 16, c);
    EntryReads(buf, pos, n, v);
  }

  lemma EntryReads(buf: seq<byte>, pos: nat, n: nat, v: nat)
    requires pos + 16 + n + v <= |buf| && 16 + n + v < UINT64_LIMIT && buf[pos + 16 + n - 1] == 0
    requires Read64(buf, pos) == n && Read64(buf, pos + 8) == v
    ensures ReadEntry(buf, pos)
         == Success((Stored(buf[pos + 16..pos + 16 + n], buf[pos + 16 + n..pos + 16 + n + v]), pos + 16 + n + v))
  {
    hide Read64;
  }

  lemma FieldsAt(buf: seq<byte>, pos: nat, c: Stored)
    requires At(buf, pos, c.name) && At(buf, pos + |c.name|, c.value) && c.name != []
    ensures pos + |c.name| + |c.value| <= |buf|
    ensures buf[pos + |c.name| - 1] == c.name[|c.name| - 1]
    ensures buf[pos..pos + |c.name|] == c.name
    ensures buf[pos + |c.name|..pos + |c.name| + |c.value|] == c.value
  {
    assert buf[pos + |c.name| - 1] == buf[pos..pos + |c.name|][|c.name| - 1];
  }

  lemma {:induction false} EntriesAt(buf: seq<byte>, pos: nat, claims: seq<Claim>)
    requires AllValid(claims) && |Entries(AllTerminated(claims))| < UINT64_LIMIT
    requires At(buf, pos, Entries(AllTerminated(claims)))
    ensures ReadEntries(buf, pos, |claims|)
         == Success((AllTerminated(claims), pos + |Entries(AllTerminated(claims))|))
    decreases |claims|
  {
    hide Entry, ReadEntry;
    if claims == [] {
      EntriesOfNone();
    } else {
      var n := |claims| - 1;
      var init, last := claims[..n], Terminated(claims[n]);
      EntriesSnoc(claims, n);
      assert claims[..n + 1] == claims;
      AtAppend(buf, pos, Entries(AllTerminated(init)), Entry(last));
      EntriesAt(buf, pos, init);
      EntryAt(buf, pos + |Entries(AllTerminated(init))|, last);
      assert AllTerminated(claims) == AllTerminated(init) + [last];
    }
  }

  /** Deserializing what was serialized, whatever bytes follow, returns the same claims. The
      bound on the count holds of every array of claims in memory. */
  lemma DecodeUndoesEncode(claims: seq<Claim>, trailing: seq<byte>)
    requires AllValid(claims) && |claims| * 24 < UINT64_LIMIT
    requires |Encoded(claims)| < UINT64_LIMIT
    ensures Decoded(Encoded(claims) + trailing) == Success(AllTerminated(claims))
  {
    hide LittleEndian, Read64, Entries, ReadEntries, AllTerminated;
    var buf := Encoded(claims) + trailing;
    var entries := Entries(AllTerminated(claims));
    assert At(buf, 0, LittleEndian(CLAIMS_VERSION, 8));
    assert At(buf, 8, LittleEndian(|claims|, 8));
    assert At(buf, HEADER_SIZE, entries) by {
      assert buf[HEADER_SIZE..HEADER_SIZE + |entries|] == entries;
    }
    Read64At(buf, 0, CLAIMS_VERSION);
    Read64At(buf, 8, |claims|);
    EntriesAt(buf, HEADER_SIZE, claims);
  }

  lemma ReadEntryIsEntry(buf: seq<byte>, pos: nat)
    requires pos <= |buf| && ReadEntry(buf, pos).Success?
    ensures var (claim, next) := ReadEntry(buf, pos).value; buf[pos..next] == Entry(claim)
  {
    hide LittleEndian, Read64;
    var (claim, next) := ReadEntry(buf, pos).value;
    Read64Image(buf, pos);
    Read64Image(buf, pos + 8);
    var n := Read64(buf, pos);
    assert buf[pos..next]
        == buf[pos..pos + 8] + (buf[pos + 8..pos + 16] + (buf[pos + 16..pos + 16 + n] + buf[pos + 16 + n..next]));
  }

  lemma {:induction false} ReadEntriesIsEntries(buf: seq<byte>, pos: nat, n: nat)
    requires pos <= |buf| && ReadEntries(buf, pos, n).Success?
    ensures var (claims, next) := ReadEntries(buf, pos, n).value; buf[pos..next] == Entries(claims)
  {
    hide Entry, ReadEntry;
    if n > 0 {
      var (init, at) := ReadEntries(buf, pos, n - 1).value;
      var (claim, next) := ReadEntry(buf, at).value;
      ReadEntriesIsEntries(buf, pos, n - 1);
      ReadEntryIsEntry(buf, at);
      assert (init + [claim])[..n - 1] == init;
      assert buf[pos..next] == buf[pos..at] + buf[at..next];
    }
  }

  /** Every accepted buffer, wherever it came from, begins with the encoding of what was read
      from it, so two buffers with the same bytes there cannot decode differently, and the reader
      stays inside the buffer. */
  lemma EncodeUndoesDecode(buf: seq<byte>)
    requires Decoded(buf).Success?
    ensures var claims := Decoded(buf).value;
            Header(|claims|) + Entries(claims) <= buf
  {
    hide LittleEndian, Read64, Entries, ReadEntries;
    var count := Read64(buf, 8);
    var (claims, next) := ReadEntries(buf, HEADER_SIZE, count).value;
    ReadEntriesIsEntries(buf, HEADER_SIZE, count);
    Read64Image(buf, 0);
    Read64Image(buf, 8);
    assert buf[..next] == buf[0..8] + buf[8..16] + buf[HEADER_SIZE..next];
  }

  predicate Ends(name: seq<byte>) {
    name != [] && name[|name| - 1] == 0
  }

  /** A name that was read ends in its terminator exactly when its stated size is not zero. */
  lemma NameEnds(buf: seq<byte>, pos: nat)
    requires pos <= |buf| && ReadEntry(buf, pos).Success?
    ensures Ends(ReadEntry(buf, pos).value.0.name) <==> Read64(buf, pos) != 0
  {
    hide Read64;
  }

  /** An entry of sixteen zero bytes is accepted, and its name has no terminator. */
  lemma EmptyNameAccepted()
    ensures ReadEntry(Zeros(ENTRY_SIZE), 0) == Success((Stored([], []), ENTRY_SIZE))
  {
    hide Read64;
    var buf := Zeros(ENTRY_SIZE);
    assert buf[0..8] == Zeros(8) && buf[8..16] == Zeros(8);
    assert buf[15] == 0 && buf[16..16] == [];
    ZeroImage();
    Read64At(buf, 0, 0);
    Read64At(buf, 8, 0);
  }
}
