/** The SGX extension of a PCK certificate (common/sgx/sgxcertextensions.c): a nested DER
    reader, proved to undo the encoding of ITU-T X.690.

    A cursor is an index into the extension's bytes. The length reader compares addresses, which
    wrap around; it is proved to compare indices exactly when they do not. */
module SgxExtensions {
  import opened Bytes
  import opened Results

  const BOOLEAN_TAG: byte := 0x01
  const INTEGER_TAG: byte := 0x02
  const OCTET_STRING_TAG: byte := 0x04
  const OBJECT_ID_TAG: byte := 0x06
  const ENUMERATION_TAG: byte := 0x0a
  const SEQUENCE_TAG: byte := 0x30

  const NUM_COMPS := 16

  // ----- lengths

  /** A length, and the cursor behind it. */
  datatype Length = Length(value: nat, next: nat)

  /** What is found at the cursor, before it is checked. Length bytes that run past the end
      give a partial value and leave the cursor where it was. */
  function LengthAt(buf: seq<byte>, itr: nat, end: nat): Length
    requires itr < end <= |buf|
  {
    var b := buf[itr];
    if b < 0x80 then Length(b, itr + 1)
    else
      var n := b - 0x80;
      var k := if n <= end - itr - 1 then n else end - itr - 1;
      Length(FromBigEndian(buf[itr + 1..itr + 1 + k]) % UINT64_LIMIT,
             if 0 < n == k then itr + 1 + n else itr)
  }

  function ReadLength(buf: seq<byte>, itr: nat, end: nat): (r: Result<Length, OeResult>)
    requires itr <= end <= |buf|
    ensures r.Success? ==> itr <= r.value.next && 0 < r.value.value && r.value.next + r.value.value <= end
    ensures r.Failure? ==> r.error == INVALID_SGX_CERTIFICATE_EXTENSIONS
  {
    if itr == end then Failure(INVALID_SGX_CERTIFICATE_EXTENSIONS)
    else
      var l := LengthAt(buf, itr, end);
      if l.value != 0 && l.next + l.value <= end then Success(l) else Failure(INVALID_SGX_CERTIFICATE_EXTENSIONS)
  }

  /** The same, with the length tested on addresses: the extension's bytes begin at `addr`. */
  function AddressedLength(buf: seq<byte>, itr: nat, end: nat, addr: nat): (r: Result<Length, OeResult>)
    requires itr <= end <= |buf|
  {
    if itr == end then Failure(INVALID_SGX_CERTIFICATE_EXTENSIONS)
    else
      var l := LengthAt(buf, itr, end);
      if l.value != 0 && (addr + l.next + l.value) % UINT64_LIMIT <= addr + end then Success(l)
      else Failure(INVALID_SGX_CERTIFICATE_EXTENSIONS)
  }

  /** The address test is the index test exactly when no address wraps around; when one does, a
      length that runs past the end is accepted. What the index test accepts never wraps. */
  lemma AddressedIff(buf: seq<byte>, itr: nat, end: nat, addr: nat)
    requires itr < end <= |buf| && addr + |buf| < UINT64_LIMIT
    ensures var l := LengthAt(buf, itr, end);
            && (AddressedLength(buf, itr, end, addr) == ReadLength(buf, itr, end) <==> addr + l.next + l.value < UINT64_LIMIT)
            && (addr + l.next + l.value >= UINT64_LIMIT ==> AddressedLength(buf, itr, end, addr) == Success(l))
    ensures ReadLength(buf, itr, end).Success? ==> AddressedLength(buf, itr, end, addr) == ReadLength(buf, itr, end)
  {
    hide FromBigEndian;
    var l := LengthAt(buf, itr, end);
    var sum := addr + l.next + l.value;
    assert l.value < UINT64_LIMIT && l.next <= end;
    if sum >= UINT64_LIMIT {
      assert sum % UINT64_LIMIT == sum - UINT64_LIMIT;
    }
  }

  /** A length of 2^64 - 1, which is accepted at every address. */
  lemma WrappedLengthAccepted(addr: nat)
    requires addr + 9 < UINT64_LIMIT
    ensures var buf := [0x88] + BigEndian(UINT64_LIMIT - 1, 8);
            && ReadLength(buf, 0, 9).Failure?
            && AddressedLength(buf, 0, 9, addr) == Success(Length(UINT64_LIMIT - 1, 9))
  {
    hide FromBigEndian, BigEndian;
    var buf := [0x88] + BigEndian(UINT64_LIMIT - 1, 8);
    Pow256Values();
    BigEndianRoundTrip(UINT64_LIMIT - 1, 8);
    assert buf[1..9] == BigEndian(UINT64_LIMIT - 1, 8);
    AddressedIff(buf, 0, 9, addr);
  }

  /** How many bytes the length at the cursor says it has behind its first. */
  function LengthBytes(b: byte): nat {
    if b < 0x80 then 0 else b - 0x80
  }

  /** An accepted length was read whole, and the cursor stands behind it, exactly when its bytes
      end before the end. */
  lemma AcceptedWhole(buf: seq<byte>, itr: nat, end: nat)
    requires itr < end <= |buf| && ReadLength(buf, itr, end).Success?
    ensures var behind := itr + 1 + LengthBytes(buf[itr]);
            ReadLength(buf, itr, end).value.next == behind <==> behind <= end
  {
    hide FromBigEndian;
    EmptySlice(buf, itr + 1);
  }

  lemma EmptySlice(buf: seq<byte>, i: nat)
    requires i <= |buf|
    ensures FromBigEndian(buf[i..i]) == 0
  {
    assert buf[i..i] == [];
  }

  /** A length of two bytes with only one of them there: it is accepted, and the cursor stays. */
  lemma CutLengthAccepted()
    ensures ReadLength([0x82, 1], 0, 2) == Success(Length(1, 0))
  {
    var buf: seq<byte> := [0x82, 1];
    assert buf[1..2] == [1];
    assert FromBigEndian([1]) == 1 by {
      assert [1 as byte][..0] == [];
    }
  }

  /** _read_asn1_length */
  method ReadAsn1Length(buf: seq<byte>, itr: nat, end: nat, addr: nat) returns (r: Result<Length, OeResult>)
    requires itr <= end <= |buf| && addr + |buf| < UINT64_LIMIT
    ensures r == AddressedLength(buf, itr, end, addr)
  {
    hide FromBigEndian;
    assert FromBigEndian([]) == 0 by { EmptyValue(); }
    var p: nat, length: nat, next: nat := itr, 0, itr;
    if p < end {
      if buf[p] < 0x80 {
        length := buf[p];
        next := p + 1;
      } else if buf[p] > 0x80 {
        var bytes := buf[p] - 0x80;
        p := p + 1;
        assert buf[itr + 1..p] == [];
        while bytes > 0 && p < end
          invariant itr + 1 <= p <= end && bytes == buf[itr] - 0x80 - (p - itr - 1) >= 0
          invariant length == FromBigEndian(buf[itr + 1..p]) % UINT64_LIMIT
        {
          OneMoreByte(buf, itr + 1, p);
          length := (length * 256 + buf[p]) % UINT64_LIMIT;
          p := p + 1;
          bytes := bytes - 1;
        }
        if bytes == 0 {
          next := p;
        }
      } else {
        assert buf[itr + 1..itr + 1] == [];
      }
    }
    if length != 0 && (addr + next + length) % UINT64_LIMIT <= addr + end {
      return Success(Length(length, next));
    }
    return Failure(INVALID_SGX_CERTIFICATE_EXTENSIONS);
  }

  lemma WrappedShift(a: nat, b: byte)
    ensures (a % UINT64_LIMIT * 256 + b) % UINT64_LIMIT == (256 * a + b) % UINT64_LIMIT
  {
    var m, x := UINT64_LIMIT, a % UINT64_LIMIT * 256 + b;
    var k := a / m * 256;
    assert a == a / m * m + a % m;
    assert 256 * a + b == k * m + x;
    assert x == x / m * m + x % m;
    assert 256 * a + b == (k + x / m) * m + x % m;
    RemainderUnique(256 * a + b, k + x / m, x % m);
  }

  lemma EmptyValue()
    ensures FromBigEndian([]) == 0
  {
  }

  /** A wrapped big-endian value grows by shifting in the next byte. */
  lemma OneMoreByte(buf: seq<byte>, i: nat, j: nat)
    requires i <= j < |buf|
    ensures (FromBigEndian(buf[i..j]) % UINT64_LIMIT * 256 + buf[j]) % UINT64_LIMIT == FromBigEndian(buf[i..j + 1]) % UINT64_LIMIT
  {
    assert buf[i..j + 1][..j - i] == buf[i..j];
    WrappedShift(FromBigEndian(buf[i..j]), buf[j]);
  }

  lemma RemainderUnique(x: nat, k: nat, r: nat)
    requires x == k * UINT64_LIMIT + r && r < UINT64_LIMIT
    ensures x % UINT64_LIMIT == r
  {
  }

  // ----- one extension

  /** The data of an extension, and the cursor behind the extension. */
  datatype Data = Data(start: nat, length: nat, next: nat)

  /** A sequence of an object identifier and a data object that fills it exactly. */
  function ReadExtension(buf: seq<byte>, itr: nat, end: nat, oid: seq<byte>, tag: byte): (r: Result<Data, OeResult>)
    requires itr <= end <= |buf|
    ensures r.Success? ==>
              var d := r.value;
              itr < d.start && 0 < d.length && d.start + d.length == d.next <= end
    ensures r.Failure? ==> r.error == INVALID_SGX_CERTIFICATE_EXTENSIONS || r.error == FAILURE
  {
    hide LengthAt;
    if !(itr + 1 < end && buf[itr] == SEQUENCE_TAG) then Failure(INVALID_SGX_CERTIFICATE_EXTENSIONS)
    else
      var sequence :- ReadLength(buf, itr + 1, end);
      var p, objectEnd := sequence.next, sequence.next + sequence.value;
      if !(buf[p] == OBJECT_ID_TAG && p + 1 < end) then Failure(INVALID_SGX_CERTIFICATE_EXTENSIONS)
      else
        var id :- ReadLength(buf, p + 1, end);
        var q := id.next + id.value;
        if !(id.value == |oid| && q < end && buf[id.next..q] == oid) then Failure(FAILURE)
        else if buf[q] != tag then Failure(INVALID_SGX_CERTIFICATE_EXTENSIONS)
        else
          var data :- ReadLength(buf, q + 1, end);
          if data.next + data.value == objectEnd then Success(Data(data.next, data.value, objectEnd))
          else Failure(INVALID_SGX_CERTIFICATE_EXTENSIONS)
  }

  /** A value, and the cursor behind the extension that holds it. */
  datatype Field<+T> = Field(value: T, next: nat)

  function ReadOctets(buf: seq<byte>, itr: nat, end: nat, oid: seq<byte>, length: nat): (r: Result<Field<seq<byte>>, OeResult>)
    requires itr <= end <= |buf|
    ensures r.Success? ==> itr < r.value.next <= end && |r.value.value| == length
  {
    hide ReadExtension;
    var d :- ReadExtension(buf, itr, end, oid, OCTET_STRING_TAG);
    if d.length != length then Failure(FAILURE) else Success(Field(buf[d.start..d.next], d.next))
  }

  /** An integer of at most `numBytes` bytes, or one more when the first is zero. */
  function ReadInteger(buf: seq<byte>, itr: nat, end: nat, oid: seq<byte>, numBytes: nat): (r: Result<Field<nat>, OeResult>)
    requires itr <= end <= |buf|
    ensures r.Success? ==> itr < r.value.next <= end
  {
    hide ReadExtension;
    var d :- ReadExtension(buf, itr, end, oid, INTEGER_TAG);
    if d.length > numBytes + 1 || (d.length == numBytes + 1 && buf[d.start] != 0) then
      Failure(INVALID_SGX_CERTIFICATE_EXTENSIONS)
    else Success(Field(FromBigEndian(buf[d.start..d.next]) % UINT64_LIMIT, d.next))
  }

  /** _read_integer_extension */
  method ReadIntegerExtension(buf: seq<byte>, itr: nat, end: nat, oid: seq<byte>, numBytes: nat)
    returns (r: Result<Field<nat>, OeResult>)
    requires itr <= end <= |buf|
    ensures r == ReadInteger(buf, itr, end, oid, numBytes)
  {
    hide ReadExtension, FromBigEndian;
    assert FromBigEndian([]) == 0 by { EmptyValue(); }
    var d :- ReadExtension(buf, itr, end, oid, INTEGER_TAG);
    var value: nat := 0;
    assert buf[d.start..d.start] == [];
    var i := 0;
    while i < d.length
      invariant i <= d.length && value == FromBigEndian(buf[d.start..d.start + i]) % UINT64_LIMIT
    {
      OneMoreByte(buf, d.start, d.start + i);
      value := (value * 256 + buf[d.start + i]) % UINT64_LIMIT;
      i := i + 1;
    }
    if d.length == numBytes + 1 {
      if buf[d.start] != 0 {
        return Failure(INVALID_SGX_CERTIFICATE_EXTENSIONS);
      }
    } else if d.length > numBytes {
      return Failure(INVALID_SGX_CERTIFICATE_EXTENSIONS);
    }
    return Success(Field(value, d.next));
  }

  /** A value read as an integer of up to eight bytes is in range, so casting it down loses nothing. */
  lemma IntegerFits(buf: seq<byte>, itr: nat, end: nat, oid: seq<byte>, numBytes: nat)
    requires itr <= end <= |buf| && numBytes <= 8 && ReadInteger(buf, itr, end, oid, numBytes).Success?
    ensures ReadInteger(buf, itr, end, oid, numBytes).value.value < Pow256(numBytes)
  {
    hide ReadExtension;
    var d := ReadExtension(buf, itr, end, oid, INTEGER_TAG).value;
    var s := buf[d.start..d.next];
    Pow256Values();
    if d.length == numBytes + 1 {
      LeadingZero(s);
      FromBigEndianBound(s[1..]);
    } else {
      FromBigEndianBound(s);
      Pow256Monotone(d.length, numBytes);
    }
    Pow256Monotone(numBytes, 8);
  }

  lemma {:induction false} LeadingZero(s: seq<byte>)
    requires s != [] && s[0] == 0
    ensures FromBigEndian(s) == FromBigEndian(s[1..])
  {
    if |s| > 1 {
      LeadingZero(s[..|s| - 1]);
      assert s[1..][..|s| - 2] == s[..|s| - 1][1..];
    } else {
      assert s[..0] == [] && s[1..] == [];
    }
  }

  lemma {:induction false} Pow256Monotone(a: nat, b: nat)
    requires a <= b
    ensures Pow256(a) <= Pow256(b)
  {
    if a < b {
      Pow256Monotone(a, b - 1);
    }
  }

  function ReadEnumeration(buf: seq<byte>, itr: nat, end: nat, oid: seq<byte>): (r: Result<Field<byte>, OeResult>)
    requires itr <= end <= |buf|
    ensures r.Success? ==> itr < r.value.next <= end
  {
    hide ReadExtension;
    var d :- ReadExtension(buf, itr, end, oid, ENUMERATION_TAG);
    if d.length != 1 then Failure(INVALID_SGX_CERTIFICATE_EXTENSIONS) else Success(Field(buf[d.start], d.next))
  }

  /** A boolean whose result code nobody looks at: a missing one leaves the cursor and the
      value alone, one of the wrong length leaves the value alone. */
  function ReadBoolean(buf: seq<byte>, itr: nat, end: nat, oid: seq<byte>, previous: bool): (f: Field<bool>)
    requires itr <= end <= |buf|
    ensures itr <= f.next <= end
  {
    hide ReadExtension;
    var d := ReadExtension(buf, itr, end, oid, BOOLEAN_TAG);
    if d.Failure? then Field(previous, itr)
    else if d.value.length != 1 then Field(previous, d.value.next)
    else Field(buf[d.value.start] != 0, d.value.next)
  }

  // ----- the whole extension (ParseSGXExtensions)

  const SGX_OID: seq<byte> := [0x2a, 0x86, 0x48, 0x86, 0xf8, 0x4d, 0x01, 0x0d, 0x01]
  const PPID_OID := SGX_OID + [1]
  const TCB_OID := SGX_OID + [2]
  const PCEID_OID := SGX_OID + [3]
  const FMSPC_OID := SGX_OID + [4]
  const SGX_TYPE_OID := SGX_OID + [5]
  const INSTANCE_ID_OID := SGX_OID + [6]
  const CONFIGURATION_OID := SGX_OID + [7]

  function CompOid(i: nat): seq<byte>
    requires i < 255
  {
    TCB_OID + [i + 1]
  }

  function ConfigOid(i: byte): seq<byte> { CONFIGURATION_OID + [i] }

  const PCESVN_OID := TCB_OID + [0x11]
  const CPUSVN_OID := TCB_OID + [0x12]

  datatype Tcb = Tcb(compSvn: seq<byte>, pceSvn: nat, cpuSvn: seq<byte>)

  datatype Optional = Optional(instanceId: seq<byte>, dynamicPlatform: bool, cachedKeys: bool, smtEnabled: bool)

  datatype Platform = Platform(pceId: seq<byte>, fmspc: seq<byte>, sgxType: byte, optional: Optional)

  datatype Info = Info(ppid: seq<byte>, tcb: Tcb, platform: Platform)

  /** The first `n` component versions. */
  function ReadComps(buf: seq<byte>, itr: nat, end: nat, n: nat): (r: Result<Field<seq<byte>>, OeResult>)
    requires itr <= end <= |buf| && n <= NUM_COMPS
    ensures r.Success? ==> itr <= r.value.next <= end && |r.value.value| == n
    decreases n
  {
    hide ReadInteger;
    if n == 0 then Success(Field([], itr))
    else
      var init :- ReadComps(buf, itr, end, n - 1);
      var c :- ReadInteger(buf, init.next, end, CompOid(n - 1), 1);
      Success(Field(init.value + [c.value % 256], c.next))
  }

  method ScanComps(buf: seq<byte>, itr: nat, end: nat) returns (r: Result<Field<seq<byte>>, OeResult>)
    requires itr <= end <= |buf|
    ensures r == ReadComps(buf, itr, end, NUM_COMPS)
  {
    hide ReadInteger;
    var p: nat := itr;
    var comps: seq<byte> := [];
    var i := 0;
    while i < NUM_COMPS
      invariant i <= NUM_COMPS && itr <= p <= end
      invariant ReadComps(buf, itr, end, i) == Success(Field(comps, p))
    {
      var c := ReadIntegerExtension(buf, p, end, CompOid(i), 1);
      if c.Failure? {
        CompsFail(buf, itr, end, i + 1, NUM_COMPS);
        return Failure(c.error);
      }
      comps, p := comps + [c.value.value % 256], c.value.next;
      i := i + 1;
    }
    return Success(Field(comps, p));
  }

  lemma {:induction false} CompsFail(buf: seq<byte>, itr: nat, end: nat, k: nat, n: nat)
    requires itr <= end <= |buf| && k <= n <= NUM_COMPS && ReadComps(buf, itr, end, k).Failure?
    ensures ReadComps(buf, itr, end, n) == ReadComps(buf, itr, end, k)
    decreases n
  {
    hide ReadInteger;
    if k < n {
      CompsFail(buf, itr, end, k, n - 1);
    }
  }

  /** The nested TCB sequence, which must be used up. */
  function ReadTcb(buf: seq<byte>, itr: nat, end: nat): (r: Result<Tcb, OeResult>)
    requires itr <= end <= |buf|
  {
    hide ReadComps, ReadInteger, ReadOctets;
    var comps :- ReadComps(buf, itr, end, NUM_COMPS);
    var pce :- ReadInteger(buf, comps.next, end, PCESVN_OID, 2);
    var cpu :- ReadOctets(buf, pce.next, end, CPUSVN_OID, 16);
    if cpu.next != end then Failure(INVALID_SGX_CERTIFICATE_EXTENSIONS)
    else Success(Tcb(comps.value, Low16(pce.value), cpu.value))
  }

  function Low16(x: nat): nat { x % UINT16_LIMIT }

  /** The nested configuration sequence: three booleans that may each be missing. */
  function ReadConfiguration(buf: seq<byte>, itr: nat, end: nat, id: seq<byte>, previous: Optional): (r: Result<Optional, OeResult>)
    requires itr <= end <= |buf|
  {
    hide ReadBoolean;
    var a := ReadBoolean(buf, itr, end, ConfigOid(1), previous.dynamicPlatform);
    var b := ReadBoolean(buf, a.next, end, ConfigOid(2), previous.cachedKeys);
    var c := ReadBoolean(buf, b.next, end, ConfigOid(3), previous.smtEnabled);
    if c.next != end then Failure(INVALID_SGX_CERTIFICATE_EXTENSIONS)
    else Success(Optional(id, a.value, b.value, c.value))
  }

  /** The two optional extensions, which come together or not at all. */
  function ReadOptional(buf: seq<byte>, itr: nat, end: nat, previous: Optional): (r: Result<Optional, OeResult>)
    requires itr <= end <= |buf|
  {
    hide ReadExtension, ReadOctets, ReadConfiguration;
    if itr == end then Success(previous)
    else
      var id :- ReadOctets(buf, itr, end, INSTANCE_ID_OID, 16);
      var config :- ReadExtension(buf, id.next, end, CONFIGURATION_OID, SEQUENCE_TAG);
      var optional :- ReadConfiguration(buf, config.start, config.next, id.value, previous);
      if config.next != end then Failure(INVALID_SGX_CERTIFICATE_EXTENSIONS) else Success(optional)
  }

  /** The extensions behind the TCB, up to the end. */
  function ReadPlatform(buf: seq<byte>, itr: nat, previous: Optional): (r: Result<Platform, OeResult>)
    requires itr <= |buf|
  {
    hide ReadOctets, ReadEnumeration, ReadOptional;
    var end := |buf|;
    var pceId :- ReadOctets(buf, itr, end, PCEID_OID, 2);
    var fmspc :- ReadOctets(buf, pceId.next, end, FMSPC_OID, 6);
    var sgxType :- ReadEnumeration(buf, fmspc.next, end, SGX_TYPE_OID);
    if sgxType.value >= 2 then Failure(FAILURE)
    else
      var optional :- ReadOptional(buf, sgxType.next, end, previous);
      Success(Platform(pceId.value, fmspc.value, sgxType.value, optional))
  }

  /** The extensions inside the top-level sequence. */
  function ReadBody(buf: seq<byte>, itr: nat, previous: Optional): (r: Result<Info, OeResult>)
    requires itr <= |buf|
  {
    hide ReadExtension, ReadOctets, ReadTcb, ReadPlatform;
    var ppid :- ReadOctets(buf, itr, |buf|, PPID_OID, 16);
    var tcb :- ReadExtension(buf, ppid.next, |buf|, TCB_OID, SEQUENCE_TAG);
    var levels :- ReadTcb(buf, tcb.start, tcb.next);
    var platform :- ReadPlatform(buf, tcb.next, previous);
    Success(Info(ppid.value, levels, platform))
  }

  /** Parses the extension's bytes; fields that are not there keep their previous values. */
  function Parse(buf: seq<byte>, previous: Optional): (r: Result<Info, OeResult>) {
    hide ReadLength, ReadBody;
    if !(buf != [] && buf[0] == SEQUENCE_TAG) then Failure(INVALID_SGX_CERTIFICATE_EXTENSIONS)
    else
      var length :- ReadLength(buf, 1, |buf|);
      if length.next + length.value != |buf| then Failure(INVALID_SGX_CERTIFICATE_EXTENSIONS)
      else ReadBody(buf, length.next, previous)
  }

  // ----- the encoding (ITU-T X.690, sections 8.1.3 and 10.1)

  /** The number of bytes of `n`. */
  function ByteCount(n: nat): (k: nat)
    ensures k > 0
  {
    if n < 256 then 1 else 1 + ByteCount(n / 256)
  }

  lemma {:induction false} ByteCountExact(n: nat, k: nat)
    requires n < Pow256(k) && k > 0
    ensures ByteCount(n) <= k && n < Pow256(ByteCount(n))
  {
    if n >= 256 {
      assert k > 1;
      ByteCountExact(n / 256, k - 1);
    }
  }

  type Content = s: seq<byte> | |s| < UINT64_LIMIT

  /** The shortest length octets for `n`. */
  function DerLength(n: uint64): (s: seq<byte>)
    ensures 0 < |s| <= 9
  {
    Pow256Values();
    ByteCountExact(n, 8);
    if n < 128 then [n] else [0x80 + ByteCount(n)] + BigEndian(n, ByteCount(n))
  }

  function Tlv(tag: byte, content: Content): (s: seq<byte>)
    ensures |s| == 1 + |DerLength(|content|)| + |content|
  {
    [tag] + (DerLength(|content|) + content)
  }

  /** One extension, if its parts are not too large to have lengths. */
  function Extension(oid: Content, tag: byte, content: Content): (s: seq<byte>)
    requires |Tlv(OBJECT_ID_TAG, oid)| + |Tlv(tag, content)| < UINT64_LIMIT
  {
    Tlv(SEQUENCE_TAG, Tlv(OBJECT_ID_TAG, oid) + Tlv(tag, content))
  }

  /** The length reader undoes the length octets, short form or long. */
  lemma LengthUndone(n: uint64, buf: seq<byte>, itr: nat, end: nat)
    requires n > 0 && At(buf, itr, DerLength(n)) && itr + |DerLength(n)| + n <= end <= |buf|
    ensures ReadLength(buf, itr, end) == Success(Length(n, itr + |DerLength(n)|))
  {
    hide FromBigEndian, BigEndian, ByteCount;
    AtFirst(buf, itr, DerLength(n));
    if n >= 128 {
      Pow256Values();
      ByteCountExact(n, 8);
      var k := ByteCount(n);
      AtAppend(buf, itr, [0x80 + k], BigEndian(n, k));
      BigEndianRoundTrip(n, k);
      assert buf[itr + 1..itr + 1 + k] == BigEndian(n, k);
    }
  }

  lemma TlvParts(tag: byte, content: Content, buf: seq<byte>, itr: nat)
    requires At(buf, itr, Tlv(tag, content))
    ensures itr + |Tlv(tag, content)| <= |buf| && buf[itr] == tag
    ensures At(buf, itr + 1, DerLength(|content|)) && At(buf, itr + 1 + |DerLength(|content|)|, content)
  {
    hide DerLength;
    AtFirst(buf, itr, Tlv(tag, content));
    AtAppend(buf, itr, [tag], DerLength(|content|) + content);
    AtAppend(buf, itr + 1, DerLength(|content|), content);
  }

  /** The extension reader finds the content of any encoded extension, of any length. */
  lemma ExtensionUndone(oid: Content, tag: byte, content: Content, buf: seq<byte>, itr: nat, end: nat)
    requires oid != [] && content != [] && |Tlv(OBJECT_ID_TAG, oid)| + |Tlv(tag, content)| < UINT64_LIMIT
    requires At(buf, itr, Extension(oid, tag, content)) && itr + |Extension(oid, tag, content)| <= end <= |buf|
    ensures var next := itr + |Extension(oid, tag, content)|;
            && ReadExtension(buf, itr, end, oid, tag) == Success(Data(next - |content|, |content|, next))
            && buf[next - |content|..next] == content
  {
    hide At, Tlv, DerLength, ReadLength;
    var id, data := Tlv(OBJECT_ID_TAG, oid), Tlv(tag, content);
    var p := itr + 1 + |DerLength(|id + data|)|;
    var q := p + |id|;
    TlvParts(SEQUENCE_TAG, id + data, buf, itr);
    LengthUndone(|id + data|, buf, itr + 1, end);
    AtAppend(buf, p, id, data);
    ObjectUndone(OBJECT_ID_TAG, oid, buf, p, end);
    ObjectUndone(tag, content, buf, q, end);
  }

  /** A tag, a length and contents, where they stand. */
  lemma ObjectUndone(tag: byte, content: Content, buf: seq<byte>, itr: nat, end: nat)
    requires content != [] && At(buf, itr, Tlv(tag, content)) && itr + |Tlv(tag, content)| <= end <= |buf|
    ensures itr + 1 + |content| < itr + |Tlv(tag, content)|
    ensures var next := itr + |Tlv(tag, content)|;
            && buf[itr] == tag && ReadLength(buf, itr + 1, end) == Success(Length(|content|, next - |content|))
            && buf[next - |content|..next] == content
  {
    hide At, DerLength, ReadLength;
    TlvParts(tag, content, buf, itr);
    LengthUndone(|content|, buf, itr + 1, end);
    AtInside(buf, itr + |Tlv(tag, content)| - |content|, content);
  }

  // ----- encoding an Info

  type Small = s: seq<byte> | |s| < UINT32_LIMIT

  function Ext(oid: Small, tag: byte, content: Small): (s: seq<byte>)
    ensures |content| < |s| <= |oid| + |content| + 30
  {
    hide DerLength;
    Extension(oid, tag, content)
  }

  lemma ExtUndone(oid: Small, tag: byte, content: Small, buf: seq<byte>, itr: nat, end: nat)
    requires oid != [] && content != []
    requires At(buf, itr, Ext(oid, tag, content)) && itr + |Ext(oid, tag, content)| <= end <= |buf|
    ensures var next := itr + |Ext(oid, tag, content)|;
            && ReadExtension(buf, itr, end, oid, tag) == Success(Data(next - |content|, |content|, next))
            && At(buf, next - |content|, content) && buf[next - |content|..next] == content
  {
    hide DerLength, ReadExtension;
    ExtensionUndone(oid, tag, content, buf, itr, end);
  }

  /** A non-negative INTEGER: the shortest bytes whose first bit is clear. */
  function IntegerContent(v: nat): (s: seq<byte>)
    ensures s != []
  {
    var b := BigEndian(v, ByteCount(v));
    if b[0] >= 128 then [0] + b else b
  }

  lemma IntegerContentValue(v: nat, numBytes: nat)
    requires 0 < numBytes <= 2 && v < Pow256(numBytes)
    ensures |IntegerContent(v)| <= numBytes + 1 && FromBigEndian(IntegerContent(v)) == v
    ensures |IntegerContent(v)| == numBytes + 1 ==> IntegerContent(v)[0] == 0
  {
    hide BigEndian, ByteCount;
    ByteCountExact(v, numBytes);
    var b := BigEndian(v, ByteCount(v));
    BigEndianRoundTrip(v, ByteCount(v));
    LeadingZero([0] + b);
    assert ([0] + b)[1..] == b;
  }

  lemma IntegerUndone(oid: Small, v: nat, numBytes: nat, buf: seq<byte>, itr: nat, end: nat)
    requires oid != [] && 0 < numBytes <= 2 && v < Pow256(numBytes) && |IntegerContent(v)| <= 3
    requires At(buf, itr, Ext(oid, INTEGER_TAG, IntegerContent(v)))
    requires itr + |Ext(oid, INTEGER_TAG, IntegerContent(v))| <= end <= |buf|
    ensures ReadInteger(buf, itr, end, oid, numBytes)
         == Success(Field(v, itr + |Ext(oid, INTEGER_TAG, IntegerContent(v))|))
  {
    hide Ext, ReadExtension, IntegerContent;
    var content := IntegerContent(v);
    ExtUndone(oid, INTEGER_TAG, content, buf, itr, end);
    var next := itr + |Ext(oid, INTEGER_TAG, content)|;
    AtFirst(buf, next - |content|, content);
    IntegerContentValue(v, numBytes);
    Pow256Values();
    assert Pow256(numBytes) <= UINT64_LIMIT;
  }

  predicate WellFormedTcb(t: Tcb) {
    |t.compSvn| == NUM_COMPS && t.pceSvn < UINT16_LIMIT && |t.cpuSvn| == 16
  }

  predicate WellFormedPlatform(x: Platform) {
    |x.pceId| == 2 && |x.fmspc| == 6 && x.sgxType < 2 && |x.optional.instanceId| == 16
  }

  predicate WellFormed(x: Info) {
    |x.ppid| == 16 && WellFormedTcb(x.tcb) && WellFormedPlatform(x.platform)
  }

  /** A component version's INTEGER takes one or two bytes. */
  function Comp(i: nat, v: byte): (s: seq<byte>)
    requires i < NUM_COMPS
    ensures |s| <= 50
  {
    hide IntegerContent, Ext;
    Pow256Values();
    IntegerContentValue(v, 1);
    Ext(CompOid(i), INTEGER_TAG, IntegerContent(v))
  }

  function Comps(svn: seq<byte>, n: nat): (s: seq<byte>)
    requires n <= NUM_COMPS && n <= |svn|
    ensures |s| <= 50 * n
  {
    hide Comp;
    if n == 0 then [] else Comps(svn, n - 1) + Comp(n - 1, svn[n - 1])
  }

  function PceSvn(v: nat): (s: seq<byte>)
    requires v < UINT16_LIMIT
    ensures |s| <= 50
  {
    hide IntegerContent, Ext;
    Pow256Values();
    IntegerContentValue(v, 2);
    Ext(PCESVN_OID, INTEGER_TAG, IntegerContent(v))
  }

  function Octets(oid: Small, content: Small): (s: seq<byte>)
    ensures |s| <= |oid| + |content| + 30
  {
    Ext(oid, OCTET_STRING_TAG, content)
  }

  function TcbContent(t: Tcb): (s: seq<byte>)
    requires WellFormedTcb(t)
    ensures 0 < |s| <= 1000
  {
    hide Comps, PceSvn, Ext;
    Comps(t.compSvn, NUM_COMPS) + (PceSvn(t.pceSvn) + Octets(CPUSVN_OID, t.cpuSvn))
  }

  function Flag(b: bool): byte { if b then 0xff else 0 }

  function ConfigContent(o: Optional): (s: seq<byte>)
    ensures 0 < |s| <= 150
  {
    hide Ext;
    Ext(ConfigOid(1), BOOLEAN_TAG, [Flag(o.dynamicPlatform)])
    + (Ext(ConfigOid(2), BOOLEAN_TAG, [Flag(o.cachedKeys)]) + Ext(ConfigOid(3), BOOLEAN_TAG, [Flag(o.smtEnabled)]))
  }

  function OptionalPart(o: Optional, present: bool): (s: seq<byte>)
    requires |o.instanceId| == 16
    ensures |s| <= 1000
  {
    hide Ext, ConfigContent;
    if !present then []
    else Octets(INSTANCE_ID_OID, o.instanceId) + Ext(CONFIGURATION_OID, SEQUENCE_TAG, ConfigContent(o))
  }

  function PlatformContent(x: Platform, withOptional: bool): (s: seq<byte>)
    requires WellFormedPlatform(x)
    ensures |s| <= 2000
  {
    hide Ext, OptionalPart;
    Octets(PCEID_OID, x.pceId)
    + (Octets(FMSPC_OID, x.fmspc)
       + (Ext(SGX_TYPE_OID, ENUMERATION_TAG, [x.sgxType]) + OptionalPart(x.optional, withOptional)))
  }

  function Body(x: Info, withOptional: bool): (s: seq<byte>)
    requires WellFormed(x)
    ensures 0 < |s| <= 10000
  {
    hide Ext, TcbContent, PlatformContent;
    Octets(PPID_OID, x.ppid)
    + (Ext(TCB_OID, SEQUENCE_TAG, TcbContent(x.tcb)) + PlatformContent(x.platform, withOptional))
  }

  function Encode(x: Info, withOptional: bool): seq<byte>
    requires WellFormed(x)
  {
    hide Body;
    Tlv(SEQUENCE_TAG, Body(x, withOptional))
  }

  // ----- parsing undoes encoding

  lemma OctetsUndone(oid: Small, content: Small, buf: seq<byte>, itr: nat, end: nat)
    requires oid != [] && content != []
    requires At(buf, itr, Octets(oid, content)) && itr + |Octets(oid, content)| <= end <= |buf|
    ensures ReadOctets(buf, itr, end, oid, |content|) == Success(Field(content, itr + |Octets(oid, content)|))
  {
    hide Ext, ReadExtension;
    ExtUndone(oid, OCTET_STRING_TAG, content, buf, itr, end);
  }

  lemma CompUndone(i: nat, v: byte, buf: seq<byte>, itr: nat, end: nat)
    requires i < NUM_COMPS && At(buf, itr, Comp(i, v)) && itr + |Comp(i, v)| <= end <= |buf|
    ensures ReadInteger(buf, itr, end, CompOid(i), 1) == Success(Field(v, itr + |Comp(i, v)|))
  {
    hide Ext, ReadInteger, IntegerContent;
    Pow256Values();
    IntegerContentValue(v, 1);
    IntegerUndone(CompOid(i), v, 1, buf, itr, end);
  }

  lemma {:induction false} CompsUndone(svn: seq<byte>, n: nat, buf: seq<byte>, itr: nat, end: nat)
    requires n <= NUM_COMPS && n <= |svn| && At(buf, itr, Comps(svn, n)) && itr + |Comps(svn, n)| <= end <= |buf|
    ensures ReadComps(buf, itr, end, n) == Success(Field(svn[..n], itr + |Comps(svn, n)|))
    decreases n
  {
    hide At, Comp, ReadInteger, CompOid;
    if n > 0 {
      AtAppend(buf, itr, Comps(svn, n - 1), Comp(n - 1, svn[n - 1]));
      CompsUndone(svn, n - 1, buf, itr, end);
      CompUndone(n - 1, svn[n - 1], buf, itr + |Comps(svn, n - 1)|, end);
      assert svn[..n] == svn[..n - 1] + [svn[n - 1]];
    }
  }

  lemma PceSvnUndone(v: nat, buf: seq<byte>, itr: nat, end: nat)
    requires v < UINT16_LIMIT && At(buf, itr, PceSvn(v)) && itr + |PceSvn(v)| <= end <= |buf|
    ensures ReadInteger(buf, itr, end, PCESVN_OID, 2) == Success(Field(v, itr + |PceSvn(v)|))
  {
    hide Ext, ReadInteger, IntegerContent;
    Pow256Values();
    IntegerContentValue(v, 2);
    IntegerUndone(PCESVN_OID, v, 2, buf, itr, end);
  }

  lemma TcbUndone(t: Tcb, buf: seq<byte>, itr: nat)
    requires WellFormedTcb(t) && At(buf, itr, TcbContent(t))
    ensures ReadTcb(buf, itr, itr + |TcbContent(t)|) == Success(t)
  {
    hide At, Comps, PceSvn, Octets, ReadComps, ReadInteger, ReadOctets;
    var comps, pce, cpu := Comps(t.compSvn, NUM_COMPS), PceSvn(t.pceSvn), Octets(CPUSVN_OID, t.cpuSvn);
    var end := itr + |TcbContent(t)|;
    assert end <= |buf| by { AtInside(buf, itr, TcbContent(t)); }
    AtAppend(buf, itr, comps, pce + cpu);
    AtAppend(buf, itr + |comps|, pce, cpu);
    CompsUndone(t.compSvn, NUM_COMPS, buf, itr, end);
    assert t.compSvn[..NUM_COMPS] == t.compSvn;
    PceSvnUndone(t.pceSvn, buf, itr + |comps|, end);
    OctetsUndone(CPUSVN_OID, t.cpuSvn, buf, itr + |comps| + |pce|, end);
  }

  lemma AtInside(buf: seq<byte>, itr: nat, text: seq<byte>)
    requires At(buf, itr, text)
    ensures itr + |text| <= |buf| && buf[itr..itr + |text|] == text
  {
  }

  lemma BooleanUndone(oid: Small, b: bool, previous: bool, buf: seq<byte>, itr: nat, end: nat)
    requires oid != [] && At(buf, itr, Ext(oid, BOOLEAN_TAG, [Flag(b)]))
    requires itr + |Ext(oid, BOOLEAN_TAG, [Flag(b)])| <= end <= |buf|
    ensures ReadBoolean(buf, itr, end, oid, previous) == Field(b, itr + |Ext(oid, BOOLEAN_TAG, [Flag(b)])|)
  {
    hide Ext, ReadExtension;
    var content: seq<byte> := [Flag(b)];
    ExtUndone(oid, BOOLEAN_TAG, content, buf, itr, end);
    AtFirst(buf, itr + |Ext(oid, BOOLEAN_TAG, content)| - 1, content);
  }

  lemma ConfigUndone(o: Optional, previous: Optional, buf: seq<byte>, itr: nat)
    requires At(buf, itr, ConfigContent(o))
    ensures itr + |ConfigContent(o)| <= |buf|
    ensures ReadConfiguration(buf, itr, itr + |ConfigContent(o)|, o.instanceId, previous) == Success(o)
  {
    hide At, Ext, ReadBoolean;
    var a := Ext(ConfigOid(1), BOOLEAN_TAG, [Flag(o.dynamicPlatform)]);
    var b := Ext(ConfigOid(2), BOOLEAN_TAG, [Flag(o.cachedKeys)]);
    var c := Ext(ConfigOid(3), BOOLEAN_TAG, [Flag(o.smtEnabled)]);
    var end := itr + |ConfigContent(o)|;
    AtInside(buf, itr, ConfigContent(o));
    AtAppend(buf, itr, a, b + c);
    AtAppend(buf, itr + |a|, b, c);
    BooleanUndone(ConfigOid(1), o.dynamicPlatform, previous.dynamicPlatform, buf, itr, end);
    BooleanUndone(ConfigOid(2), o.cachedKeys, previous.cachedKeys, buf, itr + |a|, end);
    BooleanUndone(ConfigOid(3), o.smtEnabled, previous.smtEnabled, buf, itr + |a| + |b|, end);
  }

  lemma OptionalUndone(o: Optional, present: bool, previous: Optional, buf: seq<byte>, itr: nat)
    requires |o.instanceId| == 16 && At(buf, itr, OptionalPart(o, present)) && itr + |OptionalPart(o, present)| == |buf|
    ensures ReadOptional(buf, itr, |buf|, previous) == Success(if present then o else previous)
  {
    hide At, Ext, Octets, ConfigContent, ReadExtension, ReadOctets, ReadConfiguration;
    if present {
      var id, content := Octets(INSTANCE_ID_OID, o.instanceId), ConfigContent(o);
      var config := Ext(CONFIGURATION_OID, SEQUENCE_TAG, content);
      AtAppend(buf, itr, id, config);
      OctetsUndone(INSTANCE_ID_OID, o.instanceId, buf, itr, |buf|);
      ExtUndone(CONFIGURATION_OID, SEQUENCE_TAG, content, buf, itr + |id|, |buf|);
      ConfigUndone(o, previous, buf, |buf| - |content|);
    }
  }

  lemma EnumerationUndone(oid: Small, v: byte, buf: seq<byte>, itr: nat, end: nat)
    requires oid != [] && At(buf, itr, Ext(oid, ENUMERATION_TAG, [v]))
    requires itr + |Ext(oid, ENUMERATION_TAG, [v])| <= end <= |buf|
    ensures ReadEnumeration(buf, itr, end, oid) == Success(Field(v, itr + |Ext(oid, ENUMERATION_TAG, [v])|))
  {
    hide Ext, ReadExtension;
    var content: seq<byte> := [v];
    ExtUndone(oid, ENUMERATION_TAG, content, buf, itr, end);
    AtFirst(buf, itr + |Ext(oid, ENUMERATION_TAG, content)| - 1, content);
  }

  /** What parsing gives for an encoding: the optional fields only when they were encoded. */
  function Expected(x: Platform, withOptional: bool, previous: Optional): Platform {
    Platform(x.pceId, x.fmspc, x.sgxType, if withOptional then x.optional else previous)
  }

  lemma PlatformUndone(x: Platform, withOptional: bool, previous: Optional, buf: seq<byte>, itr: nat)
    requires WellFormedPlatform(x) && At(buf, itr, PlatformContent(x, withOptional))
    requires itr + |PlatformContent(x, withOptional)| == |buf|
    ensures ReadPlatform(buf, itr, previous) == Success(Expected(x, withOptional, previous))
  {
    hide At, Ext, Octets, OptionalPart, ReadOctets, ReadEnumeration, ReadOptional;
    var pceId, fmspc := Octets(PCEID_OID, x.pceId), Octets(FMSPC_OID, x.fmspc);
    var kind, optional := Ext(SGX_TYPE_OID, ENUMERATION_TAG, [x.sgxType]), OptionalPart(x.optional, withOptional);
    var p := itr + |pceId|;
    var q := p + |fmspc|;
    AtAppend(buf, itr, pceId, fmspc + (kind + optional));
    AtAppend(buf, p, fmspc, kind + optional);
    AtAppend(buf, q, kind, optional);
    OctetsUndone(PCEID_OID, x.pceId, buf, itr, |buf|);
    OctetsUndone(FMSPC_OID, x.fmspc, buf, p, |buf|);
    EnumerationUndone(SGX_TYPE_OID, x.sgxType, buf, q, |buf|);
    OptionalUndone(x.optional, withOptional, previous, buf, q + |kind|);
  }

  lemma BodyUndone(x: Info, withOptional: bool, previous: Optional, buf: seq<byte>, itr: nat)
    requires WellFormed(x) && At(buf, itr, Body(x, withOptional)) && itr + |Body(x, withOptional)| == |buf|
    ensures ReadBody(buf, itr, previous) == Success(Info(x.ppid, x.tcb, Expected(x.platform, withOptional, previous)))
  {
    hide At, Ext, Octets, TcbContent, PlatformContent, ReadExtension, ReadOctets, ReadTcb, ReadPlatform, Expected;
    var ppid, content, platform := Octets(PPID_OID, x.ppid), TcbContent(x.tcb), PlatformContent(x.platform, withOptional);
    var tcb := Ext(TCB_OID, SEQUENCE_TAG, content);
    var p := itr + |ppid|;
    var q := p + |tcb|;
    AtAppend(buf, itr, ppid, tcb + platform);
    AtAppend(buf, p, tcb, platform);
    OctetsUndone(PPID_OID, x.ppid, buf, itr, |buf|);
    ExtUndone(TCB_OID, SEQUENCE_TAG, content, buf, p, |buf|);
    TcbUndone(x.tcb, buf, q - |content|);
    PlatformUndone(x.platform, withOptional, previous, buf, q);
  }

  /** Parsing the encoding of any fields gives them back, with or without the optional part. */
  lemma ParseUndoesEncode(x: Info, withOptional: bool, previous: Optional)
    requires WellFormed(x)
    ensures Parse(Encode(x, withOptional), previous)
         == Success(Info(x.ppid, x.tcb, Expected(x.platform, withOptional, previous)))
  {
    hide Body, DerLength, ReadLength, ReadBody;
    var body, buf := Body(x, withOptional), Encode(x, withOptional);
    assert At(buf, 0, buf) by { assert buf[0..|buf|] == buf; }
    TlvParts(SEQUENCE_TAG, body, buf, 0);
    LengthUndone(|body|, buf, 1, |buf|);
    BodyUndone(x, withOptional, previous, buf, |buf| - |body|);
  }
}
