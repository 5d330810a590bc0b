/** What an accepted SGX extension holds (common/sgx/sgxcertextensions.c): on any input at all, each
    value that is returned stands in the input behind its own object identifier. */
module SgxAccepted {
  import opened Bytes
  import opened Results
  import opened SgxExtensions

  /** 1.2.840.113741.1.13.1 and further arcs below 128, as DER encodes them. */
  function Oid(arcs: seq<byte>): seq<byte> {
    [0x2a, 0x86, 0x48, 0x86, 0xf8, 0x4d, 0x01, 0x0d, 0x01] + arcs
  }

  /** The arcs of an object identifier in base 128, the first two in one number (ITU-T X.690, section
      8.19). */
  function Arcs(s: seq<byte>): seq<nat> {
    if s == [] then [] else Arc(s, 0, 0)
  }

  function Arc(s: seq<byte>, i: nat, acc: nat): seq<nat>
    requires i <= |s|
    decreases |s| - i
  {
    if i == |s| then []
    else if s[i] >= 128 then Arc(s, i + 1, acc * 128 + (s[i] - 128))
    else [acc * 128 + s[i]] + Arc(s, i + 1, 0)
  }

  /** The root of the identifiers is 1.2.840.113741.1.13.1. */
  lemma RootArcs()
    ensures Arcs(Oid([])) == [1 * 40 + 2, 840, 113741, 1, 13, 1]
  {
    var s := Oid([]);
    assert s == [0x2a, 0x86, 0x48, 0x86, 0xf8, 0x4d, 0x01, 0x0d, 0x01];
    assert Arc(s, 9, 0) == [];
    assert Arc(s, 8, 0) == [1] && Arc(s, 7, 0) == [13, 1] && Arc(s, 6, 0) == [1, 13, 1];
    assert Arc(s, 5, 888) == [113741, 1, 13, 1];
    assert Arc(s, 4, 6) == Arc(s, 5, 6 * 128 + 120);
    assert Arc(s, 3, 0) == Arc(s, 4, 6);
    assert Arc(s, 2, 6) == [840, 113741, 1, 13, 1];
    assert Arc(s, 1, 0) == Arc(s, 2, 6);
  }

  /** A sequence, in it the tag of an object identifier and the identifier, right behind that the
      tag of the value, and then the value. */
  ghost predicate Holds(buf: seq<byte>, oid: seq<byte>, tag: byte, value: seq<byte>) {
    exists s: nat, m: nat, p: nat, q: nat :: Stands(buf, s, m, p, q, oid, tag, value)
  }

  predicate Stands(buf: seq<byte>, s: nat, m: nat, p: nat, q: nat, oid: seq<byte>, tag: byte, value: seq<byte>) {
    && s < m < p && p + |oid| < q && q + |value| <= |buf|
    && buf[s] == 0x30 && buf[m] == 0x06 && buf[p..p + |oid|] == oid
    && buf[p + |oid|] == tag && buf[q..q + |value|] == value
  }

  /** A sequence stands behind this identifier. */
  ghost predicate HoldsSequence(buf: seq<byte>, oid: seq<byte>) {
    exists content :: Holds(buf, oid, 0x30, content)
  }

  ghost predicate HoldsInteger(buf: seq<byte>, oid: seq<byte>, v: nat) {
    exists value :: Holds(buf, oid, 0x02, value) && FromBigEndian(value) == v
  }

  lemma ExtensionFound(buf: seq<byte>, itr: nat, end: nat, oid: seq<byte>, tag: byte)
    requires itr <= end <= |buf| && ReadExtension(buf, itr, end, oid, tag).Success?
    ensures var d := ReadExtension(buf, itr, end, oid, tag).value;
            d.start <= d.next <= |buf| && Holds(buf, oid, tag, buf[d.start..d.next])
  {
    hide LengthAt;
    var d := ReadExtension(buf, itr, end, oid, tag).value;
    var p := ReadLength(buf, itr + 1, end).value.next;
    var id := ReadLength(buf, p + 1, end).value;
    assert Stands(buf, itr, p, id.next, d.start, oid, tag, buf[d.start..d.next]);
  }

  lemma SequenceFound(buf: seq<byte>, itr: nat, end: nat, oid: seq<byte>)
    requires itr <= end <= |buf| && ReadExtension(buf, itr, end, oid, SEQUENCE_TAG).Success?
    ensures HoldsSequence(buf, oid)
  {
    hide ReadExtension, Holds;
    ExtensionFound(buf, itr, end, oid, SEQUENCE_TAG);
  }

  lemma OctetsFound(buf: seq<byte>, itr: nat, end: nat, oid: seq<byte>, length: nat)
    requires itr <= end <= |buf| && ReadOctets(buf, itr, end, oid, length).Success?
    ensures var v := ReadOctets(buf, itr, end, oid, length).value.value;
            |v| == length && Holds(buf, oid, 0x04, v)
  {
    hide ReadExtension, Holds;
    ExtensionFound(buf, itr, end, oid, OCTET_STRING_TAG);
  }

  lemma IntegerFound(buf: seq<byte>, itr: nat, end: nat, oid: seq<byte>, numBytes: nat)
    requires itr <= end <= |buf| && numBytes < 8 && ReadInteger(buf, itr, end, oid, numBytes).Success?
    ensures var v := ReadInteger(buf, itr, end, oid, numBytes).value.value;
            v < Pow256(numBytes) && HoldsInteger(buf, oid, v)
  {
    hide ReadExtension, Holds, FromBigEndian, Pow256;
    ExtensionFound(buf, itr, end, oid, INTEGER_TAG);
    IntegerFits(buf, itr, end, oid, numBytes);
    var d := ReadExtension(buf, itr, end, oid, INTEGER_TAG).value;
    FromBigEndianBound(buf[d.start..d.next]);
    Pow256Monotone(d.length, 8);
    Pow256Values();
    assert Holds(buf, oid, 0x02, buf[d.start..d.next]);
  }

  lemma {:induction false} CompsFound(buf: seq<byte>, itr: nat, end: nat, n: nat)
    requires itr <= end <= |buf| && n <= 16 && ReadComps(buf, itr, end, n).Success?
    ensures var comps := ReadComps(buf, itr, end, n).value.value;
            forall i :: 0 <= i < n ==> HoldsInteger(buf, Oid([2, i + 1]), comps[i])
  {
    hide ReadInteger, HoldsInteger, Pow256;
    if n > 0 {
      CompsFound(buf, itr, end, n - 1);
      var init := ReadComps(buf, itr, end, n - 1).value;
      IntegerFound(buf, init.next, end, CompOid(n - 1), 1);
      Pow256Values();
      assert CompOid(n - 1) == Oid([2, n]);
    }
  }

  ghost predicate TcbHeld(buf: seq<byte>, t: Tcb) {
    && |t.compSvn| == 16 && (forall i :: 0 <= i < 16 ==> HoldsInteger(buf, Oid([2, i + 1]), t.compSvn[i]))
    && HoldsInteger(buf, Oid([2, 17]), t.pceSvn) && t.pceSvn < 65536
    && Holds(buf, Oid([2, 18]), 0x04, t.cpuSvn) && |t.cpuSvn| == 16
  }

  lemma TcbFound(buf: seq<byte>, itr: nat, end: nat)
    requires itr <= end <= |buf| && ReadTcb(buf, itr, end).Success?
    ensures TcbHeld(buf, ReadTcb(buf, itr, end).value)
  {
    hide ReadComps, ReadInteger, ReadOctets, Holds, HoldsInteger, Pow256;
    var comps := ReadComps(buf, itr, end, NUM_COMPS).value;
    CompsFound(buf, itr, end, NUM_COMPS);
    var pce := ReadInteger(buf, comps.next, end, PCESVN_OID, 2).value;
    IntegerFound(buf, comps.next, end, PCESVN_OID, 2);
    Pow256Values();
    OctetsFound(buf, pce.next, end, CPUSVN_OID, 16);
    assert PCESVN_OID == Oid([2, 17]) && CPUSVN_OID == Oid([2, 18]);
  }

  /** A boolean was read off its extension, or it is what it was. */
  ghost predicate BooleanHeld(buf: seq<byte>, oid: seq<byte>, was: bool, b: bool) {
    b == was || exists c: byte :: Holds(buf, oid, 0x01, [c]) && b == (c != 0)
  }

  lemma BooleanFound(buf: seq<byte>, itr: nat, end: nat, oid: seq<byte>, was: bool)
    requires itr <= end <= |buf|
    ensures BooleanHeld(buf, oid, was, ReadBoolean(buf, itr, end, oid, was).value)
  {
    hide ReadExtension, Holds;
    var d := ReadExtension(buf, itr, end, oid, BOOLEAN_TAG);
    if d.Success? && d.value.length == 1 {
      ExtensionFound(buf, itr, end, oid, BOOLEAN_TAG);
      assert buf[d.value.start..d.value.next] == [buf[d.value.start]];
    }
  }

  ghost predicate OptionalHeld(buf: seq<byte>, was: Optional, o: Optional) {
    || o == was
    || (&& Holds(buf, Oid([6]), 0x04, o.instanceId) && |o.instanceId| == 16
        && HoldsSequence(buf, Oid([7]))
        && BooleanHeld(buf, Oid([7, 1]), was.dynamicPlatform, o.dynamicPlatform)
        && BooleanHeld(buf, Oid([7, 2]), was.cachedKeys, o.cachedKeys)
        && BooleanHeld(buf, Oid([7, 3]), was.smtEnabled, o.smtEnabled))
  }

  lemma ConfigurationFound(buf: seq<byte>, itr: nat, end: nat, id: seq<byte>, was: Optional)
    requires itr <= end <= |buf| && ReadConfiguration(buf, itr, end, id, was).Success?
    ensures var o := ReadConfiguration(buf, itr, end, id, was).value;
            && o.instanceId == id
            && BooleanHeld(buf, Oid([7, 1]), was.dynamicPlatform, o.dynamicPlatform)
            && BooleanHeld(buf, Oid([7, 2]), was.cachedKeys, o.cachedKeys)
            && BooleanHeld(buf, Oid([7, 3]), was.smtEnabled, o.smtEnabled)
  {
    hide ReadBoolean, BooleanHeld;
    assert ConfigOid(1) == Oid([7, 1]) && ConfigOid(2) == Oid([7, 2]) && ConfigOid(3) == Oid([7, 3]);
    var a := ReadBoolean(buf, itr, end, ConfigOid(1), was.dynamicPlatform);
    var b := ReadBoolean(buf, a.next, end, ConfigOid(2), was.cachedKeys);
    BooleanFound(buf, itr, end, ConfigOid(1), was.dynamicPlatform);
    BooleanFound(buf, a.next, end, ConfigOid(2), was.cachedKeys);
    BooleanFound(buf, b.next, end, ConfigOid(3), was.smtEnabled);
  }

  lemma OptionalFound(buf: seq<byte>, itr: nat, was: Optional)
    requires itr <= |buf| && ReadOptional(buf, itr, |buf|, was).Success?
    ensures OptionalHeld(buf, was, ReadOptional(buf, itr, |buf|, was).value)
  {
    hide ReadExtension, ReadOctets, ReadConfiguration, Holds, HoldsSequence, BooleanHeld;
    if itr < |buf| {
      assert INSTANCE_ID_OID == Oid([6]);
      var id := ReadOctets(buf, itr, |buf|, INSTANCE_ID_OID, 16).value;
      OctetsFound(buf, itr, |buf|, INSTANCE_ID_OID, 16);
      var config := ReadExtension(buf, id.next, |buf|, CONFIGURATION_OID, SEQUENCE_TAG).value;
      SequenceFound(buf, id.next, |buf|, CONFIGURATION_OID);
      assert CONFIGURATION_OID == Oid([7]);
      ConfigurationFound(buf, config.start, config.next, id.value, was);
    }
  }

  ghost predicate PlatformHeld(buf: seq<byte>, was: Optional, x: Platform) {
    && Holds(buf, Oid([3]), 0x04, x.pceId) && |x.pceId| == 2
    && Holds(buf, Oid([4]), 0x04, x.fmspc) && |x.fmspc| == 6
    && Holds(buf, Oid([5]), 0x0a, [x.sgxType]) && x.sgxType < 2
    && OptionalHeld(buf, was, x.optional)
  }

  lemma PlatformFound(buf: seq<byte>, itr: nat, was: Optional)
    requires itr <= |buf| && ReadPlatform(buf, itr, was).Success?
    ensures PlatformHeld(buf, was, ReadPlatform(buf, itr, was).value)
  {
    hide ReadOctets, ReadExtension, ReadOptional, Holds, OptionalHeld;
    var end := |buf|;
    assert PCEID_OID == Oid([3]) && FMSPC_OID == Oid([4]) && SGX_TYPE_OID == Oid([5]);
    var pceId := ReadOctets(buf, itr, end, PCEID_OID, 2).value;
    OctetsFound(buf, itr, end, PCEID_OID, 2);
    var fmspc := ReadOctets(buf, pceId.next, end, FMSPC_OID, 6).value;
    OctetsFound(buf, pceId.next, end, FMSPC_OID, 6);
    var sgxType := ReadEnumeration(buf, fmspc.next, end, SGX_TYPE_OID).value;
    ExtensionFound(buf, fmspc.next, end, SGX_TYPE_OID, ENUMERATION_TAG);
    var d := ReadExtension(buf, fmspc.next, end, SGX_TYPE_OID, ENUMERATION_TAG).value;
    assert buf[d.start..d.next] == [sgxType.value];
    OptionalFound(buf, sgxType.next, was);
  }

  /** On any input that is accepted, every value stands behind its own identifier, with its own tag
      and size, and the two nested sequences behind theirs. */
  lemma AcceptedHolds(buf: seq<byte>, was: Optional)
    requires Parse(buf, was).Success?
    ensures var x := Parse(buf, was).value;
            && buf != [] && buf[0] == 0x30
            && Holds(buf, Oid([1]), 0x04, x.ppid) && |x.ppid| == 16
            && HoldsSequence(buf, Oid([2]))
            && TcbHeld(buf, x.tcb) && PlatformHeld(buf, was, x.platform)
  {
    hide ReadLength, ReadOctets, ReadExtension, ReadTcb, ReadPlatform, Holds, HoldsSequence, TcbHeld, PlatformHeld;
    var itr := ReadLength(buf, 1, |buf|).value.next;
    assert PPID_OID == Oid([1]) && TCB_OID == Oid([2]);
    var ppid := ReadOctets(buf, itr, |buf|, PPID_OID, 16).value;
    OctetsFound(buf, itr, |buf|, PPID_OID, 16);
    var tcb := ReadExtension(buf, ppid.next, |buf|, TCB_OID, SEQUENCE_TAG).value;
    SequenceFound(buf, ppid.next, |buf|, TCB_OID);
    TcbFound(buf, tcb.start, tcb.next);
    PlatformFound(buf, tcb.next, was);
  }

  // ----- forms that are accepted, and how others are refused

  /** A length in the long form is read back with any number of bytes, also more than it needs. */
  lemma LongFormRead(n: uint64, k: nat, buf: seq<byte>, itr: nat, end: nat)
    requires n > 0 && 0 < k <= 127 && n < Pow256(k)
    requires At(buf, itr, [0x80 + k] + BigEndian(n, k)) && itr + 1 + k + n <= end <= |buf|
    ensures ReadLength(buf, itr, end) == Success(Length(n, itr + 1 + k))
  {
    hide FromBigEndian, BigEndian, Pow256;
    AtFirst(buf, itr, [0x80 + k] + BigEndian(n, k));
    AtAppend(buf, itr, [0x80 + k], BigEndian(n, k));
    BigEndianRoundTrip(n, k);
    assert buf[itr + 1..itr + 1 + k] == BigEndian(n, k);
  }

  /** An extension with another identifier, or with another tag, is refused, each with its error. */
  lemma OtherRefused(oid: Small, tag: byte, content: Small, otherOid: seq<byte>, otherTag: byte, buf: seq<byte>, itr: nat, end: nat)
    requires oid != [] && content != []
    requires At(buf, itr, Ext(oid, tag, content)) && itr + |Ext(oid, tag, content)| <= end <= |buf|
    ensures otherOid != oid ==> ReadExtension(buf, itr, end, otherOid, otherTag) == Failure(FAILURE)
    ensures otherOid == oid && otherTag != tag ==>
              ReadExtension(buf, itr, end, otherOid, otherTag) == Failure(INVALID_SGX_CERTIFICATE_EXTENSIONS)
  {
    hide At, Tlv, DerLength, ReadLength;
    var id, data := Tlv(OBJECT_ID_TAG, oid), Tlv(tag, content);
    var p := itr + 1 + |DerLength(|id + data|)|;
    TlvParts(SEQUENCE_TAG, id + data, buf, itr);
    LengthUndone(|id + data|, buf, itr + 1, end);
    AtAppend(buf, p, id, data);
    ObjectUndone(OBJECT_ID_TAG, oid, buf, p, end);
    ObjectUndone(tag, content, buf, p + |id|, end);
  }

  /** Where a boolean is missing, the value and the cursor stay. */
  lemma BooleanMissing(oid: seq<byte>, was: bool, other: Small, tag: byte, content: Small, buf: seq<byte>, itr: nat, end: nat)
    requires other != [] && content != [] && (other != oid || tag != BOOLEAN_TAG)
    requires At(buf, itr, Ext(other, tag, content)) && itr + |Ext(other, tag, content)| <= end <= |buf|
    ensures ReadBoolean(buf, itr, end, oid, was) == Field(was, itr)
  {
    hide Ext, ReadExtension;
    OtherRefused(other, tag, content, oid, BOOLEAN_TAG, buf, itr, end);
  }

  /** The extension stands at the cursor, before the end. */
  predicate ExtAt(oid: Small, tag: byte, content: Small, buf: seq<byte>, itr: nat, end: nat) {
    At(buf, itr, Ext(oid, tag, content)) && itr + |Ext(oid, tag, content)| <= end <= |buf|
  }

  /** Values of another size than is asked for are refused, octets with another error than integers
      and enumerations. */
  lemma SizesRefused(oid: Small, content: Small, n: nat, buf: seq<byte>, itr: nat, end: nat)
    requires oid != [] && content != []
    ensures ExtAt(oid, OCTET_STRING_TAG, content, buf, itr, end) && |content| != n ==>
              ReadOctets(buf, itr, end, oid, n) == Failure(FAILURE)
    ensures ExtAt(oid, INTEGER_TAG, content, buf, itr, end) && |content| > n && (|content| > n + 1 || content[0] != 0) ==>
              ReadInteger(buf, itr, end, oid, n) == Failure(INVALID_SGX_CERTIFICATE_EXTENSIONS)
    ensures ExtAt(oid, ENUMERATION_TAG, content, buf, itr, end) && |content| != 1 ==>
              ReadEnumeration(buf, itr, end, oid) == Failure(INVALID_SGX_CERTIFICATE_EXTENSIONS)
  {
    hide Ext, ReadExtension;
    if ExtAt(oid, OCTET_STRING_TAG, content, buf, itr, end) {
      ExtUndone(oid, OCTET_STRING_TAG, content, buf, itr, end);
    }
    if ExtAt(oid, INTEGER_TAG, content, buf, itr, end) {
      ExtUndone(oid, INTEGER_TAG, content, buf, itr, end);
      AtFirst(buf, itr + |Ext(oid, INTEGER_TAG, content)| - |content|, content);
    }
    if ExtAt(oid, ENUMERATION_TAG, content, buf, itr, end) {
      ExtUndone(oid, ENUMERATION_TAG, content, buf, itr, end);
    }
  }

  /** An SGX type above 1 is refused, whatever follows. */
  lemma TypeRefused(pceId: Small, fmspc: Small, sgxType: byte, more: seq<byte>, was: Optional, buf: seq<byte>, itr: nat)
    requires |pceId| == 2 && |fmspc| == 6 && sgxType >= 2
    requires At(buf, itr, Octets(PCEID_OID, pceId) + (Octets(FMSPC_OID, fmspc) + (Ext(SGX_TYPE_OID, ENUMERATION_TAG, [sgxType]) + more)))
    ensures itr <= |buf| && ReadPlatform(buf, itr, was) == Failure(FAILURE)
  {
    hide At, Ext, Octets, ReadOctets, ReadEnumeration, ReadOptional;
    var a, b, c := Octets(PCEID_OID, pceId), Octets(FMSPC_OID, fmspc), Ext(SGX_TYPE_OID, ENUMERATION_TAG, [sgxType]);
    var p := itr + |a|;
    var q := p + |b|;
    AtAppend(buf, itr, a, b + (c + more));
    AtAppend(buf, p, b, c + more);
    AtAppend(buf, q, c, more);
    AtInside(buf, itr, a);
    AtInside(buf, p, b);
    AtInside(buf, q, c);
    OctetsUndone(PCEID_OID, pceId, buf, itr, |buf|);
    OctetsUndone(FMSPC_OID, fmspc, buf, p, |buf|);
    EnumerationUndone(SGX_TYPE_OID, sgxType, buf, q, |buf|);
  }

  // ----- nothing else stands in it

  /** Bytes behind the outermost sequence are refused. */
  lemma TrailingRefused(x: Info, withOptional: bool, was: Optional, more: seq<byte>)
    requires WellFormed(x) && more != []
    ensures Parse(Encode(x, withOptional) + more, was) == Failure(INVALID_SGX_CERTIFICATE_EXTENSIONS)
  {
    hide Body, DerLength, ReadLength, ReadBody;
    var body, buf := Body(x, withOptional), Encode(x, withOptional) + more;
    assert At(buf, 0, Encode(x, withOptional));
    TlvParts(SEQUENCE_TAG, body, buf, 0);
    LengthUndone(|body|, buf, 1, |buf|);
  }

  /** Bytes behind the last extension of the TCB sequence are refused. */
  lemma TcbUsedUp(t: Tcb, buf: seq<byte>, itr: nat, end: nat)
    requires WellFormedTcb(t) && At(buf, itr, TcbContent(t)) && itr + |TcbContent(t)| < end <= |buf|
    ensures ReadTcb(buf, itr, end) == Failure(INVALID_SGX_CERTIFICATE_EXTENSIONS)
  {
    hide At, Comps, PceSvn, Octets, ReadComps, ReadInteger, ReadOctets;
    var comps, pce, cpu := Comps(t.compSvn, NUM_COMPS), PceSvn(t.pceSvn), Octets(CPUSVN_OID, t.cpuSvn);
    AtAppend(buf, itr, comps, pce + cpu);
    AtAppend(buf, itr + |comps|, pce, cpu);
    CompsUndone(t.compSvn, NUM_COMPS, buf, itr, end);
    PceSvnUndone(t.pceSvn, buf, itr + |comps|, end);
    OctetsUndone(CPUSVN_OID, t.cpuSvn, buf, itr + |comps| + |pce|, end);
  }

  /** Bytes behind the three booleans of the configuration sequence are refused. */
  lemma ConfigurationUsedUp(o: Optional, was: Optional, buf: seq<byte>, itr: nat, end: nat)
    requires At(buf, itr, ConfigContent(o)) && itr + |ConfigContent(o)| < end <= |buf|
    ensures ReadConfiguration(buf, itr, end, o.instanceId, was) == Failure(INVALID_SGX_CERTIFICATE_EXTENSIONS)
  {
    hide At, Ext, ReadBoolean;
    var a := Ext(ConfigOid(1), BOOLEAN_TAG, [Flag(o.dynamicPlatform)]);
    var b := Ext(ConfigOid(2), BOOLEAN_TAG, [Flag(o.cachedKeys)]);
    var c := Ext(ConfigOid(3), BOOLEAN_TAG, [Flag(o.smtEnabled)]);
    AtAppend(buf, itr, a, b + c);
    AtAppend(buf, itr + |a|, b, c);
    BooleanUndone(ConfigOid(1), o.dynamicPlatform, was.dynamicPlatform, buf, itr, end);
    BooleanUndone(ConfigOid(2), o.cachedKeys, was.cachedKeys, buf, itr + |a|, end);
    BooleanUndone(ConfigOid(3), o.smtEnabled, was.smtEnabled, buf, itr + |a| + |b|, end);
  }

  /** Bytes behind the optional part are refused. */
  lemma OptionalUsedUp(o: Optional, was: Optional, buf: seq<byte>, itr: nat, end: nat)
    requires |o.instanceId| == 16 && At(buf, itr, OptionalPart(o, true)) && itr + |OptionalPart(o, true)| < end <= |buf|
    ensures ReadOptional(buf, itr, end, was) == Failure(INVALID_SGX_CERTIFICATE_EXTENSIONS)
  {
    hide At, Ext, Octets, ConfigContent, ReadExtension, ReadOctets, ReadConfiguration;
    var id, content := Octets(INSTANCE_ID_OID, o.instanceId), ConfigContent(o);
    var config := Ext(CONFIGURATION_OID, SEQUENCE_TAG, content);
    AtAppend(buf, itr, id, config);
    OctetsUndone(INSTANCE_ID_OID, o.instanceId, buf, itr, end);
    ExtUndone(CONFIGURATION_OID, SEQUENCE_TAG, content, buf, itr + |id|, end);
    ConfigUndone(o, was, buf, itr + |id| + |config| - |content|);
  }

  /** A boolean of another length than one leaves the value alone and is passed over. */
  lemma BooleanSkipped(oid: Small, content: Small, was: bool, buf: seq<byte>, itr: nat, end: nat)
    requires oid != [] && |content| > 1 && At(buf, itr, Ext(oid, BOOLEAN_TAG, content))
    requires itr + |Ext(oid, BOOLEAN_TAG, content)| <= end <= |buf|
    ensures ReadBoolean(buf, itr, end, oid, was) == Field(was, itr + |Ext(oid, BOOLEAN_TAG, content)|)
  {
    hide Ext, ReadExtension;
    ExtUndone(oid, BOOLEAN_TAG, content, buf, itr, end);
  }
}
