/** What the TCB info parser refuses (common/sgx/tcbinfo.c), on any input or on texts that depart
    from a document in one place. */
module TcbRefusals {
  import opened Bytes
  import opened Results
  import opened Datetime
  import opened TcbJson
  import opened TcbLevels
  import opened TcbInfo
  import opened TcbText
  import opened TcbSkip
  import opened TcbDocument

  /** Whatever is accepted ends in a closing brace, with nothing but white space behind it. */
  lemma AcceptedEnds(buf: seq<byte>, platform: TcbLevel)
    requires ParseTcbInfoJson(buf, platform).info.Some?
    ensures exists e :: && 0 <= e < |buf| && buf[e] == '}' as int
                        && forall k :: e < k < |buf| ==> buf[k] in {9, 10, 11, 12, 13, 32, 0}
  {
    hide ReadName, ReadTcbInfo, ReadHexString, SkipSpace;
    var e := LastBrace(buf, Undetermined(platform));
    assert buf[e] == '}' as int;
    forall k | e < k < |buf| ensures buf[k] in {9, 10, 11, 12, 13, 32, 0} {
      assert IsSpace(buf[k]);
    }
  }

  lemma LastBrace(buf: seq<byte>, platform: TcbLevel) returns (e: nat)
    requires ReadDocument(buf, platform).Success?
    ensures e < |buf| && buf[e] == '}' as int && ReadDocument(buf, platform).value.next == SkipSpace(buf, e + 1)
  {
    hide ReadName, ReadTcbInfo, ReadHexString, SkipSpace;
    var a := ReadChar('{' as int, buf, SkipSpace(buf, 0)).value;
    var b := ReadName(Ascii("tcbInfo"), buf, a).value;
    var info := ReadTcbInfo(buf, b, platform).value;
    var c := ReadChar(',' as int, buf, info.next).value;
    var d := ReadName(Ascii("signature"), buf, c).value;
    e := ReadHexString(buf, d, 64).value.next;
  }

  /** An object of another version than 1 and 2, modulo 2^32, is refused, whatever follows. */
  lemma VersionRefused(doc: Document, more: Tokens, platform: TcbLevel, buf: seq<byte>, itr: nat)
    requires doc.version < INTEGER_LIMIT && doc.version % 0x1_0000_0000 != 1 && doc.version % 0x1_0000_0000 != 2
    requires Printable(doc.issueDate) && Printable(doc.nextUpdate) && IsHex(doc.fmspc, 6)
    requires Spelled(buf, itr, Header(doc) + more)
    ensures itr <= |buf| && ReadTcbInfo(buf, itr, platform).Failure?
  {
    hide Spelled, After, Header, ReadHeader, ReadPceId, ReadExtraFields, ReadLevels, IsHex, HexBytes, IsValid;
    Cut(buf, itr, Header(doc), more);
    HeaderAt(doc, buf, itr);
  }

  /** A version 2 object with another "tcbType" than 0 is refused. */
  lemma TcbTypeRefused(t: nat, more: Tokens, buf: seq<byte>, itr: nat)
    requires 0 < t < INTEGER_LIMIT && Spelled(buf, itr, IntegerField(Ascii("tcbType"), t) + more)
    ensures itr <= |buf| && ReadExtraFields(buf, itr, 2).Failure?
  {
    hide Spelled, After, Name, Number, ReadName, ReadInteger, ReadChar, Ascii;
    PlainAscii("tcbType");
    Cut(buf, itr, IntegerField(Ascii("tcbType"), t), more);
    IntegerFieldAt(Ascii("tcbType"), t, buf, itr);
  }

  /** A component version above 255 is refused. */
  lemma ComponentRefused(i: nat, v: nat, more: Tokens, buf: seq<byte>, itr: nat)
    requires 255 < v < INTEGER_LIMIT && Spelled(buf, itr, (Name(CompName(i)) + ([Number(v)] + [COMMA])) + more)
    ensures itr <= |buf| && ReadComp(buf, itr, i).Failure?
  {
    hide Spelled, After, Name, Number, CompName, ReadName, ReadInteger, ReadChar;
    PlainCompName(i);
    Cut(buf, itr, Name(CompName(i)) + ([Number(v)] + [COMMA]), more);
    Cut(buf, itr, Name(CompName(i)), [Number(v)] + [COMMA]);
    NameAt(CompName(i), CompName(i), buf, itr);
    IntegerAt(v, COMMA, buf, After(buf, itr, Name(CompName(i))));
  }

  /** A string with an escape in it is refused. */
  lemma EscapeRefused(s: seq<byte>, buf: seq<byte>, itr: nat)
    requires Quotable(s) && At(buf, itr, [QUOTE] + s + [BACKSLASH])
    ensures itr <= |buf| && ReadString(buf, itr).Failure?
  {
    hide SkipSpace;
    var t := [QUOTE] + s + [BACKSLASH];
    assert buf[itr..itr + |t|] == t;
    assert t[0] == QUOTE && t[|s| + 1] == BACKSLASH;
    assert buf[itr] == buf[itr..itr + |t|][0] && buf[itr + 1 + |s|] == buf[itr..itr + |t|][|s| + 1];
    forall k | itr + 1 <= k < itr + 1 + |s| ensures buf[k] != QUOTE && buf[k] != BACKSLASH {
      assert buf[k] == buf[itr..itr + |t|][k - itr] == s[k - itr - 1];
    }
    assert SkipSpace(buf, itr) == itr by { NotSpace(buf, itr); }
    StringStops(buf, itr + 1, itr + 1 + |s|);
  }

  lemma NotSpace(buf: seq<byte>, itr: nat)
    requires itr < |buf| && buf[itr] == QUOTE
    ensures SkipSpace(buf, itr) == itr
  {
  }

  lemma {:induction false} StringStops(buf: seq<byte>, itr: nat, e: nat)
    requires itr <= e < |buf| && buf[e] == BACKSLASH
    requires forall k :: itr <= k < e ==> buf[k] != QUOTE && buf[k] != BACKSLASH
    ensures StringEnd(buf, itr) == e
    decreases e - itr
  {
    if itr < e {
      StringStops(buf, itr + 1, e);
    }
  }
}
