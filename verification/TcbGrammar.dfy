/** What an accepted TCB info document says (common/sgx/tcbinfo.c): whatever the parser accepts is,
    token for token, the text of a document, and what it reports is the value of those texts.

    The texts are taken as they stand: numbers with any digits, dates that the date parser takes,
    and, in version 2, anything balanced between the level that settles the status and the bracket
    that closes the list. */
module TcbGrammar {
  import opened Bytes
  import opened Results
  import opened Datetime
  import opened TcbJson
  import opened TcbLevels
  import opened TcbInfo
  import opened TcbText
  import opened TcbSkip
  import opened TcbDocument

  /** A level in texts: digits for the versions, the date and status between quotes, and the advisory
      identifiers between brackets. */
  datatype RawLevel = RawLevel(comps: seq<seq<byte>>, pceSvn: seq<byte>, date: seq<byte>, status: seq<byte>,
                               advisories: Option<seq<byte>>)

  datatype Raw = Raw(version: seq<byte>, issueDate: seq<byte>, nextUpdate: seq<byte>, fmspc: seq<byte>,
                     pceId: Option<seq<byte>>, tcbType: seq<byte>, evaluationNumber: seq<byte>,
                     levels: seq<RawLevel>, signature: seq<byte>)

  // ----- tokens that were read

  /** The cursor is not at white space, as behind every token. */
  predicate Poised(buf: seq<byte>, itr: nat) {
    itr <= |buf| && SkipSpace(buf, itr) == itr
  }

  lemma SkippedIsPoised(buf: seq<byte>, itr: nat)
    requires itr <= |buf|
    ensures Poised(buf, SkipSpace(buf, itr))
  {
  }

  /** Tokens can be put together. */
  lemma {:induction false} Join(buf: seq<byte>, itr: nat, a: Tokens, b: Tokens)
    requires Spelled(buf, itr, a) && Spelled(buf, After(buf, itr, a), b)
    ensures Spelled(buf, itr, a + b) && After(buf, itr, a + b) == After(buf, After(buf, itr, a), b)
    decreases |a|
  {
    hide SkipSpace, At;
    if a == [] {
      assert a + b == b;
    } else {
      assert (a + b)[1..] == a[1..] + b;
      Join(buf, SkipSpace(buf, itr + |a[0]|), a[1..], b);
    }
  }

  lemma CharFound(ch: byte, buf: seq<byte>, itr: nat)
    requires itr <= |buf| && ReadChar(ch, buf, itr).Success?
    ensures Spelled(buf, itr, [[ch]]) && ReadChar(ch, buf, itr) == Success(After(buf, itr, [[ch]]))
    ensures Poised(buf, After(buf, itr, [[ch]]))
  {
    hide SkipSpace;
    assert buf[itr..itr + 1] == [ch];
    One(buf, itr, [ch]);
    SkippedIsPoised(buf, itr + 1);
  }

  lemma StringFound(buf: seq<byte>, itr: nat) returns (s: seq<byte>)
    requires Poised(buf, itr) && ReadString(buf, itr).Success?
    ensures var r := ReadString(buf, itr).value;
            && s == buf[r.value.start..r.value.end] && Quotable(s) && Spelled(buf, itr, [Quoted(s)])
            && r.next == After(buf, itr, [Quoted(s)]) && Poised(buf, r.next)
  {
    hide SkipSpace, StringEnd;
    var r := ReadString(buf, itr).value;
    s := buf[r.value.start..r.value.end];
    assert buf[itr..r.value.end + 1] == [buf[itr]] + s + [buf[r.value.end]];
    One(buf, itr, Quoted(s));
    SkippedIsPoised(buf, r.value.end + 1);
  }

  lemma NameFound(name: seq<byte>, buf: seq<byte>, itr: nat)
    requires Poised(buf, itr) && ReadName(name, buf, itr).Success?
    ensures Spelled(buf, itr, Name(name)) && ReadName(name, buf, itr) == Success(After(buf, itr, Name(name)))
    ensures Poised(buf, After(buf, itr, Name(name)))
  {
    hide Spelled, After, ReadString, ReadChar, Quoted, SkipSpace;
    var s := StringFound(buf, itr);
    CharFound(':' as int, buf, ReadString(buf, itr).value.next);
    Join(buf, itr, [Quoted(name)], [COLON]);
    assert Name(name) == [Quoted(name)] + [COLON];
  }

  /** The text of a number. */
  predicate Digits(t: seq<byte>) {
    t != [] && AllDigits(t)
  }

  function ValueOf(t: seq<byte>): (v: nat)
    requires Digits(t)
  {
    DecimalOfDigits(t);
    FromDecimal(t)
  }

  /** The text of a number that is not too large. */
  predicate Readable(t: seq<byte>) {
    Digits(t) && ValueOf(t) < 18446744073709551610
  }

  lemma IntegerFound(buf: seq<byte>, itr: nat) returns (t: seq<byte>)
    requires itr <= |buf| && ReadInteger(buf, itr).Success?
    ensures Digits(t) && Spelled(buf, itr, [t])
    ensures ReadInteger(buf, itr) == Success(Token(ValueOf(t), After(buf, itr, [t])))
    ensures ValueOf(t) < 18446744073709551610 && Poised(buf, After(buf, itr, [t]))
  {
    hide SkipSpace, FromDecimal;
    var e := DigitsEnd(buf, itr);
    t := buf[itr..e];
    assert At(buf, itr, t);
    One(buf, itr, t);
    SkippedIsPoised(buf, e);
  }

  /** A date that the parser takes. */
  predicate Dated(t: seq<byte>) {
    Quotable(t) && Parse(t).Success?
  }

  // ----- fields

  function RawInteger(name: seq<byte>, t: seq<byte>): Tokens {
    Name(name) + ([t] + [COMMA])
  }

  function RawString(name: seq<byte>, t: seq<byte>): Tokens {
    Name(name) + ([Quoted(t)] + [COMMA])
  }

  lemma IntegerFieldFound(name: seq<byte>, buf: seq<byte>, itr: nat) returns (t: seq<byte>)
    requires Poised(buf, itr) && ReadIntegerField(name, buf, itr).Success?
    ensures Digits(t) && ValueOf(t) < 18446744073709551610 && Spelled(buf, itr, RawInteger(name, t))
    ensures ReadIntegerField(name, buf, itr) == Success(Token(ValueOf(t), After(buf, itr, RawInteger(name, t))))
    ensures Poised(buf, After(buf, itr, RawInteger(name, t)))
  {
    hide Spelled, After, Name, ReadName, ReadInteger, ReadChar, Poised, Digits, ValueOf;
    assert itr <= |buf| by { PoisedInside(buf, itr); }
    NameFound(name, buf, itr);
    var p := After(buf, itr, Name(name));
    t := IntegerFound(buf, p);
    var q := After(buf, p, [t]);
    CharFound(',' as int, buf, q);
    Join(buf, p, [t], [COMMA]);
    Join(buf, itr, Name(name), [t] + [COMMA]);
  }

  lemma PoisedInside(buf: seq<byte>, itr: nat)
    requires Poised(buf, itr)
    ensures itr <= |buf|
  {
  }

  lemma DateFieldFound(name: seq<byte>, buf: seq<byte>, itr: nat) returns (t: seq<byte>)
    requires Poised(buf, itr) && ReadDateField(name, buf, itr).Success?
    ensures Dated(t) && Spelled(buf, itr, RawString(name, t))
    ensures ReadDateField(name, buf, itr) == Success(Token(Parse(t).value, After(buf, itr, RawString(name, t))))
    ensures Poised(buf, After(buf, itr, RawString(name, t)))
  {
    hide Spelled, After, Name, ReadName, ReadString, ReadChar, Poised, Parse, Quoted;
    assert itr <= |buf| by { PoisedInside(buf, itr); }
    NameFound(name, buf, itr);
    var p := After(buf, itr, Name(name));
    t := StringFound(buf, p);
    CharFound(',' as int, buf, After(buf, p, [Quoted(t)]));
    Join(buf, p, [Quoted(t)], [COMMA]);
    Join(buf, itr, Name(name), [Quoted(t)] + [COMMA]);
  }

  lemma HexFound(buf: seq<byte>, itr: nat, n: nat) returns (t: seq<byte>)
    requires Poised(buf, itr) && ReadHexString(buf, itr, n).Success?
    ensures IsHex(t, n) && |t| % 2 == 0 && HexBytes(t).Some? && Spelled(buf, itr, [Quoted(t)])
    ensures ReadHexString(buf, itr, n) == Success(Token(HexBytes(t).value, After(buf, itr, [Quoted(t)])))
    ensures Poised(buf, After(buf, itr, [Quoted(t)]))
  {
    hide Spelled, After, ReadString, Quoted, HexBytes;
    t := StringFound(buf, itr);
  }

  lemma HexFieldFound(name: seq<byte>, buf: seq<byte>, itr: nat, n: nat) returns (t: seq<byte>)
    requires Poised(buf, itr) && ReadHexField(name, buf, itr, n).Success?
    ensures IsHex(t, n) && |t| % 2 == 0 && HexBytes(t).Some? && Spelled(buf, itr, RawString(name, t))
    ensures ReadHexField(name, buf, itr, n) == Success(Token(HexBytes(t).value, After(buf, itr, RawString(name, t))))
    ensures Poised(buf, After(buf, itr, RawString(name, t)))
  {
    hide Spelled, After, Name, ReadName, ReadHexString, ReadChar, Poised, HexBytes, Quoted, IsHex;
    assert itr <= |buf| by { PoisedInside(buf, itr); }
    NameFound(name, buf, itr);
    var p := After(buf, itr, Name(name));
    t := HexFound(buf, p, n);
    HexSome(t, n);
    CharFound(',' as int, buf, After(buf, p, [Quoted(t)]));
    Join(buf, p, [Quoted(t)], [COMMA]);
    Join(buf, itr, Name(name), [Quoted(t)] + [COMMA]);
  }

  // ----- levels

  function RawComps(ts: seq<seq<byte>>, n: nat): Tokens
    requires n <= |ts|
  {
    if n == 0 then [] else RawComps(ts, n - 1) + RawInteger(CompName(n - 1), ts[n - 1])
  }

  function RawTcb(l: RawLevel): Tokens
    requires |l.comps| == 16
  {
    [LBRACE] + (RawComps(l.comps, 16) + (Name(Ascii("pcesvn")) + ([l.pceSvn] + [RBRACE])))
  }

  function RawHead(l: RawLevel): Tokens
    requires |l.comps| == 16
  {
    [LBRACE] + (Name(Ascii("tcb")) + (RawTcb(l) + [COMMA]))
  }

  function RawV1(l: RawLevel): Tokens
    requires |l.comps| == 16
  {
    RawHead(l) + (StatusField(Ascii("status"), l.status) + [RBRACE])
  }

  function RawAdvisories(ids: Option<seq<byte>>): Tokens {
    if ids.None? then [] else [COMMA] + (Name(Ascii("advisoryIDs")) + [Bracketed(ids.value)])
  }

  function RawV2(l: RawLevel): Tokens
    requires |l.comps| == 16
  {
    RawHead(l)
    + (RawString(Ascii("tcbDate"), l.date) + (StatusField(Ascii("tcbStatus"), l.status) + (RawAdvisories(l.advisories) + [RBRACE])))
  }

  /** The text of a number up to a bound. */
  predicate DigitsUpTo(t: seq<byte>, max: nat) {
    Digits(t) && ValueOf(t) <= max
  }

  predicate GoodComps(ts: seq<seq<byte>>) {
    forall i :: 0 <= i < |ts| ==> DigitsUpTo(ts[i], 255)
  }

  /** Sixteen versions of eight bits, one of sixteen bits, and a status without quotes. */
  predicate GoodV1(l: RawLevel) {
    |l.comps| == 16 && GoodComps(l.comps) && DigitsUpTo(l.pceSvn, 65535) && Quotable(l.status)
  }

  /** In version 2 also a date, and advisory identifiers up to the closing bracket. */
  predicate GoodV2(l: RawLevel) {
    GoodV1(l) && Dated(l.date) && (l.advisories.Some? ==> NoClose(l.advisories.value))
  }

  function CompValues(ts: seq<seq<byte>>): (vs: seq<byte>)
    requires GoodComps(ts)
    ensures |vs| == |ts|
  {
    seq(|ts|, i requires 0 <= i < |ts| => CompValue(ts, i))
  }

  function CompValue(ts: seq<seq<byte>>, i: nat): byte
    requires GoodComps(ts) && i < |ts|
  {
    assert DigitsUpTo(ts[i], 255);
    ValueOf(ts[i])
  }

  /** The level that the texts stand for. */
  function Meaning(l: RawLevel): LevelText
    requires GoodV1(l)
  {
    LevelText(CompValues(l.comps), ValueOf(l.pceSvn), l.status, if Parse(l.date).Success? then Parse(l.date).value else ZERO,
              l.advisories)
  }

  lemma CompFound(i: nat, buf: seq<byte>, itr: nat) returns (t: seq<byte>)
    requires Poised(buf, itr) && ReadComp(buf, itr, i).Success?
    ensures DigitsUpTo(t, 255) && Spelled(buf, itr, RawInteger(CompName(i), t))
    ensures ReadComp(buf, itr, i) == Success(Token(ValueOf(t), After(buf, itr, RawInteger(CompName(i), t))))
    ensures Poised(buf, After(buf, itr, RawInteger(CompName(i), t)))
  {
    hide Spelled, After, RawInteger, Poised, Digits, ValueOf, ReadIntegerField, ReadComp;
    assert itr <= |buf| by { PoisedInside(buf, itr); }
    CompIsField(i, buf, itr);
    t := IntegerFieldFound(CompName(i), buf, itr);
  }

  lemma CompIsField(i: nat, buf: seq<byte>, itr: nat)
    requires itr <= |buf| && ReadComp(buf, itr, i).Success?
    ensures ReadIntegerField(CompName(i), buf, itr) == ReadComp(buf, itr, i)
  {
    hide ReadName, ReadInteger, ReadChar, CompName;
  }

  lemma {:induction false} CompsFound(buf: seq<byte>, itr: nat, n: nat) returns (ts: seq<seq<byte>>)
    requires Poised(buf, itr) && ReadComps(buf, itr, n).Success?
    ensures |ts| == n && GoodComps(ts) && Spelled(buf, itr, RawComps(ts, n))
    ensures ReadComps(buf, itr, n) == Success(Token(CompValues(ts), After(buf, itr, RawComps(ts, n))))
    ensures Poised(buf, After(buf, itr, RawComps(ts, n)))
    decreases n
  {
    hide Spelled, After, RawInteger, Poised, DigitsUpTo, ReadComp, ValueOf, CompName;
    assert itr <= |buf| by { PoisedInside(buf, itr); }
    if n == 0 {
      ts := [];
      Nothing(buf, itr);
    } else {
      var init := CompsFound(buf, itr, n - 1);
      var p := After(buf, itr, RawComps(init, n - 1));
      var t := CompFound(n - 1, buf, p);
      ts := init + [t];
      RawCompsSnoc(init, t);
      Join(buf, itr, RawComps(init, n - 1), RawInteger(CompName(n - 1), t));
      CompValuesSnoc(init, t);
    }
  }

  lemma {:induction false} RawCompsPrefix(ts: seq<seq<byte>>, more: seq<seq<byte>>, n: nat)
    requires n <= |ts|
    ensures RawComps(ts + more, n) == RawComps(ts, n)
  {
    hide RawInteger, CompName;
    if n > 0 {
      RawCompsPrefix(ts, more, n - 1);
    }
  }

  lemma RawCompsSnoc(ts: seq<seq<byte>>, t: seq<byte>)
    ensures RawComps(ts + [t], |ts| + 1) == RawComps(ts, |ts|) + RawInteger(CompName(|ts|), t)
  {
    hide RawInteger, CompName;
    RawCompsPrefix(ts, [t], |ts|);
  }

  lemma CompValuesSnoc(ts: seq<seq<byte>>, t: seq<byte>)
    requires GoodComps(ts) && DigitsUpTo(t, 255)
    ensures GoodComps(ts + [t]) && CompValues(ts + [t]) == CompValues(ts) + [ValueOf(t)]
  {
    hide ValueOf, Digits;
  }

  lemma TcbFound(buf: seq<byte>, itr: nat) returns (l: RawLevel)
    requires Poised(buf, itr) && ReadTcb(buf, itr).Success?
    ensures |l.comps| == 16 && GoodComps(l.comps) && DigitsUpTo(l.pceSvn, 65535) && Spelled(buf, itr, RawTcb(l))
    ensures ReadTcb(buf, itr) == Success(Token((CompValues(l.comps), ValueOf(l.pceSvn)), After(buf, itr, RawTcb(l))))
    ensures Poised(buf, After(buf, itr, RawTcb(l)))
  {
    hide Spelled, After, Name, RawComps, Poised, GoodComps, CompValues, ValueOf, Digits, ReadComps, ReadName, ReadInteger, ReadChar,
      Ascii;
    assert itr <= |buf| by { PoisedInside(buf, itr); }
    CharFound('{' as int, buf, itr);
    var p := After(buf, itr, [LBRACE]);
    var ts := CompsFound(buf, p, 16);
    var q := After(buf, p, RawComps(ts, 16));
    var name := Name(Ascii("pcesvn"));
    NameFound(Ascii("pcesvn"), buf, q);
    var v := After(buf, q, name);
    var t := IntegerFound(buf, v);
    CharFound('}' as int, buf, After(buf, v, [t]));
    l := RawLevel(ts, t, [], [], None);
    Join(buf, v, [t], [RBRACE]);
    Join(buf, q, name, [t] + [RBRACE]);
    Join(buf, p, RawComps(ts, 16), name + ([t] + [RBRACE]));
    Join(buf, itr, [LBRACE], RawComps(ts, 16) + (name + ([t] + [RBRACE])));
  }

  lemma HeadFound(buf: seq<byte>, itr: nat) returns (l: RawLevel)
    requires Poised(buf, itr) && ReadLevelHead(buf, itr).Success?
    ensures |l.comps| == 16 && GoodComps(l.comps) && DigitsUpTo(l.pceSvn, 65535) && Spelled(buf, itr, RawHead(l))
    ensures ReadLevelHead(buf, itr) == Success(Token((CompValues(l.comps), ValueOf(l.pceSvn)), After(buf, itr, RawHead(l))))
    ensures Poised(buf, After(buf, itr, RawHead(l)))
  {
    hide Spelled, After, Name, RawTcb, Poised, GoodComps, CompValues, ValueOf, Digits, ReadTcb, ReadName, ReadChar, Ascii;
    assert itr <= |buf| by { PoisedInside(buf, itr); }
    CharFound('{' as int, buf, itr);
    var p, name := After(buf, itr, [LBRACE]), Name(Ascii("tcb"));
    NameFound(Ascii("tcb"), buf, p);
    var q := After(buf, p, name);
    l := TcbFound(buf, q);
    CharFound(',' as int, buf, After(buf, q, RawTcb(l)));
    Join(buf, q, RawTcb(l), [COMMA]);
    Join(buf, p, name, RawTcb(l) + [COMMA]);
    Join(buf, itr, [LBRACE], name + (RawTcb(l) + [COMMA]));
  }

  lemma StatusFieldFound(name: seq<byte>, buf: seq<byte>, itr: nat) returns (t: seq<byte>)
    requires Poised(buf, itr) && ReadStatusField(name, buf, itr).Success?
    ensures Quotable(t) && Spelled(buf, itr, StatusField(name, t))
    ensures ReadStatusField(name, buf, itr) == Success(Token(ParseTcbStatus(t), After(buf, itr, StatusField(name, t))))
    ensures Poised(buf, After(buf, itr, StatusField(name, t)))
  {
    hide Spelled, After, Name, Poised, ReadName, ReadString, ParseTcbStatus, Quoted;
    assert itr <= |buf| by { PoisedInside(buf, itr); }
    NameFound(name, buf, itr);
    var p := After(buf, itr, Name(name));
    t := StringFound(buf, p);
    Join(buf, itr, Name(name), [Quoted(t)]);
  }

  lemma LevelV1Found(buf: seq<byte>, itr: nat) returns (l: RawLevel)
    requires Poised(buf, itr) && ReadLevelV1(buf, itr).Success?
    ensures GoodV1(l) && |l.comps| == 16 && Spelled(buf, itr, RawV1(l))
    ensures ReadLevelV1(buf, itr) == Success(Token(ReadOffV1(Meaning(l)), After(buf, itr, RawV1(l))))
    ensures Poised(buf, After(buf, itr, RawV1(l)))
  {
    hide Spelled, After, RawHead, StatusField, Poised, GoodComps, CompValues, ValueOf, DigitsUpTo, ReadLevelHead, ReadStatusField,
      ReadChar, ParseTcbStatus, Ascii, Parse;
    assert itr <= |buf| by { PoisedInside(buf, itr); }
    var head := HeadFound(buf, itr);
    var p := After(buf, itr, RawHead(head));
    var t := StatusFieldFound(Ascii("status"), buf, p);
    var status := StatusField(Ascii("status"), t);
    CharFound('}' as int, buf, After(buf, p, status));
    l := RawLevel(head.comps, head.pceSvn, [], t, None);
    assert RawHead(l) == RawHead(head) by { SameHead(l, head); }
    Join(buf, p, status, [RBRACE]);
    Join(buf, itr, RawHead(l), status + [RBRACE]);
  }

  lemma SameHead(a: RawLevel, b: RawLevel)
    requires |a.comps| == 16 && a.comps == b.comps && a.pceSvn == b.pceSvn
    ensures RawHead(a) == RawHead(b)
  {
    hide RawComps, Name, Ascii;
  }

  lemma AdvisoriesFound(buf: seq<byte>, itr: nat, previous: TcbLevel) returns (ids: Option<seq<byte>>)
    requires Poised(buf, itr) && ReadAdvisories(buf, itr, previous).Success?
    ensures ids.Some? ==> NoClose(ids.value)
    ensures Spelled(buf, itr, RawAdvisories(ids)) && ReadAdvisories(buf, itr, previous).value.next == After(buf, itr, RawAdvisories(ids))
    ensures Poised(buf, After(buf, itr, RawAdvisories(ids)))
    ensures Stretched(ReadAdvisories(buf, itr, previous).value.value, ids, buf, previous)
  {
    hide Spelled, After, Name, Poised, ReadName, Ascii, NextClose, NoClose, SkipSpace, ReadChar, Bracketed, Stretched;
    assert itr <= |buf| by { PoisedInside(buf, itr); }
    var comma := ReadChar(',' as int, buf, itr);
    if comma.Failure? {
      ids := None;
      Nothing(buf, itr);
      assert Stretched((previous.advisoryOffset, previous.advisorySize), None, buf, previous) by { Unstretched(buf, previous); }
    } else {
      CharFound(',' as int, buf, itr);
      var p, name := After(buf, itr, [COMMA]), Name(Ascii("advisoryIDs"));
      NameFound(Ascii("advisoryIDs"), buf, p);
      var q := After(buf, p, name);
      var found := BracketsFound(buf, q);
      ids := Some(found);
      Join(buf, p, name, [Bracketed(found)]);
      Join(buf, itr, [COMMA], name + [Bracketed(found)]);
      StretchedAt(found, buf, q, previous);
    }
  }

  /** The stretch of the document that is kept for the advisory identifiers. */
  predicate Stretched(stretch: (nat, nat), ids: Option<seq<byte>>, buf: seq<byte>, previous: TcbLevel) {
    if ids.None? then stretch == (previous.advisoryOffset, previous.advisorySize)
    else && stretch.0 + stretch.1 <= |buf|
         && buf[stretch.0..stretch.0 + stretch.1] == ids.value[SkipSpace(ids.value, 0)..]
  }

  lemma Unstretched(buf: seq<byte>, previous: TcbLevel)
    ensures Stretched((previous.advisoryOffset, previous.advisorySize), None, buf, previous)
  {
  }

  lemma StretchedAt(ids: seq<byte>, buf: seq<byte>, q: nat, previous: TcbLevel)
    requires At(buf, q, Bracketed(ids)) && NoClose(ids) && q < |buf|
    ensures var start := SkipSpace(buf, q + 1);
            start <= q + 1 + |ids| && Stretched((start, q + 1 + |ids| - start), Some(ids), buf, previous)
  {
    hide SkipSpace, At, Bracketed, NoClose;
    KeptAt(ids, buf, q);
  }

  /** The identifiers between the brackets that the reader goes through. */
  lemma BracketsFound(buf: seq<byte>, q: nat) returns (ids: seq<byte>)
    requires q <= |buf| && ReadChar(OPEN, buf, q).Success?
    requires ReadChar(CLOSE, buf, NextClose(buf, ReadChar(OPEN, buf, q).value)).Success?
    ensures q < |buf| && At(buf, q, Bracketed(ids)) && NoClose(ids)
    ensures ReadChar(OPEN, buf, q).value == SkipSpace(buf, q + 1)
    ensures NextClose(buf, ReadChar(OPEN, buf, q).value) == q + 1 + |ids|
    ensures Spelled(buf, q, [Bracketed(ids)]) && Poised(buf, After(buf, q, [Bracketed(ids)]))
    ensures ReadChar(CLOSE, buf, NextClose(buf, ReadChar(OPEN, buf, q).value)) == Success(After(buf, q, [Bracketed(ids)]))
  {
    hide NextClose, SkipSpace;
    var start := SkipSpace(buf, q + 1);
    var e := NextClose(buf, start);
    ids := buf[q + 1..e];
    forall i | 0 <= i < |ids| ensures ids[i] != CLOSE {
      if q + 1 + i < start {
        assert IsSpace(buf[q + 1 + i]);
      }
    }
    assert buf[q..e + 1] == Bracketed(ids);
    One(buf, q, Bracketed(ids));
    SkippedIsPoised(buf, e + 1);
  }

  lemma LevelV2Found(buf: seq<byte>, itr: nat, previous: TcbLevel) returns (l: RawLevel)
    requires Poised(buf, itr) && ReadLevelV2(buf, itr, previous).Success?
    ensures GoodV2(l) && |l.comps| == 16 && Spelled(buf, itr, RawV2(l))
    ensures var r := ReadLevelV2(buf, itr, previous).value;
            && r.next == After(buf, itr, RawV2(l)) && Poised(buf, r.next)
            && SameLevel(r.value, LevelOf(Meaning(l))) && r.value.tcbDate == Meaning(l).date
            && Kept((r.value.advisoryOffset, r.value.advisorySize), Meaning(l), buf, previous)
  {
    hide Spelled, After, RawHead, RawString, RawAdvisories, StatusField, Poised, GoodComps, CompValues, ValueOf, DigitsUpTo,
      ReadLevelHead, ReadDateField, ReadStatusField, ReadAdvisories, ReadChar, ParseTcbStatus, Ascii, Parse, Quotable, SkipSpace;
    assert itr <= |buf| by { PoisedInside(buf, itr); }
    var head := HeadFound(buf, itr);
    var p := After(buf, itr, RawHead(head));
    var d := DateFieldFound(Ascii("tcbDate"), buf, p);
    var date := RawString(Ascii("tcbDate"), d);
    var q := After(buf, p, date);
    var t := StatusFieldFound(Ascii("tcbStatus"), buf, q);
    var status := StatusField(Ascii("tcbStatus"), t);
    var s := After(buf, q, status);
    var ids := AdvisoriesFound(buf, s, previous);
    var advisories := RawAdvisories(ids);
    CharFound('}' as int, buf, After(buf, s, advisories));
    l := RawLevel(head.comps, head.pceSvn, d, t, ids);
    assert RawHead(l) == RawHead(head) by { SameHead(l, head); }
    Join(buf, s, advisories, [RBRACE]);
    Join(buf, q, status, advisories + [RBRACE]);
    Join(buf, p, date, status + (advisories + [RBRACE]));
    Join(buf, itr, RawHead(l), date + (status + (advisories + [RBRACE])));
  }

  // ----- lists of levels

  predicate AllGoodV1(ls: seq<RawLevel>) {
    forall i :: 0 <= i < |ls| ==> GoodV1(ls[i])
  }

  predicate AllGoodV2(ls: seq<RawLevel>) {
    forall i :: 0 <= i < |ls| ==> GoodV2(ls[i])
  }

  function RawListV1(ls: seq<RawLevel>): Tokens
    requires ls != [] && AllGoodV1(ls)
  {
    if |ls| == 1 then RawV1(ls[0]) else RawV1(ls[0]) + ([COMMA] + RawListV1(ls[1..]))
  }

  function RawListV2(ls: seq<RawLevel>): Tokens
    requires ls != [] && AllGoodV1(ls)
  {
    if |ls| == 1 then RawV2(ls[0]) else RawV2(ls[0]) + ([COMMA] + RawListV2(ls[1..]))
  }

  function Meanings(ls: seq<RawLevel>): (ds: seq<LevelText>)
    requires AllGoodV1(ls)
    ensures |ds| == |ls|
  {
    seq(|ls|, i requires 0 <= i < |ls| => Meaning(ls[i]))
  }

  lemma MeaningsCons(l: RawLevel, rest: seq<RawLevel>)
    requires GoodV1(l) && AllGoodV1(rest)
    ensures AllGoodV1([l] + rest) && ([l] + rest)[1..] == rest
    ensures Meanings([l] + rest) == [Meaning(l)] + Meanings(rest) && Meanings([l] + rest)[1..] == Meanings(rest)
    ensures LevelsOf(Meanings([l] + rest)) == [LevelOf(Meaning(l))] + LevelsOf(Meanings(rest))
  {
    hide Meaning, GoodV1, LevelOf;
    assert Meanings([l] + rest) == [Meaning(l)] + Meanings(rest);
    LevelsOfFirst(Meanings([l] + rest));
  }

  /** The levels that the version 1 reader goes through, up to the closing bracket. */
  lemma {:induction false} ListV1Found(buf: seq<byte>, itr: nat, platform: TcbLevel) returns (ls: seq<RawLevel>)
    requires Poised(buf, itr) && ReadLevelsV1(buf, itr, platform).Success?
    ensures ls != [] && AllGoodV1(ls) && Spelled(buf, itr, RawListV1(ls))
    ensures var r := ReadLevelsV1(buf, itr, platform).value;
            && r.next == After(buf, itr, RawListV1(ls)) && r.value.0 == ScanAll(platform, LevelsOf(Meanings(ls)))
            && r.value.1 == ReadOffV1(Meanings(ls)[|ls| - 1])
    decreases |buf| - itr
  {
    hide Spelled, After, RawV1, Poised, GoodV1, Meaning, LevelOf, LevelsOf, ReadOffV1, ReadLevelV1, ReadChar, Consider;
    assert itr <= |buf| by { PoisedInside(buf, itr); }
    var l := LevelV1Found(buf, itr);
    var level := ReadLevelV1(buf, itr).value;
    assert SameLevel(level.value, LevelOf(Meaning(l))) by { SameReadOff(Meaning(l)); }
    var state := Consider(platform, level.value);
    assert state == Consider(platform, LevelOf(Meaning(l))) by { SameConsidered(platform, level.value, LevelOf(Meaning(l))); }
    MeaningsCons(l, []);
    if AtClose(buf, level.next) {
      ls := [l];
      assert [l] + [] == ls;
      OneScanned(platform, LevelOf(Meaning(l)), LevelsOf(Meanings([])));
    } else {
      CharFound(',' as int, buf, level.next);
      var p := After(buf, level.next, [COMMA]);
      var rest := ListV1Found(buf, p, state);
      ls := [l] + rest;
      MeaningsCons(l, rest);
      MoreScanned(platform, LevelOf(Meaning(l)), LevelsOf(Meanings(rest)));
      Join(buf, level.next, [COMMA], RawListV1(rest));
      Join(buf, itr, RawV1(l), [COMMA] + RawListV1(rest));
    }
  }

  lemma SameConsidered(platform: TcbLevel, a: TcbLevel, b: TcbLevel)
    requires SameLevel(a, b)
    ensures Consider(platform, a) == Consider(platform, b)
  {
  }

  lemma OneScanned(platform: TcbLevel, level: TcbLevel, none: seq<TcbLevel>)
    requires none == []
    ensures ScanAll(platform, [level] + none) == Consider(platform, level)
  {
    hide Consider;
    assert ([level] + none)[1..] == [];
  }

  lemma MoreScanned(platform: TcbLevel, level: TcbLevel, rest: seq<TcbLevel>)
    ensures ScanAll(platform, [level] + rest) == ScanAll(Consider(platform, level), rest)
  {
    hide Consider;
    assert ([level] + rest)[1..] == rest;
  }

  /** What the version 2 reader is left with: the state of the scan, and the last level it read. */
  predicate ListedV2(r: (TcbLevel, TcbLevel), ls: seq<RawLevel>, buf: seq<byte>, platform: TcbLevel, previous: TcbLevel)
    requires ls != [] && AllGoodV1(ls)
  {
    && r.0 == ScanUntilKnown(platform, LevelsOf(Meanings(ls)))
    && StopsAt(platform, Meanings(ls)) == |ls| - 1 && ReadOffV2(r.1, Meanings(ls), |ls| - 1, buf, previous)
  }

  /** Behind the levels that were read: nothing more, or, when the last one settles the status, a text
      with balanced brackets. */
  predicate Skipped(buf: seq<byte>, p: nat, e: nat, settled: bool) {
    p <= e && AtClose(buf, e) && (if settled then Balanced(buf[p..e]) else p == e)
  }

  /** The last of the levels applies to the platform. */
  predicate LastSettles(platform: TcbLevel, ls: seq<RawLevel>)
    requires ls != [] && AllGoodV1(ls)
  {
    Chosen(platform, LevelOf(Meanings(ls)[|ls| - 1]))
  }

  /** The levels that the version 2 reader goes through, and what it skips behind them. */
  lemma {:induction false} ListV2Found(buf: seq<byte>, itr: nat, platform: TcbLevel, previous: TcbLevel) returns (ls: seq<RawLevel>)
    requires Poised(buf, itr) && platform.status == UNKNOWN && ReadLevelsV2(buf, itr, platform, previous).Success?
    ensures ls != [] && AllGoodV1(ls) && AllGoodV2(ls) && Spelled(buf, itr, RawListV2(ls))
    ensures var r := ReadLevelsV2(buf, itr, platform, previous).value;
            && Skipped(buf, After(buf, itr, RawListV2(ls)), r.next, LastSettles(platform, ls))
            && ListedV2(r.value, ls, buf, platform, previous)
    decreases |buf| - itr
  {
    hide Spelled, After, RawV2, Poised, GoodV1, GoodV2, Meaning, LevelOf, LevelsOf, ReadLevelV2, ReadChar, Chosen, ListedV2, Skipped,
      ArrayEnd, Kept, Balanced;
    assert itr <= |buf| by { PoisedInside(buf, itr); }
    var l := LevelV2Found(buf, itr, previous);
    assert GoodV1(l) by { GoodBoth(l); }
    var level := ReadLevelV2(buf, itr, previous).value;
    LevelConsidered(platform, level.value, Meaning(l));
    MeaningsCons(l, []);
    assert [l] + [] == [l];
    if Chosen(platform, LevelOf(Meaning(l))) {
      ls := [l];
      var e := ArrayEnd(buf, level.next, level.next);
      assert AtClose(buf, e);
      SkipsToBalanced(buf, level.next, e);
      assert Skipped(buf, level.next, e, true) by { SettledSkips(buf, level.next, e); }
      assert ListedV2((Consider(platform, level.value).(tcbDate := level.value.tcbDate), level.value), ls, buf, platform, previous)
        by { FirstListed(l, level.value, buf, platform, previous); }
    } else if AtClose(buf, level.next) {
      ls := [l];
      assert Skipped(buf, level.next, level.next, false) by { UnsettledSkips(buf, level.next); }
      assert ListedV2((platform, level.value), ls, buf, platform, previous) by { FirstListed(l, level.value, buf, platform, previous); }
    } else {
      CharFound(',' as int, buf, level.next);
      var p := After(buf, level.next, [COMMA]);
      var rest := ListV2Found(buf, p, platform, level.value);
      ls := [l] + rest;
      MeaningsCons(l, rest);
      Join(buf, level.next, [COMMA], RawListV2(rest));
      Join(buf, itr, RawV2(l), [COMMA] + RawListV2(rest));
      assert Meanings(ls)[|ls| - 1] == Meanings(rest)[|rest| - 1];
      NextListed(l, level.value, rest, ReadLevelsV2(buf, p, platform, level.value).value.value, buf, platform, previous);
    }
  }

  lemma GoodBoth(l: RawLevel)
    requires GoodV2(l)
    ensures GoodV1(l)
  {
  }

  lemma SettledSkips(buf: seq<byte>, p: nat, e: nat)
    requires p <= e && AtClose(buf, e) && Balanced(buf[p..e])
    ensures Skipped(buf, p, e, true)
  {
  }

  lemma UnsettledSkips(buf: seq<byte>, p: nat)
    requires AtClose(buf, p)
    ensures Skipped(buf, p, p, false)
  {
  }

  lemma FirstListed(l: RawLevel, level: TcbLevel, buf: seq<byte>, platform: TcbLevel, previous: TcbLevel)
    requires GoodV1(l) && AllGoodV1([l]) && platform.status == UNKNOWN
    requires SameLevel(level, LevelOf(Meaning(l))) && level.tcbDate == Meaning(l).date
    requires Kept((level.advisoryOffset, level.advisorySize), Meaning(l), buf, previous)
    ensures Chosen(platform, LevelOf(Meaning(l))) ==>
              ListedV2((Consider(platform, level).(tcbDate := level.tcbDate), level), [l], buf, platform, previous)
    ensures !Chosen(platform, LevelOf(Meaning(l))) ==> ListedV2((platform, level), [l], buf, platform, previous)
  {
    hide GoodV1, Meaning, Kept, ReadOffV2, LevelsOf, Chosen, LevelOf;
    var ds := Meanings([l]);
    MeaningsCons(l, []);
    assert [l] + [] == [l];
    LevelConsidered(platform, level, Meaning(l));
    ReadOffFirst(level, ds, buf, previous);
    StopsAtStep(platform, ds);
    assert LevelsOf(Meanings([])) == [];
    assert ([LevelOf(Meaning(l))] + LevelsOf(Meanings([])))[1..] == [];
    assert ScanUntilKnown(platform, []) == platform;
  }

  lemma NextListed(l: RawLevel, first: TcbLevel, rest: seq<RawLevel>, r: (TcbLevel, TcbLevel), buf: seq<byte>, platform: TcbLevel,
                   previous: TcbLevel)
    requires GoodV1(l) && rest != [] && AllGoodV1(rest) && AllGoodV1([l] + rest) && platform.status == UNKNOWN
    requires !Chosen(platform, LevelOf(Meaning(l))) && ListedV2(r, rest, buf, platform, first)
    requires Kept((first.advisoryOffset, first.advisorySize), Meaning(l), buf, previous)
    ensures ListedV2(r, [l] + rest, buf, platform, previous)
  {
    hide GoodV1, Meaning, Kept, ReadOffV2, LevelsOf, Chosen, LevelOf, StopsAt;
    var ds := Meanings([l] + rest);
    MeaningsCons(l, rest);
    StopsAtStep(platform, ds);
    ReadOffNext(first, r.1, ds, |rest|, buf, previous);
    PassedOver(platform, LevelOf(Meaning(l)), LevelsOf(Meanings(rest)));
  }

  lemma PassedOver(platform: TcbLevel, level: TcbLevel, rest: seq<TcbLevel>)
    requires platform.status == UNKNOWN && !Chosen(platform, level)
    ensures ScanUntilKnown(platform, [level] + rest) == ScanUntilKnown(platform, rest)
  {
    assert ([level] + rest)[1..] == rest;
  }

  // ----- the document

  function RawHeader(raw: Raw): Tokens {
    [LBRACE]
    + (RawInteger(Ascii("version"), raw.version)
       + (RawString(Ascii("issueDate"), raw.issueDate)
          + (RawString(Ascii("nextUpdate"), raw.nextUpdate) + RawString(Ascii("fmspc"), raw.fmspc))))
  }

  function RawPceId(pceId: Option<seq<byte>>): Tokens {
    if pceId.None? then [] else RawString(Ascii("pceId"), pceId.value)
  }

  function RawExtra(version: nat, tcbType: seq<byte>, number: seq<byte>): Tokens {
    if version != 2 then [] else RawInteger(Ascii("tcbType"), tcbType) + RawInteger(Ascii("tcbEvaluationDataNumber"), number)
  }

  function RawList(version: nat, ls: seq<RawLevel>): Tokens
    requires ls != [] && AllGoodV1(ls)
  {
    if version == 2 then RawListV2(ls) else RawListV1(ls)
  }

  /** The name of the list, its bracket and the levels that are read. */
  function RawLevels(version: nat, ls: seq<RawLevel>): Tokens
    requires ls != [] && AllGoodV1(ls)
  {
    Name(Ascii("tcbLevels")) + ([[OPEN]] + RawList(version, ls))
  }

  /** Of the version 32 bits are kept. */
  function Version(raw: Raw): uint32
    requires Digits(raw.version)
  {
    ValueOf(raw.version) % 0x1_0000_0000
  }

  predicate GoodHeader(raw: Raw) {
    Readable(raw.version) && Dated(raw.issueDate) && Dated(raw.nextUpdate) && IsHex(raw.fmspc, 6)
  }

  predicate GoodExtra(version: nat, tcbType: seq<byte>, number: seq<byte>) {
    version == 2 ==> DigitsUpTo(tcbType, 0) && Readable(number)
  }

  predicate GoodLevels(version: nat, ls: seq<RawLevel>) {
    && (version == 1 || version == 2) && ls != [] && AllGoodV1(ls) && (version == 2 ==> AllGoodV2(ls))
  }

  lemma HeaderFound(buf: seq<byte>, itr: nat) returns (raw: Raw)
    requires Poised(buf, itr) && ReadHeader(buf, itr).Success?
    ensures GoodHeader(raw) && Spelled(buf, itr, RawHeader(raw))
    ensures ReadHeader(buf, itr)
         == Success(Token(ParsedInfo(Version(raw), Parse(raw.issueDate).value, Parse(raw.nextUpdate).value, HexBytes(raw.fmspc).value,
                                     [0, 0], [], 0, 0, NO_LEVEL, itr, 0), After(buf, itr, RawHeader(raw))))
    ensures Poised(buf, After(buf, itr, RawHeader(raw)))
  {
    hide Spelled, After, RawInteger, RawString, Poised, Digits, ValueOf, ReadIntegerField, ReadDateField, ReadHexField, ReadChar, Ascii,
      IsHex, HexBytes, Dated, Parse;
    assert itr <= |buf| by { PoisedInside(buf, itr); }
    CharFound('{' as int, buf, itr);
    var a := After(buf, itr, [LBRACE]);
    var version := IntegerFieldFound(Ascii("version"), buf, a);
    var v := RawInteger(Ascii("version"), version);
    var b := After(buf, a, v);
    var issueDate := DateFieldFound(Ascii("issueDate"), buf, b);
    var i := RawString(Ascii("issueDate"), issueDate);
    var c := After(buf, b, i);
    var nextUpdate := DateFieldFound(Ascii("nextUpdate"), buf, c);
    var n := RawString(Ascii("nextUpdate"), nextUpdate);
    var d := After(buf, c, n);
    var fmspc := HexFieldFound(Ascii("fmspc"), buf, d, 6);
    var f := RawString(Ascii("fmspc"), fmspc);
    HexSome(fmspc, 6);
    assert Parse(issueDate).Success? && Parse(nextUpdate).Success? by { DatedParses(issueDate); DatedParses(nextUpdate); }
    raw := Raw(version, issueDate, nextUpdate, fmspc, None, [], [], [], []);
    Join(buf, c, n, f);
    Join(buf, b, i, n + f);
    Join(buf, a, v, i + (n + f));
    Join(buf, itr, [LBRACE], v + (i + (n + f)));
  }

  lemma DatedParses(t: seq<byte>)
    requires Dated(t)
    ensures Parse(t).Success?
  {
    hide Parse;
  }

  lemma PceIdFound(buf: seq<byte>, itr: nat) returns (pceId: Option<seq<byte>>)
    requires Poised(buf, itr) && ReadPceId(buf, itr).Success?
    ensures pceId.Some? ==> IsHex(pceId.value, 2)
    ensures Spelled(buf, itr, RawPceId(pceId))
    ensures ReadPceId(buf, itr)
         == Success(Token(if pceId.None? then [0, 0] else HexBytes(pceId.value).value, After(buf, itr, RawPceId(pceId))))
    ensures Poised(buf, After(buf, itr, RawPceId(pceId)))
  {
    hide Spelled, After, RawString, Poised, ReadName, ReadHexField, ReadHexString, ReadChar, Ascii, HexBytes, IsHex;
    assert itr <= |buf| by { PoisedInside(buf, itr); }
    if ReadName(Ascii("pceId"), buf, itr).Failure? {
      pceId := None;
      Nothing(buf, itr);
    } else {
      PceIdIsField(buf, itr);
      var t := HexFieldFound(Ascii("pceId"), buf, itr, 2);
      HexSome(t, 2);
      pceId := Some(t);
    }
  }

  lemma ExtraFound(buf: seq<byte>, itr: nat, version: uint32) returns (tcbType: seq<byte>, number: seq<byte>)
    requires Poised(buf, itr) && ReadExtraFields(buf, itr, version).Success?
    ensures GoodExtra(version, tcbType, number) && Spelled(buf, itr, RawExtra(version, tcbType, number))
    ensures ReadExtraFields(buf, itr, version)
         == Success(Token((0, if version == 2 then ValueOf(number) % 0x1_0000_0000 else 0),
                          After(buf, itr, RawExtra(version, tcbType, number))))
    ensures Poised(buf, After(buf, itr, RawExtra(version, tcbType, number)))
  {
    hide Spelled, After, RawInteger, Poised, Digits, ValueOf, ReadIntegerField, ReadV2Fields, Ascii;
    assert itr <= |buf| by { PoisedInside(buf, itr); }
    if version == 2 {
      ExtraIsFields(buf, itr);
      tcbType := IntegerFieldFound(Ascii("tcbType"), buf, itr);
      var kind := RawInteger(Ascii("tcbType"), tcbType);
      number := IntegerFieldFound(Ascii("tcbEvaluationDataNumber"), buf, After(buf, itr, kind));
      Join(buf, itr, kind, RawInteger(Ascii("tcbEvaluationDataNumber"), number));
    } else {
      tcbType, number := [], [];
      Nothing(buf, itr);
    }
  }

  lemma ExtraIsFields(buf: seq<byte>, itr: nat)
    requires itr <= |buf| && ReadV2Fields(buf, itr).Success?
    ensures var a := ReadIntegerField(Ascii("tcbType"), buf, itr);
            && a.Success? && a.value.value == 0
            && var b := ReadIntegerField(Ascii("tcbEvaluationDataNumber"), buf, a.value.next);
               b.Success? && ReadV2Fields(buf, itr) == Success(Token((0, b.value.value % 0x1_0000_0000), b.value.next))
  {
    hide ReadName, ReadInteger, ReadChar, Ascii;
  }

  /** What the readers of the list are left with. */
  predicate Listed(version: nat, r: (TcbLevel, TcbLevel), ls: seq<RawLevel>, buf: seq<byte>, platform: TcbLevel)
    requires ls != [] && AllGoodV1(ls)
  {
    if version == 2 then ListedV2(r, ls, buf, platform, NO_LEVEL)
    else r == (ScanAll(platform, LevelsOf(Meanings(ls))), ReadOffV1(Meanings(ls)[|ls| - 1]))
  }

  predicate Settles(version: nat, platform: TcbLevel, ls: seq<RawLevel>)
    requires ls != [] && AllGoodV1(ls)
  {
    version == 2 && LastSettles(platform, ls)
  }

  lemma ArrayFound(buf: seq<byte>, itr: nat, version: uint32, platform: TcbLevel) returns (ls: seq<RawLevel>)
    requires Poised(buf, itr) && platform.status == UNKNOWN && ReadArray(buf, itr, version, platform).Success?
    ensures GoodLevels(version, ls) && Spelled(buf, itr, RawList(version, ls))
    ensures var r := ReadArray(buf, itr, version, platform).value;
            && Skipped(buf, After(buf, itr, RawList(version, ls)), r.next, Settles(version, platform, ls))
            && Listed(version, r.value, ls, buf, platform)
  {
    hide Spelled, After, RawListV1, RawListV2, Poised, AllGoodV1, AllGoodV2, ReadLevelsV1, ReadLevelsV2, ListedV2, LastSettles, Meanings,
      LevelsOf, ReadOffV1, ScanAll, Skipped;
    assert itr <= |buf| by { PoisedInside(buf, itr); }
    if version == 1 {
      ls := ListV1Found(buf, itr, platform);
      UnsettledSkips(buf, ReadLevelsV1(buf, itr, platform).value.next);
    } else {
      ls := ListV2Found(buf, itr, platform, NO_LEVEL);
    }
  }

  lemma LevelsFound(buf: seq<byte>, itr: nat, version: uint32, platform: TcbLevel) returns (ls: seq<RawLevel>, e: nat)
    requires Poised(buf, itr) && platform.status == UNKNOWN && ReadLevels(buf, itr, version, platform).Success?
    ensures GoodLevels(version, ls) && Spelled(buf, itr, RawLevels(version, ls))
    ensures Skipped(buf, After(buf, itr, RawLevels(version, ls)), e, Settles(version, platform, ls)) && Spelled(buf, e, [[CLOSE]])
    ensures var r := ReadLevels(buf, itr, version, platform).value;
            r.next == After(buf, e, [[CLOSE]]) && Listed(version, r.value, ls, buf, platform)
  {
    hide Spelled, After, Name, RawList, Poised, AllGoodV1, AllGoodV2, ReadArray, ReadName, Ascii, Listed, Settles, Skipped, ReadChar;
    assert itr <= |buf| by { PoisedInside(buf, itr); }
    var name := Name(Ascii("tcbLevels"));
    NameFound(Ascii("tcbLevels"), buf, itr);
    var p := After(buf, itr, name);
    CharFound(OPEN, buf, p);
    var q := After(buf, p, [[OPEN]]);
    ls := ArrayFound(buf, q, version, platform);
    e := ReadArray(buf, q, version, platform).value.next;
    CharFound(CLOSE, buf, e);
    Join(buf, p, [[OPEN]], RawList(version, ls));
    Join(buf, itr, name, [[OPEN]] + RawList(version, ls));
  }

  /** Everything that a document says before its signature is well formed. */
  predicate GoodInfo(raw: Raw) {
    && GoodHeader(raw) && (raw.pceId.Some? ==> IsHex(raw.pceId.value, 2))
    && GoodExtra(Version(raw), raw.tcbType, raw.evaluationNumber) && GoodLevels(Version(raw), raw.levels)
  }

  /** The "tcbInfo" object up to the levels that are read. */
  function RawInfo(raw: Raw): Tokens
    requires GoodInfo(raw)
  {
    RawHeader(raw)
    + (RawPceId(raw.pceId)
       + (RawExtra(Version(raw), raw.tcbType, raw.evaluationNumber) + RawLevels(Version(raw), raw.levels)))
  }

  lemma InfoParts(raw: Raw)
    requires GoodInfo(raw)
    ensures Digits(raw.version) && Parse(raw.issueDate).Success? && Parse(raw.nextUpdate).Success?
    ensures |raw.fmspc| % 2 == 0 && HexBytes(raw.fmspc).Some?
    ensures raw.pceId.Some? ==> |raw.pceId.value| % 2 == 0 && HexBytes(raw.pceId.value).Some?
    ensures Version(raw) == 2 ==> Digits(raw.evaluationNumber)
    ensures raw.levels != [] && AllGoodV1(raw.levels)
  {
    hide IsHex, HexBytes, Parse, ValueOf, Digits, GoodHeader, AllGoodV1, AllGoodV2;
    HeaderParts(raw);
    if raw.pceId.Some? {
      HexSome(raw.pceId.value, 2);
    }
  }

  /** What the parser reports, on the texts. */
  predicate Says(info: ParsedInfo, state: TcbLevel, raw: Raw, buf: seq<byte>, platform: TcbLevel)
    requires GoodInfo(raw)
  {
    hide IsHex, HexBytes, Parse, ValueOf, Digits, GoodHeader, GoodExtra, GoodLevels, Listed;
    InfoParts(raw);
    && info.version == Version(raw)
    && info.issueDate == Parse(raw.issueDate).value && info.nextUpdate == Parse(raw.nextUpdate).value
    && info.fmspc == HexBytes(raw.fmspc).value
    && info.pceid == (if raw.pceId.None? then [0, 0] else HexBytes(raw.pceId.value).value)
    && info.tcbType == 0
    && info.evaluationNumber == (if Version(raw) == 2 then ValueOf(raw.evaluationNumber) % 0x1_0000_0000 else 0)
    && Listed(Version(raw), (state, info.tcbLevel), raw.levels, buf, platform)
  }

  lemma InfoFound(buf: seq<byte>, itr: nat, platform: TcbLevel) returns (raw: Raw, e: nat)
    requires Poised(buf, itr) && platform.status == UNKNOWN && ReadTcbInfo(buf, itr, platform).Success?
    ensures GoodInfo(raw) && Spelled(buf, itr, RawInfo(raw))
    ensures Skipped(buf, After(buf, itr, RawInfo(raw)), e, Settles(Version(raw), platform, raw.levels))
    ensures Spelled(buf, e, [[CLOSE]]) && Spelled(buf, After(buf, e, [[CLOSE]]), [RBRACE])
    ensures var r := ReadTcbInfo(buf, itr, platform).value;
            && r.next == After(buf, After(buf, e, [[CLOSE]]), [RBRACE]) && Poised(buf, r.next)
            && Says(r.value.1, r.value.0, raw, buf, platform)
            && r.value.1.infoStart == itr && itr + r.value.1.infoSize == After(buf, e, [[CLOSE]]) + 1
  {
    hide Spelled, After, RawHeader, RawPceId, RawExtra, RawLevels, Poised, GoodHeader, GoodExtra, GoodLevels, Version, IsHex, HexBytes,
      Parse, ValueOf, Digits, ReadHeader, ReadPceId, ReadExtraFields, ReadLevels, ReadChar, SignedPart, Listed, Settles, Skipped;
    assert itr <= |buf| by { PoisedInside(buf, itr); }
    var head := HeaderFound(buf, itr);
    HeaderParts(head);
    var v := Version(head);
    var a := After(buf, itr, RawHeader(head));
    var pceId := PceIdFound(buf, a);
    var b := After(buf, a, RawPceId(pceId));
    var tcbType, number := ExtraFound(buf, b, v);
    var extra := RawExtra(v, tcbType, number);
    var c := After(buf, b, extra);
    var ls;
    ls, e := LevelsFound(buf, c, v, platform);
    LevelsParts(v, ls);
    CharFound('}' as int, buf, After(buf, e, [[CLOSE]]));
    raw := head.(pceId := pceId, tcbType := tcbType, evaluationNumber := number, levels := ls);
    SameHeader(head, raw);
    Join(buf, b, extra, RawLevels(v, ls));
    Join(buf, a, RawPceId(pceId), extra + RawLevels(v, ls));
    Join(buf, itr, RawHeader(raw), RawPceId(pceId) + (extra + RawLevels(v, ls)));
  }

  lemma HeaderParts(raw: Raw)
    requires GoodHeader(raw)
    ensures Digits(raw.version) && Parse(raw.issueDate).Success? && Parse(raw.nextUpdate).Success?
    ensures |raw.fmspc| % 2 == 0 && HexBytes(raw.fmspc).Some?
  {
    hide Digits, Parse, HexBytes;
  }

  lemma LevelsParts(version: nat, ls: seq<RawLevel>)
    requires GoodLevels(version, ls)
    ensures ls != [] && AllGoodV1(ls)
  {
  }

  lemma SameHeader(a: Raw, b: Raw)
    requires GoodHeader(a)
    requires a.version == b.version && a.issueDate == b.issueDate && a.nextUpdate == b.nextUpdate && a.fmspc == b.fmspc
    ensures GoodHeader(b) && RawHeader(a) == RawHeader(b)
    ensures Digits(a.version) && Version(a) == Version(b)
  {
    hide Digits, Dated, IsHex, Ascii, ValueOf;
  }

  /** What stands behind the bracket of the list. */
  function RawEnding(signature: seq<byte>): Tokens {
    [COMMA] + (Name(Ascii("signature")) + ([Quoted(signature)] + [RBRACE]))
  }

  /** The whole text: the document up to the levels that are read, what is skipped behind them, then
      the closing bracket and brace of the object, at `e` and `f`, and the signature. In version 2 the
      levels that are read end with the first that settles the status. */
  predicate IsRawText(raw: Raw, buf: seq<byte>, start: nat, e: nat, f: nat, platform: TcbLevel)
    requires GoodInfo(raw)
  {
    && (Version(raw) == 2 ==> StopsAt(platform, Meanings(raw.levels)) == |raw.levels| - 1)
    && Spelled(buf, SkipSpace(buf, 0), Opening()) && start == After(buf, SkipSpace(buf, 0), Opening())
    && Spelled(buf, start, RawInfo(raw))
    && Skipped(buf, After(buf, start, RawInfo(raw)), e, Settles(Version(raw), platform, raw.levels))
    && Spelled(buf, e, [[CLOSE]]) && f == After(buf, e, [[CLOSE]])
    && Spelled(buf, f, [RBRACE] + RawEnding(raw.signature)) && After(buf, f, [RBRACE] + RawEnding(raw.signature)) == |buf|
  }

  lemma OpeningFound(buf: seq<byte>, itr: nat)
    requires Poised(buf, itr) && ReadChar('{' as int, buf, itr).Success?
    requires ReadName(Ascii("tcbInfo"), buf, ReadChar('{' as int, buf, itr).value).Success?
    ensures Spelled(buf, itr, Opening()) && Poised(buf, After(buf, itr, Opening()))
    ensures ReadName(Ascii("tcbInfo"), buf, ReadChar('{' as int, buf, itr).value) == Success(After(buf, itr, Opening()))
  {
    hide Spelled, After, Name, Poised, ReadName, ReadChar, Ascii;
    assert itr <= |buf| by { PoisedInside(buf, itr); }
    CharFound('{' as int, buf, itr);
    NameFound(Ascii("tcbInfo"), buf, After(buf, itr, [LBRACE]));
    Join(buf, itr, [LBRACE], Name(Ascii("tcbInfo")));
  }

  /** The comma, the name, the signature and the last brace, as ReadDocument reads them. */
  function ReadEnding(buf: seq<byte>, itr: nat): (r: Read<seq<byte>>)
    requires itr <= |buf|
  {
    var c :- ReadChar(',' as int, buf, itr);
    var d :- ReadName(Ascii("signature"), buf, c);
    var signature :- ReadHexString(buf, d, 64);
    var next :- ReadChar('}' as int, buf, signature.next);
    Success(Token(signature.value, next))
  }

  lemma EndingFound(buf: seq<byte>, itr: nat) returns (t: seq<byte>)
    requires Poised(buf, itr) && ReadEnding(buf, itr).Success?
    ensures IsHex(t, 64) && Spelled(buf, itr, RawEnding(t))
    ensures ReadEnding(buf, itr) == Success(Token(HexBytes(t).value, After(buf, itr, RawEnding(t))))
  {
    hide Spelled, After, Name, Quoted, Poised, ReadName, ReadHexString, ReadChar, Ascii, IsHex, HexBytes;
    assert itr <= |buf| by { PoisedInside(buf, itr); }
    CharFound(',' as int, buf, itr);
    var c, name := After(buf, itr, [COMMA]), Name(Ascii("signature"));
    NameFound(Ascii("signature"), buf, c);
    var d := After(buf, c, name);
    t := HexFound(buf, d, 64);
    HexSome(t, 64);
    CharFound('}' as int, buf, After(buf, d, [Quoted(t)]));
    Join(buf, d, [Quoted(t)], [RBRACE]);
    Join(buf, c, name, [Quoted(t)] + [RBRACE]);
    Join(buf, itr, [COMMA], name + ([Quoted(t)] + [RBRACE]));
  }

  /** The document is read in three parts. */
  lemma DocumentInParts(buf: seq<byte>, platform: TcbLevel)
    requires ReadDocument(buf, platform).Success?
    ensures var a := ReadChar('{' as int, buf, SkipSpace(buf, 0));
            && a.Success?
            && var b := ReadName(Ascii("tcbInfo"), buf, a.value);
               && b.Success?
               && var info := ReadTcbInfo(buf, b.value, platform);
                  && info.Success?
                  && var ending := ReadEnding(buf, info.value.next);
                     && ending.Success?
                     && ReadDocument(buf, platform)
                        == Success(Token((info.value.value.0, WithSignature(info.value.value.1, ending.value.value)), ending.value.next))
  {
    hide ReadName, ReadTcbInfo, ReadHexString, WithSignature, ReadChar, SignedPart, SkipSpace, Ascii;
  }

  /** Whatever the parser accepts is the text of a document, and it reports what the texts stand for:
      the fields, the signed part, the signature, the level and the verdict of the levels. */
  lemma AcceptedIsText(buf: seq<byte>, platform: TcbLevel) returns (raw: Raw, start: nat, e: nat, f: nat)
    requires ParseTcbInfoJson(buf, platform).info.Some?
    ensures GoodInfo(raw) && IsHex(raw.signature, 64) && IsRawText(raw, buf, start, e, f, Undetermined(platform))
    ensures var o := ParseTcbInfoJson(buf, platform);
            && Says(o.info.value, o.platform, raw, buf, Undetermined(platform))
            && o.info.value.signature == HexBytes(raw.signature).value
            && o.info.value.infoStart == start && start + o.info.value.infoSize == f + 1
            && o.result == if o.platform.status.upToDate then OK else TCB_LEVEL_INVALID
  {
    hide Spelled, After, Opening, RawInfo, RawEnding, Poised, ReadName, ReadTcbInfo, ReadEnding, ReadChar, ReadDocument, Ascii, IsHex,
      HexBytes, SkipSpace, Skipped, Settles, Says, GoodInfo, SignedPart, Version;
    var p := Undetermined(platform);
    var itr := SkipSpace(buf, 0);
    SkippedIsPoised(buf, 0);
    DocumentInParts(buf, p);
    OpeningFound(buf, itr);
    start := After(buf, itr, Opening());
    var info;
    info, e := InfoFound(buf, start, p);
    f := After(buf, e, [[CLOSE]]);
    var g := After(buf, f, [RBRACE]);
    var t := EndingFound(buf, g);
    HexSome(t, 64);
    Join(buf, f, [RBRACE], RawEnding(t));
    raw := info.(signature := t);
    SameInfo(info, raw);
    StopsAtLast(ReadTcbInfo(buf, start, p).value.value.1, ReadTcbInfo(buf, start, p).value.value.0, info, buf, p);
    SameSays(ReadTcbInfo(buf, start, p).value.value.1, ParseTcbInfoJson(buf, platform).info.value,
             ReadTcbInfo(buf, start, p).value.value.0, info, raw, buf, p);
  }

  lemma StopsAtLast(info: ParsedInfo, state: TcbLevel, raw: Raw, buf: seq<byte>, platform: TcbLevel)
    requires GoodInfo(raw) && Says(info, state, raw, buf, platform)
    ensures raw.levels != [] && AllGoodV1(raw.levels)
    ensures Version(raw) == 2 ==> StopsAt(platform, Meanings(raw.levels)) == |raw.levels| - 1
  {
    hide GoodHeader, GoodExtra, GoodLevels, IsHex, ValueOf, Digits, Parse, HexBytes, Version, ReadOffV2, Meanings, StopsAt, LevelsOf;
    HeaderParts(raw);
    LevelsParts(Version(raw), raw.levels);
  }

  lemma SameInfo(a: Raw, b: Raw)
    requires GoodInfo(a) && b == a.(signature := b.signature)
    ensures GoodInfo(b) && RawInfo(b) == RawInfo(a) && Version(b) == Version(a) && b.levels == a.levels && b.levels != []
    ensures AllGoodV1(b.levels)
  {
    hide GoodHeader, GoodExtra, AllGoodV1, AllGoodV2, IsHex, RawPceId, RawExtra, RawLevels, ValueOf, Digits;
    SameHeader(a, b);
    HeaderParts(a);
  }

  lemma SameSays(i: ParsedInfo, j: ParsedInfo, state: TcbLevel, a: Raw, b: Raw, buf: seq<byte>, platform: TcbLevel)
    requires GoodInfo(a) && GoodInfo(b) && b == a.(signature := b.signature) && j == WithSignature(i, j.signature)
    requires Says(i, state, a, buf, platform)
    ensures Says(j, state, b, buf, platform)
  {
    hide GoodHeader, GoodExtra, GoodLevels, IsHex, ValueOf, Digits, Parse, HexBytes, Listed;
    HeaderParts(a);
    LevelsParts(Version(a), a.levels);
  }
}
