/** Which TCB info texts are accepted (common/sgx/tcbinfo.c): exactly those of the grammar. This is
    the other half of TcbGrammar: every text of it is read, and what is reported is what it says. */
module TcbExact {
  import opened Bytes
  import opened Results
  import opened Datetime
  import opened TcbJson
  import opened TcbLevels
  import opened TcbInfo
  import opened TcbText
  import opened TcbSkip
  import opened TcbDocument
  import opened TcbGrammar

  // ----- fields

  /** A number with any digits is read, exactly when its value is below the limit. */
  lemma RawIntegerAt(t: seq<byte>, next: seq<byte>, buf: seq<byte>, itr: nat)
    requires Digits(t) && next != [] && !IsDigit(next[0]) && Spelled(buf, itr, [t] + [next])
    ensures Spelled(buf, itr, [t]) && Spelled(buf, After(buf, itr, [t]), [next])
    ensures ReadInteger(buf, itr) == if ValueOf(t) < 18446744073709551610 then Success(Token(ValueOf(t), After(buf, itr, [t])))
                                     else Failure(JSON_INFO_PARSE_ERROR)
  {
    hide Spelled, After, FromDecimal;
    Cut(buf, itr, [t], [next]);
    One(buf, itr, t);
    var e := itr + |t|;
    One(buf, SkipSpace(buf, e), next);
    AtFirst(buf, SkipSpace(buf, e), next);
    assert !IsDigit(buf[e]);
    assert buf[itr..e] == t;
    DigitsEndExact(buf, itr, e);
  }

  lemma RawIntegerFieldAt(name: seq<byte>, t: seq<byte>, buf: seq<byte>, itr: nat)
    requires Plain(name) && Digits(t) && ValueOf(t) < INTEGER_LIMIT && Spelled(buf, itr, RawInteger(name, t))
    ensures ReadIntegerField(name, buf, itr) == Success(Token(ValueOf(t), After(buf, itr, RawInteger(name, t))))
  {
    hide Spelled, After, Name, Digits, ValueOf, ReadName, ReadInteger, ReadChar;
    Cut(buf, itr, Name(name), [t] + [COMMA]);
    NameAt(name, name, buf, itr);
    var p := After(buf, itr, Name(name));
    RawIntegerAt(t, COMMA, buf, p);
    Cut(buf, p, [t], [COMMA]);
    CharAt(',' as int, buf, After(buf, p, [t]));
  }

  lemma RawDateFieldAt(name: seq<byte>, t: seq<byte>, buf: seq<byte>, itr: nat)
    requires Quotable(name) && Dated(t) && Spelled(buf, itr, RawString(name, t))
    ensures ReadDateField(name, buf, itr) == Success(Token(Parse(t).value, After(buf, itr, RawString(name, t))))
  {
    hide Spelled, After, Name, Quoted, Parse, ReadName, ReadString, ReadChar;
    Cut(buf, itr, Name(name), [Quoted(t)] + [COMMA]);
    NameAt(name, name, buf, itr);
    var p := After(buf, itr, Name(name));
    Cut(buf, p, [Quoted(t)], [COMMA]);
    StringAt(t, buf, p);
    CharAt(',' as int, buf, After(buf, p, [Quoted(t)]));
  }

  lemma RawHexFieldAt(name: seq<byte>, t: seq<byte>, n: nat, buf: seq<byte>, itr: nat)
    requires Plain(name) && IsHex(t, n) && Spelled(buf, itr, RawString(name, t))
    ensures ReadHexField(name, buf, itr, n) == Success(Token(HexBytes(t).value, After(buf, itr, RawString(name, t))))
    ensures ReadName(name, buf, itr).Success?
  {
    hide Spelled, After, IsHex, HexBytes, ReadHexField, ReadName;
    assert RawString(name, t) == HexField(name, t);
    HexFieldAt(name, t, n, buf, itr);
  }

  // ----- levels

  lemma RawCompAt(i: nat, t: seq<byte>, buf: seq<byte>, itr: nat)
    requires DigitsUpTo(t, 255) && Spelled(buf, itr, RawInteger(CompName(i), t))
    ensures ReadComp(buf, itr, i) == Success(Token(ValueOf(t), After(buf, itr, RawInteger(CompName(i), t))))
  {
    hide Spelled, After, Name, Digits, ValueOf, CompName, ReadName, ReadInteger, ReadChar;
    PlainCompName(i);
    Cut(buf, itr, Name(CompName(i)), [t] + [COMMA]);
    NameAt(CompName(i), CompName(i), buf, itr);
    var p := After(buf, itr, Name(CompName(i)));
    RawIntegerAt(t, COMMA, buf, p);
    Cut(buf, p, [t], [COMMA]);
    CharAt(',' as int, buf, After(buf, p, [t]));
  }

  lemma {:induction false} RawCompsAt(ts: seq<seq<byte>>, buf: seq<byte>, itr: nat)
    requires GoodComps(ts) && Spelled(buf, itr, RawComps(ts, |ts|))
    ensures ReadComps(buf, itr, |ts|) == Success(Token(CompValues(ts), After(buf, itr, RawComps(ts, |ts|))))
    decreases |ts|
  {
    hide Spelled, After, RawInteger, DigitsUpTo, ReadComp, ValueOf, CompName;
    if ts == [] {
      Nothing(buf, itr);
    } else {
      var n := |ts| - 1;
      var init, t := ts[..n], ts[n];
      assert init + [t] == ts && GoodComps(init);
      RawCompsSnoc(init, t);
      CompValuesSnoc(init, t);
      Cut(buf, itr, RawComps(init, n), RawInteger(CompName(n), t));
      RawCompsAt(init, buf, itr);
      RawCompAt(n, t, buf, After(buf, itr, RawComps(init, n)));
    }
  }

  lemma RawTcbAt(l: RawLevel, buf: seq<byte>, itr: nat)
    requires |l.comps| == 16 && GoodComps(l.comps) && DigitsUpTo(l.pceSvn, 65535) && Spelled(buf, itr, RawTcb(l))
    ensures ReadTcb(buf, itr) == Success(Token((CompValues(l.comps), ValueOf(l.pceSvn)), After(buf, itr, RawTcb(l))))
  {
    hide Spelled, After, Name, RawComps, GoodComps, CompValues, ValueOf, Digits, ReadComps, ReadName, ReadInteger, ReadChar, Ascii;
    PlainAscii("pcesvn");
    var comps, name, last := RawComps(l.comps, 16), Name(Ascii("pcesvn")), [l.pceSvn] + [RBRACE];
    Cut(buf, itr, [LBRACE], comps + (name + last));
    CharAt('{' as int, buf, itr);
    var p := After(buf, itr, [LBRACE]);
    Cut(buf, p, comps, name + last);
    RawCompsAt(l.comps, buf, p);
    var q := After(buf, p, comps);
    Cut(buf, q, name, last);
    NameAt(Ascii("pcesvn"), Ascii("pcesvn"), buf, q);
    var v := After(buf, q, name);
    RawIntegerAt(l.pceSvn, RBRACE, buf, v);
    Cut(buf, v, [l.pceSvn], [RBRACE]);
    CharAt('}' as int, buf, After(buf, v, [l.pceSvn]));
  }

  lemma RawHeadAt(l: RawLevel, buf: seq<byte>, itr: nat)
    requires |l.comps| == 16 && GoodComps(l.comps) && DigitsUpTo(l.pceSvn, 65535) && Spelled(buf, itr, RawHead(l))
    ensures ReadLevelHead(buf, itr) == Success(Token((CompValues(l.comps), ValueOf(l.pceSvn)), After(buf, itr, RawHead(l))))
  {
    hide Spelled, After, Name, RawTcb, GoodComps, CompValues, ValueOf, Digits, ReadTcb, ReadName, ReadChar, Ascii;
    PlainAscii("tcb");
    var name, tcb := Name(Ascii("tcb")), RawTcb(l);
    Cut(buf, itr, [LBRACE], name + (tcb + [COMMA]));
    CharAt('{' as int, buf, itr);
    var p := After(buf, itr, [LBRACE]);
    Cut(buf, p, name, tcb + [COMMA]);
    NameAt(Ascii("tcb"), Ascii("tcb"), buf, p);
    var q := After(buf, p, name);
    Cut(buf, q, tcb, [COMMA]);
    RawTcbAt(l, buf, q);
    CharAt(',' as int, buf, After(buf, q, tcb));
  }

  lemma RawV1At(l: RawLevel, buf: seq<byte>, itr: nat)
    requires GoodV1(l) && Spelled(buf, itr, RawV1(l))
    ensures ReadLevelV1(buf, itr) == Success(Token(ReadOffV1(Meaning(l)), After(buf, itr, RawV1(l))))
  {
    hide Spelled, After, RawHead, StatusField, GoodComps, CompValues, ValueOf, DigitsUpTo, ReadLevelHead, ReadStatusField, ReadChar,
      ParseTcbStatus, Ascii, Parse;
    PlainAscii("status");
    var head, status := RawHead(l), StatusField(Ascii("status"), l.status);
    Cut(buf, itr, head, status + [RBRACE]);
    RawHeadAt(l, buf, itr);
    var p := After(buf, itr, head);
    Cut(buf, p, status, [RBRACE]);
    StatusFieldAt(Ascii("status"), l.status, buf, p);
    CharAt('}' as int, buf, After(buf, p, status));
  }

  lemma RawV2At(l: RawLevel, buf: seq<byte>, itr: nat, previous: TcbLevel)
    requires GoodV2(l) && Spelled(buf, itr, RawV2(l))
    ensures var r := ReadLevelV2(buf, itr, previous);
            && r.Success? && r.value.next == After(buf, itr, RawV2(l))
            && SameLevel(r.value.value, LevelOf(Meaning(l))) && r.value.value.tcbDate == Meaning(l).date
            && Kept((r.value.value.advisoryOffset, r.value.value.advisorySize), Meaning(l), buf, previous)
  {
    hide Spelled, After, RawHead, RawString, RawAdvisories, StatusField, GoodComps, CompValues, ValueOf, DigitsUpTo, ReadLevelHead,
      ReadDateField, ReadStatusField, ReadAdvisories, ReadChar, ParseTcbStatus, Ascii, Parse, Kept;
    PlainAscii("tcbStatus");
    PlainAscii("tcbDate");
    var head, date := RawHead(l), RawString(Ascii("tcbDate"), l.date);
    var status, tail := StatusField(Ascii("tcbStatus"), l.status), RawAdvisories(l.advisories) + [RBRACE];
    Cut(buf, itr, head, date + (status + tail));
    RawHeadAt(l, buf, itr);
    var p := After(buf, itr, head);
    Cut(buf, p, date, status + tail);
    RawDateFieldAt(Ascii("tcbDate"), l.date, buf, p);
    var q := After(buf, p, date);
    Cut(buf, q, status, tail);
    StatusFieldAt(Ascii("tcbStatus"), l.status, buf, q);
    var s := After(buf, q, status);
    assert RawAdvisories(l.advisories) == Advisories(Meaning(l)) by { SameAdvisories(l); }
    Cut(buf, s, Advisories(Meaning(l)), [RBRACE]);
    AdvisoriesAt(Meaning(l), buf, s, previous);
    CharAt('}' as int, buf, After(buf, s, Advisories(Meaning(l))));
  }

  lemma SameAdvisories(l: RawLevel)
    requires GoodV1(l)
    ensures RawAdvisories(l.advisories) == Advisories(Meaning(l))
  {
    hide Ascii, Name, Bracketed, CompValues, ValueOf, Parse, DigitsUpTo, GoodComps;
  }

  // ----- lists of levels

  lemma {:induction false} RawArrayV1At(ls: seq<RawLevel>, buf: seq<byte>, itr: nat, platform: TcbLevel)
    requires ls != [] && AllGoodV1(ls) && Spelled(buf, itr, RawListV1(ls)) && AtClose(buf, After(buf, itr, RawListV1(ls)))
    ensures ReadLevelsV1(buf, itr, platform)
         == Success(Token((ScanAll(platform, LevelsOf(Meanings(ls))), ReadOffV1(Meanings(ls)[|ls| - 1])), After(buf, itr, RawListV1(ls))))
    decreases |ls|
  {
    hide Spelled, After, RawV1, GoodV1, Meaning, LevelOf, LevelsOf, ReadOffV1, ReadLevelV1, ReadChar, Consider;
    var l, rest := ls[0], ls[1..];
    assert ls == [l] + rest && GoodV1(l) && AllGoodV1(rest);
    assert |l.comps| == 16 by { SixteenComps(l); }
    MeaningsCons(l, rest);
    var level := ReadOffV1(Meaning(l));
    assert Consider(platform, level) == Consider(platform, LevelOf(Meaning(l))) by {
      SameReadOff(Meaning(l));
      SameConsidered(platform, level, LevelOf(Meaning(l)));
    }
    if rest == [] {
      RawV1At(l, buf, itr);
      OneScanned(platform, LevelOf(Meaning(l)), LevelsOf(Meanings(rest)));
    } else {
      MoreScanned(platform, LevelOf(Meaning(l)), LevelsOf(Meanings(rest)));
      Cut(buf, itr, RawV1(l), [COMMA] + RawListV1(rest));
      RawV1At(l, buf, itr);
      var p := After(buf, itr, RawV1(l));
      Cut(buf, p, [COMMA], RawListV1(rest));
      CommaAt(buf, p);
      RawArrayV1At(rest, buf, After(buf, p, [COMMA]), Consider(platform, level));
    }
  }

  lemma SixteenComps(l: RawLevel)
    requires GoodV1(l)
    ensures |l.comps| == 16
  {
  }

  lemma {:induction false} RawArrayV2At(ls: seq<RawLevel>, buf: seq<byte>, itr: nat, e: nat, platform: TcbLevel, previous: TcbLevel)
    requires ls != [] && AllGoodV1(ls) && AllGoodV2(ls) && platform.status == UNKNOWN && Spelled(buf, itr, RawListV2(ls))
    requires StopsAt(platform, Meanings(ls)) == |ls| - 1
    requires Skipped(buf, After(buf, itr, RawListV2(ls)), e, LastSettles(platform, ls))
    ensures var r := ReadLevelsV2(buf, itr, platform, previous);
            r.Success? && r.value.next == e && ListedV2(r.value.value, ls, buf, platform, previous)
    decreases |ls|
  {
    hide Spelled, After, RawV2, GoodV1, GoodV2, Meaning, LevelOf, LevelsOf, ReadLevelV2, ReadChar, Chosen, ListedV2, Skipped, ArrayEnd,
      Kept, Balanced, StopsAt;
    var l, rest := ls[0], ls[1..];
    assert ls == [l] + rest && GoodV1(l) && GoodV2(l) && AllGoodV1(rest) && AllGoodV2(rest);
    assert |l.comps| == 16 by { SixteenComps(l); }
    MeaningsCons(l, rest);
    StopsAtStep(platform, Meanings(ls));
    if rest == [] {
      assert ls == [l];
      RawV2At(l, buf, itr, previous);
      var level := ReadLevelV2(buf, itr, previous).value;
      LevelConsidered(platform, level.value, Meaning(l));
      FirstListed(l, level.value, buf, platform, previous);
      SkippedTo(buf, level.next, e, Chosen(platform, LevelOf(Meaning(l))));
    } else {
      Cut(buf, itr, RawV2(l), [COMMA] + RawListV2(rest));
      RawV2At(l, buf, itr, previous);
      var level := ReadLevelV2(buf, itr, previous).value;
      LevelConsidered(platform, level.value, Meaning(l));
      var p := level.next;
      Cut(buf, p, [COMMA], RawListV2(rest));
      CommaAt(buf, p);
      var q := After(buf, p, [COMMA]);
      assert Meanings(ls)[|ls| - 1] == Meanings(rest)[|rest| - 1];
      RawArrayV2At(rest, buf, q, e, platform, level.value);
      NextListed(l, level.value, rest, ReadLevelsV2(buf, q, platform, level.value).value.value, buf, platform, previous);
    }
  }

  /** The skipper comes to the end of what may be skipped. */
  lemma SkippedTo(buf: seq<byte>, p: nat, e: nat, settled: bool)
    requires Skipped(buf, p, e, settled)
    ensures p <= |buf| && AtClose(buf, e)
    ensures if settled then ArrayEnd(buf, p, p) == e else p == e
  {
    hide ArrayEnd, Balanced;
    if settled {
      SkipsToBalanced(buf, p, e);
    }
  }

  // ----- the document

  lemma RawHeaderAt(raw: Raw, buf: seq<byte>, itr: nat)
    requires GoodHeader(raw) && Spelled(buf, itr, RawHeader(raw))
    ensures ReadHeader(buf, itr)
         == Success(Token(ParsedInfo(Version(raw), Parse(raw.issueDate).value, Parse(raw.nextUpdate).value, HexBytes(raw.fmspc).value,
                                     [0, 0], [], 0, 0, NO_LEVEL, itr, 0), After(buf, itr, RawHeader(raw))))
  {
    hide Spelled, After, RawInteger, RawString, Digits, ValueOf, ReadIntegerField, ReadDateField, ReadHexField, ReadChar, Ascii, IsHex,
      HexBytes, Dated, Parse;
    HeaderParts(raw);
    PlainAscii("version");
    PlainAscii("issueDate");
    PlainAscii("nextUpdate");
    PlainAscii("fmspc");
    var version, issue := RawInteger(Ascii("version"), raw.version), RawString(Ascii("issueDate"), raw.issueDate);
    var next, fmspc := RawString(Ascii("nextUpdate"), raw.nextUpdate), RawString(Ascii("fmspc"), raw.fmspc);
    Cut(buf, itr, [LBRACE], version + (issue + (next + fmspc)));
    CharAt('{' as int, buf, itr);
    var a := After(buf, itr, [LBRACE]);
    Cut(buf, a, version, issue + (next + fmspc));
    RawIntegerFieldAt(Ascii("version"), raw.version, buf, a);
    var b := After(buf, a, version);
    Cut(buf, b, issue, next + fmspc);
    RawDateFieldAt(Ascii("issueDate"), raw.issueDate, buf, b);
    var c := After(buf, b, issue);
    Cut(buf, c, next, fmspc);
    RawDateFieldAt(Ascii("nextUpdate"), raw.nextUpdate, buf, c);
    RawHexFieldAt(Ascii("fmspc"), raw.fmspc, 6, buf, After(buf, c, next));
  }

  /** Behind the optional PCE id stands another name. */
  lemma RawPceIdAt(pceId: Option<seq<byte>>, other: seq<byte>, more: Tokens, buf: seq<byte>, itr: nat)
    requires pceId.Some? ==> IsHex(pceId.value, 2)
    requires Plain(other) && other != Ascii("pceId") && Spelled(buf, itr, RawPceId(pceId) + (Name(other) + more))
    ensures Spelled(buf, itr, RawPceId(pceId))
    ensures ReadPceId(buf, itr)
         == Success(Token(if pceId.None? then [0, 0] else HexBytes(pceId.value).value, After(buf, itr, RawPceId(pceId))))
  {
    hide Spelled, After, Name, RawString, ReadName, ReadHexField, ReadHexString, ReadChar, Ascii, HexBytes, IsHex;
    PlainAscii("pceId");
    Cut(buf, itr, RawPceId(pceId), Name(other) + more);
    if pceId.None? {
      Nothing(buf, itr);
      Cut(buf, itr, Name(other), more);
      NameAt(Ascii("pceId"), other, buf, itr);
    } else {
      HexSome(pceId.value, 2);
      RawHexFieldAt(Ascii("pceId"), pceId.value, 2, buf, itr);
      PceIdIsField(buf, itr);
    }
  }

  lemma RawExtraAt(version: uint32, tcbType: seq<byte>, number: seq<byte>, buf: seq<byte>, itr: nat)
    requires GoodExtra(version, tcbType, number) && Spelled(buf, itr, RawExtra(version, tcbType, number))
    ensures ReadExtraFields(buf, itr, version)
         == Success(Token((0, if version == 2 then ValueOf(number) % 0x1_0000_0000 else 0),
                          After(buf, itr, RawExtra(version, tcbType, number))))
  {
    hide Spelled, After, RawInteger, Digits, ValueOf, ReadIntegerField, ReadV2Fields, Ascii;
    if version == 2 {
      PlainAscii("tcbType");
      PlainAscii("tcbEvaluationDataNumber");
      var kind, last := RawInteger(Ascii("tcbType"), tcbType), RawInteger(Ascii("tcbEvaluationDataNumber"), number);
      Cut(buf, itr, kind, last);
      RawIntegerFieldAt(Ascii("tcbType"), tcbType, buf, itr);
      RawIntegerFieldAt(Ascii("tcbEvaluationDataNumber"), number, buf, After(buf, itr, kind));
      FieldsAreExtra(buf, itr);
    } else {
      Nothing(buf, itr);
    }
  }

  lemma FieldsAreExtra(buf: seq<byte>, itr: nat)
    requires itr <= |buf| && ReadIntegerField(Ascii("tcbType"), buf, itr).Success?
    requires ReadIntegerField(Ascii("tcbType"), buf, itr).value.value == 0
    requires ReadIntegerField(Ascii("tcbEvaluationDataNumber"), buf, ReadIntegerField(Ascii("tcbType"), buf, itr).value.next).Success?
    ensures ReadV2Fields(buf, itr).Success?
    ensures var b := ReadIntegerField(Ascii("tcbEvaluationDataNumber"), buf, ReadIntegerField(Ascii("tcbType"), buf, itr).value.next);
            ReadV2Fields(buf, itr) == Success(Token((0, b.value.value % 0x1_0000_0000), b.value.next))
  {
    hide ReadName, ReadInteger, ReadChar, Ascii;
  }

  lemma RawListAt(version: uint32, ls: seq<RawLevel>, buf: seq<byte>, itr: nat, e: nat, platform: TcbLevel)
    requires GoodLevels(version, ls) && platform.status == UNKNOWN && Spelled(buf, itr, RawList(version, ls))
    requires version == 2 ==> StopsAt(platform, Meanings(ls)) == |ls| - 1
    requires Skipped(buf, After(buf, itr, RawList(version, ls)), e, Settles(version, platform, ls))
    ensures var r := ReadArray(buf, itr, version, platform);
            r.Success? && r.value.next == e && Listed(version, r.value.value, ls, buf, platform)
  {
    hide Spelled, After, RawListV1, RawListV2, AllGoodV1, AllGoodV2, ReadLevelsV1, ReadLevelsV2, ListedV2, LastSettles, Meanings,
      LevelsOf, ReadOffV1, ScanAll, Skipped, StopsAt;
    if version == 1 {
      SkippedTo(buf, After(buf, itr, RawList(version, ls)), e, false);
      RawArrayV1At(ls, buf, itr, platform);
    } else {
      RawArrayV2At(ls, buf, itr, e, platform, NO_LEVEL);
    }
  }

  lemma RawLevelsAt(version: uint32, ls: seq<RawLevel>, buf: seq<byte>, itr: nat, e: nat, platform: TcbLevel)
    requires GoodLevels(version, ls) && platform.status == UNKNOWN && Spelled(buf, itr, RawLevels(version, ls))
    requires version == 2 ==> StopsAt(platform, Meanings(ls)) == |ls| - 1
    requires Skipped(buf, After(buf, itr, RawLevels(version, ls)), e, Settles(version, platform, ls)) && Spelled(buf, e, [[CLOSE]])
    ensures var r := ReadLevels(buf, itr, version, platform);
            r.Success? && r.value.next == After(buf, e, [[CLOSE]]) && Listed(version, r.value.value, ls, buf, platform)
  {
    hide Spelled, After, Name, RawList, AllGoodV1, AllGoodV2, ReadArray, ReadName, Ascii, Listed, Settles, Skipped, ReadChar, StopsAt,
      Meanings;
    PlainAscii("tcbLevels");
    var name, list := Name(Ascii("tcbLevels")), RawList(version, ls);
    Cut(buf, itr, name, [[OPEN]] + list);
    NameAt(Ascii("tcbLevels"), Ascii("tcbLevels"), buf, itr);
    var p := After(buf, itr, name);
    Cut(buf, p, [[OPEN]], list);
    CharAt(OPEN, buf, p);
    RawListAt(version, ls, buf, After(buf, p, [[OPEN]]), e, platform);
    CharAt(CLOSE, buf, e);
  }

  lemma BehindRawPceId(raw: Raw, buf: seq<byte>, itr: nat)
    requires GoodInfo(raw)
    requires Spelled(buf, itr, RawPceId(raw.pceId)
                               + (RawExtra(Version(raw), raw.tcbType, raw.evaluationNumber) + RawLevels(Version(raw), raw.levels)))
    ensures Spelled(buf, itr, RawPceId(raw.pceId))
    ensures raw.pceId.Some? ==> |raw.pceId.value| % 2 == 0 && HexBytes(raw.pceId.value).Some?
    ensures ReadPceId(buf, itr)
         == Success(Token(if raw.pceId.None? then [0, 0] else HexBytes(raw.pceId.value).value, After(buf, itr, RawPceId(raw.pceId))))
  {
    hide Spelled, After, Name, RawPceId, RawList, ReadPceId, Ascii, IsHex, HexBytes, GoodHeader, GoodExtra, GoodLevels, Version;
    HeaderParts(raw);
    LevelsParts(Version(raw), raw.levels);
    var v := Version(raw);
    var levels := RawLevels(v, raw.levels);
    if raw.pceId.Some? {
      HexSome(raw.pceId.value, 2);
    }
    if v == 2 {
      var number := RawInteger(Ascii("tcbEvaluationDataNumber"), raw.evaluationNumber);
      var more := ([raw.tcbType] + [COMMA]) + (number + levels);
      assert RawExtra(v, raw.tcbType, raw.evaluationNumber) + levels == Name(Ascii("tcbType")) + more;
      OtherNames();
      RawPceIdAt(raw.pceId, Ascii("tcbType"), more, buf, itr);
    } else {
      var more := [[OPEN]] + RawList(v, raw.levels);
      assert [] + levels == levels;
      OtherNames();
      RawPceIdAt(raw.pceId, Ascii("tcbLevels"), more, buf, itr);
    }
  }

  lemma OtherNames()
    ensures Plain(Ascii("tcbType")) && Ascii("tcbType") != Ascii("pceId")
    ensures Plain(Ascii("tcbLevels")) && Ascii("tcbLevels") != Ascii("pceId")
  {
    PlainAscii("tcbType");
    PlainAscii("tcbLevels");
    assert |Ascii("tcbType")| == 7 && |Ascii("pceId")| == 5 && |Ascii("tcbLevels")| == 9;
  }

  lemma RawInfoAt(raw: Raw, buf: seq<byte>, itr: nat, e: nat, platform: TcbLevel)
    requires GoodInfo(raw) && platform.status == UNKNOWN && Spelled(buf, itr, RawInfo(raw))
    requires Version(raw) == 2 ==> StopsAt(platform, Meanings(raw.levels)) == |raw.levels| - 1
    requires Skipped(buf, After(buf, itr, RawInfo(raw)), e, Settles(Version(raw), platform, raw.levels))
    requires Spelled(buf, e, [[CLOSE]]) && Spelled(buf, After(buf, e, [[CLOSE]]), [RBRACE])
    ensures var r := ReadTcbInfo(buf, itr, platform);
            && r.Success? && r.value.next == After(buf, After(buf, e, [[CLOSE]]), [RBRACE])
            && Says(r.value.value.1, r.value.value.0, raw, buf, platform)
            && r.value.value.1.infoStart == itr && itr + r.value.value.1.infoSize == After(buf, e, [[CLOSE]]) + 1
  {
    hide Spelled, After, RawHeader, RawPceId, RawExtra, RawLevels, GoodHeader, GoodExtra, GoodLevels, Version, IsHex, HexBytes, Parse,
      ValueOf, Digits, ReadHeader, ReadPceId, ReadExtraFields, ReadLevels, ReadChar, SignedPart, Listed, Settles, Skipped, StopsAt,
      Meanings;
    HeaderParts(raw);
    LevelsParts(Version(raw), raw.levels);
    var v := Version(raw);
    var header, pceId := RawHeader(raw), RawPceId(raw.pceId);
    var extra, levels := RawExtra(v, raw.tcbType, raw.evaluationNumber), RawLevels(v, raw.levels);
    Cut(buf, itr, header, pceId + (extra + levels));
    RawHeaderAt(raw, buf, itr);
    var a := After(buf, itr, header);
    BehindRawPceId(raw, buf, a);
    Cut(buf, a, pceId, extra + levels);
    var b := After(buf, a, pceId);
    Cut(buf, b, extra, levels);
    RawExtraAt(v, raw.tcbType, raw.evaluationNumber, buf, b);
    RawLevelsAt(v, raw.levels, buf, After(buf, b, extra), e, platform);
    CharAt('}' as int, buf, After(buf, e, [[CLOSE]]));
  }

  lemma RawEndingAt(t: seq<byte>, buf: seq<byte>, itr: nat)
    requires IsHex(t, 64) && Spelled(buf, itr, RawEnding(t))
    ensures ReadEnding(buf, itr) == Success(Token(HexBytes(t).value, After(buf, itr, RawEnding(t))))
  {
    hide Spelled, After, Name, Quoted, ReadName, ReadHexString, ReadChar, Ascii, IsHex, HexBytes;
    PlainAscii("signature");
    HexSome(t, 64);
    var name, last := Name(Ascii("signature")), [Quoted(t)] + [RBRACE];
    Cut(buf, itr, [COMMA], name + last);
    CharAt(',' as int, buf, itr);
    var c := After(buf, itr, [COMMA]);
    Cut(buf, c, name, last);
    NameAt(Ascii("signature"), Ascii("signature"), buf, c);
    var d := After(buf, c, name);
    Cut(buf, d, [Quoted(t)], [RBRACE]);
    HexAt(t, 64, buf, d);
    CharAt('}' as int, buf, After(buf, d, [Quoted(t)]));
  }

  lemma PartsMakeDocument(buf: seq<byte>, platform: TcbLevel)
    requires ReadChar('{' as int, buf, SkipSpace(buf, 0)).Success?
    requires ReadName(Ascii("tcbInfo"), buf, ReadChar('{' as int, buf, SkipSpace(buf, 0)).value).Success?
    requires ReadTcbInfo(buf, ReadName(Ascii("tcbInfo"), buf, ReadChar('{' as int, buf, SkipSpace(buf, 0)).value).value, platform).Success?
    requires ReadEnding(buf, ReadTcbInfo(buf, ReadName(Ascii("tcbInfo"), buf, ReadChar('{' as int, buf, SkipSpace(buf, 0)).value).value,
                                         platform).value.next).Success?
    ensures ReadDocument(buf, platform).Success?
  {
    hide ReadName, ReadTcbInfo, ReadHexString, WithSignature, ReadChar, SignedPart, SkipSpace, Ascii;
  }

  /** Every text of the grammar is accepted, and what is reported is what it says. */
  lemma TextAccepted(raw: Raw, buf: seq<byte>, start: nat, e: nat, f: nat, platform: TcbLevel)
    requires GoodInfo(raw) && IsHex(raw.signature, 64) && IsRawText(raw, buf, start, e, f, Undetermined(platform))
    ensures var o := ParseTcbInfoJson(buf, platform);
            && o.info.Some? && Says(o.info.value, o.platform, raw, buf, Undetermined(platform))
            && o.info.value.signature == HexBytes(raw.signature).value
            && o.info.value.infoStart == start && start + o.info.value.infoSize == f + 1
            && o.result == if o.platform.status.upToDate then OK else TCB_LEVEL_INVALID
  {
    hide Spelled, After, Opening, RawInfo, RawEnding, ReadName, ReadTcbInfo, ReadEnding, ReadChar, ReadDocument, Ascii, IsHex, HexBytes,
      SkipSpace, Skipped, Settles, Says, GoodInfo, SignedPart, Version, StopsAt, Meanings;
    var p := Undetermined(platform);
    OpeningAt(buf, SkipSpace(buf, 0));
    Cut(buf, f, [RBRACE], RawEnding(raw.signature));
    assert raw.levels != [] && AllGoodV1(raw.levels) by { GoodParts(raw); }
    RawInfoAt(raw, buf, start, e, p);
    RawEndingAt(raw.signature, buf, After(buf, f, [RBRACE]));
    HexSome(raw.signature, 64);
    PartsMakeDocument(buf, p);
    DocumentInParts(buf, p);
    assert buf != [] by { SomeBrace(buf); }
    SameSays(ReadTcbInfo(buf, start, p).value.value.1, ParseTcbInfoJson(buf, platform).info.value,
             ReadTcbInfo(buf, start, p).value.value.0, raw, raw, buf, p);
  }

  lemma GoodParts(raw: Raw)
    requires GoodInfo(raw)
    ensures raw.levels != [] && AllGoodV1(raw.levels)
  {
    hide GoodHeader, GoodExtra, GoodLevels, Version;
    HeaderParts(raw);
    LevelsParts(Version(raw), raw.levels);
  }

  lemma SomeBrace(buf: seq<byte>)
    requires ReadChar('{' as int, buf, SkipSpace(buf, 0)).Success?
    ensures buf != []
  {
    hide SkipSpace;
  }

  /** The parser accepts exactly the texts of the grammar. */
  lemma AcceptedIff(buf: seq<byte>, platform: TcbLevel)
    ensures ParseTcbInfoJson(buf, platform).info.Some? <==>
            exists raw, start, e, f ::
              GoodInfo(raw) && IsHex(raw.signature, 64) && IsRawText(raw, buf, start, e, f, Undetermined(platform))
  {
    hide ParseTcbInfoJson, GoodInfo, IsHex, IsRawText, Says, HexBytes;
    if ParseTcbInfoJson(buf, platform).info.Some? {
      var raw, start, e, f := AcceptedIsText(buf, platform);
    }
    forall raw, start, e, f
      | GoodInfo(raw) && IsHex(raw.signature, 64) && IsRawText(raw, buf, start, e, f, Undetermined(platform))
      ensures ParseTcbInfoJson(buf, platform).info.Some?
    {
      TextAccepted(raw, buf, start, e, f, platform);
    }
  }
}
