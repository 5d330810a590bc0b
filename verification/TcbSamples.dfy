/** TCB info documents that show where the two versions differ (common/sgx/tcbinfo.c): a closing
    bracket in a status is text to the version 1 reader and ends the array for the version 2 reader. */
module TcbSamples {
  import opened Bytes
  import opened Results
  import opened Datetime
  import opened TcbJson
  import opened TcbLevels
  import opened TcbInfo
  import opened TcbText
  import opened TcbSkip
  import opened TcbDocument
  import opened TcbPrint

  // ----- sample documents

  const DAY := Date(2020, 1, 1, 0, 0, 0)

  function Level(status: seq<byte>): LevelText {
    LevelText(Zeros(NUM_COMPS), 0, status, DAY, None)
  }

  /** A document with zero identifiers and a zero signature. */
  function Sample(version: nat, issueDate: Date, nextUpdate: Date, levels: seq<LevelText>): Document {
    Document(version, issueDate, nextUpdate, HexText(Zeros(6)), None, 0, levels, HexText(Zeros(64)))
  }

  lemma SampleProper(version: nat, issueDate: Date, nextUpdate: Date, levels: seq<LevelText>)
    requires (version == 1 || version == 2) && Printable(issueDate) && Printable(nextUpdate) && levels != [] && AllWritableV2(levels)
    ensures Proper(Sample(version, issueDate, nextUpdate, levels))
    ensures HexBytes(Sample(version, issueDate, nextUpdate, levels).fmspc) == Some(Zeros(6))
  {
    hide HexText, HexBytes, IsHex, Printable, WritableV2, Zeros, AllWritableV1;
    HexRoundTrip(Zeros(6));
    HexRoundTrip(Zeros(64));
    assert AllWritableV1(levels) by { AlsoWritableV1(levels); }
  }

  lemma AlsoWritableV1(levels: seq<LevelText>)
    requires AllWritableV2(levels)
    ensures AllWritableV1(levels)
  {
    hide WritableV1, Printable;
    forall i | 0 <= i < |levels| ensures WritableV1(levels[i]) {
      assert WritableV2(levels[i]);
    }
  }

  lemma LevelWritable(status: seq<byte>)
    requires Quotable(status)
    ensures WritableV2(Level(status))
  {
    hide Quotable;
  }

  /** An up-to-date level without versions of its own is chosen for every platform. */
  lemma GoodChosen(platform: TcbLevel)
    ensures Chosen(platform, LevelOf(Level(Ascii("UpToDate")))) && ParseTcbStatus(Ascii("UpToDate")).upToDate
  {
    hide Ascii;
  }

  // ----- a closing bracket in a status

  /** The tokens behind a level, up to the next level's status. */
  function BeforeStatus(d: LevelText): Tokens {
    [COMMA] + (LevelHead(d) + (DateField(Ascii("tcbDate"), d.date) + Name(Ascii("tcbStatus"))))
  }

  lemma BeforeStatusBalanced(d: LevelText)
    requires Printable(d.date)
    ensures Balanced(Flat(BeforeStatus(d)))
  {
    hide AllBalanced, Balanced, Flat, LevelHead, DateField, Name, Ascii, Printable;
    var head, date, name := LevelHead(d), DateField(Ascii("tcbDate"), d.date), Name(Ascii("tcbStatus"));
    assert AllBalanced([COMMA]) by { CommaPlain(); OneBalanced(COMMA); }
    assert AllBalanced(date) by { DateBalanced(d.date); }
    HeadBalanced(d);
    PlainAscii("tcbStatus");
    NameBalanced(Ascii("tcbStatus"));
    AllBalancedAppend(date, name);
    AllBalancedAppend(head, date + name);
    AllBalancedAppend([COMMA], head + (date + name));
    FlatBalanced(BeforeStatus(d));
  }

  lemma DateBalanced(date: Date)
    requires Printable(date)
    ensures AllBalanced(DateField(Ascii("tcbDate"), date))
  {
    hide Print;
    var d := Level([]).(date := date);
    assert d.status == [] && Balanced(d.status) && Quotable(d.status);
    FieldsBalanced(d);
  }

  lemma QuotedClose(buf: seq<byte>, q: nat)
    requires At(buf, q, Quoted([CLOSE]))
    ensures q + 3 <= |buf| && buf[q] == QUOTE && buf[q + 1] == CLOSE && buf[q + 2] == QUOTE
  {
    var t, s := Quoted([CLOSE]), buf[q..q + 3];
    assert t[0] == QUOTE && t[1] == CLOSE && t[2] == QUOTE;
    assert s[0] == buf[q] && s[1] == buf[q + 1] && s[2] == buf[q + 2];
  }

  /** Behind a chosen level, the skipper stops inside the next status when that is "]". */
  lemma SkipsToStatus(d: LevelText, more: Tokens, buf: seq<byte>, itr: nat)
    requires Printable(d.date) && d.status == [CLOSE] && Spelled(buf, itr, BeforeStatus(d) + ([Quoted(d.status)] + more))
    ensures var p := ArrayEnd(buf, itr, itr);
            AtClose(buf, p) && p + 1 < |buf| && buf[p + 1] == QUOTE
  {
    hide Spelled, After, BeforeStatus, ArrayEnd, Flat, Nesting, Quoted;
    Cut(buf, itr, BeforeStatus(d), [Quoted(d.status)] + more);
    var q := After(buf, itr, BeforeStatus(d));
    Cut(buf, q, [Quoted(d.status)], more);
    One(buf, q, Quoted(d.status));
    BeforeStatusBalanced(d);
    SpelledNesting(buf, itr, BeforeStatus(d), 0);
    QuotedClose(buf, q);
    NestingAppend(buf[itr..q], [QUOTE], 0);
    NestingPlain([QUOTE], 0);
    assert buf[itr..q + 1] == buf[itr..q] + [QUOTE];
    SkipsToBalanced(buf, itr, q + 1);
  }

  lemma RestShape(ds: seq<LevelText>)
    requires |ds| == 2
    ensures RestV2(ds) == BeforeStatus(ds[1]) + ([Quoted(ds[1].status)] + (Advisories(ds[1]) + [RBRACE]))
  {
    hide LevelHead, DateField, Name, Advisories, Quoted, Ascii;
    var d := ds[1];
    var a, b, c, q, e := LevelHead(d), DateField(Ascii("tcbDate"), d.date), Name(Ascii("tcbStatus")), [Quoted(d.status)],
                         Advisories(d) + [RBRACE];
    assert ListV2(ds[1..]) == a + (b + ((c + q) + e));
    assert (c + q) + e == c + (q + e);
    assert b + (c + (q + e)) == (b + c) + (q + e);
    assert a + ((b + c) + (q + e)) == (a + (b + c)) + (q + e);
    assert [COMMA] + ((a + (b + c)) + (q + e)) == ([COMMA] + (a + (b + c))) + (q + e);
  }

  lemma ArrayStops(ds: seq<LevelText>, buf: seq<byte>, itr: nat, platform: TcbLevel, previous: TcbLevel)
    requires |ds| == 2 && AllWritableV2(ds) && platform.status == UNKNOWN && Spelled(buf, itr, ListV2(ds))
    requires Chosen(platform, LevelOf(ds[0])) && ds[1].status == [CLOSE]
    ensures var r := ReadLevelsV2(buf, itr, platform, previous);
            r.Success? && AtClose(buf, r.value.next) && r.value.next + 1 < |buf| && buf[r.value.next + 1] == QUOTE
  {
    hide Spelled, After, LevelV2, LevelOf, ReadLevelV2, ArrayEnd, ReadChar, ListV2, RestV2, BeforeStatus, Chosen, Advisories,
      Printable, Quotable, NoClose;
    assert WritableV2(ds[0]) && WritableV2(ds[1]);
    ListIsLevelAndRest(ds);
    var level := LevelV2(ds[0]);
    Cut(buf, itr, level, RestV2(ds));
    LevelV2At(ds[0], buf, itr, previous);
    LevelConsidered(platform, ReadLevelV2(buf, itr, previous).value.value, ds[0]);
    RestShape(ds);
    SkipsToStatus(ds[1], Advisories(ds[1]) + [RBRACE], buf, After(buf, itr, level));
  }

  predicate Stray(doc: Document, platform: TcbLevel) {
    && Proper(doc) && doc.version == 2 && |doc.levels| == 2
    && Chosen(platform, LevelOf(doc.levels[0])) && doc.levels[1].status == [CLOSE]
  }

  lemma LevelsStop(doc: Document, platform: TcbLevel, buf: seq<byte>, itr: nat)
    requires Stray(doc, platform) && platform.status == UNKNOWN && Spelled(buf, itr, Levels(doc))
    ensures var r := ReadLevels(buf, itr, 2, platform);
            r.Success? && r.value.next < |buf| && buf[r.value.next] == QUOTE
  {
    hide Spelled, After, Name, ReadName, Ascii, ListV2, ReadLevelsV2, Chosen, LevelOf, AllWritableV2, IsHex, HexBytes, IsValid;
    PlainAscii("tcbLevels");
    var name, list := Name(Ascii("tcbLevels")), List(doc) + [[CLOSE]];
    Cut(buf, itr, name, [[OPEN]] + list);
    NameAt(Ascii("tcbLevels"), Ascii("tcbLevels"), buf, itr);
    var p := After(buf, itr, name);
    Cut(buf, p, [[OPEN]], list);
    CharAt(OPEN, buf, p);
    var q := After(buf, p, [[OPEN]]);
    Cut(buf, q, List(doc), [[CLOSE]]);
    ArrayStops(doc.levels, buf, q, platform, NO_LEVEL);
  }

  lemma InfoStops(doc: Document, platform: TcbLevel, buf: seq<byte>, itr: nat)
    requires Stray(doc, platform) && platform.status == UNKNOWN && Spelled(buf, itr, Info(doc))
    ensures ReadTcbInfo(buf, itr, platform).Failure?
  {
    hide Spelled, After, Header, PceId, Extra, Levels, ReadHeader, ReadPceId, ReadExtraFields, ReadLevels, IsHex,
      HexBytes, IsValid, Writable, SignedPart, ExtraOf, Chosen, LevelOf;
    var header, pceId, extra, levels := Header(doc), PceId(doc), Extra(doc), Levels(doc);
    Cut(buf, itr, header, pceId + (extra + (levels + [RBRACE])));
    HeaderAt(doc, buf, itr);
    var a := After(buf, itr, header);
    BehindPceId(doc, buf, a);
    Cut(buf, a, pceId, extra + (levels + [RBRACE]));
    var b := After(buf, a, pceId);
    Cut(buf, b, extra, levels + [RBRACE]);
    ExtraAt(doc, buf, b);
    var c := After(buf, b, extra);
    Cut(buf, c, levels, [RBRACE]);
    LevelsStop(doc, platform, buf, c);
  }

  /** Every text of a version 2 document with the status "]" behind its chosen level is refused. */
  lemma StrayBracketRefused(doc: Document, platform: TcbLevel, buf: seq<byte>)
    requires Stray(doc, Undetermined(platform)) && IsText(buf, doc)
    ensures ParseTcbInfoJson(buf, platform).result == JSON_INFO_PARSE_ERROR && ParseTcbInfoJson(buf, platform).info.None?
  {
    hide Spelled, After, Opening, Ending, Info, ReadName, ReadTcbInfo, ReadChar, Ascii, Stray, InfoPlace;
    var itr := SkipSpace(buf, 0);
    assert doc.levels != [] by { StrayLevels(doc, platform); }
    SomeText(doc, buf);
    Cut(buf, itr, Opening(), Info(doc) + Ending(doc));
    OpeningAt(buf, itr);
    var p := After(buf, itr, Opening());
    Cut(buf, p, Info(doc), Ending(doc));
    InfoStops(doc, Undetermined(platform), buf, p);
  }

  lemma StrayLevels(doc: Document, platform: TcbLevel)
    requires Stray(doc, Undetermined(platform))
    ensures doc.levels != []
  {
  }

  const STRAY_LEVELS := [Level(Ascii("UpToDate")), Level([CLOSE])]

  /** The two printed versions of such a document: version 1 is accepted for every platform. */
  lemma StrayBracketPrinted(platform: TcbLevel)
    ensures ParseTcbInfoJson(Written(Sample(1, DAY, DAY, STRAY_LEVELS)), platform).result == OK
    ensures ParseTcbInfoJson(Written(Sample(2, DAY, DAY, STRAY_LEVELS)), platform).result == JSON_INFO_PARSE_ERROR
  {
    hide Written, ParseTcbInfoJson, Proper, Ascii, Chosen, LevelOf, AllWritableV2, ParseTcbStatus, IsText, InfoPlace, Parsed, LevelsOf,
      ScanAll;
    var a, b := Sample(1, DAY, DAY, STRAY_LEVELS), Sample(2, DAY, DAY, STRAY_LEVELS);
    StrayWritable();
    SampleProper(1, DAY, DAY, STRAY_LEVELS);
    SampleProper(2, DAY, DAY, STRAY_LEVELS);
    PrintedAndParsed(a, platform);
    GoodAccepted(a, platform, Written(a));
    WrittenIsText(b);
    GoodChosen(Undetermined(platform));
    StrayBracketRefused(b, platform, Written(b));
  }

  lemma StrayWritable()
    ensures AllWritableV2(STRAY_LEVELS)
  {
    hide WritableV2, Ascii;
    PlainAscii("UpToDate");
    LevelWritable(Ascii("UpToDate"));
    LevelWritable([CLOSE]);
  }

  /** A document whose first level is up to date and below every platform is accepted. */
  lemma GoodAccepted(doc: Document, platform: TcbLevel, buf: seq<byte>)
    requires Proper(doc) && IsText(buf, doc) && Parsed(ParseTcbInfoJson(buf, platform), doc, platform, buf)
    requires doc.levels[0] == Level(Ascii("UpToDate"))
    ensures ParseTcbInfoJson(buf, platform).result == OK
  {
    hide Proper, Ascii, Chosen, LevelOf, ParseTcbStatus, IsText, InfoPlace, LevelsOf, ScanAll, ScanUntilKnown, ParseTcbInfoJson,
      Extends, Reports, HexBytes;
    assert doc.levels != [] by { SomeLevels(doc); }
    var p := Undetermined(platform);
    GoodChosen(p);
    LevelsOfFirst(doc.levels);
    ScanAllChoosesFirst(p, LevelsOf(doc.levels));
    ScanUntilKnownChoosesFirst(p, LevelsOf(doc.levels));
    FirstIsChosen(p, LevelsOf(doc.levels));
    assert LevelsOf(doc.levels)[0].status.upToDate by { GoodStatus(); }
  }

  lemma FirstIsChosen(platform: TcbLevel, levels: seq<TcbLevel>)
    requires levels != [] && Chosen(platform, levels[0])
    ensures FirstChosen(platform, levels) == 0
  {
  }

  lemma GoodStatus()
    ensures LevelOf(Level(Ascii("UpToDate"))).status.upToDate
  {
    hide Ascii;
  }

  // ----- a closing bracket in an advisory identifier

  const STRAY_ID: seq<byte> := [QUOTE, CLOSE, QUOTE]

  lemma StrayIdAt(buf: seq<byte>, q: nat)
    requires At(buf, q, Bracketed(STRAY_ID))
    ensures ReadChar(OPEN, buf, q) == Success(q + 1) && NextClose(buf, q + 1) == q + 2
    ensures ReadChar(CLOSE, buf, q + 2) == Success(q + 3) && q + 3 < |buf| && buf[q + 3] == QUOTE
  {
    hide At;
    BracketsAt(STRAY_ID, buf, q);
    assert buf[q + 1] == STRAY_ID[0] && buf[q + 2] == STRAY_ID[1] && buf[q + 3] == STRAY_ID[2];
    assert NextClose(buf, q + 2) == q + 2;
  }

  lemma StrayAdvisoryStops(buf: seq<byte>, itr: nat, previous: TcbLevel)
    requires Spelled(buf, itr, [COMMA] + (Name(Ascii("advisoryIDs")) + [Bracketed(STRAY_ID)]))
    ensures var r := ReadAdvisories(buf, itr, previous);
            r.Success? && r.value.next < |buf| && buf[r.value.next] == QUOTE
  {
    hide Name, ReadName, Spelled, After, Ascii, NextClose, ReadChar, Bracketed;
    PlainAscii("advisoryIDs");
    var name := Name(Ascii("advisoryIDs"));
    Cut(buf, itr, [COMMA], name + [Bracketed(STRAY_ID)]);
    CharAt(',' as int, buf, itr);
    var p := After(buf, itr, [COMMA]);
    Cut(buf, p, name, [Bracketed(STRAY_ID)]);
    NameAt(Ascii("advisoryIDs"), Ascii("advisoryIDs"), buf, p);
    var q := After(buf, p, name);
    One(buf, q, Bracketed(STRAY_ID));
    StrayIdAt(buf, q);
  }

  /** Every text of a version 2 level with the advisory identifier "]" is refused. */
  lemma StrayAdvisoryRefused(d: LevelText, buf: seq<byte>, itr: nat, previous: TcbLevel)
    requires WritableV1(d) && Printable(d.date) && d.advisories == Some(STRAY_ID) && Spelled(buf, itr, LevelV2(d))
    ensures ReadLevelV2(buf, itr, previous).Failure?
  {
    hide Spelled, After, LevelHead, DateField, StatusField, ReadLevelHead, ReadDateField, IsValid, Name, Bracketed,
      ReadStatusField, ReadAdvisories, ParseTcbStatus, Ascii;
    PlainAscii("tcbStatus");
    PlainAscii("tcbDate");
    var head, date := LevelHead(d), DateField(Ascii("tcbDate"), d.date);
    var status, tail := StatusField(Ascii("tcbStatus"), d.status), Advisories(d) + [RBRACE];
    Cut(buf, itr, head, date + (status + tail));
    HeadAt(d, buf, itr);
    var p := After(buf, itr, head);
    Cut(buf, p, date, status + tail);
    DateFieldAt(Ascii("tcbDate"), d.date, buf, p);
    var q := After(buf, p, date);
    Cut(buf, q, status, tail);
    StatusFieldAt(Ascii("tcbStatus"), d.status, buf, q);
    var s := After(buf, q, status);
    Cut(buf, s, Advisories(d), [RBRACE]);
    StrayAdvisoryStops(buf, s, previous);
  }
}
