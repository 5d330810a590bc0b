/** Whole TCB info documents (common/sgx/tcbinfo.c): for every document of either version, on any
    text of it, the parser returns its fields, its signed part and the verdict that its levels
    give, exactly when the levels can be skipped. */
module TcbDocument {
  import opened Bytes
  import opened Results
  import opened Datetime
  import opened TcbJson
  import opened TcbLevels
  import opened TcbInfo
  import opened TcbText
  import opened TcbSkip

  /** `fmspc`, `pceId` and `signature` are given as hex text. */
  datatype Document = Document(version: nat, issueDate: Date, nextUpdate: Date, fmspc: seq<byte>,
                               pceId: Option<seq<byte>>, evaluationNumber: nat, levels: seq<LevelText>,
                               signature: seq<byte>)

  /** Hex text of `n` bytes. */
  predicate IsHex(t: seq<byte>, n: nat) {
    |t| == 2 * n && Quotable(t) && HexBytes(t).Some?
  }

  /** What a document of its version can write. */
  predicate Writable(doc: Document) {
    if doc.version == 2 then AllWritableV2(doc.levels) else AllWritableV1(doc.levels)
  }

  predicate Proper(doc: Document) {
    && (doc.version == 1 || doc.version == 2) && Printable(doc.issueDate) && Printable(doc.nextUpdate)
    && IsHex(doc.fmspc, 6) && (doc.pceId.Some? ==> IsHex(doc.pceId.value, 2)) && IsHex(doc.signature, 64)
    && doc.evaluationNumber < INTEGER_LIMIT && doc.levels != [] && Writable(doc)
  }

  // ----- the text

  function IntegerField(name: seq<byte>, v: nat): Tokens {
    Name(name) + ([Number(v)] + [COMMA])
  }

  function HexField(name: seq<byte>, t: seq<byte>): Tokens {
    Name(name) + ([Quoted(t)] + [COMMA])
  }

  function Header(doc: Document): Tokens {
    [LBRACE]
    + (IntegerField(Ascii("version"), doc.version)
       + (DateField(Ascii("issueDate"), doc.issueDate)
          + (DateField(Ascii("nextUpdate"), doc.nextUpdate) + HexField(Ascii("fmspc"), doc.fmspc))))
  }

  function PceId(doc: Document): Tokens {
    if doc.pceId.None? then [] else HexField(Ascii("pceId"), doc.pceId.value)
  }

  function Extra(doc: Document): Tokens {
    if doc.version != 2 then []
    else IntegerField(Ascii("tcbType"), 0) + IntegerField(Ascii("tcbEvaluationDataNumber"), doc.evaluationNumber)
  }

  function List(doc: Document): Tokens
    requires doc.levels != []
  {
    if doc.version == 2 then ListV2(doc.levels) else ListV1(doc.levels)
  }

  function Levels(doc: Document): Tokens
    requires doc.levels != []
  {
    Name(Ascii("tcbLevels")) + ([[OPEN]] + (List(doc) + [[CLOSE]]))
  }

  /** The object without its closing brace. */
  function Body(doc: Document): Tokens
    requires doc.levels != []
  {
    Header(doc) + (PceId(doc) + (Extra(doc) + Levels(doc)))
  }

  function Info(doc: Document): Tokens
    requires doc.levels != []
  {
    Header(doc) + (PceId(doc) + (Extra(doc) + (Levels(doc) + [RBRACE])))
  }

  lemma InfoIsBody(doc: Document)
    requires doc.levels != []
    ensures Info(doc) == Body(doc) + [RBRACE]
  {
    hide Header, PceId, Extra, Levels;
    var a, b, c, d := Header(doc), PceId(doc), Extra(doc), Levels(doc);
    assert c + (d + [RBRACE]) == (c + d) + [RBRACE];
    assert b + ((c + d) + [RBRACE]) == (b + (c + d)) + [RBRACE];
    assert a + ((b + (c + d)) + [RBRACE]) == (a + (b + (c + d))) + [RBRACE];
  }

  function Opening(): Tokens {
    [LBRACE] + Name(Ascii("tcbInfo"))
  }

  function Ending(doc: Document): Tokens {
    [COMMA] + (Name(Ascii("signature")) + ([Quoted(doc.signature)] + [RBRACE]))
  }

  function Text(doc: Document): Tokens
    requires doc.levels != []
  {
    Opening() + (Info(doc) + Ending(doc))
  }

  /** A text of the document, with any white space between its tokens and at either end. */
  predicate IsText(buf: seq<byte>, doc: Document)
    requires doc.levels != []
  {
    Spelled(buf, SkipSpace(buf, 0), Text(doc)) && After(buf, SkipSpace(buf, 0), Text(doc)) == |buf|
  }

  /** Where the "tcbInfo" object begins. */
  function InfoPlace(buf: seq<byte>, doc: Document): (p: nat)
    requires doc.levels != [] && IsText(buf, doc)
    ensures Spelled(buf, p, Info(doc)) && Spelled(buf, p, Body(doc))
  {
    hide Spelled, After, Opening, Ending, Info, Body;
    Cut(buf, SkipSpace(buf, 0), Opening(), Info(doc) + Ending(doc));
    var p := After(buf, SkipSpace(buf, 0), Opening());
    Cut(buf, p, Info(doc), Ending(doc));
    BodyAt(doc, buf, p);
    p
  }

  // ----- the readers on the text

  lemma IntegerFieldAt(name: seq<byte>, v: nat, buf: seq<byte>, itr: nat)
    requires Plain(name) && v < INTEGER_LIMIT && Spelled(buf, itr, IntegerField(name, v))
    ensures ReadIntegerField(name, buf, itr) == Success(Token(v, After(buf, itr, IntegerField(name, v))))
  {
    hide Spelled, After, Name, Number, ReadName, ReadInteger, ReadChar;
    Cut(buf, itr, Name(name), [Number(v)] + [COMMA]);
    NameAt(name, name, buf, itr);
    var p := After(buf, itr, Name(name));
    Cut(buf, p, [Number(v)], [COMMA]);
    IntegerAt(v, COMMA, buf, p);
    CharAt(',' as int, buf, After(buf, p, [Number(v)]));
  }

  lemma HexAt(t: seq<byte>, n: nat, buf: seq<byte>, itr: nat)
    requires IsHex(t, n) && Spelled(buf, itr, [Quoted(t)])
    ensures ReadHexString(buf, itr, n) == Success(Token(HexBytes(t).value, After(buf, itr, [Quoted(t)])))
  {
    hide Spelled, After, Quoted, ReadString, HexBytes;
    StringAt(t, buf, itr);
  }

  lemma HexFieldAt(name: seq<byte>, t: seq<byte>, n: nat, buf: seq<byte>, itr: nat)
    requires Plain(name) && IsHex(t, n) && Spelled(buf, itr, HexField(name, t))
    ensures ReadHexField(name, buf, itr, n) == Success(Token(HexBytes(t).value, After(buf, itr, HexField(name, t))))
    ensures ReadName(name, buf, itr).Success?
  {
    hide Spelled, After, Name, Quoted, ReadName, ReadHexString, ReadChar, IsHex, HexBytes;
    assert HexBytes(t).Some? by { HexSome(t, n); }
    Cut(buf, itr, Name(name), [Quoted(t)] + [COMMA]);
    NameAt(name, name, buf, itr);
    var p := After(buf, itr, Name(name));
    Cut(buf, p, [Quoted(t)], [COMMA]);
    HexAt(t, n, buf, p);
    CharAt(',' as int, buf, After(buf, p, [Quoted(t)]));
  }

  lemma HexSome(t: seq<byte>, n: nat)
    requires IsHex(t, n)
    ensures |t| % 2 == 0 && HexBytes(t).Some?
  {
  }

  /** The fields up to "fmspc"; of the version 32 bits are kept. */
  lemma HeaderAt(doc: Document, buf: seq<byte>, itr: nat)
    requires doc.version < INTEGER_LIMIT && Printable(doc.issueDate) && Printable(doc.nextUpdate)
    requires IsHex(doc.fmspc, 6) && Spelled(buf, itr, Header(doc))
    ensures ReadHeader(buf, itr)
         == Success(Token(ParsedInfo(doc.version % 0x1_0000_0000, doc.issueDate, doc.nextUpdate, HexBytes(doc.fmspc).value,
                                     [0, 0], [], 0, 0, NO_LEVEL, itr, 0), After(buf, itr, Header(doc))))
  {
    hide Spelled, After, IntegerField, DateField, HexField, ReadIntegerField, ReadDateField, ReadHexField, ReadChar, Ascii,
      IsHex, HexBytes, IsValid;
    assert HexBytes(doc.fmspc).Some? by { HexSome(doc.fmspc, 6); }
    PlainAscii("version");
    PlainAscii("issueDate");
    PlainAscii("nextUpdate");
    PlainAscii("fmspc");
    var version, issue := IntegerField(Ascii("version"), doc.version), DateField(Ascii("issueDate"), doc.issueDate);
    var next, fmspc := DateField(Ascii("nextUpdate"), doc.nextUpdate), HexField(Ascii("fmspc"), doc.fmspc);
    Cut(buf, itr, [LBRACE], version + (issue + (next + fmspc)));
    CharAt('{' as int, buf, itr);
    var a := After(buf, itr, [LBRACE]);
    Cut(buf, a, version, issue + (next + fmspc));
    IntegerFieldAt(Ascii("version"), doc.version, buf, a);
    var b := After(buf, a, version);
    Cut(buf, b, issue, next + fmspc);
    DateFieldAt(Ascii("issueDate"), doc.issueDate, buf, b);
    var c := After(buf, b, issue);
    Cut(buf, c, next, fmspc);
    DateFieldAt(Ascii("nextUpdate"), doc.nextUpdate, buf, c);
    HexFieldAt(Ascii("fmspc"), doc.fmspc, 6, buf, After(buf, c, next));
  }

  /** The PCE id as the parser reports it: zero when the document has none. */
  function PceIdOf(doc: Document): seq<byte>
    requires doc.pceId.Some? ==> IsHex(doc.pceId.value, 2)
  {
    if doc.pceId.None? then [0, 0] else HexBytes(doc.pceId.value).value
  }

  /** Where the PCE id is missing, the name that stands there is another one. */
  lemma PceIdAt(doc: Document, rest: Tokens, other: seq<byte>, more: Tokens, buf: seq<byte>, itr: nat)
    requires doc.pceId.Some? ==> IsHex(doc.pceId.value, 2)
    requires rest == Name(other) + more && Plain(other) && other != Ascii("pceId")
    requires Spelled(buf, itr, PceId(doc) + rest)
    ensures Spelled(buf, itr, PceId(doc))
    ensures ReadPceId(buf, itr) == Success(Token(PceIdOf(doc), After(buf, itr, PceId(doc))))
  {
    hide Spelled, After, Name, HexField, ReadName, ReadHexString, ReadChar, Ascii, IsHex, HexBytes;
    PlainAscii("pceId");
    Cut(buf, itr, PceId(doc), rest);
    if doc.pceId.None? {
      Nothing(buf, itr);
      Cut(buf, itr, Name(other), more);
      NameAt(Ascii("pceId"), other, buf, itr);
    } else {
      HexFieldAt(Ascii("pceId"), doc.pceId.value, 2, buf, itr);
      PceIdIsField(buf, itr);
    }
  }

  lemma PceIdIsField(buf: seq<byte>, itr: nat)
    requires itr <= |buf| && ReadName(Ascii("pceId"), buf, itr).Success?
    ensures ReadPceId(buf, itr) == ReadHexField(Ascii("pceId"), buf, itr, 2)
  {
    hide ReadName, ReadHexString, ReadChar, Ascii;
  }

  function ExtraOf(doc: Document): (uint32, uint32) {
    if doc.version == 2 then (0, Truncate32(doc.evaluationNumber)) else (0, 0)
  }

  lemma ExtraAt(doc: Document, buf: seq<byte>, itr: nat)
    requires (doc.version == 1 || doc.version == 2) && doc.evaluationNumber < INTEGER_LIMIT
    requires Spelled(buf, itr, Extra(doc))
    ensures ReadExtraFields(buf, itr, doc.version) == Success(Token(ExtraOf(doc), After(buf, itr, Extra(doc))))
  {
    hide Spelled, After, Name, Number, ReadName, ReadInteger, ReadChar, Ascii, Truncate32;
    if doc.version == 2 {
      PlainAscii("tcbType");
      PlainAscii("tcbEvaluationDataNumber");
      var kind, number := IntegerField(Ascii("tcbType"), 0), IntegerField(Ascii("tcbEvaluationDataNumber"), doc.evaluationNumber);
      Cut(buf, itr, kind, number);
      IntegerFieldAt(Ascii("tcbType"), 0, buf, itr);
      var p := After(buf, itr, kind);
      IntegerFieldAt(Ascii("tcbEvaluationDataNumber"), doc.evaluationNumber, buf, p);
    } else {
      Nothing(buf, itr);
    }
  }

  /** The platform after the levels of a document have been considered. */
  function Considered(doc: Document, platform: TcbLevel): TcbLevel {
    if doc.version == 2 then ScanUntilKnown(platform, LevelsOf(doc.levels)) else ScanAll(platform, LevelsOf(doc.levels))
  }

  /** The reader of the document's version comes to the end of the levels. */
  predicate LevelsSkippable(doc: Document, platform: TcbLevel) {
    doc.version == 2 ==> Skippable(platform, doc.levels)
  }

  /** The level that the parser reports: in version 1 the last, in version 2 the one that settled the
      platform's status, or else the last. */
  predicate LevelReported(level: TcbLevel, doc: Document, platform: TcbLevel, buf: seq<byte>)
    requires doc.levels != []
  {
    if doc.version == 2 then ReadOffV2(level, doc.levels, StopsAt(platform, doc.levels), buf, NO_LEVEL)
    else level == ReadOffV1(doc.levels[|doc.levels| - 1])
  }

  lemma LevelsAt(doc: Document, platform: TcbLevel, buf: seq<byte>, itr: nat)
    requires (doc.version == 1 || doc.version == 2) && doc.levels != [] && Writable(doc)
    requires platform.status == UNKNOWN && Spelled(buf, itr, Levels(doc))
    ensures var r, end := ReadLevels(buf, itr, doc.version, platform), After(buf, itr, Levels(doc));
            && (EndsAt(r, end) <==> LevelsSkippable(doc, platform))
            && (r.Success? ==>
                  r.value.value.0 == Considered(doc, platform) && LevelReported(r.value.value.1, doc, platform, buf))
  {
    hide Spelled, After, Name, ReadName, Ascii, ListV1, ListV2, ReadLevelsV1, ReadLevelsV2, ScanAll, ScanUntilKnown, Skippable,
      LevelsOf, ReadChar, AllWritableV1, AllWritableV2, ReadOffV1, ReadOffV2, StopsAt;
    PlainAscii("tcbLevels");
    var name, list := Name(Ascii("tcbLevels")), List(doc) + [[CLOSE]];
    Cut(buf, itr, name, [[OPEN]] + list);
    NameAt(Ascii("tcbLevels"), Ascii("tcbLevels"), buf, itr);
    var p := After(buf, itr, name);
    Cut(buf, p, [[OPEN]], list);
    CharAt(OPEN, buf, p);
    var q := After(buf, p, [[OPEN]]);
    Cut(buf, q, List(doc), [[CLOSE]]);
    var end := After(buf, q, List(doc));
    CharAt(CLOSE, buf, end);
    One(buf, end, [CLOSE]);
    if doc.version == 2 {
      ArrayV2At(doc.levels, buf, q, platform, NO_LEVEL);
      var r := ReadLevelsV2(buf, q, platform, NO_LEVEL);
      if r.Success? {
        BehindCloses(buf, r.value.next, end);
      }
    } else {
      ArrayV1At(doc.levels, buf, q, platform);
    }
  }

  /** What stands behind the optional PCE id: in either version a name that is not "pceId". */
  lemma BehindPceId(doc: Document, buf: seq<byte>, itr: nat)
    requires doc.levels != [] && (doc.pceId.Some? ==> IsHex(doc.pceId.value, 2))
    requires Spelled(buf, itr, PceId(doc) + (Extra(doc) + (Levels(doc) + [RBRACE])))
    ensures Spelled(buf, itr, PceId(doc))
    ensures ReadPceId(buf, itr) == Success(Token(PceIdOf(doc), After(buf, itr, PceId(doc))))
  {
    hide Spelled, After, Name, List, ReadPceId, Ascii, IsHex, HexBytes;
    var rest := Extra(doc) + (Levels(doc) + [RBRACE]);
    if doc.version == 2 {
      PlainAscii("tcbType");
      var number := IntegerField(Ascii("tcbEvaluationDataNumber"), doc.evaluationNumber);
      var more := ([Number(0)] + [COMMA]) + (number + (Levels(doc) + [RBRACE]));
      assert rest == Name(Ascii("tcbType")) + more;
      PceIdAt(doc, rest, Ascii("tcbType"), more, buf, itr);
    } else {
      PlainAscii("tcbLevels");
      var more := ([[OPEN]] + (List(doc) + [[CLOSE]])) + [RBRACE];
      assert rest == Name(Ascii("tcbLevels")) + more;
      PceIdAt(doc, rest, Ascii("tcbLevels"), more, buf, itr);
    }
  }

  /** The fields that the parser reports. */
  predicate Reports(info: ParsedInfo, doc: Document, platform: TcbLevel, buf: seq<byte>)
    requires Proper(doc)
  {
    && info.version == doc.version && info.issueDate == doc.issueDate && info.nextUpdate == doc.nextUpdate
    && info.fmspc == HexBytes(doc.fmspc).value && info.pceid == PceIdOf(doc)
    && (info.tcbType, info.evaluationNumber) == ExtraOf(doc) && LevelReported(info.tcbLevel, doc, platform, buf)
  }

  predicate InfoAs(r: Read<(TcbLevel, ParsedInfo)>, doc: Document, platform: TcbLevel, buf: seq<byte>, itr: nat)
    requires Proper(doc) && Spelled(buf, itr, Info(doc)) && Spelled(buf, itr, Body(doc))
  {
    && r.Success? && r.value.next == After(buf, itr, Info(doc))
    && r.value.value.0 == Considered(doc, platform) && Reports(r.value.value.1, doc, platform, buf)
    && Extends(r.value.value.1, doc, buf, itr)
  }

  /** The signed part is the object's text, from its first byte to its closing brace. */
  predicate Extends(info: ParsedInfo, doc: Document, buf: seq<byte>, itr: nat)
    requires doc.levels != [] && Spelled(buf, itr, Body(doc))
  {
    info.infoStart == itr && itr + info.infoSize == After(buf, itr, Body(doc)) + 1
  }

  lemma BodyAt(doc: Document, buf: seq<byte>, itr: nat)
    requires doc.levels != [] && Spelled(buf, itr, Info(doc))
    ensures Spelled(buf, itr, Body(doc)) && Spelled(buf, After(buf, itr, Body(doc)), [RBRACE])
    ensures After(buf, itr, Info(doc)) == After(buf, After(buf, itr, Body(doc)), [RBRACE])
  {
    hide Spelled, After, Body, Info;
    InfoIsBody(doc);
    Cut(buf, itr, Body(doc), [RBRACE]);
  }

  lemma InfoAt(doc: Document, platform: TcbLevel, buf: seq<byte>, itr: nat)
    requires Proper(doc) && platform.status == UNKNOWN && Spelled(buf, itr, Info(doc))
    ensures Spelled(buf, itr, Body(doc))
    ensures var r := ReadTcbInfo(buf, itr, platform);
            && (LevelsSkippable(doc, platform) ==> InfoAs(r, doc, platform, buf, itr))
            && (!LevelsSkippable(doc, platform) ==> r.Failure? || !Extends(r.value.value.1, doc, buf, itr))
            && (r.Success? ==> r.value.value.0 == Considered(doc, platform) && Reports(r.value.value.1, doc, platform, buf))
  {
    hide Spelled, After, Header, PceId, Extra, Levels, ReadHeader, ReadPceId, ReadExtraFields, ReadLevels, Considered, IsHex,
      HexBytes, IsValid, Writable, SignedPart, ExtraOf, LevelsSkippable, LevelReported;
    var header, pceId, extra, levels := Header(doc), PceId(doc), Extra(doc), Levels(doc);
    BodyAt(doc, buf, itr);
    Cut(buf, itr, header, pceId + (extra + (levels + [RBRACE])));
    Cut(buf, itr, header, pceId + (extra + levels));
    HeaderAt(doc, buf, itr);
    var a := After(buf, itr, header);
    BehindPceId(doc, buf, a);
    Cut(buf, a, pceId, extra + (levels + [RBRACE]));
    Cut(buf, a, pceId, extra + levels);
    var b := After(buf, a, pceId);
    Cut(buf, b, extra, levels + [RBRACE]);
    Cut(buf, b, extra, levels);
    ExtraAt(doc, buf, b);
    var c := After(buf, b, extra);
    Cut(buf, c, levels, [RBRACE]);
    LevelsAt(doc, platform, buf, c);
    CharAt('}' as int, buf, After(buf, c, levels));
  }

  /** What parsing a document comes to: its fields, its signed part and the verdict of its levels. */
  predicate Parsed(o: Outcome, doc: Document, platform: TcbLevel, buf: seq<byte>)
    requires Proper(doc) && IsText(buf, doc)
  {
    && o.platform == Considered(doc, Undetermined(platform))
    && o.result == (if o.platform.status.upToDate then OK else TCB_LEVEL_INVALID)
    && o.info.Some? && Reports(o.info.value, doc, Undetermined(platform), buf)
    && o.info.value.signature == HexBytes(doc.signature).value
    && Extends(o.info.value, doc, buf, InfoPlace(buf, doc))
  }

  predicate ReadAs(r: Read<(TcbLevel, ParsedInfo)>, doc: Document, platform: TcbLevel, buf: seq<byte>)
    requires Proper(doc) && IsText(buf, doc)
  {
    && r.Success? && r.value.next == |buf|
    && r.value.value.0 == Considered(doc, platform) && Reports(r.value.value.1, doc, platform, buf)
    && r.value.value.1.signature == HexBytes(doc.signature).value
    && Extends(r.value.value.1, doc, buf, InfoPlace(buf, doc))
  }

  lemma OpeningAt(buf: seq<byte>, itr: nat)
    requires Spelled(buf, itr, Opening())
    ensures var a := ReadChar('{' as int, buf, itr);
            && a.Success? && ReadName(Ascii("tcbInfo"), buf, a.value) == Success(After(buf, itr, Opening()))
  {
    hide Spelled, After, Name, ReadName, ReadChar, Ascii;
    PlainAscii("tcbInfo");
    Cut(buf, itr, [LBRACE], Name(Ascii("tcbInfo")));
    CharAt('{' as int, buf, itr);
    NameAt(Ascii("tcbInfo"), Ascii("tcbInfo"), buf, After(buf, itr, [LBRACE]));
  }

  /** What ReadDocument makes of the text behind the "tcbInfo" object. */
  lemma EndingAt(doc: Document, buf: seq<byte>, itr: nat)
    requires IsHex(doc.signature, 64) && Spelled(buf, itr, Ending(doc))
    ensures var c := ReadChar(',' as int, buf, itr);
            && c.Success?
            && var d := ReadName(Ascii("signature"), buf, c.value);
               && d.Success?
               && var e := ReadHexString(buf, d.value, 64);
                  && e.Success? && e.value.value == HexBytes(doc.signature).value
                  && ReadChar('}' as int, buf, e.value.next) == Success(After(buf, itr, Ending(doc)))
  {
    hide Spelled, After, Name, Quoted, ReadName, ReadHexString, ReadChar, IsHex, HexBytes, Ascii;
    PlainAscii("signature");
    assert HexBytes(doc.signature).Some? by { HexSome(doc.signature, 64); }
    var name, sig := Name(Ascii("signature")), [Quoted(doc.signature)] + [RBRACE];
    Cut(buf, itr, [COMMA], name + sig);
    CharAt(',' as int, buf, itr);
    var d := After(buf, itr, [COMMA]);
    Cut(buf, d, name, sig);
    NameAt(Ascii("signature"), Ascii("signature"), buf, d);
    var e := After(buf, d, name);
    Cut(buf, e, [Quoted(doc.signature)], [RBRACE]);
    HexAt(doc.signature, 64, buf, e);
    CharAt('}' as int, buf, After(buf, e, [Quoted(doc.signature)]));
  }

  lemma DocumentAt(doc: Document, platform: TcbLevel, buf: seq<byte>)
    requires Proper(doc) && platform.status == UNKNOWN && IsText(buf, doc)
    ensures ReadAs(ReadDocument(buf, platform), doc, platform, buf) <==> LevelsSkippable(doc, platform)
    ensures var r := ReadDocument(buf, platform);
            && (r.Success? && !LevelsSkippable(doc, platform) ==> !Extends(r.value.value.1, doc, buf, InfoPlace(buf, doc)))
            && (r.Success? ==> r.value.value.0 == Considered(doc, platform) && Reports(r.value.value.1, doc, platform, buf))
  {
    hide Spelled, After, Opening, Ending, Info, Body, ReadName, ReadTcbInfo, ReadHexString, ReadChar, SkipSpace, Considered, IsHex,
      HexBytes, IsValid, Writable, Ascii, SignedPart, ExtraOf, LevelsSkippable, LevelReported;
    var itr := SkipSpace(buf, 0);
    Cut(buf, itr, Opening(), Info(doc) + Ending(doc));
    OpeningAt(buf, itr);
    var b := InfoPlace(buf, doc);
    Cut(buf, b, Info(doc), Ending(doc));
    InfoAt(doc, platform, buf, b);
    EndingAt(doc, buf, After(buf, b, Info(doc)));
  }

  /** For every document, on any text of it, parsing returns its fields and its signed part and
      gives the verdict of its levels, exactly when the levels can be skipped. In no case does it
      give another verdict or report other fields. */
  lemma DocumentParsed(doc: Document, platform: TcbLevel, buf: seq<byte>)
    requires Proper(doc) && IsText(buf, doc)
    ensures var o := ParseTcbInfoJson(buf, platform);
            && (Parsed(o, doc, platform, buf) <==> LevelsSkippable(doc, Undetermined(platform)))
            && (o.info.Some? ==>
                  && o.platform == Considered(doc, Undetermined(platform))
                  && Reports(o.info.value, doc, Undetermined(platform), buf))
  {
    hide IsText, ReadDocument, Considered, Reports, HexBytes, Proper, LevelsSkippable, Extends;
    DocumentAt(doc, Undetermined(platform), buf);
    assert buf != [] by { SomeLevels(doc); SomeText(doc, buf); }
  }

  lemma SomeLevels(doc: Document)
    requires Proper(doc)
    ensures doc.levels != []
  {
  }

  lemma SomeText(doc: Document, buf: seq<byte>)
    requires doc.levels != [] && IsText(buf, doc)
    ensures buf != []
  {
    hide Spelled, SkipSpace, Name, Info, Ending;
    var itr := SkipSpace(buf, 0);
    Cut(buf, itr, Opening(), Info(doc) + Ending(doc));
    Cut(buf, itr, [LBRACE], Name(Ascii("tcbInfo")));
    One(buf, itr, LBRACE);
  }

  /** A version 1 document gives the platform the verdict of the first level with a recognised
      status that the platform covers. A version 2 document with the same levels gives the same
      verdict or none, and always gives it when its levels can be skipped. */
  lemma DocumentsAgree(a: Document, b: Document, platform: TcbLevel, v1: seq<byte>, v2: seq<byte>)
    requires Proper(a) && Proper(b) && a.version == 1 && b.version == 2 && a.levels == b.levels
    requires IsText(v1, a) && IsText(v2, b)
    ensures var x, y := ParseTcbInfoJson(v1, platform), ParseTcbInfoJson(v2, platform);
            var k := FirstChosen(Undetermined(platform), LevelsOf(a.levels));
            && x.info.Some? && x.platform.status == (if k < 0 then UNKNOWN else ParseTcbStatus(a.levels[k].status))
            && (Skippable(Undetermined(platform), b.levels) ==> y.info.Some?)
            && (y.info.Some? ==> y.result == x.result && y.platform.status == x.platform.status)
  {
    hide IsText, ParseTcbInfoJson, Proper, ParseTcbStatus, Parsed, Skippable, InfoPlace;
    DocumentParsed(a, platform, v1);
    DocumentParsed(b, platform, v2);
    ParsedSome(a, platform, v1);
    ParsedSome(b, platform, v2);
    ScanAllChoosesFirst(Undetermined(platform), LevelsOf(a.levels));
    ScanUntilKnownChoosesFirst(Undetermined(platform), LevelsOf(a.levels));
  }

  lemma ParsedSome(doc: Document, platform: TcbLevel, buf: seq<byte>)
    requires Proper(doc) && IsText(buf, doc)
    ensures Parsed(ParseTcbInfoJson(buf, platform), doc, platform, buf) ==> ParseTcbInfoJson(buf, platform).info.Some?
  {
    hide Proper, IsText, ParseTcbInfoJson, Considered, Reports, Extends, InfoPlace, HexBytes;
  }
}
