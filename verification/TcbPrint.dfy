/** A printer for TCB info documents. Every document has a text, so what is proved of the parser
    on the texts of a document (common/sgx/tcbinfo.c) is a round trip. */
module TcbPrint {
  import opened Bytes
  import opened Results
  import opened Datetime
  import opened TcbJson
  import opened TcbLevels
  import opened TcbInfo
  import opened TcbText
  import opened TcbSkip
  import opened TcbDocument

  // ----- tokens

  /** A token that no skipping of white space can enter. */
  predicate Solid(t: seq<byte>) {
    t != [] && !IsSpace(t[0])
  }

  predicate AllSolid(ts: Tokens) {
    forall i :: 0 <= i < |ts| ==> Solid(ts[i])
  }

  lemma SolidStart(ts: Tokens)
    requires AllSolid(ts)
    ensures Flat(ts) != [] ==> !IsSpace(Flat(ts)[0])
  {
    if ts != [] {
      assert Solid(ts[0]);
    }
  }

  /** Solid tokens written one behind the other stand where they were written. */
  lemma {:induction false} FlatSpelled(start: seq<byte>, ts: Tokens)
    requires AllSolid(ts)
    ensures var buf := start + Flat(ts);
            Spelled(buf, |start|, ts) && After(buf, |start|, ts) == |buf|
    decreases |ts|
  {
    var buf := start + Flat(ts);
    if ts != [] {
      assert AllSolid(ts[1..]);
      FlatSpelled(start + ts[0], ts[1..]);
      assert buf == (start + ts[0]) + Flat(ts[1..]);
      var e := |start| + |ts[0]|;
      assert buf[|start|..e] == ts[0];
      SolidStart(ts[1..]);
      assert SkipSpace(buf, e) == e;
    }
  }

  lemma AllSolidAppend(a: Tokens, b: Tokens)
    requires AllSolid(a) && AllSolid(b)
    ensures AllSolid(a + b)
  {
    hide Solid;
  }

  lemma NameSolid(s: seq<byte>, value: seq<byte>, last: seq<byte>)
    requires Solid(value) && Solid(last)
    ensures AllSolid(Name(s)) && AllSolid(Name(s) + ([value] + [last])) && AllSolid(Name(s) + [value])
  {
    var ts := Name(s) + ([value] + [last]);
    assert ts[0] == Quoted(s) && ts[1] == COLON && ts[2] == value && ts[3] == last;
  }

  lemma NumberSolid(v: nat)
    ensures Solid(Number(v))
  {
    hide Number;
    assert IsDigit(Number(v)[0]);
  }

  // ----- levels

  lemma {:induction false} CompsSolid(svn: CompSvn, n: nat)
    requires n <= NUM_COMPS
    ensures AllSolid(Comps(svn, n))
  {
    hide Solid, Name, Number, CompName;
    if n > 0 {
      CompsSolid(svn, n - 1);
      NumberSolid(svn[n - 1]);
      assert Solid(COMMA) by { MarksSolid(); }
      NameSolid(CompName(n - 1), Number(svn[n - 1]), COMMA);
      AllSolidAppend(Comps(svn, n - 1), Comp(n - 1, svn[n - 1]));
    }
  }

  lemma MarksSolid()
    ensures Solid(LBRACE) && Solid(RBRACE) && Solid(COMMA) && Solid([OPEN]) && Solid([CLOSE])
    ensures AllSolid([LBRACE]) && AllSolid([RBRACE]) && AllSolid([COMMA]) && AllSolid([[OPEN]]) && AllSolid([[CLOSE]])
  {
  }

  lemma QuotedSolid(s: seq<byte>)
    ensures Solid(Quoted(s)) && Solid(Bracketed(s))
  {
  }

  lemma HeadSolid(d: LevelText)
    ensures AllSolid(LevelHead(d))
  {
    hide AllSolid, Solid, Name, Number, Comps, Ascii;
    MarksSolid();
    NumberSolid(d.pceSvn);
    var comps, last := Comps(d.compSvn, NUM_COMPS), Name(Ascii("pcesvn")) + ([Number(d.pceSvn)] + [RBRACE]);
    CompsSolid(d.compSvn, NUM_COMPS);
    NameSolid(Ascii("pcesvn"), Number(d.pceSvn), RBRACE);
    AllSolidAppend(comps, last);
    AllSolidAppend([LBRACE], comps + last);
    NameSolid(Ascii("tcb"), COMMA, COMMA);
    AllSolidAppend(Tcb(d), [COMMA]);
    AllSolidAppend(Name(Ascii("tcb")), Tcb(d) + [COMMA]);
    AllSolidAppend([LBRACE], Name(Ascii("tcb")) + (Tcb(d) + [COMMA]));
  }

  lemma FieldsSolid(name: seq<byte>, s: seq<byte>, date: Date)
    ensures AllSolid(StatusField(name, s)) && AllSolid(DateField(name, date))
  {
    hide AllSolid, Solid, Name, Quoted, Print;
    MarksSolid();
    QuotedSolid(s);
    QuotedSolid(Print(date));
    NameSolid(name, Quoted(s), COMMA);
    NameSolid(name, Quoted(Print(date)), COMMA);
  }

  lemma LevelV1Solid(d: LevelText)
    ensures AllSolid(LevelV1(d))
  {
    hide AllSolid, Solid, LevelHead, StatusField, Ascii;
    var status := StatusField(Ascii("status"), d.status);
    MarksSolid();
    HeadSolid(d);
    FieldsSolid(Ascii("status"), d.status, d.date);
    AllSolidAppend(status, [RBRACE]);
    AllSolidAppend(LevelHead(d), status + [RBRACE]);
  }

  lemma AdvisoriesSolid(d: LevelText)
    ensures AllSolid(Advisories(d) + [RBRACE])
  {
    hide Solid, Name, Bracketed, Ascii;
    MarksSolid();
    if d.advisories.Some? {
      var ids := d.advisories.value;
      QuotedSolid(ids);
      NameSolid(Ascii("advisoryIDs"), Bracketed(ids), COMMA);
      AllSolidAppend([COMMA], Name(Ascii("advisoryIDs")) + [Bracketed(ids)]);
    }
    AllSolidAppend(Advisories(d), [RBRACE]);
  }

  lemma LevelV2Solid(d: LevelText)
    ensures AllSolid(LevelV2(d))
  {
    hide AllSolid, Solid, LevelHead, StatusField, DateField, Advisories, Ascii;
    var date, status, tail := DateField(Ascii("tcbDate"), d.date), StatusField(Ascii("tcbStatus"), d.status), Advisories(d) + [RBRACE];
    HeadSolid(d);
    FieldsSolid(Ascii("tcbDate"), d.status, d.date);
    FieldsSolid(Ascii("tcbStatus"), d.status, d.date);
    AdvisoriesSolid(d);
    AllSolidAppend(status, tail);
    AllSolidAppend(date, status + tail);
    AllSolidAppend(LevelHead(d), date + (status + tail));
  }

  lemma {:induction false} ListSolid(ds: seq<LevelText>)
    requires ds != []
    ensures AllSolid(ListV1(ds)) && AllSolid(ListV2(ds))
    decreases |ds|
  {
    hide AllSolid, LevelV1, LevelV2;
    LevelV1Solid(ds[0]);
    LevelV2Solid(ds[0]);
    if |ds| > 1 {
      MarksSolid();
      ListSolid(ds[1..]);
      AllSolidAppend([COMMA], ListV1(ds[1..]));
      AllSolidAppend(LevelV1(ds[0]), [COMMA] + ListV1(ds[1..]));
      AllSolidAppend([COMMA], ListV2(ds[1..]));
      AllSolidAppend(LevelV2(ds[0]), [COMMA] + ListV2(ds[1..]));
    }
  }

  // ----- documents

  lemma HexFieldSolid(name: seq<byte>, t: seq<byte>, v: nat)
    ensures AllSolid(HexField(name, t)) && AllSolid(IntegerField(name, v))
  {
    hide AllSolid, Solid, Name, Quoted, Number;
    MarksSolid();
    QuotedSolid(t);
    NumberSolid(v);
    NameSolid(name, Quoted(t), COMMA);
    NameSolid(name, Number(v), COMMA);
  }

  lemma HeaderSolid(doc: Document)
    ensures AllSolid(Header(doc))
  {
    hide AllSolid, IntegerField, DateField, HexField, Ascii;
    MarksSolid();
    HexFieldSolid(Ascii("version"), [], doc.version);
    HexFieldSolid(Ascii("fmspc"), doc.fmspc, 0);
    FieldsSolid(Ascii("issueDate"), [], doc.issueDate);
    FieldsSolid(Ascii("nextUpdate"), [], doc.nextUpdate);
    var version, issue := IntegerField(Ascii("version"), doc.version), DateField(Ascii("issueDate"), doc.issueDate);
    var next, fmspc := DateField(Ascii("nextUpdate"), doc.nextUpdate), HexField(Ascii("fmspc"), doc.fmspc);
    AllSolidAppend(next, fmspc);
    AllSolidAppend(issue, next + fmspc);
    AllSolidAppend(version, issue + (next + fmspc));
    AllSolidAppend([LBRACE], version + (issue + (next + fmspc)));
  }

  lemma MiddleSolid(doc: Document)
    ensures AllSolid(PceId(doc)) && AllSolid(Extra(doc))
  {
    hide IntegerField, HexField, Ascii, Solid;
    HexFieldSolid(Ascii("tcbType"), [], 0);
    HexFieldSolid(Ascii("tcbEvaluationDataNumber"), [], doc.evaluationNumber);
    AllSolidAppend(IntegerField(Ascii("tcbType"), 0), IntegerField(Ascii("tcbEvaluationDataNumber"), doc.evaluationNumber));
    if doc.pceId.Some? {
      HexFieldSolid(Ascii("pceId"), doc.pceId.value, 0);
    }
  }

  lemma LevelsSolid(doc: Document)
    requires doc.levels != []
    ensures AllSolid(Levels(doc) + [RBRACE])
  {
    hide AllSolid, Solid, Name, ListV1, ListV2, Ascii;
    MarksSolid();
    ListSolid(doc.levels);
    NameSolid(Ascii("tcbLevels"), COMMA, COMMA);
    AllSolidAppend(List(doc), [[CLOSE]]);
    AllSolidAppend([[OPEN]], List(doc) + [[CLOSE]]);
    AllSolidAppend(Name(Ascii("tcbLevels")), [[OPEN]] + (List(doc) + [[CLOSE]]));
    AllSolidAppend(Levels(doc), [RBRACE]);
  }

  lemma InfoSolid(doc: Document)
    requires doc.levels != []
    ensures AllSolid(Info(doc))
  {
    hide AllSolid, Header, PceId, Extra, Levels;
    HeaderSolid(doc);
    MiddleSolid(doc);
    LevelsSolid(doc);
    AllSolidAppend(Extra(doc), Levels(doc) + [RBRACE]);
    AllSolidAppend(PceId(doc), Extra(doc) + (Levels(doc) + [RBRACE]));
    AllSolidAppend(Header(doc), PceId(doc) + (Extra(doc) + (Levels(doc) + [RBRACE])));
  }

  lemma TextSolid(doc: Document)
    requires doc.levels != []
    ensures AllSolid(Text(doc))
  {
    hide AllSolid, Solid, Name, Info, Quoted, Ascii;
    MarksSolid();
    InfoSolid(doc);
    QuotedSolid(doc.signature);
    NameSolid(Ascii("tcbInfo"), COMMA, COMMA);
    NameSolid(Ascii("signature"), Quoted(doc.signature), RBRACE);
    AllSolidAppend([LBRACE], Name(Ascii("tcbInfo")));
    AllSolidAppend([COMMA], Name(Ascii("signature")) + ([Quoted(doc.signature)] + [RBRACE]));
    AllSolidAppend(Info(doc), Ending(doc));
    AllSolidAppend(Opening(), Info(doc) + Ending(doc));
  }

  /** The document without white space. */
  function Written(doc: Document): seq<byte>
    requires doc.levels != []
  {
    Flat(Text(doc))
  }

  lemma WrittenIsText(doc: Document)
    requires doc.levels != []
    ensures IsText(Written(doc), doc)
  {
    hide AllSolid, Spelled, After, Text, Flat;
    var buf := Written(doc);
    TextSolid(doc);
    FlatSpelled([], Text(doc));
    assert [] + buf == buf;
    SolidStart(Text(doc));
    assert SkipSpace(buf, 0) == 0;
  }

  /** Every document is read back from its printed form exactly when its levels can be skipped. */
  lemma PrintedAndParsed(doc: Document, platform: TcbLevel)
    requires Proper(doc)
    ensures IsText(Written(doc), doc)
    ensures Parsed(ParseTcbInfoJson(Written(doc), platform), doc, platform, Written(doc))
       <==> LevelsSkippable(doc, Undetermined(platform))
  {
    hide IsText, Proper, Parsed, LevelsSkippable, Written, ParseTcbInfoJson;
    SomeLevels(doc);
    WrittenIsText(doc);
    DocumentParsed(doc, platform, Written(doc));
  }

  // ----- hex text

  function DigitOf(v: nat): (c: byte)
    requires v < 16
    ensures HexDigit(c) == v && c != QUOTE && c != BACKSLASH
  {
    if v < 10 then '0' as int + v else 'a' as int + (v - 10)
  }

  function HexText(bs: seq<byte>): (t: seq<byte>)
    ensures |t| == 2 * |bs|
  {
    if bs == [] then []
    else HexText(bs[..|bs| - 1]) + [DigitOf(bs[|bs| - 1] / 16), DigitOf(bs[|bs| - 1] % 16)]
  }

  /** Bytes are read back from their hex text. */
  lemma {:induction false} HexRoundTrip(bs: seq<byte>)
    ensures IsHex(HexText(bs), |bs|) && HexBytes(HexText(bs)) == Some(bs)
  {
    if bs != [] {
      var n := |bs| - 1;
      HexRoundTrip(bs[..n]);
      var t := HexText(bs);
      assert t[..2 * n] == HexText(bs[..n]);
      assert HexByte(bs[n] / 16, bs[n] % 16) == bs[n];
      assert bs == bs[..n] + [bs[n]];
    }
  }
}
