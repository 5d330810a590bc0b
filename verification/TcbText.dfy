/** Text written to the schemas of common/sgx/tcbinfo.c, and what the readers make of it.

    A text is a list of tokens, with any white space behind each. Levels of both versions are
    read back, and the version 1 array of any levels is scanned completely. */
module TcbText {
  import opened Bytes
  import opened Results
  import opened Datetime
  import opened TcbJson
  import opened TcbLevels
  import opened TcbInfo

  // ----- tokens at a place in a document

  type Tokens = seq<seq<byte>>

  /** The tokens stand at `itr`, one after the other, with any white space behind each. */
  predicate Spelled(buf: seq<byte>, itr: nat, ts: Tokens)
    decreases |ts|
  {
    if ts == [] then itr <= |buf|
    else At(buf, itr, ts[0]) && Spelled(buf, SkipSpace(buf, itr + |ts[0]|), ts[1..])
  }

  /** The place behind the tokens and their white space. */
  function After(buf: seq<byte>, itr: nat, ts: Tokens): (p: nat)
    requires Spelled(buf, itr, ts)
    ensures itr <= p <= |buf|
    decreases |ts|
  {
    if ts == [] then itr else After(buf, SkipSpace(buf, itr + |ts[0]|), ts[1..])
  }

  lemma One(buf: seq<byte>, itr: nat, t: seq<byte>)
    ensures Spelled(buf, itr, [t]) <==> At(buf, itr, t)
    ensures At(buf, itr, t) ==> After(buf, itr, [t]) == SkipSpace(buf, itr + |t|)
  {
    assert [t][1..] == [];
  }

  lemma Nothing(buf: seq<byte>, itr: nat)
    ensures Spelled(buf, itr, []) <==> itr <= |buf|
    ensures itr <= |buf| ==> After(buf, itr, []) == itr
  {
  }

  /** Tokens can be cut anywhere. */
  lemma {:induction false} Cut(buf: seq<byte>, itr: nat, a: Tokens, b: Tokens)
    requires Spelled(buf, itr, a + b)
    ensures Spelled(buf, itr, a) && Spelled(buf, After(buf, itr, a), b)
    ensures After(buf, itr, a + b) == After(buf, After(buf, itr, a), b)
    decreases |a|
  {
    hide SkipSpace, At;
    if a == [] {
      assert a + b == b;
    } else {
      assert (a + b)[1..] == a[1..] + b;
      Cut(buf, SkipSpace(buf, itr + |a[0]|), a[1..], b);
    }
  }

  const LBRACE: seq<byte> := ['{' as int]
  const RBRACE: seq<byte> := ['}' as int]
  const COMMA: seq<byte> := [',' as int]
  const COLON: seq<byte> := [':' as int]

  function Quoted(s: seq<byte>): (t: seq<byte>)
    ensures |t| == |s| + 2
  {
    [QUOTE] + s + [QUOTE]
  }

  /** Text that can stand between quotes. */
  predicate Quotable(s: seq<byte>) {
    forall i :: 0 <= i < |s| ==> s[i] != QUOTE && s[i] != BACKSLASH
  }

  predicate NoBrackets(s: seq<byte>) {
    forall i :: 0 <= i < |s| ==> s[i] != OPEN && s[i] != CLOSE
  }

  /** Like the names of properties: quotable and without brackets. */
  predicate Plain(s: seq<byte>) {
    Quotable(s) && NoBrackets(s)
  }

  /** A property name with its colon. */
  function Name(s: seq<byte>): Tokens {
    [Quoted(s), COLON]
  }

  /** An integer literal. */
  function Number(v: nat): (t: seq<byte>)
    ensures t != [] && AllDigits(t)
  {
    if v < 10 then ['0' as int + v] else Number(v / 10) + ['0' as int + v % 10]
  }

  lemma {:induction false} NumberValue(v: nat)
    ensures FromDecimal(Number(v)) == v
  {
    if v < 10 {
      OneDigit('0' as int + v);
    } else {
      NumberValue(v / 10);
      var t := Number(v);
      assert t[..|t| - 1] == Number(v / 10);
    }
  }

  // ----- the readers on one token

  lemma CharAt(ch: byte, buf: seq<byte>, itr: nat)
    requires Spelled(buf, itr, [[ch]])
    ensures ReadChar(ch, buf, itr) == Success(After(buf, itr, [[ch]]))
  {
    One(buf, itr, [ch]);
    AtFirst(buf, itr, [ch]);
  }

  lemma {:induction false} StringEndExact(buf: seq<byte>, itr: nat, e: nat)
    requires itr <= e < |buf| && buf[e] == QUOTE
    requires forall k :: itr <= k < e ==> buf[k] != QUOTE && buf[k] != BACKSLASH
    ensures StringEnd(buf, itr) == e
    decreases e - itr
  {
    if itr < e {
      StringEndExact(buf, itr + 1, e);
    }
  }

  lemma StringAt(s: seq<byte>, buf: seq<byte>, itr: nat)
    requires Quotable(s) && Spelled(buf, itr, [Quoted(s)])
    ensures ReadString(buf, itr) == Success(Token(Span(itr + 1, itr + 1 + |s|), After(buf, itr, [Quoted(s)])))
    ensures itr + 1 + |s| <= |buf| && buf[itr + 1..itr + 1 + |s|] == s
  {
    hide Spelled, After;
    One(buf, itr, Quoted(s));
    QuotedAt(s, buf, itr);
    StringEndExact(buf, itr + 1, itr + 1 + |s|);
  }

  lemma QuotedAt(s: seq<byte>, buf: seq<byte>, itr: nat)
    requires Quotable(s) && At(buf, itr, Quoted(s))
    ensures itr + |s| + 2 <= |buf| && buf[itr] == QUOTE && buf[itr + 1 + |s|] == QUOTE
    ensures buf[itr + 1..itr + 1 + |s|] == s
    ensures forall k :: itr + 1 <= k < itr + 1 + |s| ==> buf[k] != QUOTE && buf[k] != BACKSLASH
  {
    var t := buf[itr..itr + |s| + 2];
    assert t[0] == buf[itr] && t[|s| + 1] == buf[itr + |s| + 1];
    assert t[1..1 + |s|] == buf[itr + 1..itr + 1 + |s|];
    forall k | itr + 1 <= k < itr + 1 + |s| ensures buf[k] == s[k - itr - 1] {
      assert buf[itr + 1..itr + 1 + |s|][k - itr - 1] == buf[k];
    }
  }

  /** A name is read exactly where it stands. */
  lemma NameAt(name: seq<byte>, other: seq<byte>, buf: seq<byte>, itr: nat)
    requires Quotable(other) && Spelled(buf, itr, Name(other))
    ensures ReadName(name, buf, itr)
         == if name == other then Success(After(buf, itr, Name(other))) else Failure(JSON_INFO_PARSE_ERROR)
  {
    hide Spelled, After, ReadString, ReadChar, Quoted;
    assert Name(other) == [Quoted(other)] + [COLON];
    Cut(buf, itr, [Quoted(other)], [COLON]);
    StringAt(other, buf, itr);
    CharAt(':' as int, buf, After(buf, itr, [Quoted(other)]));
  }

  /** Every integer below the limit is read back exactly, up to the token behind it. */
  lemma IntegerAt(v: nat, t: seq<byte>, buf: seq<byte>, itr: nat)
    requires v < 18446744073709551610 && t != [] && !IsDigit(t[0]) && Spelled(buf, itr, [Number(v)] + [t])
    ensures Spelled(buf, itr, [Number(v)]) && Spelled(buf, After(buf, itr, [Number(v)]), [t])
    ensures ReadInteger(buf, itr) == Success(Token(v, After(buf, itr, [Number(v)])))
  {
    hide Number, Spelled, After;
    Cut(buf, itr, [Number(v)], [t]);
    One(buf, itr, Number(v));
    var e := itr + |Number(v)|;
    One(buf, SkipSpace(buf, e), t);
    AtFirst(buf, SkipSpace(buf, e), t);
    assert !IsDigit(buf[e]);
    NumberValue(v);
    DigitsEndExact(buf, itr, e);
  }

  /** The integers in between fit in 64 bits and are refused all the same. */
  lemma LargestIntegersRefused(v: nat, buf: seq<byte>, itr: nat)
    requires 18446744073709551610 <= v < UINT64_LIMIT && At(buf, itr, Number(v))
    requires itr + |Number(v)| < |buf| ==> !IsDigit(buf[itr + |Number(v)|])
    ensures ReadInteger(buf, itr).Failure?
  {
    hide Number;
    NumberValue(v);
    DigitsEndExact(buf, itr, itr + |Number(v)|);
  }

  /** The characters that carry meaning, and the names of the component versions. */
  lemma Spelling()
    ensures QUOTE == '\"' as int && BACKSLASH == '\\' as int && OPEN == '[' as int && CLOSE == ']' as int
    ensures CompName(0) == Ascii("sgxtcbcomp01svn") && CompName(9) == Ascii("sgxtcbcomp10svn")
    ensures CompName(15) == Ascii("sgxtcbcomp16svn")
  {
    CompNumber(0, "01");
    CompNumber(9, "10");
    CompNumber(15, "16");
    assert "sgxtcbcomp" + "01" + "svn" == "sgxtcbcomp01svn";
    assert "sgxtcbcomp" + "10" + "svn" == "sgxtcbcomp10svn";
    assert "sgxtcbcomp" + "16" + "svn" == "sgxtcbcomp16svn";
  }

  lemma CompNumber(i: nat, n: string)
    requires |n| == 2 && n[0] as int == '0' as int + (i + 1) / 10 % 10 && n[1] as int == '0' as int + (i + 1) % 10
    ensures CompName(i) == Ascii("sgxtcbcomp" + n + "svn")
  {
    var d := Decimal(i + 1, 2);
    assert DecimalDigit(i + 1, 1) == DecimalDigit((i + 1) / 10, 0);
    assert d[0] == n[0] as int && d[1] == n[1] as int;
    assert d == Ascii(n);
    AsciiAppend("sgxtcbcomp", n);
    AsciiAppend("sgxtcbcomp" + n, "svn");
  }

  lemma AsciiAppend(a: string, b: string)
    ensures Ascii(a + b) == Ascii(a) + Ascii(b)
  {
  }

  /** Seven-bit characters stand for themselves. */
  lemma AsciiCodes(s: string)
    requires forall i :: 0 <= i < |s| ==> s[i] as int < 128
    ensures |Ascii(s)| == |s| && forall i :: 0 <= i < |s| ==> Ascii(s)[i] == s[i] as int
  {
  }

  // ----- levels

  /** A level as a document gives it. */
  datatype LevelText = LevelText(compSvn: CompSvn, pceSvn: nat, status: seq<byte>, date: Date, advisories: Option<seq<byte>>)

  predicate NoClose(s: seq<byte>) {
    forall i :: 0 <= i < |s| ==> s[i] != CLOSE
  }

  predicate Printable(d: Date) {
    IsValid(d) && d.year <= 9999
  }

  /** A level that version 1 can write: a 16-bit PCE version and a quotable status. */
  predicate WritableV1(d: LevelText) {
    d.pceSvn < UINT16_LIMIT && Quotable(d.status)
  }

  /** In version 2 also a printable date, and advisory identifiers up to a closing bracket. */
  predicate WritableV2(d: LevelText) {
    WritableV1(d) && Printable(d.date) && (d.advisories.Some? ==> NoClose(d.advisories.value))
  }

  predicate AllWritableV1(ds: seq<LevelText>) {
    forall i :: 0 <= i < |ds| ==> WritableV1(ds[i])
  }

  predicate AllWritableV2(ds: seq<LevelText>) {
    forall i :: 0 <= i < |ds| ==> WritableV2(ds[i])
  }

  function Comp(i: nat, v: byte): Tokens {
    Name(CompName(i)) + ([Number(v)] + [COMMA])
  }

  function Comps(svn: CompSvn, n: nat): Tokens
    requires n <= NUM_COMPS
  {
    if n == 0 then [] else Comps(svn, n - 1) + Comp(n - 1, svn[n - 1])
  }

  function Tcb(d: LevelText): Tokens {
    [LBRACE] + (Comps(d.compSvn, NUM_COMPS) + (Name(Ascii("pcesvn")) + ([Number(d.pceSvn)] + [RBRACE])))
  }

  function LevelHead(d: LevelText): Tokens {
    [LBRACE] + (Name(Ascii("tcb")) + (Tcb(d) + [COMMA]))
  }

  function StatusField(name: seq<byte>, status: seq<byte>): Tokens {
    Name(name) + [Quoted(status)]
  }

  function DateField(name: seq<byte>, date: Date): Tokens {
    Name(name) + ([Quoted(Print(date))] + [COMMA])
  }

  function LevelV1(d: LevelText): Tokens {
    LevelHead(d) + (StatusField(Ascii("status"), d.status) + [RBRACE])
  }

  function Bracketed(ids: seq<byte>): seq<byte> {
    [OPEN] + (ids + [CLOSE])
  }

  /** The advisory identifiers, if any, with the comma before them. */
  function Advisories(d: LevelText): Tokens {
    if d.advisories.None? then [] else [COMMA] + (Name(Ascii("advisoryIDs")) + [Bracketed(d.advisories.value)])
  }

  function LevelV2(d: LevelText): Tokens {
    LevelHead(d)
    + (DateField(Ascii("tcbDate"), d.date) + (StatusField(Ascii("tcbStatus"), d.status) + (Advisories(d) + [RBRACE])))
  }

  predicate PlainText(s: string) {
    forall i :: 0 <= i < |s| ==> s[i] <= 'z' && s[i] != '"' && s[i] != '\\' && s[i] != '[' && s[i] != ']'
  }

  lemma PlainAscii(s: string)
    requires PlainText(s)
    ensures Plain(Ascii(s))
  {
    forall i | 0 <= i < |s| ensures Ascii(s)[i] == s[i] as int {
      assert s[i] as int <= 122;
    }
  }

  lemma PlainCompName(i: nat)
    ensures Plain(CompName(i))
  {
    hide Ascii, Decimal;
    PlainAscii("sgxtcbcomp");
    PlainAscii("svn");
    var b := Decimal(i + 1, 2);
    DecimalHasDigits(i + 1, 2);
    forall k | 0 <= k < |b| ensures b[k] != QUOTE && b[k] != BACKSLASH && b[k] != OPEN && b[k] != CLOSE {
      assert IsDigit(b[k]);
    }
  }

  lemma CompAt(i: nat, v: byte, buf: seq<byte>, itr: nat)
    requires Spelled(buf, itr, Comp(i, v))
    ensures ReadComp(buf, itr, i) == Success(Token(v, After(buf, itr, Comp(i, v))))
  {
    hide Spelled, After, Name, Number, CompName, ReadName, ReadInteger, ReadChar;
    PlainCompName(i);
    Cut(buf, itr, Name(CompName(i)), [Number(v)] + [COMMA]);
    NameAt(CompName(i), CompName(i), buf, itr);
    var p := After(buf, itr, Name(CompName(i)));
    Cut(buf, p, [Number(v)], [COMMA]);
    IntegerAt(v, COMMA, buf, p);
    CharAt(',' as int, buf, After(buf, p, [Number(v)]));
  }

  lemma {:induction false} CompsAt(svn: CompSvn, n: nat, buf: seq<byte>, itr: nat)
    requires n <= NUM_COMPS && Spelled(buf, itr, Comps(svn, n))
    ensures ReadComps(buf, itr, n) == Success(Token(svn[..n], After(buf, itr, Comps(svn, n))))
    decreases n
  {
    hide Comp, ReadComp, Spelled, After;
    if n == 0 {
      Nothing(buf, itr);
    } else {
      Cut(buf, itr, Comps(svn, n - 1), Comp(n - 1, svn[n - 1]));
      CompsAt(svn, n - 1, buf, itr);
      CompAt(n - 1, svn[n - 1], buf, After(buf, itr, Comps(svn, n - 1)));
      assert svn[..n] == svn[..n - 1] + [svn[n - 1]];
    }
  }

  /** The "tcb" object is read back exactly when its PCE version has 16 bits, and otherwise refused. */
  lemma TcbAt(d: LevelText, buf: seq<byte>, itr: nat)
    requires d.pceSvn < INTEGER_LIMIT && Spelled(buf, itr, Tcb(d))
    ensures ReadTcb(buf, itr) ==
            if d.pceSvn <= 65535 then Success(Token((d.compSvn, d.pceSvn), After(buf, itr, Tcb(d))))
            else Failure(JSON_INFO_PARSE_ERROR)
  {
    hide Spelled, After, Name, Number, Comps, ReadComps, ReadName, ReadInteger, ReadChar, Ascii;
    PlainAscii("pcesvn");
    var comps, name, last := Comps(d.compSvn, NUM_COMPS), Name(Ascii("pcesvn")), [Number(d.pceSvn)] + [RBRACE];
    Cut(buf, itr, [LBRACE], comps + (name + last));
    CharAt('{' as int, buf, itr);
    var p := After(buf, itr, [LBRACE]);
    Cut(buf, p, comps, name + last);
    CompsAt(d.compSvn, NUM_COMPS, buf, p);
    assert d.compSvn[..NUM_COMPS] == d.compSvn;
    var q := After(buf, p, comps);
    Cut(buf, q, name, last);
    NameAt(Ascii("pcesvn"), Ascii("pcesvn"), buf, q);
    var v := After(buf, q, name);
    Cut(buf, v, [Number(d.pceSvn)], [RBRACE]);
    IntegerAt(d.pceSvn, RBRACE, buf, v);
    CharAt('}' as int, buf, After(buf, v, [Number(d.pceSvn)]));
  }

  /** The level of the text, as far as the scans look at it. */
  function LevelOf(d: LevelText): TcbLevel {
    TcbLevel(d.compSvn, d.pceSvn, ParseTcbStatus(d.status), d.date, 0, 0)
  }

  /** What a version 1 reader makes of it: there is no date and no advisory. */
  function ReadOffV1(d: LevelText): TcbLevel {
    TcbLevel(d.compSvn, d.pceSvn, ParseTcbStatus(d.status), Date(0, 0, 0, 0, 0, 0), 0, 0)
  }

  /** Levels that the scans cannot tell apart, but for the date in version 1. */
  predicate SameLevel(a: TcbLevel, b: TcbLevel) {
    a.compSvn == b.compSvn && a.pceSvn == b.pceSvn && a.status == b.status
  }

  lemma SameReadOff(d: LevelText)
    ensures SameLevel(ReadOffV1(d), LevelOf(d))
  {
    hide ParseTcbStatus;
  }

  lemma HeadAt(d: LevelText, buf: seq<byte>, itr: nat)
    requires d.pceSvn < UINT16_LIMIT && Spelled(buf, itr, LevelHead(d))
    ensures ReadLevelHead(buf, itr) == Success(Token((d.compSvn, d.pceSvn), After(buf, itr, LevelHead(d))))
  {
    hide Spelled, After, Name, Tcb, ReadTcb, ReadName, ReadChar, Ascii;
    PlainAscii("tcb");
    var name, tcb := Name(Ascii("tcb")), Tcb(d);
    Cut(buf, itr, [LBRACE], name + (tcb + [COMMA]));
    CharAt('{' as int, buf, itr);
    var p := After(buf, itr, [LBRACE]);
    Cut(buf, p, name, tcb + [COMMA]);
    NameAt(Ascii("tcb"), Ascii("tcb"), buf, p);
    var q := After(buf, p, name);
    Cut(buf, q, tcb, [COMMA]);
    TcbAt(d, buf, q);
    CharAt(',' as int, buf, After(buf, q, tcb));
  }

  lemma StatusFieldAt(name: seq<byte>, status: seq<byte>, buf: seq<byte>, itr: nat)
    requires Quotable(name) && Quotable(status) && Spelled(buf, itr, StatusField(name, status))
    ensures ReadStatusField(name, buf, itr)
         == Success(Token(ParseTcbStatus(status), After(buf, itr, StatusField(name, status))))
  {
    hide Spelled, After, Name, Quoted, ReadName, ReadString, ParseTcbStatus;
    Cut(buf, itr, Name(name), [Quoted(status)]);
    NameAt(name, name, buf, itr);
    StringAt(status, buf, After(buf, itr, Name(name)));
  }

  lemma LevelV1At(d: LevelText, buf: seq<byte>, itr: nat)
    requires WritableV1(d) && Spelled(buf, itr, LevelV1(d))
    ensures var r := ReadLevelV1(buf, itr);
            r.Success? && r.value.next == After(buf, itr, LevelV1(d)) && r.value.value == ReadOffV1(d)
  {
    hide Spelled, After, LevelHead, StatusField, ReadLevelHead, ReadStatusField, ReadChar, ParseTcbStatus, Ascii;
    PlainAscii("status");
    var head, status := LevelHead(d), StatusField(Ascii("status"), d.status);
    Cut(buf, itr, head, status + [RBRACE]);
    HeadAt(d, buf, itr);
    var p := After(buf, itr, head);
    Cut(buf, p, status, [RBRACE]);
    StatusFieldAt(Ascii("status"), d.status, buf, p);
    CharAt('}' as int, buf, After(buf, p, status));
  }

  lemma PlainDate(d: Date)
    ensures Plain(Print(d))
  {
    hide Decimal, Print;
    PrintHasDigits(d);
    PrintedFields(d);
    var s := Print(d);
    forall k | 0 <= k < 20 ensures s[k] != QUOTE && s[k] != BACKSLASH && s[k] != OPEN && s[k] != CLOSE {
      assert k < 4 ==> IsDigit(s[0..4][k]);
      assert 5 <= k < 7 ==> IsDigit(s[5..7][k - 5]);
      assert 8 <= k < 10 ==> IsDigit(s[8..10][k - 8]);
      assert 11 <= k < 13 ==> IsDigit(s[11..13][k - 11]);
      assert 14 <= k < 16 ==> IsDigit(s[14..16][k - 14]);
      assert 17 <= k < 19 ==> IsDigit(s[17..19][k - 17]);
    }
  }

  lemma DateFieldAt(name: seq<byte>, date: Date, buf: seq<byte>, itr: nat)
    requires Quotable(name) && Printable(date) && Spelled(buf, itr, DateField(name, date))
    ensures ReadDateField(name, buf, itr) == Success(Token(date, After(buf, itr, DateField(name, date))))
  {
    hide Spelled, After, Name, Quoted, Print, Parse, IsValid, ReadName, ReadString, ReadChar;
    PlainDate(date);
    Cut(buf, itr, Name(name), [Quoted(Print(date))] + [COMMA]);
    NameAt(name, name, buf, itr);
    var p := After(buf, itr, Name(name));
    Cut(buf, p, [Quoted(Print(date))], [COMMA]);
    StringAt(Print(date), buf, p);
    ParseUndoesPrint(date, []);
    assert Print(date) + [] == Print(date);
    CharAt(',' as int, buf, After(buf, p, [Quoted(Print(date))]));
  }

  /** The list is taken to end at its first closing bracket. White space behind the opening one
      is skipped, but not past a closing bracket. */
  lemma BracketAt(ids: seq<byte>, buf: seq<byte>, q: nat)
    requires At(buf, q, Bracketed(ids))
    ensures q + 1 + |ids| < |buf| && buf[q + 1 + |ids|] == CLOSE && ReadChar(OPEN, buf, q).Success?
    ensures NextClose(buf, ReadChar(OPEN, buf, q).value) <= q + 1 + |ids|
    ensures NextClose(buf, ReadChar(OPEN, buf, q).value) == q + 1 + |ids| <==> NoClose(ids)
  {
    hide NextClose;
    var e := q + 1 + |ids|;
    BracketsAt(ids, buf, q);
    var start := SkipSpace(buf, q + 1);
    assert !IsSpace(buf[e]) && start <= e;
    hide SkipSpace, At;
    if !NoClose(ids) {
      var j :| 0 <= j < |ids| && ids[j] == CLOSE;
      assert buf[q + 1 + j] == CLOSE && !IsSpace(CLOSE);
    }
  }

  lemma BracketsAt(ids: seq<byte>, buf: seq<byte>, q: nat)
    requires At(buf, q, Bracketed(ids))
    ensures q + 1 + |ids| < |buf| && buf[q] == OPEN && buf[q + 1 + |ids|] == CLOSE
    ensures forall k :: q + 1 <= k < q + 1 + |ids| ==> buf[k] == ids[k - q - 1]
  {
    var t := Bracketed(ids);
    assert t[0] == OPEN && t[|ids| + 1] == CLOSE;
    assert buf[q..q + |t|][0] == buf[q] && buf[q..q + |t|][|ids| + 1] == buf[q + 1 + |ids|];
    forall k | q + 1 <= k < q + 1 + |ids| ensures buf[k] == ids[k - q - 1] {
      assert buf[q..q + |t|][k - q] == buf[k];
    }
  }

  /** No two closing brackets have the same white space behind them. */
  lemma BehindCloses(buf: seq<byte>, a: nat, b: nat)
    requires AtClose(buf, a) && AtClose(buf, b)
    ensures ReadChar(CLOSE, buf, a).Success? && ReadChar(CLOSE, buf, b) == Success(SkipSpace(buf, b + 1))
    ensures ReadChar(CLOSE, buf, a) == ReadChar(CLOSE, buf, b) ==> a == b
  {
  }

  lemma SpaceInside(ids: seq<byte>, buf: seq<byte>, q: nat)
    requires At(buf, q, Bracketed(ids))
    ensures q + 1 + |ids| <= |buf| && SkipSpace(buf, q + 1) == q + 1 + SkipSpace(ids, 0)
  {
    hide SkipSpace, At;
    BracketsAt(ids, buf, q);
    var s := SkipSpace(ids, 0);
    forall k | q + 1 <= k < q + 1 + s ensures IsSpace(buf[k]) {
      assert buf[k] == ids[k - q - 1];
    }
    assert s < |ids| ==> buf[q + 1 + s] == ids[s];
    assert !IsSpace(CLOSE);
    SkipsTo(buf, q + 1, q + 1 + s);
  }

  lemma {:induction false} SkipsTo(buf: seq<byte>, itr: nat, p: nat)
    requires itr <= p < |buf| && (forall k :: itr <= k < p ==> IsSpace(buf[k])) && !IsSpace(buf[p])
    ensures SkipSpace(buf, itr) == p
    decreases p - itr
  {
    if itr < p {
      SkipsTo(buf, itr + 1, p);
    }
  }

  /** What a level keeps of the advisory identifiers: the stretch of the document that holds them,
      without the white space in front; without any, what the level before it kept. */
  predicate Kept(stretch: (nat, nat), d: LevelText, buf: seq<byte>, previous: TcbLevel) {
    if d.advisories.None? then stretch == (previous.advisoryOffset, previous.advisorySize)
    else && stretch.0 + stretch.1 <= |buf|
         && buf[stretch.0..stretch.0 + stretch.1] == d.advisories.value[SkipSpace(d.advisories.value, 0)..]
  }

  lemma KeptAt(ids: seq<byte>, buf: seq<byte>, q: nat)
    requires At(buf, q, Bracketed(ids)) && NoClose(ids)
    ensures var start := SkipSpace(buf, q + 1);
            start <= q + 1 + |ids| <= |buf| && buf[start..q + 1 + |ids|] == ids[SkipSpace(ids, 0)..]
  {
    hide SkipSpace, At;
    SpaceInside(ids, buf, q);
    BracketsAt(ids, buf, q);
    var start, s := SkipSpace(buf, q + 1), SkipSpace(ids, 0);
    var read, kept := buf[start..q + 1 + |ids|], ids[s..];
    forall i | 0 <= i < |kept| ensures read[i] == kept[i] {
      assert buf[start + i] == ids[s + i];
    }
  }

  /** The optional advisory identifiers; where they are not there a brace stands. */
  lemma AdvisoriesAt(d: LevelText, buf: seq<byte>, itr: nat, previous: TcbLevel)
    requires d.advisories.Some? ==> NoClose(d.advisories.value)
    requires Spelled(buf, itr, Advisories(d) + [RBRACE])
    ensures Spelled(buf, itr, Advisories(d)) && Spelled(buf, After(buf, itr, Advisories(d)), [RBRACE])
    ensures var r := ReadAdvisories(buf, itr, previous);
            r.Success? && r.value.next == After(buf, itr, Advisories(d)) && Kept(r.value.value, d, buf, previous)
  {
    hide Name, ReadName, Spelled, After, ReadChar, SkipSpace;
    Cut(buf, itr, Advisories(d), [RBRACE]);
    if d.advisories.None? {
      assert [] + [RBRACE] == [RBRACE];
      NoComma(buf, itr);
    } else {
      IdsAt(d.advisories.value, buf, itr, previous);
    }
  }

  lemma NoComma(buf: seq<byte>, itr: nat)
    requires Spelled(buf, itr, [] + [RBRACE])
    ensures itr <= |buf| && ReadChar(',' as int, buf, itr).Failure? && Spelled(buf, itr, []) && After(buf, itr, []) == itr
  {
    Nothing(buf, itr);
    assert [] + [RBRACE] == [RBRACE];
    One(buf, itr, RBRACE);
    AtFirst(buf, itr, RBRACE);
  }

  /** The advisory identifiers are read whole exactly when there is no closing bracket in them. */
  lemma IdsAt(ids: seq<byte>, buf: seq<byte>, itr: nat, previous: TcbLevel)
    requires Spelled(buf, itr, [COMMA] + (Name(Ascii("advisoryIDs")) + [Bracketed(ids)]))
    ensures var r := ReadAdvisories(buf, itr, previous);
            && r.Success?
            && (r.value.next == After(buf, itr, [COMMA] + (Name(Ascii("advisoryIDs")) + [Bracketed(ids)])) <==> NoClose(ids))
            && (NoClose(ids) ==>
                  && r.value.value.0 + r.value.value.1 <= |buf|
                  && buf[r.value.value.0..r.value.value.0 + r.value.value.1] == ids[SkipSpace(ids, 0)..])
  {
    hide Name, ReadName, Spelled, After, Ascii, NextClose, NoClose, SkipSpace;
    PlainAscii("advisoryIDs");
    var name := Name(Ascii("advisoryIDs"));
    Cut(buf, itr, [COMMA], name + [Bracketed(ids)]);
    CharAt(',' as int, buf, itr);
    var p := After(buf, itr, [COMMA]);
    Cut(buf, p, name, [Bracketed(ids)]);
    NameAt(Ascii("advisoryIDs"), Ascii("advisoryIDs"), buf, p);
    var q := After(buf, p, name);
    One(buf, q, Bracketed(ids));
    BracketAt(ids, buf, q);
    BehindCloses(buf, NextClose(buf, ReadChar(OPEN, buf, q).value), q + 1 + |ids|);
    if NoClose(ids) {
      KeptAt(ids, buf, q);
    }
  }

  lemma LevelV2At(d: LevelText, buf: seq<byte>, itr: nat, previous: TcbLevel)
    requires WritableV2(d) && Spelled(buf, itr, LevelV2(d))
    ensures var r := ReadLevelV2(buf, itr, previous);
            && r.Success? && r.value.next == After(buf, itr, LevelV2(d))
            && SameLevel(r.value.value, LevelOf(d)) && r.value.value.tcbDate == d.date
            && Kept((r.value.value.advisoryOffset, r.value.value.advisorySize), d, buf, previous)
  {
    hide Spelled, After, LevelHead, DateField, StatusField, Advisories, ReadLevelHead, ReadDateField, IsValid, Kept,
      ReadStatusField, ReadAdvisories, ReadChar, ParseTcbStatus, Ascii;
    PlainAscii("tcbStatus");
    PlainAscii("tcbDate");
    var head, date := LevelHead(d), DateField(Ascii("tcbDate"), d.date);
    var status, tail := StatusField(Ascii("tcbStatus"), d.status), Advisories(d) + [RBRACE];
    Cut(buf, itr, head, date + (status + tail));
    HeadAt(d, buf, itr);
    var p := After(buf, itr, head);
    Cut(buf, p, date, status + tail);
    DateFieldAt(Ascii("tcbDate"), d.date, buf, p);
    var q := After(buf, p, date);
    Cut(buf, q, status, tail);
    StatusFieldAt(Ascii("tcbStatus"), d.status, buf, q);
    var s := After(buf, q, status);
    Cut(buf, s, Advisories(d), [RBRACE]);
    AdvisoriesAt(d, buf, s, previous);
    CharAt('}' as int, buf, After(buf, s, Advisories(d)));
  }

  // ----- arrays of levels

  /** The levels with commas between them. */
  function ListV1(ds: seq<LevelText>): Tokens
    requires ds != []
  {
    if |ds| == 1 then LevelV1(ds[0]) else LevelV1(ds[0]) + ([COMMA] + ListV1(ds[1..]))
  }

  function LevelsOf(ds: seq<LevelText>): (ls: seq<TcbLevel>)
    ensures |ls| == |ds|
  {
    seq(|ds|, i requires 0 <= i < |ds| => LevelOf(ds[i]))
  }

  lemma LevelsOfFirst(ds: seq<LevelText>)
    requires ds != []
    ensures LevelsOf(ds) == [LevelOf(ds[0])] + LevelsOf(ds[1..])
  {
  }

  /** At a closing bracket, and not at a comma. */
  lemma CloseAt(buf: seq<byte>, itr: nat)
    requires Spelled(buf, itr, [[CLOSE]])
    ensures AtClose(buf, itr)
  {
    One(buf, itr, [CLOSE]);
    AtFirst(buf, itr, [CLOSE]);
  }

  lemma CommaAt(buf: seq<byte>, itr: nat)
    requires Spelled(buf, itr, [COMMA])
    ensures !AtClose(buf, itr) && ReadChar(',' as int, buf, itr) == Success(After(buf, itr, [COMMA]))
  {
    One(buf, itr, COMMA);
    AtFirst(buf, itr, COMMA);
  }

  /** The version 1 reader, on the version 1 text of a list, scans that list. */
  lemma {:induction false} ArrayV1At(ds: seq<LevelText>, buf: seq<byte>, itr: nat, platform: TcbLevel)
    requires ds != [] && AllWritableV1(ds) && Spelled(buf, itr, ListV1(ds) + [[CLOSE]])
    ensures Spelled(buf, itr, ListV1(ds)) && Spelled(buf, After(buf, itr, ListV1(ds)), [[CLOSE]])
    ensures var r := ReadLevelsV1(buf, itr, platform);
            && r.Success? && r.value.next == After(buf, itr, ListV1(ds))
            && r.value.value.0 == ScanAll(platform, LevelsOf(ds)) && r.value.value.1 == ReadOffV1(ds[|ds| - 1])
    decreases |ds|
  {
    hide Spelled, After, LevelV1, WritableV1, LevelOf, ReadOffV1, ReadLevelV1, LevelsOf, ReadChar;
    Cut(buf, itr, ListV1(ds), [[CLOSE]]);
    assert WritableV1(ds[0]);
    LevelsOfFirst(ds);
    var level := LevelV1(ds[0]);
    var considered := Consider(platform, LevelOf(ds[0]));
    assert SameLevel(ReadOffV1(ds[0]), LevelOf(ds[0])) by { SameReadOff(ds[0]); }
    if |ds| == 1 {
      LevelV1At(ds[0], buf, itr);
      CloseAt(buf, After(buf, itr, level));
      assert ScanAll(considered, LevelsOf(ds[1..])) == considered;
    } else {
      var rest := ListV1(ds[1..]);
      assert ListV1(ds) + [[CLOSE]] == level + ([COMMA] + (rest + [[CLOSE]]));
      Cut(buf, itr, level, [COMMA] + rest);
      LevelV1At(ds[0], buf, itr);
      var p := After(buf, itr, level);
      Cut(buf, itr, level, [COMMA] + (rest + [[CLOSE]]));
      Cut(buf, p, [COMMA], rest + [[CLOSE]]);
      Cut(buf, p, [COMMA], rest);
      CommaAt(buf, p);
      assert AllWritableV1(ds[1..]);
      ArrayV1At(ds[1..], buf, After(buf, p, [COMMA]), considered);
    }
  }
}
