/** The TCB info document (common/sgx/tcbinfo.c): its levels, its signed part and its verdict.

    Straight-line readers are functions over the readers of TcbJson; the loops over
    component versions, advisory identifiers and levels are methods proved against
    functions. */
module TcbInfo {
  import opened Bytes
  import opened Results
  import opened Datetime
  import opened TcbJson
  import opened TcbLevels

  // ----- one level

  function CompName(i: nat): seq<byte> {
    Ascii("sgxtcbcomp") + Decimal(i + 1, 2) + Ascii("svn")
  }

  /** One component version and its comma. */
  function ReadComp(buf: seq<byte>, itr: nat, i: nat): (r: Read<byte>)
    requires itr <= |buf|
    ensures r.Success? ==> itr < r.value.next <= |buf|
    ensures r.Failure? ==> r.error == JSON_INFO_PARSE_ERROR
  {
    var p :- ReadName(CompName(i), buf, itr);
    var v :- ReadInteger(buf, p);
    var q :- ReadChar(',' as int, buf, v.next);
    if v.value > 255 then Failure(JSON_INFO_PARSE_ERROR) else Success(Token(v.value, q))
  }

  /** The first `n` component versions. */
  function ReadComps(buf: seq<byte>, itr: nat, n: nat): (r: Read<seq<byte>>)
    requires itr <= |buf|
    ensures r.Success? ==> itr <= r.value.next <= |buf| && |r.value.value| == n
    ensures r.Failure? ==> r.error == JSON_INFO_PARSE_ERROR
  {
    if n == 0 then Success(Token([], itr))
    else
      var init :- ReadComps(buf, itr, n - 1);
      var last :- ReadComp(buf, init.next, n - 1);
      Success(Token(init.value + [last.value], last.next))
  }

  method ScanComps(buf: seq<byte>, itr: nat) returns (r: Read<seq<byte>>)
    requires itr <= |buf|
    ensures r == ReadComps(buf, itr, NUM_COMPS)
  {
    hide ReadComp;
    var p: nat := itr;
    var comps: seq<byte> := [];
    var i := 0;
    while i < NUM_COMPS
      invariant i <= NUM_COMPS && p <= |buf|
      invariant ReadComps(buf, itr, i) == Success(Token(comps, p))
    {
      var c := ReadComp(buf, p, i);
      if c.Failure? {
        CompsFail(buf, itr, i + 1, NUM_COMPS);
        return Failure(JSON_INFO_PARSE_ERROR);
      }
      comps, p := comps + [c.value.value], c.value.next;
      i := i + 1;
    }
    return Success(Token(comps, p));
  }

  lemma {:induction false} CompsFail(buf: seq<byte>, itr: nat, k: nat, n: nat)
    requires itr <= |buf| && k <= n && ReadComps(buf, itr, k).Failure?
    ensures ReadComps(buf, itr, n).Failure?
    decreases n
  {
    hide ReadComp;
    if k < n {
      CompsFail(buf, itr, k, n - 1);
    }
  }

  /** The "tcb" object: sixteen component versions and the PCE version. */
  function ReadTcb(buf: seq<byte>, itr: nat): (r: Read<(CompSvn, nat)>)
    requires itr <= |buf|
    ensures r.Success? ==> itr < r.value.next <= |buf|
    ensures r.Failure? ==> r.error == JSON_INFO_PARSE_ERROR
  {
    var p :- ReadChar('{' as int, buf, itr);
    var comps :- ReadComps(buf, p, NUM_COMPS);
    var q :- ReadName(Ascii("pcesvn"), buf, comps.next);
    var v :- ReadInteger(buf, q);
    var next :- ReadChar('}' as int, buf, v.next);
    if v.value >= UINT16_LIMIT then Failure(JSON_INFO_PARSE_ERROR)
    else Success(Token((comps.value, v.value), next))
  }

  function ReadDate(buf: seq<byte>, itr: nat): (r: Read<Date>)
    requires itr <= |buf|
    ensures r.Success? ==> itr < r.value.next <= |buf|
    ensures r.Failure? ==> r.error == JSON_INFO_PARSE_ERROR
  {
    var s :- ReadString(buf, itr);
    var d := Parse(buf[s.value.start..s.value.end]);
    if d.Failure? then Failure(JSON_INFO_PARSE_ERROR) else Success(Token(d.value, s.next))
  }

  function ReadStatus(buf: seq<byte>, itr: nat): (r: Read<TcbStatus>)
    requires itr <= |buf|
    ensures r.Success? ==> itr < r.value.next <= |buf|
    ensures r.Failure? ==> r.error == JSON_INFO_PARSE_ERROR
  {
    var s :- ReadString(buf, itr);
    Success(Token(ParseTcbStatus(buf[s.value.start..s.value.end]), s.next))
  }

  /** A date property and its comma. */
  function ReadDateField(name: seq<byte>, buf: seq<byte>, itr: nat): (r: Read<Date>)
    requires itr <= |buf|
    ensures r.Success? ==> itr < r.value.next <= |buf|
    ensures r.Failure? ==> r.error == JSON_INFO_PARSE_ERROR
  {
    hide ReadName, ReadDate, ReadChar;
    var a :- ReadName(name, buf, itr);
    var d :- ReadDate(buf, a);
    var next :- ReadChar(',' as int, buf, d.next);
    Success(Token(d.value, next))
  }

  /** What a level starts with, in both versions: its "tcb" object and a comma. */
  function ReadLevelHead(buf: seq<byte>, itr: nat): (r: Read<(CompSvn, nat)>)
    requires itr <= |buf|
    ensures r.Success? ==> itr < r.value.next <= |buf|
    ensures r.Failure? ==> r.error == JSON_INFO_PARSE_ERROR
  {
    var p :- ReadChar('{' as int, buf, itr);
    var q :- ReadName(Ascii("tcb"), buf, p);
    var tcb :- ReadTcb(buf, q);
    var next :- ReadChar(',' as int, buf, tcb.next);
    Success(Token(tcb.value, next))
  }

  /** A status property. */
  function ReadStatusField(name: seq<byte>, buf: seq<byte>, itr: nat): (r: Read<TcbStatus>)
    requires itr <= |buf|
    ensures r.Success? ==> itr < r.value.next <= |buf|
    ensures r.Failure? ==> r.error == JSON_INFO_PARSE_ERROR
  {
    var p :- ReadName(name, buf, itr);
    ReadStatus(buf, p)
  }

  /** A level of a version 1 document. */
  function ReadLevelV1(buf: seq<byte>, itr: nat): (r: Read<TcbLevel>)
    requires itr <= |buf|
    ensures r.Success? ==> itr < r.value.next <= |buf|
    ensures r.Failure? ==> r.error == JSON_INFO_PARSE_ERROR
  {
    hide ReadLevelHead, ReadStatusField, ReadChar;
    var tcb :- ReadLevelHead(buf, itr);
    var status :- ReadStatusField(Ascii("status"), buf, tcb.next);
    var next :- ReadChar('}' as int, buf, status.next);
    Success(Token(TcbLevel(tcb.value.0, tcb.value.1, status.value, ZERO, 0, 0), next))
  }

  /** The first closing bracket at or after the cursor, or the end. */
  function NextClose(buf: seq<byte>, itr: nat): (p: nat)
    requires itr <= |buf|
    ensures itr <= p <= |buf|
    ensures forall k :: itr <= k < p ==> buf[k] != CLOSE
    ensures p < |buf| ==> buf[p] == CLOSE
    decreases |buf| - itr
  {
    if itr < |buf| && buf[itr] != CLOSE then NextClose(buf, itr + 1) else itr
  }

  method ScanToClose(buf: seq<byte>, itr: nat) returns (p: nat, size: nat)
    requires itr <= |buf|
    ensures p == NextClose(buf, itr) && size == p - itr
  {
    p, size := itr, 0;
    while p < |buf| && buf[p] != CLOSE
      invariant itr <= p <= |buf| && size == p - itr
      invariant NextClose(buf, p) == NextClose(buf, itr)
    {
      p := p + 1;
      size := size + 1;
    }
  }

  /** The optional advisory identifiers; without them the previous level's stay in place. */
  function ReadAdvisories(buf: seq<byte>, itr: nat, previous: TcbLevel): (r: Read<(nat, nat)>)
    requires itr <= |buf|
    ensures r.Success? ==> itr <= r.value.next <= |buf|
    ensures r.Failure? ==> r.error == JSON_INFO_PARSE_ERROR
  {
    var comma := ReadChar(',' as int, buf, itr);
    if comma.Failure? then Success(Token((previous.advisoryOffset, previous.advisorySize), itr))
    else
      var p :- ReadName(Ascii("advisoryIDs"), buf, comma.value);
      var q :- ReadChar(OPEN, buf, p);
      var e := NextClose(buf, q);
      var next :- ReadChar(CLOSE, buf, e);
      var size: nat := e - q;
      Success(Token((q, size), next))
  }

  /** A level of a version 2 document. */
  function ReadLevelV2(buf: seq<byte>, itr: nat, previous: TcbLevel): (r: Read<TcbLevel>)
    requires itr <= |buf|
    ensures r.Success? ==> itr < r.value.next <= |buf|
    ensures r.Failure? ==> r.error == JSON_INFO_PARSE_ERROR
  {
    hide ReadLevelHead, ReadDateField, ReadStatusField, ReadAdvisories, ReadChar;
    var tcb :- ReadLevelHead(buf, itr);
    var date :- ReadDateField(Ascii("tcbDate"), buf, tcb.next);
    var status :- ReadStatusField(Ascii("tcbStatus"), buf, date.next);
    var advisories :- ReadAdvisories(buf, status.next, previous);
    var next :- ReadChar('}' as int, buf, advisories.next);
    Success(Token(TcbLevel(tcb.value.0, tcb.value.1, status.value, date.value,
                           advisories.value.0, advisories.value.1), next))
  }

  // ----- the level arrays

  predicate AtClose(buf: seq<byte>, itr: nat) {
    itr < |buf| && buf[itr] == CLOSE
  }

  /** The levels of a version 1 array, up to its closing bracket. */
  function LevelsV1(buf: seq<byte>, itr: nat): (r: Read<seq<TcbLevel>>)
    requires itr <= |buf|
    ensures r.Success? ==> itr < r.value.next <= |buf| && |r.value.value| > 0 && AtClose(buf, r.value.next)
    ensures r.Failure? ==> r.error == JSON_INFO_PARSE_ERROR
    decreases |buf| - itr
  {
    var level :- ReadLevelV1(buf, itr);
    if AtClose(buf, level.next) then Success(Token([level.value], level.next))
    else
      var p :- ReadChar(',' as int, buf, level.next);
      var rest :- LevelsV1(buf, p);
      Success(Token([level.value] + rest.value, rest.next))
  }

  /** The levels that the version 2 reader looks at: up to the one that settles the status,
      after which the cursor jumps to the end of the array. */
  function LevelsV2(buf: seq<byte>, itr: nat, platform: TcbLevel, previous: TcbLevel): (r: Read<seq<TcbLevel>>)
    requires itr <= |buf|
    ensures r.Success? ==> itr < r.value.next <= |buf| && |r.value.value| > 0 && AtClose(buf, r.value.next)
    ensures r.Failure? ==> r.error == JSON_INFO_PARSE_ERROR
    decreases |buf| - itr
  {
    var level :- ReadLevelV2(buf, itr, previous);
    var settled := Consider(platform, level.value).status != UNKNOWN;
    var next := if settled then ArrayEnd(buf, level.next, level.next) else level.next;
    if AtClose(buf, next) then Success(Token([level.value], next))
    else
      var p :- ReadChar(',' as int, buf, next);
      var rest :- LevelsV2(buf, p, platform, level.value);
      Success(Token([level.value] + rest.value, rest.next))
  }

  /** What the version 1 reader returns: the platform with its status, and the last level. */
  function ReadLevelsV1(buf: seq<byte>, itr: nat, platform: TcbLevel): (r: Read<(TcbLevel, TcbLevel)>)
    requires itr <= |buf|
    ensures r.Success? ==> itr < r.value.next <= |buf| && AtClose(buf, r.value.next)
    ensures r.Failure? ==> r.error == JSON_INFO_PARSE_ERROR
    decreases |buf| - itr
  {
    var level :- ReadLevelV1(buf, itr);
    var state := Consider(platform, level.value);
    if AtClose(buf, level.next) then Success(Token((state, level.value), level.next))
    else
      var p :- ReadChar(',' as int, buf, level.next);
      ReadLevelsV1(buf, p, state)
  }

  method ScanLevelsV1(buf: seq<byte>, itr: nat, platform: TcbLevel) returns (r: Read<(TcbLevel, TcbLevel)>)
    requires itr <= |buf|
    ensures r == ReadLevelsV1(buf, itr, platform)
  {
    hide ReadLevelV1, ReadChar;
    var p: nat := itr;
    var state := platform;
    while p < |buf|
      invariant itr <= p <= |buf|
      invariant ReadLevelsV1(buf, p, state) == ReadLevelsV1(buf, itr, platform)
      decreases |buf| - p
    {
      var level := ReadLevelV1(buf, p);
      if level.Failure? {
        return Failure(JSON_INFO_PARSE_ERROR);
      }
      if level.value.value.status != UNKNOWN {
        state := DeterminePlatformTcbLevel(state, level.value.value);
      }
      if AtClose(buf, level.value.next) {
        return Success(Token((state, level.value.value), level.value.next));
      }
      var comma := ReadChar(',' as int, buf, level.value.next);
      if comma.Failure? {
        return Failure(JSON_INFO_PARSE_ERROR);
      }
      p := comma.value;
    }
    NoLevelAtEnd(buf, p);
    return Failure(JSON_INFO_PARSE_ERROR);
  }

  lemma NoLevelAtEnd(buf: seq<byte>, p: nat)
    requires p == |buf|
    ensures ReadLevelV1(buf, p).Failure? && forall previous :: ReadLevelV2(buf, p, previous).Failure?
  {
  }

  /** The version 1 reader scans all the levels of the text. */
  lemma {:induction false} ReadLevelsV1Meaning(buf: seq<byte>, itr: nat, platform: TcbLevel)
    requires itr <= |buf|
    ensures ReadLevelsV1(buf, itr, platform).Failure? <==> LevelsV1(buf, itr).Failure?
    ensures LevelsV1(buf, itr).Success? ==>
              var text := LevelsV1(buf, itr).value;
              ReadLevelsV1(buf, itr, platform).value ==
              Token((ScanAll(platform, text.value), text.value[|text.value| - 1]), text.next)
    decreases |buf| - itr
  {
    hide ReadLevelV1, ReadChar, Consider;
    var level := ReadLevelV1(buf, itr);
    if level.Success? && !AtClose(buf, level.value.next) {
      var p := ReadChar(',' as int, buf, level.value.next);
      if p.Success? {
        ReadLevelsV1Meaning(buf, p.value, Consider(platform, level.value.value));
      }
    }
  }

  /** What the version 2 reader returns. */
  function ReadLevelsV2(buf: seq<byte>, itr: nat, platform: TcbLevel, previous: TcbLevel): (r: Read<(TcbLevel, TcbLevel)>)
    requires itr <= |buf|
    ensures r.Success? ==> itr < r.value.next <= |buf| && AtClose(buf, r.value.next)
    ensures r.Failure? ==> r.error == JSON_INFO_PARSE_ERROR
    decreases |buf| - itr
  {
    var level :- ReadLevelV2(buf, itr, previous);
    var considered := Consider(platform, level.value);
    var settled := considered.status != UNKNOWN;
    var state := if settled then considered.(tcbDate := level.value.tcbDate) else considered;
    var next := if settled then ArrayEnd(buf, level.next, level.next) else level.next;
    if AtClose(buf, next) then Success(Token((state, level.value), next))
    else
      var p :- ReadChar(',' as int, buf, next);
      ReadLevelsV2(buf, p, state, level.value)
  }

  method ScanLevelsV2(buf: seq<byte>, itr: nat, platform: TcbLevel, previous: TcbLevel)
    returns (r: Read<(TcbLevel, TcbLevel)>)
    requires itr <= |buf|
    ensures r == ReadLevelsV2(buf, itr, platform, previous)
  {
    hide ReadLevelV2, ReadChar, ArrayEnd;
    var p: nat := itr;
    var state, last := platform, previous;
    while p < |buf|
      invariant itr <= p <= |buf|
      invariant ReadLevelsV2(buf, p, state, last) == ReadLevelsV2(buf, itr, platform, previous)
      decreases |buf| - p
    {
      var level := ReadLevelV2(buf, p, last);
      if level.Failure? {
        return Failure(JSON_INFO_PARSE_ERROR);
      }
      last := level.value.value;
      var next := level.value.next;
      if last.status != UNKNOWN {
        state := DeterminePlatformTcbLevel(state, last);
      }
      if state.status != UNKNOWN {
        state := state.(tcbDate := last.tcbDate);
        next := MoveToEndOfTcbLevels(buf, next);
      }
      if AtClose(buf, next) {
        return Success(Token((state, last), next));
      }
      var comma := ReadChar(',' as int, buf, next);
      if comma.Failure? {
        return Failure(JSON_INFO_PARSE_ERROR);
      }
      p := comma.value;
    }
    NoLevelAtEnd(buf, p);
    return Failure(JSON_INFO_PARSE_ERROR);
  }

  /** The version 2 reader scans the levels of the text until the status is settled. */
  lemma {:induction false} ReadLevelsV2Meaning(buf: seq<byte>, itr: nat, platform: TcbLevel, previous: TcbLevel)
    requires itr <= |buf| && platform.status == UNKNOWN
    ensures ReadLevelsV2(buf, itr, platform, previous).Failure? <==> LevelsV2(buf, itr, platform, previous).Failure?
    ensures LevelsV2(buf, itr, platform, previous).Success? ==>
              var text := LevelsV2(buf, itr, platform, previous).value;
              ReadLevelsV2(buf, itr, platform, previous).value ==
              Token((ScanUntilKnown(platform, text.value), text.value[|text.value| - 1]), text.next)
    decreases |buf| - itr
  {
    hide ReadLevelV2, ArrayEnd;
    var level := ReadLevelV2(buf, itr, previous);
    if level.Success? && Consider(platform, level.value.value).status == UNKNOWN && !AtClose(buf, level.value.next) {
      assert Consider(platform, level.value.value) == platform;
      var p := ReadChar(',' as int, buf, level.value.next);
      if p.Success? {
        ReadLevelsV2Meaning(buf, p.value, platform, level.value.value);
      }
    }
  }

  // ----- the document

  datatype ParsedInfo = ParsedInfo(
    version: uint32, issueDate: Date, nextUpdate: Date, fmspc: seq<byte>, pceid: seq<byte>, signature: seq<byte>,
    tcbType: uint32, evaluationNumber: uint32, tcbLevel: TcbLevel, infoStart: nat, infoSize: nat)

  function Truncate32(x: nat): uint32 { x % UINT32_LIMIT }

  const NO_LEVEL := TcbLevel(Zeros(NUM_COMPS), 0, UNKNOWN, ZERO, 0, 0)

  /** An integer property and its comma. */
  function ReadIntegerField(name: seq<byte>, buf: seq<byte>, itr: nat): (r: Read<nat>)
    requires itr <= |buf|
    ensures r.Success? ==> itr < r.value.next <= |buf|
    ensures r.Failure? ==> r.error == JSON_INFO_PARSE_ERROR
  {
    hide ReadName, ReadInteger, ReadChar;
    var a :- ReadName(name, buf, itr);
    var v :- ReadInteger(buf, a);
    var next :- ReadChar(',' as int, buf, v.next);
    Success(Token(v.value, next))
  }

  /** A hex property and its comma. */
  function ReadHexField(name: seq<byte>, buf: seq<byte>, itr: nat, length: nat): (r: Read<seq<byte>>)
    requires itr <= |buf|
    ensures r.Success? ==> itr < r.value.next <= |buf|
    ensures r.Failure? ==> r.error == JSON_INFO_PARSE_ERROR
  {
    hide ReadName, ReadHexString, ReadChar;
    var a :- ReadName(name, buf, itr);
    var v :- ReadHexString(buf, a, length);
    var next :- ReadChar(',' as int, buf, v.next);
    Success(Token(v.value, next))
  }

  /** The fields before the optional "pceId". */
  function ReadHeader(buf: seq<byte>, itr: nat): (r: Read<ParsedInfo>)
    requires itr <= |buf|
    ensures r.Success? ==> itr < r.value.next <= |buf|
    ensures r.Failure? ==> r.error == JSON_INFO_PARSE_ERROR
  {
    hide ReadChar, ReadDateField, ReadIntegerField, ReadHexField, Truncate32;
    var a :- ReadChar('{' as int, buf, itr);
    var version :- ReadIntegerField(Ascii("version"), buf, a);
    var issueDate :- ReadDateField(Ascii("issueDate"), buf, version.next);
    var nextUpdate :- ReadDateField(Ascii("nextUpdate"), buf, issueDate.next);
    var fmspc :- ReadHexField(Ascii("fmspc"), buf, nextUpdate.next, 6);
    Success(Token(ParsedInfo(Truncate32(version.value), issueDate.value, nextUpdate.value, fmspc.value,
                             [0, 0], [], 0, 0, NO_LEVEL, itr, 0), fmspc.next))
  }

  /** The optional "pceId"; when its name is not there the cursor stays. */
  function ReadPceId(buf: seq<byte>, itr: nat): (r: Read<seq<byte>>)
    requires itr <= |buf|
    ensures r.Success? ==> itr <= r.value.next <= |buf|
    ensures r.Failure? ==> r.error == JSON_INFO_PARSE_ERROR
  {
    var name := ReadName(Ascii("pceId"), buf, itr);
    if name.Failure? then Success(Token([0, 0], itr))
    else
      var pceid :- ReadHexString(buf, name.value, 2);
      var next :- ReadChar(',' as int, buf, pceid.next);
      Success(Token(pceid.value, next))
  }

  /** The two fields that only version 2 has. */
  function ReadV2Fields(buf: seq<byte>, itr: nat): (r: Read<(uint32, uint32)>)
    requires itr <= |buf|
    ensures r.Success? ==> itr < r.value.next <= |buf|
    ensures r.Failure? ==> r.error == JSON_INFO_PARSE_ERROR
  {
    var a :- ReadName(Ascii("tcbType"), buf, itr);
    var tcbType :- ReadInteger(buf, a);
    if tcbType.value != 0 then Failure(JSON_INFO_PARSE_ERROR)
    else
      var b :- ReadChar(',' as int, buf, tcbType.next);
      var c :- ReadName(Ascii("tcbEvaluationDataNumber"), buf, b);
      var number :- ReadInteger(buf, c);
      var next :- ReadChar(',' as int, buf, number.next);
      Success(Token((0, Truncate32(number.value)), next))
  }

  function ReadExtraFields(buf: seq<byte>, itr: nat, version: uint32): (r: Read<(uint32, uint32)>)
    requires itr <= |buf|
    ensures r.Success? ==> itr <= r.value.next <= |buf|
    ensures r.Failure? ==> r.error == JSON_INFO_PARSE_ERROR
  {
    if version == 2 then ReadV2Fields(buf, itr) else Success(Token((0, 0), itr))
  }

  function ReadArray(buf: seq<byte>, itr: nat, version: uint32, platform: TcbLevel): (r: Read<(TcbLevel, TcbLevel)>)
    requires itr <= |buf|
    ensures r.Success? ==> itr < r.value.next <= |buf| && (version == 1 || version == 2)
    ensures r.Failure? ==> r.error == JSON_INFO_PARSE_ERROR
  {
    if version == 1 then ReadLevelsV1(buf, itr, platform)
    else if version == 2 then ReadLevelsV2(buf, itr, platform, NO_LEVEL)
    else Failure(JSON_INFO_PARSE_ERROR)
  }

  /** The bracket behind the levels that were read. */
  function Close(buf: seq<byte>, levels: Token<(TcbLevel, TcbLevel)>): (r: Read<(TcbLevel, TcbLevel)>)
    requires levels.next <= |buf|
    ensures r.Success? ==> levels.next < r.value.next <= |buf|
    ensures r.Failure? ==> r.error == JSON_INFO_PARSE_ERROR
  {
    var next :- ReadChar(CLOSE, buf, levels.next);
    Success(Token(levels.value, next))
  }

  /** The "tcbLevels" array of a document of the given version. */
  function ReadLevels(buf: seq<byte>, itr: nat, version: uint32, platform: TcbLevel): (r: Read<(TcbLevel, TcbLevel)>)
    requires itr <= |buf|
    ensures r.Success? ==> itr < r.value.next <= |buf| && (version == 1 || version == 2)
    ensures r.Failure? ==> r.error == JSON_INFO_PARSE_ERROR
  {
    hide ReadArray, ReadName, Ascii;
    var a :- ReadName(Ascii("tcbLevels"), buf, itr);
    var b :- ReadChar(OPEN, buf, a);
    var levels :- ReadArray(buf, b, version, platform);
    Close(buf, levels)
  }

  /** The signed part runs from the '{' at `start` through the '}' at `last`. */
  function Assemble(header: ParsedInfo, pceid: seq<byte>, v2: (uint32, uint32), level: TcbLevel, start: nat, last: nat)
    : (info: ParsedInfo)
    requires start <= last
    ensures info.infoStart == start && info.infoSize == last - start + 1
  {
    ParsedInfo(header.version, header.issueDate, header.nextUpdate, header.fmspc, pceid, [], v2.0, v2.1, level,
               start, last - start + 1)
  }

  /** The signed part lies in the document, from a '{' to a '}'. */
  predicate SignedPart(buf: seq<byte>, start: nat, size: nat) {
    && size >= 2 && start + size <= |buf|
    && buf[start] == '{' as int && buf[start + size - 1] == '}' as int
  }

  lemma SignedFromTo(buf: seq<byte>, start: nat, last: nat)
    requires start < last <= |buf| && ReadHeader(buf, start).Success? && ReadChar('}' as int, buf, last).Success?
    ensures SignedPart(buf, start, last - start + 1)
  {
    hide ReadDateField, ReadIntegerField, ReadHexField, Truncate32;
  }

  /** The end of the "tcbInfo" object that began at `start`. */
  function CloseInfo(buf: seq<byte>, start: nat, header: ParsedInfo, pceid: seq<byte>, v2: (uint32, uint32),
                     levels: Token<(TcbLevel, TcbLevel)>): (r: Read<(TcbLevel, ParsedInfo)>)
    requires start < levels.next <= |buf| && ReadHeader(buf, start).Success?
    ensures r.Success? ==> start < r.value.next <= |buf| && SignedPart(buf, r.value.value.1.infoStart, r.value.value.1.infoSize)
    ensures r.Failure? ==> r.error == JSON_INFO_PARSE_ERROR
  {
    hide ReadHeader, ReadChar, Assemble, SignedPart;
    var next :- ReadChar('}' as int, buf, levels.next);
    SignedFromTo(buf, start, levels.next);
    Success(Token((levels.value.0, Assemble(header, pceid, v2, levels.value.1, start, levels.next)), next))
  }

  /** The "tcbInfo" object, with the stretch of the document that is signed. */
  function ReadTcbInfo(buf: seq<byte>, itr: nat, platform: TcbLevel): (r: Read<(TcbLevel, ParsedInfo)>)
    requires itr <= |buf|
    ensures r.Success? ==> itr < r.value.next <= |buf| && SignedPart(buf, r.value.value.1.infoStart, r.value.value.1.infoSize)
    ensures r.Failure? ==> r.error == JSON_INFO_PARSE_ERROR
  {
    hide ReadHeader, ReadPceId, ReadExtraFields, ReadLevels, CloseInfo, SignedPart;
    var header :- ReadHeader(buf, itr);
    var pceid :- ReadPceId(buf, header.next);
    var v2 :- ReadExtraFields(buf, pceid.next, header.value.version);
    var levels :- ReadLevels(buf, v2.next, header.value.version, platform);
    CloseInfo(buf, itr, header.value, pceid.value, v2.value, levels)
  }

  /** The result, the platform and what was parsed. After a refusal the platform means nothing. */
  datatype Outcome = Outcome(result: OeResult, platform: TcbLevel, info: Option<ParsedInfo>)

  function WithSignature(info: ParsedInfo, signature: seq<byte>): (r: ParsedInfo)
    ensures r.infoStart == info.infoStart && r.infoSize == info.infoSize
  {
    info.(signature := signature)
  }

  function Undetermined(platform: TcbLevel): TcbLevel {
    platform.(status := UNKNOWN)
  }

  function ReadDocument(buf: seq<byte>, platform: TcbLevel): (r: Read<(TcbLevel, ParsedInfo)>)
    ensures r.Success? ==> r.value.next <= |buf| && SignedPart(buf, r.value.value.1.infoStart, r.value.value.1.infoSize)
    ensures r.Failure? ==> r.error == JSON_INFO_PARSE_ERROR
  {
    hide ReadName, ReadTcbInfo, ReadHexString, WithSignature, ReadChar, SignedPart;
    var a :- ReadChar('{' as int, buf, SkipSpace(buf, 0));
    var b :- ReadName(Ascii("tcbInfo"), buf, a);
    var info :- ReadTcbInfo(buf, b, platform);
    var c :- ReadChar(',' as int, buf, info.next);
    var d :- ReadName(Ascii("signature"), buf, c);
    var signature :- ReadHexString(buf, d, 64);
    var next :- ReadChar('}' as int, buf, signature.next);
    Success(Token((info.value.0, WithSignature(info.value.1, signature.value)), next))
  }

  /** oe_parse_tcb_info_json: a complete parse yields a verdict on the platform, and nothing
      else does. The signed part starts with '{' and ends with '}', inside the document. */
  function ParseTcbInfoJson(buf: seq<byte>, platform: TcbLevel): (o: Outcome)
    ensures o.info.Some? <==> o.result == OK || o.result == TCB_LEVEL_INVALID
    ensures o.info.None? ==> o.result == if buf == [] then INVALID_PARAMETER else JSON_INFO_PARSE_ERROR
    ensures o.result == OK ==> o.platform.status.upToDate
    ensures o.result == TCB_LEVEL_INVALID ==> !o.platform.status.upToDate
    ensures o.info.Some? ==> SignedPart(buf, o.info.value.infoStart, o.info.value.infoSize)
  {
    hide ReadDocument, Undetermined, SignedPart;
    if buf == [] then Outcome(INVALID_PARAMETER, platform, None)
    else
      var document := ReadDocument(buf, Undetermined(platform));
      if document.Failure? || document.value.next != |buf|
      then Outcome(JSON_INFO_PARSE_ERROR, Undetermined(platform), None)
      else
        var (state, info) := document.value.value;
        Outcome(if state.status.upToDate then OK else TCB_LEVEL_INVALID, state, Some(info))
  }

  // ----- the status of a platform

  /** The levels that a reader of the given version looks at, from the array's first element on. */
  function TextLevels(buf: seq<byte>, itr: nat, version: uint32, platform: TcbLevel): (r: Read<seq<TcbLevel>>)
    requires itr <= |buf|
  {
    if version == 1 then LevelsV1(buf, itr) else LevelsV2(buf, itr, platform, NO_LEVEL)
  }

  /** The levels array that ReadLevels finds. */
  function ArrayStart(buf: seq<byte>, itr: nat): (r: Result<nat, OeResult>)
    requires itr <= |buf|
    ensures r.Success? ==> r.value <= |buf|
  {
    var a :- ReadName(Ascii("tcbLevels"), buf, itr);
    ReadChar(OPEN, buf, a)
  }

  /** Whichever version was read, the status is that of the first level in the text, among
      those looked at, that has a recognised status and that the platform covers. */
  lemma ReadLevelsChoosesFirst(buf: seq<byte>, itr: nat, version: uint32, platform: TcbLevel)
    requires itr <= |buf| && platform.status == UNKNOWN && ReadLevels(buf, itr, version, platform).Success?
    ensures ArrayStart(buf, itr).Success?
    ensures var text := TextLevels(buf, ArrayStart(buf, itr).value, version, platform);
            && text.Success?
            && var k := FirstChosen(platform, text.value.value);
               ReadLevels(buf, itr, version, platform).value.value.0.status ==
               if k < 0 then UNKNOWN else text.value.value[k].status
  {
    hide ReadName, ReadChar, LevelsV1, LevelsV2, ReadLevelsV1, ReadLevelsV2;
    var start := ArrayStart(buf, itr).value;
    if version == 1 {
      ReadLevelsV1Meaning(buf, start, platform);
      ScanAllChoosesFirst(platform, LevelsV1(buf, start).value.value);
    } else {
      ReadLevelsV2Meaning(buf, start, platform, NO_LEVEL);
      ScanUntilKnownChoosesFirst(platform, LevelsV2(buf, start, platform, NO_LEVEL).value.value);
    }
  }
}
