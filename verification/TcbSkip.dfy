/** The version 2 reader stops at the level that settles the status and skips to the end of the
    array by counting brackets, also those inside quotes (common/sgx/tcbinfo.c). Version 2 texts
    are read like version 1 texts exactly when the brackets behind that level are balanced. */
module TcbSkip {
  import opened Bytes
  import opened Results
  import opened Datetime
  import opened TcbJson
  import opened TcbLevels
  import opened TcbInfo
  import opened TcbText

  // ----- brackets

  function Deeper(d: nat, c: byte): Option<nat> {
    if c == OPEN then Some(d + 1) else if c != CLOSE then Some(d) else if d == 0 then None else Some(d - 1)
  }

  /** The depth behind a text that begins at depth `d`; none when a bracket closes too much. */
  function Nesting(s: seq<byte>, d: nat): Option<nat> {
    if s == [] then Some(d)
    else
      var before := Nesting(s[..|s| - 1], d);
      if before.None? then None else Deeper(before.value, s[|s| - 1])
  }

  /** Every closing bracket closes one that was opened before it, and none stays open. */
  predicate Balanced(s: seq<byte>) {
    Nesting(s, 0) == Some(0)
  }

  function Then(d: Option<nat>, s: seq<byte>): Option<nat> {
    if d.None? then None else Nesting(s, d.value)
  }

  lemma {:induction false} NestingAppend(a: seq<byte>, b: seq<byte>, d: nat)
    ensures Nesting(a + b, d) == Then(Nesting(a, d), b)
    decreases |b|
  {
    if b == [] {
      assert a + b == a;
    } else {
      var n := |b| - 1;
      NestingAppend(a, b[..n], d);
      assert (a + b)[..|a| + n] == a + b[..n];
    }
  }

  lemma {:induction false} NestingPlain(s: seq<byte>, d: nat)
    requires NoBrackets(s)
    ensures Nesting(s, d) == Some(d)
  {
    if s != [] {
      NestingPlain(s[..|s| - 1], d);
    }
  }

  /** The depth as the skipper counts it, up to the first bracket that closes too much. */
  lemma {:induction false} NestingIsDepth(buf: seq<byte>, itr: nat, k: nat)
    requires itr <= k <= |buf|
    ensures var n := Nesting(buf[itr..k], 0);
            && (n.Some? ==> n.value == Depth(buf, itr, k))
            && (n.Some? <==> forall j :: itr <= j < k ==> !(buf[j] == CLOSE && Depth(buf, itr, j) == 0))
    decreases k
  {
    if itr < k {
      NestingIsDepth(buf, itr, k - 1);
      assert buf[itr..k][..k - 1 - itr] == buf[itr..k - 1];
      assert buf[itr..k][k - 1 - itr] == buf[k - 1];
      DepthNext(buf, itr, k - 1);
    } else {
      assert buf[itr..k] == [];
      DepthEmpty(buf, itr);
    }
  }

  /** The skipper stops at a closing bracket exactly when the text up to it is balanced. */
  lemma SkipsToBalanced(buf: seq<byte>, itr: nat, end: nat)
    requires itr <= end && AtClose(buf, end)
    ensures ArrayEnd(buf, itr, itr) == end <==> Balanced(buf[itr..end])
  {
    hide Depth, Nesting, ArrayEnd;
    NestingIsDepth(buf, itr, end);
    if Balanced(buf[itr..end]) {
      ClosesAtUnique(buf, itr, end, ArrayEnd(buf, itr, itr));
    }
  }

  // ----- tokens

  /** The tokens without white space. */
  function Flat(ts: Tokens): seq<byte> {
    if ts == [] then [] else ts[0] + Flat(ts[1..])
  }

  lemma AtText(buf: seq<byte>, itr: nat, t: seq<byte>)
    requires At(buf, itr, t)
    ensures itr + |t| <= |buf| && buf[itr..itr + |t|] == t
  {
  }

  lemma SpaceNesting(buf: seq<byte>, e: nat, d: nat)
    requires e <= |buf|
    ensures Nesting(buf[e..SkipSpace(buf, e)], d) == Some(d)
  {
    hide Nesting, SkipSpace;
    var s := buf[e..SkipSpace(buf, e)];
    forall i | 0 <= i < |s| ensures s[i] != OPEN && s[i] != CLOSE {
      assert IsSpace(buf[e + i]);
    }
    NestingPlain(s, d);
  }

  /** White space between tokens changes no depth. */
  lemma {:induction false} SpelledNesting(buf: seq<byte>, itr: nat, ts: Tokens, d: nat)
    requires Spelled(buf, itr, ts)
    ensures Nesting(buf[itr..After(buf, itr, ts)], d) == Nesting(Flat(ts), d)
    decreases |ts|
  {
    hide Nesting, At, SkipSpace;
    if ts == [] {
      assert buf[itr..itr] == [];
    } else {
      var e := itr + |ts[0]|;
      assert buf[itr..e] == ts[0] by { AtText(buf, itr, ts[0]); }
      var p := SkipSpace(buf, e);
      var end := After(buf, p, ts[1..]);
      assert buf[itr..end] == ts[0] + (buf[e..p] + buf[p..end]);
      NestingAppend(ts[0], buf[e..p] + buf[p..end], d);
      NestingAppend(ts[0], Flat(ts[1..]), d);
      var n := Nesting(ts[0], d);
      if n.Some? {
        NestingAppend(buf[e..p], buf[p..end], n.value);
        SpaceNesting(buf, e, n.value);
        SpelledNesting(buf, p, ts[1..], n.value);
      }
    }
  }

  /** From behind a level, the skipper comes to the bracket behind the list exactly when the
      tokens between them are balanced. */
  lemma SkipsTokens(ts: Tokens, buf: seq<byte>, itr: nat)
    requires Spelled(buf, itr, ts) && AtClose(buf, After(buf, itr, ts))
    ensures ArrayEnd(buf, itr, itr) == After(buf, itr, ts) <==> Balanced(Flat(ts))
  {
    hide Spelled, After, ArrayEnd, Flat, Nesting;
    SpelledNesting(buf, itr, ts, 0);
    SkipsToBalanced(buf, itr, After(buf, itr, ts));
  }

  // ----- the version 2 array

  function ListV2(ds: seq<LevelText>): Tokens
    requires ds != []
  {
    if |ds| == 1 then LevelV2(ds[0]) else LevelV2(ds[0]) + ([COMMA] + ListV2(ds[1..]))
  }

  /** What follows the first level, up to the closing bracket. */
  function RestV2(ds: seq<LevelText>): Tokens
    requires ds != []
  {
    if |ds| == 1 then [] else [COMMA] + ListV2(ds[1..])
  }

  lemma ListIsLevelAndRest(ds: seq<LevelText>)
    requires ds != []
    ensures ListV2(ds) == LevelV2(ds[0]) + RestV2(ds)
  {
    hide LevelV2;
    if |ds| == 1 {
      assert LevelV2(ds[0]) + [] == LevelV2(ds[0]);
    }
  }

  /** The brackets behind the level that settles the platform's status are balanced. */
  predicate Skippable(platform: TcbLevel, ds: seq<LevelText>) {
    var k := FirstChosen(platform, LevelsOf(ds));
    k >= 0 ==> Balanced(Flat(RestV2(ds[k..])))
  }

  lemma SkippableStep(platform: TcbLevel, ds: seq<LevelText>)
    requires ds != []
    ensures Chosen(platform, LevelOf(ds[0])) ==> (Skippable(platform, ds) <==> Balanced(Flat(RestV2(ds))))
    ensures !Chosen(platform, LevelOf(ds[0])) ==> (Skippable(platform, ds) <==> Skippable(platform, ds[1..]))
  {
    hide Balanced, Flat, RestV2, LevelOf, Chosen;
    LevelsOfFirst(ds);
    assert LevelsOf(ds)[1..] == LevelsOf(ds[1..]);
    assert ds[0..] == ds;
    var k := FirstChosen(platform, LevelsOf(ds));
    if k > 0 {
      assert ds[1..][k - 1..] == ds[k..];
    }
  }

  lemma LevelConsidered(platform: TcbLevel, level: TcbLevel, d: LevelText)
    requires SameLevel(level, LevelOf(d)) && level.tcbDate == d.date && platform.status == UNKNOWN
    ensures Consider(platform, level) == Consider(platform, LevelOf(d)) && LevelOf(d).tcbDate == d.date
    ensures Consider(platform, level).status == UNKNOWN ==> Consider(platform, level) == platform
    ensures Consider(platform, level).status != UNKNOWN <==> Chosen(platform, LevelOf(d))
  {
    hide ParseTcbStatus;
  }

  // ----- the level that is reported

  /** The advisory identifiers of the last of the levels up to the one at `k` that has any. */
  function LastAdvisories(ds: seq<LevelText>, k: nat): (ids: Option<seq<byte>>)
    requires k < |ds|
    ensures ids.None? <==> forall j :: 0 <= j <= k ==> ds[j].advisories.None?
    ensures ids.Some? ==> exists j :: 0 <= j <= k && ds[j].advisories == ids && forall i :: j < i <= k ==> ds[i].advisories.None?
  {
    if ds[k].advisories.Some? then ds[k].advisories
    else if k == 0 then None
    else LastAdvisories(ds, k - 1)
  }

  /** A stretch of the document with these identifiers, without the white space in front; without
      any, what was there before. */
  predicate Stretch(level: TcbLevel, ids: Option<seq<byte>>, buf: seq<byte>, previous: TcbLevel) {
    if ids.None? then level.advisoryOffset == previous.advisoryOffset && level.advisorySize == previous.advisorySize
    else && level.advisoryOffset + level.advisorySize <= |buf|
         && buf[level.advisoryOffset..level.advisoryOffset + level.advisorySize] == ids.value[SkipSpace(ids.value, 0)..]
  }

  /** What the version 2 reader is left with after the level at `k`. */
  predicate ReadOffV2(level: TcbLevel, ds: seq<LevelText>, k: nat, buf: seq<byte>, previous: TcbLevel)
    requires k < |ds|
  {
    && level.compSvn == ds[k].compSvn && level.pceSvn == ds[k].pceSvn && level.status == ParseTcbStatus(ds[k].status)
    && level.tcbDate == ds[k].date && Stretch(level, LastAdvisories(ds, k), buf, previous)
  }

  /** Where the version 2 reader stops: at the level that settles the status, or at the last. */
  function StopsAt(platform: TcbLevel, ds: seq<LevelText>): (k: nat)
    requires ds != []
    ensures k < |ds|
  {
    var k := FirstChosen(platform, LevelsOf(ds));
    if k >= 0 then k else |ds| - 1
  }

  lemma StopsAtStep(platform: TcbLevel, ds: seq<LevelText>)
    requires ds != []
    ensures StopsAt(platform, ds) == if Chosen(platform, LevelOf(ds[0])) || |ds| == 1 then 0 else 1 + StopsAt(platform, ds[1..])
  {
    hide LevelOf, Chosen;
    LevelsOfFirst(ds);
    assert LevelsOf(ds)[1..] == LevelsOf(ds[1..]);
  }

  lemma {:induction false} LastAdvisoriesStep(ds: seq<LevelText>, k: nat)
    requires 0 < k < |ds|
    ensures var later := LastAdvisories(ds[1..], k - 1);
            LastAdvisories(ds, k) == if later.Some? then later else ds[0].advisories
  {
    if k > 1 && ds[k].advisories.None? {
      LastAdvisoriesStep(ds, k - 1);
    }
  }

  lemma ReadOffFirst(level: TcbLevel, ds: seq<LevelText>, buf: seq<byte>, previous: TcbLevel)
    requires ds != [] && SameLevel(level, LevelOf(ds[0])) && level.tcbDate == ds[0].date
    requires Kept((level.advisoryOffset, level.advisorySize), ds[0], buf, previous)
    ensures ReadOffV2(level, ds, 0, buf, previous)
  {
    hide ParseTcbStatus, SkipSpace;
  }

  lemma ReadOffNext(first: TcbLevel, level: TcbLevel, ds: seq<LevelText>, k: nat, buf: seq<byte>, previous: TcbLevel)
    requires 0 < k < |ds| && ReadOffV2(level, ds[1..], k - 1, buf, first)
    requires Kept((first.advisoryOffset, first.advisorySize), ds[0], buf, previous)
    ensures ReadOffV2(level, ds, k, buf, previous)
  {
    hide ParseTcbStatus, SkipSpace, LastAdvisories;
    LastAdvisoriesStep(ds, k);
    NoneBefore(ds);
  }

  lemma NoneBefore(ds: seq<LevelText>)
    requires ds != []
    ensures LastAdvisories(ds, 0) == ds[0].advisories
  {
  }

  predicate EndsAt(r: Read<(TcbLevel, TcbLevel)>, end: nat) {
    r.Success? && r.value.next == end
  }

  /** The version 2 reader, on the version 2 text of a list, ends at the array's closing bracket
      exactly when it can skip what it does not read, and gives what a scan of the list gives. */
  lemma {:induction false} ArrayV2At(ds: seq<LevelText>, buf: seq<byte>, itr: nat, platform: TcbLevel, previous: TcbLevel)
    requires ds != [] && AllWritableV2(ds) && platform.status == UNKNOWN && Spelled(buf, itr, ListV2(ds) + [[CLOSE]])
    ensures Spelled(buf, itr, ListV2(ds)) && Spelled(buf, After(buf, itr, ListV2(ds)), [[CLOSE]])
    ensures var r := ReadLevelsV2(buf, itr, platform, previous);
            && (EndsAt(r, After(buf, itr, ListV2(ds))) <==> Skippable(platform, ds))
            && (r.Success? ==> r.value.value.0 == ScanUntilKnown(platform, LevelsOf(ds)))
            && (r.Success? ==> ReadOffV2(r.value.value.1, ds, StopsAt(platform, ds), buf, previous))
    decreases |ds|
  {
    hide Spelled, After, LevelV2, WritableV2, LevelOf, ReadLevelV2, LevelsOf, ArrayEnd, ReadChar, ListV2, Skippable, Balanced, Flat,
      Chosen, ReadOffV2, StopsAt, Kept;
    Cut(buf, itr, ListV2(ds), [[CLOSE]]);
    assert WritableV2(ds[0]);
    LevelsOfFirst(ds);
    ListIsLevelAndRest(ds);
    SkippableStep(platform, ds);
    var level, end := LevelV2(ds[0]), After(buf, itr, ListV2(ds));
    Cut(buf, itr, level, RestV2(ds));
    LevelV2At(ds[0], buf, itr, previous);
    var p := After(buf, itr, level);
    CloseAt(buf, end);
    SkipsTokens(RestV2(ds), buf, p);
    var first := ReadLevelV2(buf, itr, previous).value.value;
    LevelConsidered(platform, first, ds[0]);
    StopsAtStep(platform, ds);
    ReadOffFirst(first, ds, buf, previous);
    if !Chosen(platform, LevelOf(ds[0])) {
      if |ds| == 1 {
        Nothing(buf, p);
        NoneSkippable(platform);
      } else {
        var rest := ListV2(ds[1..]);
        assert ListV2(ds) + [[CLOSE]] == level + ([COMMA] + (rest + [[CLOSE]]));
        Cut(buf, itr, level, [COMMA] + (rest + [[CLOSE]]));
        Cut(buf, p, [COMMA], rest + [[CLOSE]]);
        Cut(buf, p, [COMMA], rest);
        CommaAt(buf, p);
        assert AllWritableV2(ds[1..]);
        var q := After(buf, p, [COMMA]);
        ArrayV2At(ds[1..], buf, q, platform, first);
        var rest' := ReadLevelsV2(buf, q, platform, first);
        if rest'.Success? {
          ReadOffNext(first, rest'.value.value.1, ds, 1 + StopsAt(platform, ds[1..]), buf, previous);
        }
      }
    }
  }

  lemma NoneSkippable(platform: TcbLevel)
    ensures Skippable(platform, [])
  {
  }

  /** For every list of levels, the version 1 text gives the status of the first level with a
      recognised status that the platform covers. The version 2 text, when it is read, gives the
      same and that level's date; it is read to its end exactly when the list is skippable. */
  lemma VersionsAgree(ds: seq<LevelText>, platform: TcbLevel, v1: seq<byte>, at1: nat, v2: seq<byte>, at2: nat, previous: TcbLevel)
    requires ds != [] && AllWritableV2(ds) && platform.status == UNKNOWN
    requires Spelled(v1, at1, ListV1(ds) + [[CLOSE]]) && Spelled(v2, at2, ListV2(ds) + [[CLOSE]])
    ensures at1 <= |v1| && at2 <= |v2| && Spelled(v2, at2, ListV2(ds))
    ensures var k := FirstChosen(platform, LevelsOf(ds));
            var a, b := ReadLevelsV1(v1, at1, platform), ReadLevelsV2(v2, at2, platform, previous);
            && a.Success? && a.value.value.0 == platform.(status := if k < 0 then UNKNOWN else ParseTcbStatus(ds[k].status))
            && (EndsAt(b, After(v2, at2, ListV2(ds))) <==> Skippable(platform, ds))
            && (b.Success? ==> b.value.value.0 == if k < 0 then platform else a.value.value.0.(tcbDate := ds[k].date))
  {
    hide Spelled, After, ListV1, ListV2, ReadLevelsV1, ReadLevelsV2, Skippable, ParseTcbStatus;
    ArrayV1At(ds, v1, at1, platform);
    ArrayV2At(ds, v2, at2, platform, previous);
    ScanAllChoosesFirst(platform, LevelsOf(ds));
    ScanUntilKnownChoosesFirst(platform, LevelsOf(ds));
  }

  // ----- lists that are always skippable

  lemma NumberNoBrackets(v: nat)
    ensures NoBrackets(Number(v))
  {
    hide Number;
    forall i | 0 <= i < |Number(v)| ensures Number(v)[i] != OPEN && Number(v)[i] != CLOSE {
      assert IsDigit(Number(v)[i]);
    }
  }

  predicate AllBalanced(ts: Tokens) {
    forall i :: 0 <= i < |ts| ==> Balanced(ts[i])
  }

  lemma {:induction false} FlatBalanced(ts: Tokens)
    requires AllBalanced(ts)
    ensures Balanced(Flat(ts))
    decreases |ts|
  {
    hide Nesting;
    if ts == [] {
      NestingPlain([], 0);
    } else {
      assert Balanced(ts[0]);
      assert AllBalanced(ts[1..]);
      FlatBalanced(ts[1..]);
      NestingAppend(ts[0], Flat(ts[1..]), 0);
    }
  }

  lemma BalancedBrackets(s: seq<byte>)
    requires NoBrackets(s)
    ensures Balanced(Bracketed(s))
  {
    var a: seq<byte> := [OPEN];
    var b: seq<byte> := [CLOSE];
    assert Nesting(a, 0) == Some(1) by { assert a[..0] == []; }
    NestingPlain(s, 1);
    assert Nesting(b, 1) == Some(0) by { assert b[..0] == []; }
    NestingAppend(a, s, 0);
    NestingAppend(a + s, b, 0);
    assert Bracketed(s) == a + s + b;
  }

  lemma AllBalancedAppend(a: Tokens, b: Tokens)
    requires AllBalanced(a) && AllBalanced(b)
    ensures AllBalanced(a + b)
  {
    hide Balanced;
  }

  lemma OneBalanced(t: seq<byte>)
    requires NoBrackets(t)
    ensures AllBalanced([t])
  {
    hide Nesting;
    NestingPlain(t, 0);
  }

  lemma QuotedBalanced(s: seq<byte>)
    requires Balanced(s)
    ensures AllBalanced([Quoted(s)])
  {
    hide Nesting;
    var q: seq<byte> := [QUOTE];
    NestingPlain(q, 0);
    NestingAppend(q, s, 0);
    NestingAppend(q + s, q, 0);
    assert Quoted(s) == q + s + q;
  }

  lemma NameBalanced(s: seq<byte>)
    requires Plain(s)
    ensures AllBalanced(Name(s))
  {
    hide AllBalanced, Quoted, Nesting;
    NestingPlain(s, 0);
    QuotedBalanced(s);
    OneBalanced(COLON);
    assert Name(s) == [Quoted(s)] + [COLON];
    AllBalancedAppend([Quoted(s)], [COLON]);
  }

  lemma NumberBalanced(v: nat, t: seq<byte>)
    requires NoBrackets(t)
    ensures AllBalanced([Number(v)] + [t])
  {
    hide AllBalanced, NoBrackets, Number;
    NumberNoBrackets(v);
    OneBalanced(Number(v));
    OneBalanced(t);
    AllBalancedAppend([Number(v)], [t]);
  }

  lemma {:induction false} CompsBalanced(svn: CompSvn, n: nat)
    requires n <= NUM_COMPS
    ensures AllBalanced(Comps(svn, n))
  {
    hide AllBalanced, Name, Number, CompName;
    if n == 0 {
      assert AllBalanced([]) by { NoneBalanced(); }
    } else {
      CompsBalanced(svn, n - 1);
      PlainCompName(n - 1);
      NameBalanced(CompName(n - 1));
      NumberBalanced(svn[n - 1], COMMA);
      AllBalancedAppend(Name(CompName(n - 1)), [Number(svn[n - 1])] + [COMMA]);
      AllBalancedAppend(Comps(svn, n - 1), Comp(n - 1, svn[n - 1]));
    }
  }

  lemma NoneBalanced()
    ensures AllBalanced([])
  {
  }

  lemma HeadBalanced(d: LevelText)
    ensures AllBalanced(LevelHead(d))
  {
    hide AllBalanced, Name, Number, Comps, Ascii;
    var comps, name, last := Comps(d.compSvn, NUM_COMPS), Name(Ascii("pcesvn")), [Number(d.pceSvn)] + [RBRACE];
    OneBalanced(LBRACE);
    OneBalanced(COMMA);
    CompsBalanced(d.compSvn, NUM_COMPS);
    PlainAscii("pcesvn");
    NameBalanced(Ascii("pcesvn"));
    NumberBalanced(d.pceSvn, RBRACE);
    AllBalancedAppend(name, last);
    AllBalancedAppend(comps, name + last);
    AllBalancedAppend([LBRACE], comps + (name + last));
    PlainAscii("tcb");
    NameBalanced(Ascii("tcb"));
    AllBalancedAppend(Tcb(d), [COMMA]);
    AllBalancedAppend(Name(Ascii("tcb")), Tcb(d) + [COMMA]);
    AllBalancedAppend([LBRACE], Name(Ascii("tcb")) + (Tcb(d) + [COMMA]));
  }

  lemma FieldsBalanced(d: LevelText)
    requires WritableV2(d) && Balanced(d.status)
    ensures AllBalanced(DateField(Ascii("tcbDate"), d.date)) && AllBalanced(StatusField(Ascii("tcbStatus"), d.status))
  {
    hide AllBalanced, Name, Quoted, Print, Ascii, IsValid, Nesting;
    PlainAscii("tcbDate");
    PlainAscii("tcbStatus");
    PlainDate(d.date);
    NestingPlain(Print(d.date), 0);
    NameBalanced(Ascii("tcbDate"));
    NameBalanced(Ascii("tcbStatus"));
    QuotedBalanced(Print(d.date));
    QuotedBalanced(d.status);
    OneBalanced(COMMA);
    AllBalancedAppend([Quoted(Print(d.date))], [COMMA]);
    AllBalancedAppend(Name(Ascii("tcbDate")), [Quoted(Print(d.date))] + [COMMA]);
    AllBalancedAppend(Name(Ascii("tcbStatus")), [Quoted(d.status)]);
  }

  lemma AdvisoriesBalanced(d: LevelText)
    requires d.advisories.Some? ==> NoBrackets(d.advisories.value)
    ensures AllBalanced(Advisories(d))
  {
    hide AllBalanced, Name, Bracketed, Ascii, NoBrackets;
    if d.advisories.None? {
      NoneBalanced();
    } else {
      var ids, name := d.advisories.value, Name(Ascii("advisoryIDs"));
      PlainAscii("advisoryIDs");
      NameBalanced(Ascii("advisoryIDs"));
      BalancedBrackets(ids);
      assert AllBalanced([Bracketed(ids)]) by { Single(Bracketed(ids)); }
      assert NoBrackets(COMMA) by { CommaPlain(); }
      OneBalanced(COMMA);
      AllBalancedAppend(name, [Bracketed(ids)]);
      AllBalancedAppend([COMMA], name + [Bracketed(ids)]);
    }
  }

  lemma Single(t: seq<byte>)
    requires Balanced(t)
    ensures AllBalanced([t])
  {
    hide Balanced;
  }

  lemma RbracePlain()
    ensures NoBrackets(RBRACE)
  {
  }

  lemma CommaPlain()
    ensures NoBrackets(COMMA)
  {
  }

  /** No bracket in the advisory identifiers, and the status balanced by itself. */
  predicate Tidy(d: LevelText) {
    WritableV2(d) && Balanced(d.status) && (d.advisories.Some? ==> NoBrackets(d.advisories.value))
  }

  predicate AllTidy(ds: seq<LevelText>) {
    forall i :: 0 <= i < |ds| ==> Tidy(ds[i])
  }

  lemma LevelV2Balanced(d: LevelText)
    requires Tidy(d)
    ensures AllBalanced(LevelV2(d))
  {
    hide AllBalanced, LevelHead, DateField, StatusField, Advisories, Ascii, Balanced, WritableV2, NoBrackets;
    HeadBalanced(d);
    FieldsBalanced(d);
    AdvisoriesBalanced(d);
    RbracePlain();
    OneBalanced(RBRACE);
    var date, status := DateField(Ascii("tcbDate"), d.date), StatusField(Ascii("tcbStatus"), d.status);
    AllBalancedAppend(Advisories(d), [RBRACE]);
    AllBalancedAppend(status, Advisories(d) + [RBRACE]);
    AllBalancedAppend(date, status + (Advisories(d) + [RBRACE]));
    AllBalancedAppend(LevelHead(d), date + (status + (Advisories(d) + [RBRACE])));
  }

  lemma {:induction false} ListV2Balanced(ds: seq<LevelText>)
    requires ds != [] && AllTidy(ds)
    ensures AllBalanced(ListV2(ds))
    decreases |ds|
  {
    hide AllBalanced, LevelV2, Tidy;
    assert Tidy(ds[0]);
    LevelV2Balanced(ds[0]);
    if |ds| > 1 {
      assert AllTidy(ds[1..]);
      ListV2Balanced(ds[1..]);
      CommaPlain();
      OneBalanced(COMMA);
      AllBalancedAppend([COMMA], ListV2(ds[1..]));
      AllBalancedAppend(LevelV2(ds[0]), [COMMA] + ListV2(ds[1..]));
    }
  }

  /** Levels with tidy texts are skippable for every platform. */
  lemma TidySkippable(platform: TcbLevel, ds: seq<LevelText>)
    requires AllTidy(ds)
    ensures Skippable(platform, ds)
  {
    hide AllBalanced, Balanced, Flat, Tidy, ListV2;
    var k := FirstChosen(platform, LevelsOf(ds));
    if k >= 0 {
      var rest := ds[k..];
      if |rest| == 1 {
        NoneBalanced();
      } else {
        assert AllTidy(rest[1..]);
        ListV2Balanced(rest[1..]);
        CommaPlain();
        OneBalanced(COMMA);
        AllBalancedAppend([COMMA], ListV2(rest[1..]));
      }
      FlatBalanced(RestV2(rest));
    }
  }
}
