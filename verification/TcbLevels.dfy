/** TCB levels (common/sgx/tcbinfo.c): the status names, and the choice of a platform's level.

    The version 1 reader looks at every level, the version 2 reader stops at the first match;
    both are proved to choose the first level that the platform's security versions cover. */
module TcbLevels {
  import opened Bytes
  import opened Datetime
  import opened TcbJson

  const NUM_COMPS := 16

  /** The flags of oe_tcb_level_status_t; all clear is "unknown". */
  datatype TcbStatus = TcbStatus(revoked: bool, outOfDate: bool, configurationNeeded: bool,
                                 upToDate: bool, swHardeningNeeded: bool)

  const UNKNOWN := TcbStatus(false, false, false, false, false)

  datatype SgxStatus =
    | UpToDate | OutOfDate | Revoked | ConfigurationNeeded | OutOfDateConfigurationNeeded
    | SwHardeningNeeded | ConfigurationAndSwHardeningNeeded | Invalid

  type CompSvn = s: seq<byte> | |s| == NUM_COMPS witness Zeros(NUM_COMPS)

  datatype TcbLevel = TcbLevel(compSvn: CompSvn, pceSvn: nat, status: TcbStatus, tcbDate: Date,
                               advisoryOffset: nat, advisorySize: nat)

  // ----- status names

  /** _parse_tcb_status */
  function ParseTcbStatus(s: seq<byte>): TcbStatus {
    if s == Ascii("UpToDate") then UNKNOWN.(upToDate := true)
    else if s == Ascii("OutOfDate") then UNKNOWN.(outOfDate := true)
    else if s == Ascii("Revoked") then UNKNOWN.(revoked := true)
    else if s == Ascii("ConfigurationNeeded") then UNKNOWN.(configurationNeeded := true)
    else if s == Ascii("OutOfDateConfigurationNeeded") then UNKNOWN.(outOfDate := true, configurationNeeded := true)
    else if s == Ascii("SWHardeningNeeded") then UNKNOWN.(upToDate := true, swHardeningNeeded := true)
    else if s == Ascii("ConfigurationAndSWHardeningNeeded") then
      UNKNOWN.(configurationNeeded := true, swHardeningNeeded := true)
    else UNKNOWN
  }

  /** oe_tcb_level_status_to_sgx_tcb_status */
  function ToSgxStatus(t: TcbStatus): SgxStatus {
    if t.revoked then Revoked
    else if t.upToDate && t.swHardeningNeeded then SwHardeningNeeded
    else if t.upToDate then UpToDate
    else if t.swHardeningNeeded && t.configurationNeeded then ConfigurationAndSwHardeningNeeded
    else if t.outOfDate && t.configurationNeeded then OutOfDateConfigurationNeeded
    else if t.configurationNeeded then ConfigurationNeeded
    else if t.outOfDate then OutOfDate
    else Invalid
  }

  /** oe_sgx_tcb_status_str */
  function StatusName(s: SgxStatus): seq<byte> {
    match s
    case UpToDate => Ascii("UpToDate")
    case OutOfDate => Ascii("OutOfDate")
    case Revoked => Ascii("Revoked")
    case ConfigurationNeeded => Ascii("ConfigurationNeeded")
    case OutOfDateConfigurationNeeded => Ascii("OutOfDateConfigurationNeeded")
    case SwHardeningNeeded => Ascii("SWHardeningNeeded")
    case ConfigurationAndSwHardeningNeeded => Ascii("ConfigurationAndSWHardeningNeeded")
    case Invalid => Ascii("Invalid")
  }

  /** Which texts set which flag. Only two make a platform up to date. */
  lemma StatusFlags(s: seq<byte>)
    ensures ParseTcbStatus(s).upToDate <==> s == Ascii("UpToDate") || s == Ascii("SWHardeningNeeded")
    ensures ParseTcbStatus(s).revoked <==> s == Ascii("Revoked")
    ensures ParseTcbStatus(s).outOfDate <==> s == Ascii("OutOfDate") || s == Ascii("OutOfDateConfigurationNeeded")
    ensures ParseTcbStatus(s).configurationNeeded <==>
            || s == Ascii("ConfigurationNeeded") || s == Ascii("OutOfDateConfigurationNeeded")
            || s == Ascii("ConfigurationAndSWHardeningNeeded")
    ensures ParseTcbStatus(s).swHardeningNeeded <==>
            s == Ascii("SWHardeningNeeded") || s == Ascii("ConfigurationAndSWHardeningNeeded")
  {
    hide Ascii;
    StatusNamesDistinct();
    var names := [StatusName(UpToDate), StatusName(OutOfDate), StatusName(Revoked), StatusName(ConfigurationNeeded),
                  StatusName(OutOfDateConfigurationNeeded), StatusName(SwHardeningNeeded),
                  StatusName(ConfigurationAndSwHardeningNeeded)];
  }

  /** Every recognised status name comes back from the flags it sets; any other name leaves
      the status unknown, which is reported as "Invalid". */
  lemma StatusNameRoundTrip(s: seq<byte>)
    ensures StatusName(ToSgxStatus(ParseTcbStatus(s))) ==
            if ParseTcbStatus(s) == UNKNOWN then Ascii("Invalid") else s
  {
    hide Ascii;
  }

  /** A status name and its flags describe one another. */
  lemma StatusOfName(s: SgxStatus)
    ensures ToSgxStatus(ParseTcbStatus(StatusName(s))) == s
  {
    hide Ascii;
    StatusNamesDistinct();
    var names := [StatusName(UpToDate), StatusName(OutOfDate), StatusName(Revoked), StatusName(ConfigurationNeeded),
                  StatusName(OutOfDateConfigurationNeeded), StatusName(SwHardeningNeeded),
                  StatusName(ConfigurationAndSwHardeningNeeded), StatusName(Invalid)];
  }

  lemma StatusNamesDistinct()
    ensures forall s, t :: StatusName(s) == StatusName(t) ==> s == t
  {
    var a, b := Ascii("OutOfDateConfigurationNeeded"), Ascii("ConfigurationAndSWHardeningNeeded");
    assert |Ascii("UpToDate")| == 8 && |Ascii("OutOfDate")| == 9;
    assert Ascii("Revoked")[0] == 'R' as int && Ascii("Invalid")[0] == 'I' as int;
    assert |Ascii("ConfigurationNeeded")| == 19 && |Ascii("SWHardeningNeeded")| == 17;
    assert |a| == 28 && |b| == 33;
  }

  // ----- the choice of a level

  /** The platform's versions are at least the level's, one by one. */
  predicate Covers(platform: TcbLevel, level: TcbLevel) {
    (forall i :: 0 <= i < NUM_COMPS ==> level.compSvn[i] <= platform.compSvn[i]) && level.pceSvn <= platform.pceSvn
  }

  function Determined(platform: TcbLevel, level: TcbLevel): TcbLevel {
    if platform.status == UNKNOWN && Covers(platform, level) then platform.(status := level.status) else platform
  }

  /** _determine_platform_tcb_info_tcb_level */
  method DeterminePlatformTcbLevel(platform: TcbLevel, level: TcbLevel) returns (r: TcbLevel)
    ensures r == Determined(platform, level)
    ensures r.(status := UNKNOWN) == platform.(status := UNKNOWN)
    ensures r.status == if && platform.status == UNKNOWN && level.pceSvn <= platform.pceSvn
                           && forall i :: 0 <= i < 16 ==> level.compSvn[i] <= platform.compSvn[i]
                        then level.status else platform.status
  {
    if platform.status != UNKNOWN {
      return platform;
    }
    var i := 0;
    while i < NUM_COMPS
      invariant i <= NUM_COMPS
      invariant forall k :: 0 <= k < i ==> level.compSvn[k] <= platform.compSvn[k]
    {
      if platform.compSvn[i] < level.compSvn[i] {
        return platform;
      }
      i := i + 1;
    }
    if platform.pceSvn < level.pceSvn {
      return platform;
    }
    return platform.(status := level.status);
  }

  /** What a reader does with the platform at one level: unrecognised levels are passed over. */
  function Consider(platform: TcbLevel, level: TcbLevel): TcbLevel {
    if level.status == UNKNOWN then platform else Determined(platform, level)
  }

  /** Version 1: every level is considered. */
  function ScanAll(platform: TcbLevel, levels: seq<TcbLevel>): TcbLevel
    decreases |levels|
  {
    if levels == [] then platform else ScanAll(Consider(platform, levels[0]), levels[1..])
  }

  /** Version 2: the scan ends at the first level that settles the status, and takes its date. */
  function ScanUntilKnown(platform: TcbLevel, levels: seq<TcbLevel>): TcbLevel {
    if levels == [] then platform
    else
      var p := Consider(platform, levels[0]);
      if p.status != UNKNOWN then p.(tcbDate := levels[0].tcbDate) else ScanUntilKnown(p, levels[1..])
  }

  predicate Chosen(platform: TcbLevel, level: TcbLevel) {
    level.status != UNKNOWN && Covers(platform, level)
  }

  /** The first level with a recognised status that the platform covers, or -1. */
  predicate IsFirstChosen(platform: TcbLevel, levels: seq<TcbLevel>, k: int) {
    && -1 <= k < |levels|
    && (k >= 0 ==> Chosen(platform, levels[k]))
    && (forall j :: 0 <= j < |levels| && (k < 0 || j < k) ==> !Chosen(platform, levels[j]))
  }

  function FirstChosen(platform: TcbLevel, levels: seq<TcbLevel>): (k: int)
    ensures IsFirstChosen(platform, levels, k)
  {
    if levels == [] then -1
    else if Chosen(platform, levels[0]) then 0
    else
      var k := FirstChosen(platform, levels[1..]);
      assert forall j :: 0 < j < |levels| ==> levels[j] == levels[1..][j - 1];
      if k < 0 then -1 else k + 1
  }

  lemma {:induction false} ScanAllKnown(platform: TcbLevel, levels: seq<TcbLevel>)
    requires platform.status != UNKNOWN
    ensures ScanAll(platform, levels) == platform
  {
    if levels != [] {
      ScanAllKnown(platform, levels[1..]);
    }
  }

  /** The full scan gives the status of the first chosen level, and changes nothing else. */
  lemma {:induction false} ScanAllChoosesFirst(platform: TcbLevel, levels: seq<TcbLevel>)
    requires platform.status == UNKNOWN
    ensures var k := FirstChosen(platform, levels);
            ScanAll(platform, levels) == platform.(status := if k < 0 then UNKNOWN else levels[k].status)
  {
    if levels != [] {
      if Chosen(platform, levels[0]) {
        ScanAllKnown(Consider(platform, levels[0]), levels[1..]);
      } else {
        ScanAllChoosesFirst(platform, levels[1..]);
      }
    }
  }

  /** The early-exit scan gives the first chosen level's status and date. */
  lemma {:induction false} ScanUntilKnownChoosesFirst(platform: TcbLevel, levels: seq<TcbLevel>)
    requires platform.status == UNKNOWN
    ensures var k := FirstChosen(platform, levels);
            ScanUntilKnown(platform, levels) ==
            if k < 0 then platform else platform.(status := levels[k].status, tcbDate := levels[k].tcbDate)
  {
    if levels != [] && !Chosen(platform, levels[0]) {
      ScanUntilKnownChoosesFirst(platform, levels[1..]);
    }
  }

  /** Both versions find the same status. */
  lemma ScansAgree(platform: TcbLevel, levels: seq<TcbLevel>)
    requires platform.status == UNKNOWN
    ensures ScanAll(platform, levels).status == ScanUntilKnown(platform, levels).status
  {
    ScanAllChoosesFirst(platform, levels);
    ScanUntilKnownChoosesFirst(platform, levels);
  }

  /** Stopping early is safe: what follows the chosen level does not matter. */
  lemma {:induction false} RestIrrelevant(platform: TcbLevel, levels: seq<TcbLevel>, rest: seq<TcbLevel>)
    requires platform.status == UNKNOWN && ScanUntilKnown(platform, levels).status != UNKNOWN
    ensures ScanUntilKnown(platform, levels + rest) == ScanUntilKnown(platform, levels)
  {
    if levels != [] {
      assert (levels + rest)[1..] == levels[1..] + rest;
      if Consider(platform, levels[0]).status == UNKNOWN {
        RestIrrelevant(platform, levels[1..], rest);
      }
    }
  }

  /** Raising the platform's versions never moves the chosen level later. */
  lemma RaisingVersionsChoosesNoLater(low: TcbLevel, high: TcbLevel, levels: seq<TcbLevel>)
    requires Covers(high, low)
    ensures FirstChosen(low, levels) >= 0 ==> 0 <= FirstChosen(high, levels) <= FirstChosen(low, levels)
  {
    var k := FirstChosen(low, levels);
    if k >= 0 {
      assert Covers(low, levels[k]);
      assert Chosen(high, levels[k]);
    }
  }
}
