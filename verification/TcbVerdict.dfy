/** The verdict of a TCB info document (common/sgx/tcbinfo.c), said on the document's own texts and
    numbers: which level decides, and which status texts are good enough. */
module TcbVerdict {
  import opened Bytes
  import opened Results
  import opened Datetime
  import opened TcbJson
  import opened TcbLevels
  import opened TcbInfo
  import opened TcbText
  import opened TcbSkip
  import opened TcbDocument

  predicate Recognised(status: seq<byte>) {
    || status == Ascii("UpToDate") || status == Ascii("OutOfDate") || status == Ascii("Revoked")
    || status == Ascii("ConfigurationNeeded") || status == Ascii("OutOfDateConfigurationNeeded")
    || status == Ascii("SWHardeningNeeded") || status == Ascii("ConfigurationAndSWHardeningNeeded")
  }

  predicate GoodEnough(status: seq<byte>) {
    status == Ascii("UpToDate") || status == Ascii("SWHardeningNeeded")
  }

  /** The level speaks about the platform: its status is known, and none of its sixteen component
      versions nor its PCE version is above the platform's. */
  predicate Applies(platform: TcbLevel, d: LevelText) {
    && Recognised(d.status) && d.pceSvn <= platform.pceSvn
    && forall i :: 0 <= i < 16 ==> d.compSvn[i] <= platform.compSvn[i]
  }

  predicate Decides(platform: TcbLevel, ds: seq<LevelText>, k: nat) {
    k < |ds| && Applies(platform, ds[k]) && forall j :: 0 <= j < k ==> !Applies(platform, ds[j])
  }

  lemma RecognisedIff(s: seq<byte>)
    ensures Recognised(s) <==> ParseTcbStatus(s) != UNKNOWN
    ensures GoodEnough(s) <==> ParseTcbStatus(s).upToDate
  {
    hide Ascii;
    StatusFlags(s);
  }

  lemma AppliesIff(platform: TcbLevel, d: LevelText)
    ensures Applies(platform, d) <==> Chosen(platform, LevelOf(d))
  {
    hide ParseTcbStatus, Recognised;
    RecognisedIff(d.status);
  }

  lemma DecidesIff(platform: TcbLevel, ds: seq<LevelText>, k: nat)
    ensures Decides(platform, ds, k) <==> k == FirstChosen(platform, LevelsOf(ds))
  {
    hide Applies, Chosen, LevelOf;
    forall j | 0 <= j < |ds| ensures Applies(platform, ds[j]) <==> Chosen(platform, LevelsOf(ds)[j]) {
      AppliesIff(platform, ds[j]);
    }
  }

  /** Some level decides, and its status is good enough. */
  ghost predicate InOrder(platform: TcbLevel, ds: seq<LevelText>) {
    exists k: nat :: Decides(platform, ds, k) && GoodEnough(ds[k].status)
  }

  lemma InOrderIff(platform: TcbLevel, ds: seq<LevelText>)
    ensures var k := FirstChosen(platform, LevelsOf(ds));
            InOrder(platform, ds) <==> k >= 0 && LevelsOf(ds)[k].status.upToDate
  {
    hide ParseTcbStatus, GoodEnough, Decides, LevelsOf, FirstChosen;
    var k := FirstChosen(platform, LevelsOf(ds));
    if k >= 0 {
      StatusAt(ds, k);
      RecognisedIff(ds[k].status);
      DecidesIff(platform, ds, k);
    }
    forall j: nat | Decides(platform, ds, j) ensures j == k {
      DecidesIff(platform, ds, j);
    }
  }

  /** Whenever a document is parsed, in either version and on any text of it, the result is OK
      exactly when some level decides and its status is good enough. */
  lemma VerdictOfDocument(doc: Document, platform: TcbLevel, buf: seq<byte>)
    requires Proper(doc) && IsText(buf, doc) && ParseTcbInfoJson(buf, platform).info.Some?
    ensures var o := ParseTcbInfoJson(buf, platform);
            && (o.result == OK <==> InOrder(platform, doc.levels)) && (o.result == TCB_LEVEL_INVALID <==> o.result != OK)
  {
    hide Proper, IsText, ParseTcbInfoJson, ParseTcbStatus, InOrder, LevelsOf;
    var p := Undetermined(platform);
    DocumentParsed(doc, platform, buf);
    ScanAllChoosesFirst(p, LevelsOf(doc.levels));
    ScanUntilKnownChoosesFirst(p, LevelsOf(doc.levels));
    InOrderIff(p, doc.levels);
    assert InOrder(platform, doc.levels) <==> InOrder(p, doc.levels) by { SameOrder(platform, doc.levels); }
  }

  lemma SameOrder(platform: TcbLevel, ds: seq<LevelText>)
    ensures InOrder(platform, ds) <==> InOrder(Undetermined(platform), ds)
  {
    hide Decides, GoodEnough;
    forall k: nat ensures Decides(platform, ds, k) <==> Decides(Undetermined(platform), ds, k) {
      SameVersions(platform, ds, k);
    }
  }

  lemma StatusAt(ds: seq<LevelText>, k: nat)
    requires k < |ds|
    ensures LevelsOf(ds)[k].status == ParseTcbStatus(ds[k].status)
  {
    hide ParseTcbStatus;
  }

  lemma SameVersions(platform: TcbLevel, ds: seq<LevelText>, k: nat)
    ensures Decides(platform, ds, k) <==> Decides(Undetermined(platform), ds, k)
  {
    hide Recognised;
  }

  /** The level that is reported: in version 1 the last of the list, in version 2 the one that decides,
      or the last when none does. */
  predicate Reported(platform: TcbLevel, doc: Document, k: nat) {
    && k < |doc.levels|
    && (doc.version == 2 && k != |doc.levels| - 1 ==> Decides(platform, doc.levels, k))
    && (doc.version == 2 && k == |doc.levels| - 1 ==> forall j :: 0 <= j < k ==> !Applies(platform, doc.levels[j]))
    && (doc.version != 2 ==> k == |doc.levels| - 1)
  }

  lemma ReportedStops(platform: TcbLevel, doc: Document, k: nat)
    requires Reported(platform, doc, k) && doc.version == 2
    ensures doc.levels != [] && k == StopsAt(Undetermined(platform), doc.levels)
  {
    hide Applies, LevelsOf, FirstChosen;
    var p, ds := Undetermined(platform), doc.levels;
    var i := FirstChosen(p, LevelsOf(ds));
    forall j: nat ensures Decides(platform, ds, j) <==> j == i {
      SameVersions(platform, ds, j);
      DecidesIff(p, ds, j);
    }
    if i >= 0 {
      assert Decides(platform, ds, i);
    }
  }

  /** The advisory identifiers of a level that was read, as a stretch of the document, without the white
      space in front. */
  predicate Advises(level: TcbLevel, ids: Option<seq<byte>>, buf: seq<byte>) {
    if ids.None? then level.advisoryOffset == 0 && level.advisorySize == 0
    else && level.advisoryOffset + level.advisorySize <= |buf|
         && buf[level.advisoryOffset..level.advisoryOffset + level.advisorySize] == ids.value[SkipSpace(ids.value, 0)..]
  }

  /** Whenever a document is parsed, the level reported has the versions, the flags and, in version 2,
      the date of that level, and the advisory identifiers of the last level read that has any. */
  lemma ReportedLevel(doc: Document, platform: TcbLevel, buf: seq<byte>, k: nat)
    requires Proper(doc) && IsText(buf, doc) && ParseTcbInfoJson(buf, platform).info.Some? && Reported(platform, doc, k)
    ensures k < |doc.levels|
    ensures var level, d := ParseTcbInfoJson(buf, platform).info.value.tcbLevel, doc.levels[k];
            && level.compSvn == d.compSvn && level.pceSvn == d.pceSvn && level.status == ParseTcbStatus(d.status)
            && level.tcbDate == (if doc.version == 2 then d.date else Date(0, 0, 0, 0, 0, 0))
            && Advises(level, if doc.version == 2 then LastAdvisories(doc.levels, k) else None, buf)
  {
    hide Proper, IsText, ParseTcbInfoJson, ParseTcbStatus, Decides, Applies, LastAdvisories, LevelReported, Advises, Parsed, Considered;
    DocumentParsed(doc, platform, buf);
    LevelRead(ParseTcbInfoJson(buf, platform).info.value.tcbLevel, doc, platform, buf, k);
  }

  lemma LevelRead(level: TcbLevel, doc: Document, platform: TcbLevel, buf: seq<byte>, k: nat)
    requires doc.levels != [] && LevelReported(level, doc, Undetermined(platform), buf) && Reported(platform, doc, k)
    ensures var d := doc.levels[k];
            && level.compSvn == d.compSvn && level.pceSvn == d.pceSvn && level.status == ParseTcbStatus(d.status)
            && level.tcbDate == (if doc.version == 2 then d.date else Date(0, 0, 0, 0, 0, 0))
            && Advises(level, if doc.version == 2 then LastAdvisories(doc.levels, k) else None, buf)
  {
    hide ParseTcbStatus, Decides, Applies, LastAdvisories, SkipSpace, StopsAt;
    if doc.version == 2 {
      ReportedStops(platform, doc, k);
    }
  }

  /** Every text of a document whose deciding level is revoked is reported as invalid. */
  lemma RevokedIsInvalid(doc: Document, platform: TcbLevel, buf: seq<byte>, k: nat)
    requires Proper(doc) && IsText(buf, doc) && ParseTcbInfoJson(buf, platform).info.Some?
    requires Decides(platform, doc.levels, k) && doc.levels[k].status == Ascii("Revoked")
    ensures ParseTcbInfoJson(buf, platform).result == TCB_LEVEL_INVALID
    ensures ParseTcbInfoJson(buf, platform).platform.status.revoked
  {
    hide Proper, IsText, ParseTcbInfoJson, ParseTcbStatus, Decides, LevelsOf, Ascii;
    var p := Undetermined(platform);
    DocumentParsed(doc, platform, buf);
    ScanAllChoosesFirst(p, LevelsOf(doc.levels));
    ScanUntilKnownChoosesFirst(p, LevelsOf(doc.levels));
    SameVersions(platform, doc.levels, k);
    DecidesIff(p, doc.levels, k);
    StatusFlags(doc.levels[k].status);
    StatusNamesDistinct();
    assert doc.levels[k].status == StatusName(Revoked) && k < |doc.levels| by { DecidesInside(platform, doc.levels, k); }
    var names := [StatusName(UpToDate), StatusName(SwHardeningNeeded)];
    assert LevelsOf(doc.levels)[k].status == ParseTcbStatus(doc.levels[k].status) by { StatusAt(doc.levels, k); }
  }

  lemma DecidesInside(platform: TcbLevel, ds: seq<LevelText>, k: nat)
    requires Decides(platform, ds, k)
    ensures k < |ds|
  {
  }
}
