/** The verdict on a quote: result codes and validity windows through four layers
    (common/sgx/quote.c, collateral.c, qeidentity.c and verifier.c).

    Certificates, CRLs, signatures and the quote verification library are foreign: each
    call's result is a field of a record, arbitrary unless a lemma says otherwise. Out
    parameters are passed in and returned, so that a layer that leaves early leaves them
    as they were. */
module Verdict {
  import opened Bytes
  import opened Results
  import opened Datetime
  import opened TcbLevels
  import opened TcbInfo

  datatype Window = Window(from: Date, until: Date)

  const ZERO_WINDOW := Window(ZERO, ZERO)

  /** `t` lies in the window, both ends included. */
  predicate Within(t: Date, w: Window) {
    Compare(w.from, t) <= 0 && Compare(t, w.until) <= 0
  }

  predicate Passes(r: OeResult) { r == OK || r == TCB_LEVEL_INVALID }

  // ----- folding windows

  function Tighten(w: Window, x: Window): Window {
    Window(if Compare(x.from, w.from) > 0 then x.from else w.from,
           if Compare(x.until, w.until) < 0 then x.until else w.until)
  }

  /** _update_validity: the new window holds the dates that both windows hold. */
  method UpdateValidity(latestFrom: Date, earliestUntil: Date, from: Date, until: Date)
    returns (latestFrom': Date, earliestUntil': Date)
    ensures forall t :: Within(t, Window(latestFrom', earliestUntil')) <==>
                        Within(t, Window(latestFrom, earliestUntil)) && Within(t, Window(from, until))
    ensures Window(latestFrom', earliestUntil') == Tighten(Window(latestFrom, earliestUntil), Window(from, until))
  {
    forall t
      ensures Within(t, Tighten(Window(latestFrom, earliestUntil), Window(from, until))) <==>
              Within(t, Window(latestFrom, earliestUntil)) && Within(t, Window(from, until))
    {
      WithinBoth(t, Window(latestFrom, earliestUntil), Window(from, until));
    }
    hide Within;
    latestFrom', earliestUntil' := latestFrom, earliestUntil;
    if Compare(from, latestFrom) > 0 {
      latestFrom' := from;
    }
    if Compare(until, earliestUntil) < 0 {
      earliestUntil' := until;
    }
  }

  /** A date lies in the folded window exactly when it lies in both. */
  lemma WithinBoth(t: Date, w: Window, x: Window)
    ensures Within(t, Tighten(w, x)) <==> Within(t, w) && Within(t, x)
  {
    hide Compare, Rank;
    CompareIsRankOrder(x.from, w.from);
    CompareIsRankOrder(x.until, w.until);
    CompareIsRankOrder(x.from, t);
    CompareIsRankOrder(w.from, t);
    CompareIsRankOrder(t, x.until);
    CompareIsRankOrder(t, w.until);
  }

  /** No valid date lies in the window that out parameters start from. */
  lemma NothingInZeroWindow(t: Date)
    requires IsValid(t)
    ensures Compare(t, ZERO) > 0
  {
  }

  // ----- revocation (oe_validate_revocation_list)

  /** What the certificate extensions say about the platform. */
  datatype Extensions = Extensions(compSvn: CompSvn, pceSvn: nat, fmspc: seq<byte>, pceid: seq<byte>)

  datatype Revocation = Revocation(
    versionSupported: bool, extensionsResult: OeResult, extensions: Extensions,
    tcbChain: OeResult, crlChain: OeResult, crlRead: seq<OeResult>, certVerify: OeResult,
    tcbInfoJson: seq<byte>, signature: OeResult,
    crlDatesResult: OeResult, crlWindows: seq<Window>, tcbLeaf: OeResult, tcbCertWindow: Window,
    minimumDate: Date)

  const NUM_CRLS := 2

  predicate WellFormedRevocation(env: Revocation) {
    |env.crlRead| == NUM_CRLS && |env.crlWindows| == NUM_CRLS
  }

  predicate Empty(w: Window) {
    Compare(w.from, w.until) > 0
  }

  predicate Nested(w: Window, x: Window) {
    Compare(x.from, w.from) <= 0 && Compare(w.until, x.until) <= 0
  }

  lemma NestedHolds(t: Date, w: Window, x: Window)
    requires Nested(w, x) && Within(t, w)
    ensures Within(t, x)
  {
    hide Compare, Rank;
    CompareIsRankOrder(x.from, w.from);
    CompareIsRankOrder(w.until, x.until);
    CompareIsRankOrder(w.from, t);
    CompareIsRankOrder(t, w.until);
    CompareIsRankOrder(x.from, t);
    CompareIsRankOrder(t, x.until);
  }

  /** Every date in one window lies in another exactly when the first is empty or nested in it. */
  lemma HeldIffNested(w: Window, x: Window)
    ensures (forall t :: Within(t, w) ==> Within(t, x)) <==> Empty(w) || Nested(w, x)
  {
    hide Compare, Rank;
    CompareIsRankOrder(w.from, w.until);
    CompareIsRankOrder(w.from, w.from);
    CompareIsRankOrder(w.until, w.until);
    if !Empty(w) {
      assert Within(w.from, w) && Within(w.until, w);
      if Nested(w, x) {
        forall t | Within(t, w) ensures Within(t, x) {
          NestedHolds(t, w, x);
        }
      }
    } else {
      forall t ensures !Within(t, w) {
        CompareIsRankOrder(w.from, t);
        CompareIsRankOrder(t, w.until);
      }
    }
  }

  /** The first CRL's window stands for all: every date in it lies in every CRL's window exactly
      when it is empty or nested in each of them. */
  lemma FirstCrlStandsForAll(crls: seq<Window>)
    requires |crls| > 0
    ensures (forall t :: Within(t, crls[0]) ==> forall i :: 0 <= i < |crls| ==> Within(t, crls[i])) <==>
            Empty(crls[0]) || forall i :: 0 <= i < |crls| ==> Nested(crls[0], crls[i])
  {
    hide Within, Empty, Nested;
    forall i | 0 <= i < |crls|
      ensures (forall t :: Within(t, crls[0]) ==> Within(t, crls[i])) <==> Empty(crls[0]) || Nested(crls[0], crls[i])
    {
      HeldIffNested(crls[0], crls[i]);
    }
  }

  /** A date inside the window that is used and outside the second CRL's. */
  lemma SecondCrlIgnored()
    ensures var crls := [Window(Date(2020, 1, 1, 0, 0, 0), Date(2022, 1, 1, 0, 0, 0)),
                         Window(Date(2020, 1, 1, 0, 0, 0), Date(2021, 1, 1, 0, 0, 0))];
            var t := Date(2021, 6, 1, 0, 0, 0);
            IsValid(t) && Within(t, crls[0]) && !Within(t, crls[1])
  {
  }

  /** _get_crl_validity: each round asks for the dates of the first CRL again. */
  method GetCrlValidity(datesResult: OeResult, crls: seq<Window>) returns (result: OeResult, window: Window)
    requires |crls| > 0
    ensures result == datesResult
    ensures result == OK ==> window == crls[0]
  {
    window := ZERO_WINDOW;
    if datesResult != OK {
      return datesResult, window;
    }
    window := crls[0];
    var i := 0;
    while i < |crls|
      invariant i <= |crls| && window == crls[0]
    {
      var dates := crls[0];
      if Compare(dates.from, window.from) > 0 {
        window := window.(from := dates.from);
      }
      if Compare(dates.until, window.until) < 0 {
        window := window.(until := dates.until);
      }
      i := i + 1;
    }
    return OK, window;
  }

  /** The platform as the TCB info reader is given it. */
  function PlatformOf(x: Extensions): TcbLevel {
    TcbLevel(x.compSvn, x.pceSvn, UNKNOWN, ZERO, 0, 0)
  }

  function TcbOutcome(env: Revocation): Outcome {
    ParseTcbInfoJson(env.tcbInfoJson, PlatformOf(env.extensions))
  }

  function RevocationWindow(env: Revocation): Window
    requires WellFormedRevocation(env)
  {
    Tighten(env.crlWindows[0], env.tcbCertWindow)
  }

  /** Every condition on which the revocation layer does not raise an error. */
  predicate RevocationAccepts(env: Revocation)
    requires WellFormedRevocation(env)
  {
    && env.versionSupported && env.extensionsResult == OK && env.tcbChain == OK && env.crlChain == OK
    && env.crlRead[0] == OK && env.crlRead[1] == OK && env.certVerify == OK
    && TcbOutcome(env).info.Some?
    && env.extensions.fmspc == TcbOutcome(env).info.value.fmspc && env.extensions.pceid == TcbOutcome(env).info.value.pceid
    && env.signature == OK && env.crlDatesResult == OK
    && Compare(env.crlWindows[0].from, env.minimumDate) >= 0 && Compare(env.crlWindows[0].until, env.minimumDate) >= 0
    && env.tcbLeaf == OK
    && Compare(RevocationWindow(env).from, RevocationWindow(env).until) <= 0
  }

  /** The foreign calls of this layer do not answer with the code that this layer lets through. */
  predicate RevocationForeignSane(env: Revocation)
    requires WellFormedRevocation(env)
  {
    && env.extensionsResult != TCB_LEVEL_INVALID && env.tcbChain != TCB_LEVEL_INVALID && env.crlChain != TCB_LEVEL_INVALID
    && env.crlRead[0] != TCB_LEVEL_INVALID && env.crlRead[1] != TCB_LEVEL_INVALID
    && env.certVerify != TCB_LEVEL_INVALID && env.signature != TCB_LEVEL_INVALID
    && env.crlDatesResult != TCB_LEVEL_INVALID && env.tcbLeaf != TCB_LEVEL_INVALID
  }

  /** The chains and the CRLs are in order and the document was parsed, but it is about another
      platform. */
  predicate Mismatched(env: Revocation)
    requires WellFormedRevocation(env)
  {
    && env.versionSupported && env.extensionsResult == OK && env.tcbChain == OK && env.crlChain == OK
    && env.crlRead[0] == OK && env.crlRead[1] == OK && env.certVerify == OK && TcbOutcome(env).info.Some?
    && (env.extensions.fmspc != TcbOutcome(env).info.value.fmspc || env.extensions.pceid != TcbOutcome(env).info.value.pceid)
  }

  /** Everything up to the CRL's dates is in order, but one of them is before the minimum. */
  predicate TooOld(env: Revocation)
    requires WellFormedRevocation(env)
  {
    && env.versionSupported && env.extensionsResult == OK && env.tcbChain == OK && env.crlChain == OK
    && env.crlRead[0] == OK && env.crlRead[1] == OK && env.certVerify == OK && TcbOutcome(env).info.Some?
    && env.extensions.fmspc == TcbOutcome(env).info.value.fmspc && env.extensions.pceid == TcbOutcome(env).info.value.pceid
    && env.signature == OK && env.crlDatesResult == OK
    && (Compare(env.crlWindows[0].from, env.minimumDate) < 0 || Compare(env.crlWindows[0].until, env.minimumDate) < 0)
  }

  /** The chains, the CRLs and the certificate, up to the document. */
  predicate ChainsAccepted(env: Revocation)
    requires WellFormedRevocation(env)
  {
    && env.versionSupported && env.extensionsResult == OK && env.tcbChain == OK && env.crlChain == OK
    && env.crlRead[0] == OK && env.crlRead[1] == OK && env.certVerify == OK
  }

  /** The first of these steps that fails, or OK. */
  function ChainsResult(env: Revocation): (r: OeResult)
    requires WellFormedRevocation(env)
    ensures r == OK <==> ChainsAccepted(env)
    ensures !env.versionSupported ==> r == INVALID_PARAMETER
    ensures env.versionSupported && env.extensionsResult != OK ==> r == env.extensionsResult
    ensures env.versionSupported && env.extensionsResult == OK && env.tcbChain != OK ==> r == env.tcbChain
    ensures env.versionSupported && env.extensionsResult == OK && env.tcbChain == OK ==>
              && (env.crlChain != OK ==> r == env.crlChain)
              && (env.crlChain == OK && env.crlRead[0] != OK ==> r == env.crlRead[0])
              && (env.crlChain == OK && env.crlRead[0] == OK && env.crlRead[1] != OK ==> r == env.crlRead[1])
              && (env.crlChain == OK && env.crlRead[0] == OK && env.crlRead[1] == OK ==> r == env.certVerify)
  {
    if !env.versionSupported then INVALID_PARAMETER
    else if env.extensionsResult != OK then env.extensionsResult
    else if env.tcbChain != OK then env.tcbChain
    else if env.crlChain != OK then env.crlChain
    else if env.crlRead[0] != OK then env.crlRead[0]
    else if env.crlRead[1] != OK then env.crlRead[1]
    else env.certVerify
  }

  /** What the layer returns: the first failure, or the verdict of the document. */
  function RevocationResult(env: Revocation): (r: OeResult)
    requires WellFormedRevocation(env)
    ensures RevocationAccepts(env) ==> r == TcbOutcome(env).result
    ensures !RevocationAccepts(env) ==> r != OK
    ensures !ChainsAccepted(env) ==> r == ChainsResult(env)
    ensures ChainsAccepted(env) && TcbOutcome(env).info.None? ==> r == TcbOutcome(env).result
    ensures Mismatched(env) ==> r == VERIFY_FAILED
    ensures ChainsAccepted(env) && TcbOutcome(env).info.Some? && !Mismatched(env) ==>
              && (env.signature != OK ==> r == env.signature)
              && (env.signature == OK && env.crlDatesResult != OK ==> r == env.crlDatesResult)
    ensures TooOld(env) ==> r == INVALID_REVOCATION_INFO
    ensures ChainsAccepted(env) && TcbOutcome(env).info.Some? && !Mismatched(env) && !TooOld(env)
            && env.signature == OK && env.crlDatesResult == OK ==>
              && (env.tcbLeaf != OK ==> r == env.tcbLeaf)
              && (env.tcbLeaf == OK && !RevocationAccepts(env) ==> r == VERIFY_FAILED_TO_FIND_VALIDITY_PERIOD)
  {
    hide ParseTcbInfoJson, Compare, Tighten, ChainsResult;
    if !ChainsAccepted(env) then ChainsResult(env)
    else if TcbOutcome(env).info.None? then TcbOutcome(env).result
    else if Mismatched(env) then VERIFY_FAILED
    else if env.signature != OK then env.signature
    else if env.crlDatesResult != OK then env.crlDatesResult
    else if TooOld(env) then INVALID_REVOCATION_INFO
    else if env.tcbLeaf != OK then env.tcbLeaf
    else if !RevocationAccepts(env) then VERIFY_FAILED_TO_FIND_VALIDITY_PERIOD
    else TcbOutcome(env).result
  }

  method ReadCrls(env: Revocation) returns (result: OeResult)
    requires WellFormedRevocation(env)
    ensures result == OK <==> env.crlRead[0] == OK && env.crlRead[1] == OK
    ensures result == if env.crlRead[0] != OK then env.crlRead[0] else env.crlRead[1]
  {
    var j := 0;
    while j < NUM_CRLS
      invariant j <= NUM_CRLS && forall k :: 0 <= k < j ==> env.crlRead[k] == OK
    {
      if env.crlRead[j] != OK {
        return env.crlRead[j];
      }
      j := j + 1;
    }
    return OK;
  }

  method ValidateRevocationList(env: Revocation, platform: TcbLevel, validity: Window)
    returns (result: OeResult, platform': TcbLevel, validity': Window)
    requires WellFormedRevocation(env)
    ensures result == RevocationResult(env)
    ensures RevocationAccepts(env) ==>
              result == TcbOutcome(env).result && platform' == TcbOutcome(env).platform && validity' == RevocationWindow(env)
    ensures RevocationAccepts(env) ==> Passes(result) && (result == OK <==> platform'.status.upToDate)
    ensures !RevocationAccepts(env) ==> result != OK && platform' == platform && validity' == validity
    ensures !RevocationAccepts(env) && RevocationForeignSane(env) ==> !Passes(result)
  {
    hide ParseTcbInfoJson, Compare, Tighten;
    platform', validity' := platform, validity;
    if !env.versionSupported {
      result := INVALID_PARAMETER;
      return;
    }
    if env.extensionsResult != OK {
      result := env.extensionsResult;
      return;
    }
    if env.tcbChain != OK {
      result := env.tcbChain;
      return;
    }
    if env.crlChain != OK {
      result := env.crlChain;
      return;
    }
    result := ReadCrls(env);
    if result != OK {
      return;
    }
    if env.certVerify != OK {
      result := env.certVerify;
      return;
    }
    var parse := ParseTcbInfoJson(env.tcbInfoJson, PlatformOf(env.extensions));
    if parse.result != OK && parse.result != TCB_LEVEL_INVALID {
      result := parse.result;
      return;
    }
    if env.extensions.fmspc != parse.info.value.fmspc || env.extensions.pceid != parse.info.value.pceid {
      result := VERIFY_FAILED;
      return;
    }
    if env.signature != OK {
      result := env.signature;
      return;
    }
    var crl;
    result, crl := GetCrlValidity(env.crlDatesResult, env.crlWindows);
    if result != OK {
      return;
    }
    if Compare(crl.from, env.minimumDate) < 0 || Compare(crl.until, env.minimumDate) < 0 {
      result := INVALID_REVOCATION_INFO;
      return;
    }
    if env.tcbLeaf != OK {
      result := env.tcbLeaf;
      return;
    }
    var from, until := UpdateValidity(crl.from, crl.until, env.tcbCertWindow.from, env.tcbCertWindow.until);
    if Compare(from, until) > 0 {
      result := VERIFY_FAILED_TO_FIND_VALIDITY_PERIOD;
      return;
    }
    validity' := Window(from, until);
    platform' := parse.platform;
    result := parse.result;
  }

  // ----- the quoting enclave's identity (oe_validate_qe_identity)

  /** `parse` is the result of the QE identity reader, which has its own TCB level to report;
      `report` is the first mismatch between the QE report and the identity, or OK. */
  datatype QeIdentity = QeIdentity(
    chain: OeResult, parse: OeResult, signature: OeResult, leaf: OeResult, certDates: OeResult, certWindow: Window,
    issueDate: Date, nextUpdate: Date, report: OeResult, minimumDate: Date)

  function QeWindow(env: QeIdentity): Window {
    Window(if Compare(env.issueDate, env.certWindow.from) > 0 then env.issueDate else env.certWindow.from, env.certWindow.until)
  }

  predicate QeAccepts(env: QeIdentity) {
    && env.chain == OK && env.parse == OK && env.signature == OK && env.leaf == OK && env.certDates == OK
    && Compare(env.issueDate, env.minimumDate) >= 0 && Compare(env.nextUpdate, env.minimumDate) >= 0
    && env.report == OK
    && Compare(QeWindow(env).from, QeWindow(env).until) <= 0
  }

  predicate QeTooOld(env: QeIdentity) {
    Compare(env.issueDate, env.minimumDate) < 0 || Compare(env.nextUpdate, env.minimumDate) < 0
  }

  /** What this layer returns: the first failure, or OK. */
  function QeResult(env: QeIdentity): (r: OeResult)
    ensures r == OK <==> QeAccepts(env)
    ensures env.chain != OK ==> r == env.chain
    ensures env.chain == OK && env.parse != OK ==> r == env.parse
    ensures env.chain == OK && env.parse == OK ==>
              && (env.signature != OK ==> r == env.signature)
              && (env.signature == OK && env.leaf != OK ==> r == env.leaf)
              && (env.signature == OK && env.leaf == OK && env.certDates != OK ==> r == env.certDates)
    ensures env.chain == OK && env.parse == OK && env.signature == OK && env.leaf == OK && env.certDates == OK ==>
              && (QeTooOld(env) ==> r == INVALID_QE_IDENTITY_INFO)
              && (!QeTooOld(env) && env.report != OK ==> r == env.report)
              && (!QeTooOld(env) && env.report == OK && !QeAccepts(env) ==> r == VERIFY_FAILED_TO_FIND_VALIDITY_PERIOD)
  {
    hide Compare;
    if env.chain != OK then env.chain
    else if env.parse != OK then env.parse
    else if env.signature != OK then env.signature
    else if env.leaf != OK then env.leaf
    else if env.certDates != OK then env.certDates
    else if QeTooOld(env) then INVALID_QE_IDENTITY_INFO
    else if env.report != OK then env.report
    else if !QeAccepts(env) then VERIFY_FAILED_TO_FIND_VALIDITY_PERIOD
    else OK
  }

  method ValidateQeIdentity(env: QeIdentity, validity: Window) returns (result: OeResult, validity': Window)
    ensures result == OK <==> QeAccepts(env)
    ensures result == QeResult(env)
    ensures validity' == if QeAccepts(env) then QeWindow(env) else validity
  {
    hide Compare;
    validity' := validity;
    if env.chain != OK {
      return env.chain, validity;
    }
    if env.parse != OK {
      return env.parse, validity;
    }
    if env.signature != OK {
      return env.signature, validity;
    }
    if env.leaf != OK {
      return env.leaf, validity;
    }
    if env.certDates != OK {
      return env.certDates, validity;
    }
    var from, until := env.certWindow.from, env.certWindow.until;
    if Compare(env.issueDate, env.minimumDate) < 0 || Compare(env.nextUpdate, env.minimumDate) < 0 {
      return INVALID_QE_IDENTITY_INFO, validity;
    }
    if env.report != OK {
      return env.report, validity;
    }
    if Compare(env.issueDate, from) > 0 {
      from := env.issueDate;
    }
    if Compare(from, until) > 0 {
      return VERIFY_FAILED_TO_FIND_VALIDITY_PERIOD, validity;
    }
    return OK, Window(from, until);
  }

  // ----- the quote's overall validity (oe_get_sgx_quote_validity)

  datatype Quote = Quote(
    parse: OeResult, chain: OeResult, leaf: OeResult, root: OeResult, intermediate: OeResult,
    rootDates: OeResult, rootWindow: Window, intermediateDates: OeResult, intermediateWindow: Window,
    pckDates: OeResult, pckWindow: Window, revocation: Revocation, qe: QeIdentity)

  function CertWindow(env: Quote): Window {
    Tighten(Tighten(env.rootWindow, env.intermediateWindow), env.pckWindow)
  }

  function QuoteWindow(env: Quote): Window
    requires WellFormedRevocation(env.revocation)
  {
    Tighten(Tighten(CertWindow(env), RevocationWindow(env.revocation)), QeWindow(env.qe))
  }

  predicate CertsAccepted(env: Quote) {
    && env.parse == OK && env.chain == OK && env.leaf == OK && env.root == OK && env.intermediate == OK
    && env.rootDates == OK && env.intermediateDates == OK && env.pckDates == OK
  }

  predicate QuoteAccepts(env: Quote)
    requires WellFormedRevocation(env.revocation)
  {
    && CertsAccepted(env) && RevocationAccepts(env.revocation) && QeAccepts(env.qe)
    && Compare(QuoteWindow(env).from, QuoteWindow(env).until) <= 0
  }

  /** The first failing certificate step, or OK. */
  function CertsResult(env: Quote): (r: OeResult)
    ensures r == OK <==> CertsAccepted(env)
    ensures env.parse != OK ==> r == env.parse
    ensures env.parse == OK && env.chain != OK ==> r == env.chain
    ensures env.parse == OK && env.chain == OK ==>
              && (env.leaf != OK ==> r == env.leaf)
              && (env.leaf == OK && env.root != OK ==> r == env.root)
              && (env.leaf == OK && env.root == OK && env.intermediate != OK ==> r == env.intermediate)
    ensures env.parse == OK && env.chain == OK && env.leaf == OK && env.root == OK && env.intermediate == OK ==>
              && (env.rootDates != OK ==> r == env.rootDates)
              && (env.rootDates == OK && env.intermediateDates != OK ==> r == env.intermediateDates)
              && (env.rootDates == OK && env.intermediateDates == OK ==> r == env.pckDates)
  {
    if env.parse != OK then env.parse
    else if env.chain != OK then env.chain
    else if env.leaf != OK then env.leaf
    else if env.root != OK then env.root
    else if env.intermediate != OK then env.intermediate
    else if env.rootDates != OK then env.rootDates
    else if env.intermediateDates != OK then env.intermediateDates
    else env.pckDates
  }

  /** What this layer returns: the first failure, or the verdict of the revocation layer. */
  function QuoteResult(env: Quote): (r: OeResult)
    requires WellFormedRevocation(env.revocation)
    ensures !CertsAccepted(env) ==> r == CertsResult(env)
    ensures CertsAccepted(env) && !Passes(RevocationResult(env.revocation)) ==> r == RevocationResult(env.revocation)
    ensures CertsAccepted(env) && Passes(RevocationResult(env.revocation)) && !QeAccepts(env.qe) ==> r == QeResult(env.qe)
    ensures CertsAccepted(env) && RevocationAccepts(env.revocation) && QeAccepts(env.qe) ==>
              r == if QuoteAccepts(env) then TcbOutcome(env.revocation).result else VERIFY_FAILED_TO_FIND_VALIDITY_PERIOD
  {
    hide ParseTcbInfoJson, Compare, RevocationAccepts, RevocationWindow, QeAccepts, QeWindow, CertsResult, RevocationResult, QeResult;
    if !CertsAccepted(env) then CertsResult(env)
    else if !Passes(RevocationResult(env.revocation)) then RevocationResult(env.revocation)
    else if !QeAccepts(env.qe) then QeResult(env.qe)
    else if RevocationAccepts(env.revocation) && !QuoteAccepts(env) then VERIFY_FAILED_TO_FIND_VALIDITY_PERIOD
    else RevocationResult(env.revocation)
  }

  /** The window is missing when the out parameter was not assigned. Leaving early does not
      assign it, and that is how a TCB level complaint from the quoting enclave's identity gets
      out of here. */
  method GetSgxQuoteValidity(env: Quote, platform: TcbLevel)
    returns (result: OeResult, platform': TcbLevel, validity: Option<Window>)
    requires WellFormedRevocation(env.revocation)
    ensures validity.None? ==> result != OK
    ensures platform' == if CertsAccepted(env) && RevocationAccepts(env.revocation) then TcbOutcome(env.revocation).platform
                         else platform
    ensures RevocationForeignSane(env.revocation) ==> result == QuoteResult(env)
    ensures validity.Some? ==> Passes(result) && CertsAccepted(env) && QeAccepts(env.qe)
    ensures validity.Some? && !platform.status.upToDate ==> (result == OK <==> platform'.status.upToDate)
    ensures QuoteAccepts(env) ==>
              && validity == Some(QuoteWindow(env))
              && result == TcbOutcome(env.revocation).result && platform' == TcbOutcome(env.revocation).platform
    ensures validity.Some? && (result == OK || RevocationForeignSane(env.revocation)) ==> QuoteAccepts(env)
  {
    hide ParseTcbInfoJson, Compare, Tighten, RevocationAccepts, RevocationForeignSane, RevocationWindow, QeAccepts, QeWindow;
    platform', validity := platform, None;
    result := CertsResult(env);
    if result != OK {
      return;
    }
    var from, until := env.rootWindow.from, env.rootWindow.until;
    from, until := UpdateValidity(from, until, env.intermediateWindow.from, env.intermediateWindow.until);
    from, until := UpdateValidity(from, until, env.pckWindow.from, env.pckWindow.until);
    var revocation, window;
    revocation, platform', window := ValidateRevocationList(env.revocation, platform, env.pckWindow);
    if revocation != OK && revocation != TCB_LEVEL_INVALID {
      result := revocation;
      return;
    }
    from, until := UpdateValidity(from, until, window.from, window.until);
    result, window := ValidateQeIdentity(env.qe, window);
    if result != OK {
      return;
    }
    from, until := UpdateValidity(from, until, window.from, window.until);
    if Compare(from, until) > 0 {
      result := VERIFY_FAILED_TO_FIND_VALIDITY_PERIOD;
      return;
    }
    validity := Some(Window(from, until));
    result := revocation;
  }

  // ----- verification at a point in time (oe_verify_quote_with_sgx_endorsements)

  /** `library` is the answer of the quote verification library, `internal` that of the
      built-in verification used when there is no library. */
  datatype Verification = Verification(creationDate: seq<byte>, library: OeResult, internal: OeResult, quote: Quote)

  /** The given time, or the creation time in the endorsements. */
  function ValidationTime(env: Verification, time: Option<Date>): Result<Date, OeResult> {
    if time.Some? then Success(time.value) else Parse(env.creationDate)
  }

  predicate QuoteVerified(env: Verification) {
    env.library == OK || (env.library == PLATFORM_ERROR && env.internal == OK)
  }

  /** Everything that must hold for a quote to be accepted at a time. */
  predicate Accepts(env: Verification, time: Option<Date>)
    requires WellFormedRevocation(env.quote.revocation)
  {
    && ValidationTime(env, time).Success? && IsValid(ValidationTime(env, time).value)
    && QuoteVerified(env) && QuoteAccepts(env.quote)
    && Within(ValidationTime(env, time).value, QuoteWindow(env.quote))
  }

  /** The foreign calls whose results would be taken for a verdict do not return TCB_LEVEL_INVALID. */
  predicate ForeignSane(env: Verification)
    requires WellFormedRevocation(env.quote.revocation)
  {
    env.library != TCB_LEVEL_INVALID && env.internal != TCB_LEVEL_INVALID && RevocationForeignSane(env.quote.revocation)
  }

  /** What stops a verification before the quote's windows are asked for, or OK. */
  function EarlyResult(env: Verification, time: Option<Date>): (r: OeResult)
    ensures r == OK <==> ValidationTime(env, time).Success? && IsValid(ValidationTime(env, time).value) && QuoteVerified(env)
    ensures ValidationTime(env, time).Failure? ==> r == ValidationTime(env, time).error
    ensures ValidationTime(env, time).Success? ==>
              && (!IsValid(ValidationTime(env, time).value) ==> r == INVALID_UTC_DATE_TIME)
              && (IsValid(ValidationTime(env, time).value) && !QuoteVerified(env) ==>
                    r == if env.library == PLATFORM_ERROR then env.internal else env.library)
  {
    hide Parse, IsValid;
    ParseErrors(env.creationDate);
    var t := ValidationTime(env, time);
    if t.Failure? then t.error
    else if !IsValid(t.value) then INVALID_UTC_DATE_TIME
    else if QuoteVerified(env) then OK
    else if env.library == PLATFORM_ERROR then env.internal
    else env.library
  }

  /** Everything up to and including the revocation layer is in order. */
  predicate PlatformJudged(env: Verification, time: Option<Date>)
    requires WellFormedRevocation(env.quote.revocation)
  {
    EarlyResult(env, time) == OK && CertsAccepted(env.quote) && RevocationAccepts(env.quote.revocation)
  }

  /** A quote passes exactly when it is accepted; and whatever the foreign calls answer, a
      result that passes agrees with the platform's status. */
  method VerifyQuote(env: Verification, time: Option<Date>, platform: TcbLevel, valid: Window)
    returns (result: OeResult, platform': TcbLevel, valid': Window)
    requires WellFormedRevocation(env.quote.revocation)
    ensures Accepts(env, time) ==>
              && Passes(result) && result == TcbOutcome(env.quote.revocation).result
              && platform' == TcbOutcome(env.quote.revocation).platform && valid' == QuoteWindow(env.quote)
    ensures ForeignSane(env) ==> (Passes(result) <==> Accepts(env, time))
    ensures result == OK ==> Accepts(env, time)
    ensures EarlyResult(env, time) != OK ==> result == EarlyResult(env, time)
    ensures ForeignSane(env) && EarlyResult(env, time) == OK && !Accepts(env, time) ==>
              result == if Passes(QuoteResult(env.quote)) then VERIFY_FAILED_TO_FIND_VALIDITY_PERIOD else QuoteResult(env.quote)
    ensures platform' == if PlatformJudged(env, time) then TcbOutcome(env.quote.revocation).platform else platform
    ensures ForeignSane(env) && !Accepts(env, time) ==> valid' == valid
    ensures !platform.status.upToDate && Passes(result) ==> (result == OK <==> platform'.status.upToDate)
  {
    hide ParseTcbInfoJson, Compare, QuoteAccepts, QuoteWindow, RevocationForeignSane, Parse, IsValid, QuoteResult, EarlyResult,
      CertsAccepted, RevocationAccepts;
    platform', valid' := platform, valid;
    var t;
    if time.None? {
      var parsed, _ := FromString(env.creationDate, ZERO);
      if parsed.Failure? {
        result := parsed.error;
        ParseErrors(env.creationDate);
        return;
      }
      t := parsed.value;
    } else {
      t := time.value;
    }
    if !IsValid(t) {
      result := INVALID_UTC_DATE_TIME;
      return;
    }
    result := env.library;
    if result != PLATFORM_ERROR && result != OK {
      return;
    }
    if result == PLATFORM_ERROR && env.internal != OK {
      result := env.internal;
      return;
    }
    var written;
    result, platform', written := GetSgxQuoteValidity(env.quote, platform);
    var validity := if written.Some? then written.value else ZERO_WINDOW;
    if result != OK && result != TCB_LEVEL_INVALID {
      return;
    }
    NothingInZeroWindow(t);
    if Compare(t, validity.from) < 0 || Compare(t, validity.until) > 0 {
      CompareReverse(t, validity.from);
      result := VERIFY_FAILED_TO_FIND_VALIDITY_PERIOD;
      return;
    }
    CompareReverse(t, validity.from);
    valid' := validity;
  }

  lemma CompareReverse(a: Date, b: Date)
    ensures Compare(a, b) == -Compare(b, a)
  {
  }

  lemma ParseErrors(s: seq<byte>)
    ensures Parse(s).Failure? ==> !Passes(Parse(s).error)
  {
  }

  /** The windows that are folded into the verdict. */
  predicate InEveryWindow(env: Quote, t: Date)
    requires WellFormedRevocation(env.revocation)
  {
    && Within(t, env.rootWindow) && Within(t, env.intermediateWindow) && Within(t, env.pckWindow)
    && Within(t, env.revocation.crlWindows[0]) && Within(t, env.revocation.tcbCertWindow)
    && Within(t, env.qe.certWindow) && Compare(env.qe.issueDate, t) <= 0
  }

  /** The time of an accepted quote lies in every window; and any time in every window lies in
      the quote's overall window. */
  lemma AcceptedInEveryWindow(env: Quote, t: Date)
    requires WellFormedRevocation(env.revocation)
    ensures Within(t, QuoteWindow(env)) <==> InEveryWindow(env, t)
  {
    hide Compare, Tighten, Within;
    var certs, r := CertWindow(env), env.revocation;
    WithinBoth(t, Tighten(certs, RevocationWindow(r)), QeWindow(env.qe));
    WithinBoth(t, certs, RevocationWindow(r));
    WithinBoth(t, Tighten(env.rootWindow, env.intermediateWindow), env.pckWindow);
    WithinBoth(t, env.rootWindow, env.intermediateWindow);
    WithinBoth(t, r.crlWindows[0], r.tcbCertWindow);
    WithinQe(t, env.qe);
  }

  lemma WithinQe(t: Date, env: QeIdentity)
    ensures Within(t, QeWindow(env)) <==> Within(t, env.certWindow) && Compare(env.issueDate, t) <= 0
  {
    hide Compare, Rank;
    CompareIsRankOrder(env.issueDate, env.certWindow.from);
    CompareIsRankOrder(env.issueDate, t);
    CompareIsRankOrder(env.certWindow.from, t);
  }

  /** Acceptance spelled out: every step is OK, the document is about this platform, no date is before
      the minimum, and the time lies in every window. That the windows overlap need not be said. */
  lemma AcceptsIff(env: Verification, time: Option<Date>)
    requires WellFormedRevocation(env.quote.revocation)
    ensures var q, r, qe := env.quote, env.quote.revocation, env.quote.qe;
            Accepts(env, time) <==>
            && (env.library == OK || (env.library == PLATFORM_ERROR && env.internal == OK))
            && q.parse == OK && q.chain == OK && q.leaf == OK && q.root == OK && q.intermediate == OK
            && q.rootDates == OK && q.intermediateDates == OK && q.pckDates == OK
            && r.versionSupported && r.extensionsResult == OK && r.tcbChain == OK && r.crlChain == OK
            && r.crlRead[0] == OK && r.crlRead[1] == OK && r.certVerify == OK && r.signature == OK
            && r.crlDatesResult == OK && r.tcbLeaf == OK
            && TcbOutcome(r).info.Some?
            && r.extensions.fmspc == TcbOutcome(r).info.value.fmspc && r.extensions.pceid == TcbOutcome(r).info.value.pceid
            && Compare(r.crlWindows[0].from, r.minimumDate) >= 0 && Compare(r.crlWindows[0].until, r.minimumDate) >= 0
            && qe.chain == OK && qe.parse == OK && qe.signature == OK && qe.leaf == OK && qe.certDates == OK && qe.report == OK
            && Compare(qe.issueDate, qe.minimumDate) >= 0 && Compare(qe.nextUpdate, qe.minimumDate) >= 0
            && (time.Some? || Parse(env.creationDate).Success?)
            && var t := if time.Some? then time.value else Parse(env.creationDate).value;
               && IsValid(t)
               && Within(t, q.rootWindow) && Within(t, q.intermediateWindow) && Within(t, q.pckWindow)
               && Within(t, r.crlWindows[0]) && Within(t, r.tcbCertWindow)
               && Within(t, qe.certWindow) && Compare(qe.issueDate, t) <= 0
  {
    hide Compare, TcbOutcome, Tighten, Parse, IsValid, RevocationWindow, QeWindow, QuoteWindow, Within;
    if time.Some? || Parse(env.creationDate).Success? {
      var t := if time.Some? then time.value else Parse(env.creationDate).value;
      AcceptedInEveryWindow(env.quote, t);
      InsideParts(env.quote, t);
      NotEmpty(t, QuoteWindow(env.quote));
      NotEmpty(t, RevocationWindow(env.quote.revocation));
      NotEmpty(t, QeWindow(env.quote.qe));
    }
  }

  lemma InsideParts(env: Quote, t: Date)
    requires WellFormedRevocation(env.revocation)
    ensures Within(t, QuoteWindow(env)) ==> Within(t, RevocationWindow(env.revocation)) && Within(t, QeWindow(env.qe))
  {
    hide Compare, Tighten, Within, RevocationWindow, QeWindow;
    WithinBoth(t, Tighten(CertWindow(env), RevocationWindow(env.revocation)), QeWindow(env.qe));
    WithinBoth(t, CertWindow(env), RevocationWindow(env.revocation));
  }

  lemma NotEmpty(t: Date, w: Window)
    ensures Within(t, w) ==> Compare(w.from, w.until) <= 0
  {
    hide Compare, Rank;
    CompareIsRankOrder(w.from, t);
    CompareIsRankOrder(t, w.until);
    CompareIsRankOrder(w.from, w.until);
  }

  // ----- the evidence layer (oe_sgx_verify_evidence, for remote evidence)

  /** `claims` is the result of extracting the claims, OK when none are asked for. `inconsistent` says
      whether the branch that complains about an inconsistent TCB status was taken. It never is. */
  method VerifyRemoteEvidence(env: Verification, time: Option<Date>, claims: OeResult)
    returns (result: OeResult, inconsistent: bool)
    requires WellFormedRevocation(env.quote.revocation)
    ensures !inconsistent
    ensures result == OK ==> claims == OK && Accepts(env, time) && TcbOutcome(env.quote.revocation).platform.status.upToDate
    ensures Accepts(env, time) && claims == OK ==> result == TcbOutcome(env.quote.revocation).result
    ensures Accepts(env, time) && claims != OK ==> result == claims
    ensures EarlyResult(env, time) != OK && EarlyResult(env, time) != TCB_LEVEL_INVALID ==> result == EarlyResult(env, time)
    ensures ForeignSane(env) && !Accepts(env, time) ==>
              && !Passes(result)
              && (EarlyResult(env, time) == OK ==>
                    result == if Passes(QuoteResult(env.quote)) then VERIFY_FAILED_TO_FIND_VALIDITY_PERIOD
                              else QuoteResult(env.quote))
  {
    hide ParseTcbInfoJson, Accepts, ForeignSane, EarlyResult, QuoteResult, PlatformJudged;
    inconsistent := false;
    var verify, platform, valid := VerifyQuote(env, time, NO_LEVEL, ZERO_WINDOW);
    if verify != OK && verify != TCB_LEVEL_INVALID {
      return verify, false;
    }
    if (verify == OK) != platform.status.upToDate {
      return CONSTRAINT_FAILED, true;
    }
    if claims != OK {
      return claims, false;
    }
    return verify, false;
  }
}
