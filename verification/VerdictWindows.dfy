/** The dates that the verdict on a quote does not depend on (common/sgx/collateral.c and
    qeidentity.c): the second CRL's, the TCB info's and the QE identity's next update. Accepted
    times respect such a window exactly when the quote's overall window is nested in it. */
module VerdictWindows {
  import opened Bytes
  import opened Results
  import opened Datetime
  import opened TcbJson
  import opened TcbLevels
  import opened TcbInfo
  import opened TcbText
  import opened TcbSkip
  import opened TcbDocument
  import opened TcbPrint
  import opened TcbSamples
  import opened Verdict

  // ----- accepted times

  /** Everything that acceptance asks for besides the time. */
  predicate Ready(env: Verification)
    requires WellFormedRevocation(env.quote.revocation)
  {
    QuoteVerified(env) && QuoteAccepts(env.quote)
  }

  /** The times at which a quote is accepted all lie in a window exactly when the quote's overall
      window is nested in it. */
  lemma AcceptedHeldIffNested(env: Verification, x: Window)
    requires WellFormedRevocation(env.quote.revocation)
    requires IsValid(QuoteWindow(env.quote).from) && IsValid(QuoteWindow(env.quote).until)
    ensures (forall t :: Accepts(env, Some(t)) ==> Within(t, x)) <==> (Ready(env) ==> Nested(QuoteWindow(env.quote), x))
  {
    hide Compare, Rank, CertsAccepted, RevocationAccepts, QeAccepts, QuoteWindow, IsValid, Tighten;
    var w := QuoteWindow(env.quote);
    if Ready(env) {
      CompareIsRankOrder(w.from, w.until);
      CompareIsRankOrder(w.from, w.from);
      CompareIsRankOrder(w.until, w.until);
      assert Accepts(env, Some(w.from)) && Accepts(env, Some(w.until));
      if Nested(w, x) {
        forall t | Accepts(env, Some(t)) ensures Within(t, x) {
          NestedHolds(t, w, x);
        }
      }
    }
  }

  // ----- the dates that are not folded

  function TcbInfoWindow(env: Revocation): Window
    requires TcbOutcome(env).info.Some?
  {
    Window(TcbOutcome(env).info.value.issueDate, TcbOutcome(env).info.value.nextUpdate)
  }

  /** The next update as a bound on a window that already has a beginning. */
  lemma HeldUntil(w: Window, until: Date)
    ensures (forall t :: Within(t, w) ==> Compare(t, until) <= 0) <==> Empty(w) || Compare(w.until, until) <= 0
  {
    hide Compare, Rank;
    HeldIffNested(w, Window(w.from, until));
    CompareIsRankOrder(w.from, w.from);
    forall t ensures Within(t, w) ==> (Within(t, Window(w.from, until)) <==> Compare(t, until) <= 0) {
    }
  }

  /** The times in a quote's overall window lie in the second CRL's window, in the TCB info's, or
      before the QE identity's next update, exactly when the overall window is empty or inside. */
  lemma UnfoldedHeldIff(env: Quote)
    requires WellFormedRevocation(env.revocation) && TcbOutcome(env.revocation).info.Some?
    ensures var w, crl := QuoteWindow(env), env.revocation.crlWindows[1];
            (forall t :: Within(t, w) ==> Within(t, crl)) <==> Empty(w) || Nested(w, crl)
    ensures var w, tcb := QuoteWindow(env), TcbInfoWindow(env.revocation);
            (forall t :: Within(t, w) ==> Within(t, tcb)) <==> Empty(w) || Nested(w, tcb)
    ensures var w, next := QuoteWindow(env), env.qe.nextUpdate;
            (forall t :: Within(t, w) ==> Compare(t, next) <= 0) <==> Empty(w) || Compare(w.until, next) <= 0
  {
    hide Compare, Within, QuoteWindow, TcbOutcome, Empty, Nested;
    var w := QuoteWindow(env);
    HeldIffNested(w, env.revocation.crlWindows[1]);
    HeldIffNested(w, TcbInfoWindow(env.revocation));
    HeldUntil(w, env.qe.nextUpdate);
  }

  // ----- accepted times outside them

  const YEARS := Window(DAY, Date(2022, 1, 1, 0, 0, 0))
  const YEAR := Window(DAY, Date(2021, 1, 1, 0, 0, 0))
  const LATER := Date(2021, 6, 1, 0, 0, 0)

  const GOOD := [Level(Ascii("UpToDate"))]

  function SampleRevocation(crl: Window, tcb: Window): Revocation {
    Revocation(true, OK, Extensions(Zeros(NUM_COMPS), 0, Zeros(6), [0, 0]), OK, OK, [OK, OK], OK,
               Written(Sample(1, tcb.from, tcb.until, GOOD)), OK, OK, [YEARS, crl], OK, YEARS, DAY)
  }

  /** Evidence that all foreign calls accept, valid in YEARS but for the dates given. */
  function SampleEvidence(crl: Window, tcb: Window, nextUpdate: Date): Verification {
    Verification([], OK, OK,
                 Quote(OK, OK, OK, OK, OK, OK, YEARS, OK, YEARS, OK, YEARS, SampleRevocation(crl, tcb),
                       QeIdentity(OK, OK, OK, OK, OK, YEARS, DAY, nextUpdate, OK, DAY)))
  }

  lemma SampleTcbInfo(crl: Window, tcb: Window)
    requires Printable(tcb.from) && Printable(tcb.until)
    ensures var env := SampleRevocation(crl, tcb);
            && TcbOutcome(env).result == OK && TcbOutcome(env).info.Some? && TcbInfoWindow(env) == tcb
            && env.extensions.fmspc == TcbOutcome(env).info.value.fmspc && env.extensions.pceid == TcbOutcome(env).info.value.pceid
  {
    hide Written, ParseTcbInfoJson, Proper, Ascii, AllWritableV2, IsText, InfoPlace, Printable, HexBytes, HexText, Considered, Zeros,
      Extends;
    var doc, env := Sample(1, tcb.from, tcb.until, GOOD), SampleRevocation(crl, tcb);
    assert AllWritableV2(GOOD) by { GoodWritable(); }
    SampleProper(1, tcb.from, tcb.until, GOOD);
    PrintedAndParsed(doc, PlatformOf(env.extensions));
    GoodAccepted(doc, PlatformOf(env.extensions), Written(doc));
  }

  lemma GoodWritable()
    ensures AllWritableV2(GOOD)
  {
    hide WritableV2, Ascii;
    PlainAscii("UpToDate");
    LevelWritable(Ascii("UpToDate"));
  }

  lemma SampleWindow(crl: Window, tcb: Window, nextUpdate: Date)
    ensures QuoteWindow(SampleEvidence(crl, tcb, nextUpdate).quote) == YEARS
    ensures RevocationWindow(SampleRevocation(crl, tcb)) == YEARS
    ensures QeWindow(SampleEvidence(crl, tcb, nextUpdate).quote.qe) == YEARS
  {
    hide Written;
    assert Tighten(YEARS, YEARS) == YEARS;
  }

  lemma SampleRevocationAccepts(crl: Window, tcb: Window)
    requires Printable(tcb.from) && Printable(tcb.until)
    ensures RevocationAccepts(SampleRevocation(crl, tcb))
  {
    hide TcbOutcome, Printable, Written, Tighten;
    SampleTcbInfo(crl, tcb);
    SampleWindow(crl, tcb, DAY);
  }

  lemma SampleAccepts(crl: Window, tcb: Window, nextUpdate: Date)
    requires Printable(tcb.from) && Printable(tcb.until) && Compare(nextUpdate, DAY) >= 0
    ensures Accepts(SampleEvidence(crl, tcb, nextUpdate), Some(LATER))
  {
    hide TcbOutcome, Printable, Written, Tighten, RevocationAccepts, QuoteWindow, QeWindow;
    SampleRevocationAccepts(crl, tcb);
    SampleWindow(crl, tcb, nextUpdate);
  }

  lemma SampleDates()
    ensures Printable(YEAR.from) && Printable(YEAR.until) && Printable(YEARS.until)
    ensures Compare(YEAR.until, DAY) >= 0 && Compare(YEARS.until, DAY) >= 0
    ensures !Within(LATER, YEAR) && Compare(LATER, YEAR.until) > 0
  {
  }

  /** A quote is accepted after the second CRL's next update. */
  lemma AcceptedAfterSecondCrl()
    ensures var env := SampleEvidence(YEAR, YEARS, YEARS.until);
            Accepts(env, Some(LATER)) && !Within(LATER, env.quote.revocation.crlWindows[1])
  {
    hide Accepts, Within;
    SampleDates();
    SampleAccepts(YEAR, YEARS, YEARS.until);
  }

  /** A quote is accepted after the TCB info's next update. */
  lemma AcceptedAfterTcbInfo()
    ensures var env := SampleEvidence(YEARS, YEAR, YEARS.until);
            && Accepts(env, Some(LATER)) && TcbOutcome(env.quote.revocation).info.Some?
            && !Within(LATER, TcbInfoWindow(env.quote.revocation))
  {
    hide Accepts, Within, TcbOutcome, Printable;
    SampleDates();
    SampleAccepts(YEARS, YEAR, YEARS.until);
    SampleTcbInfo(YEARS, YEAR);
  }

  /** A quote is accepted after the QE identity's next update. */
  lemma AcceptedAfterNextUpdate()
    ensures var env := SampleEvidence(YEARS, YEARS, YEAR.until);
            Accepts(env, Some(LATER)) && Compare(LATER, env.quote.qe.nextUpdate) > 0
  {
    hide Accepts, Within, Compare, Printable;
    SampleDates();
    SampleAccepts(YEARS, YEARS, YEAR.until);
  }
}
