/** The verdict on a platform, from its certificate and its TCB info to the result (common/sgx/quote.c
    and collateral.c): which texts and versions make an accepted quote come out as OK. */
module EvidenceVerdict {
  import opened Bytes
  import opened Results
  import opened Datetime
  import opened TcbLevels
  import opened TcbInfo
  import opened TcbDocument
  import opened TcbVerdict
  import opened Verdict

  /** The platform is judged by the versions in its certificate: the result is OK exactly when the
      first level of the document that applies to them has a status that is good enough. */
  lemma PlatformVerdict(env: Revocation, doc: Document)
    requires Proper(doc) && IsText(env.tcbInfoJson, doc) && TcbOutcome(env).info.Some?
    ensures TcbOutcome(env).result == OK <==>
            InOrder(TcbLevel(env.extensions.compSvn, env.extensions.pceSvn, UNKNOWN, ZERO, 0, 0), doc.levels)
    ensures TcbOutcome(env).result == OK || TcbOutcome(env).result == TCB_LEVEL_INVALID
  {
    hide Proper, IsText, ParseTcbInfoJson, InOrder;
    VerdictOfDocument(doc, PlatformOf(env.extensions), env.tcbInfoJson);
  }

  /** What an accepted quote comes out as, on the texts that were signed. */
  lemma AcceptedVerdict(env: Verification, time: Option<Date>, doc: Document)
    requires WellFormedRevocation(env.quote.revocation) && Accepts(env, time)
    requires Proper(doc) && IsText(env.quote.revocation.tcbInfoJson, doc)
    ensures var x := env.quote.revocation.extensions;
            TcbOutcome(env.quote.revocation).result ==
            if InOrder(TcbLevel(x.compSvn, x.pceSvn, UNKNOWN, ZERO, 0, 0), doc.levels) then OK else TCB_LEVEL_INVALID
  {
    hide Proper, IsText, TcbOutcome, InOrder;
    AcceptsIff(env, time);
    PlatformVerdict(env.quote.revocation, doc);
  }
}
