/** The EEID replay (common/sgx/eeid.c): rebuilding the tail of the measurement log
    from size settings.

    The replay stands for an explicit list of page loads. It is proved to append the log of
    those loads up to the first whose address does not fit above the base; which loads are
    noticed when they do not fit decides whether a hash comes out at all. */
module EeidReplay {
  import opened Bytes
  import opened Results
  import opened Measure
  import opened EeidCodec
  import opened EeidImage

  /** The replay's arbitrary base address; only offsets from it are measured. */
  const BASE := 0x0ab0c0d0e0f

  const SECINFO_R := 0x1
  const SECINFO_W := 0x2
  const SECINFO_TCS := 0x100
  const SECINFO_REG := 0x200
  const TCS_CONTROL_PAGES := 4

  const READ_ONLY: uint64 := SECINFO_REG + SECINFO_R
  const READ_WRITE: uint64 := SECINFO_REG + SECINFO_R + SECINFO_W

  const BLANK_PAGE: Page := Zeros(PAGE_SIZE)
  const STACK_PAGE: Page := seq(PAGE_SIZE, _ => 0xcc)

  function Wrap(x: nat): uint64 { x % UINT64_LIMIT }

  /** A thread control page; `ossa`, `oentry`, `fsbase`, `gsbase` at offsets 16, 32, 48, 56. */
  function TcsPage(vaddr: nat, entryPoint: uint64, tlsPageCount: uint64): (p: Page) {
    var fsbase := Wrap(vaddr + (tlsPageCount + TCS_CONTROL_PAGES) * PAGE_SIZE);
    Zeros(16) + LittleEndian(Wrap(vaddr + PAGE_SIZE), 8) + LittleEndian(0, 4) + LittleEndian(2, 4)
    + LittleEndian(entryPoint, 8) + Zeros(8) + LittleEndian(fsbase, 8) + LittleEndian(fsbase, 8)
    + LittleEndian(0xFFFF_FFFF, 4) + LittleEndian(0xFFFF_FFFF, 4) + Zeros(4024)
  }

  // ----- the page loads that the replay stands for

  function HeapLoads(vaddr: nat, n: nat): (ls: seq<PageLoad>)
    ensures |ls| == n
  {
    seq(n, i requires 0 <= i < n => PageLoad(Wrap(vaddr + PAGE_SIZE * i), READ_WRITE, false, BLANK_PAGE))
  }

  /** The first `n` stack pages of the thread whose guard page is at `start`. */
  function StackLoads(start: nat, n: nat): (ls: seq<PageLoad>)
    ensures |ls| == n
  {
    seq(n, i requires 0 <= i < n => PageLoad(Wrap(start + PAGE_SIZE * (1 + i)), READ_WRITE, true, STACK_PAGE))
  }

  function TcsLoad(e: Record, start: nat): PageLoad {
    var vaddr := start + PAGE_SIZE * (e.stack + 2);
    PageLoad(Wrap(vaddr), SECINFO_TCS, true, TcsPage(vaddr, e.entryPoint, e.tlsPageCount))
  }

  /** The blank page in slot `k` of a thread: two SSA pages and two thread-data pages. */
  function BlankLoad(start: nat, k: nat): PageLoad {
    BlankAt(Wrap(start + PAGE_SIZE * k))
  }

  function BlankAt(vaddr: uint64): PageLoad {
    PageLoad(vaddr, READ_WRITE, true, BLANK_PAGE)
  }

  function ControlLoads(e: Record, start: nat): (ls: seq<PageLoad>)
    ensures |ls| == 5
  {
    [TcsLoad(e, start), BlankLoad(start, e.stack + 3), BlankLoad(start, e.stack + 4),
     BlankLoad(start, e.stack + 6), BlankLoad(start, e.stack + 7)]
  }

  /** Where the first guard page of thread `t` lies. */
  function ThreadStart(e: Record, t: nat): (v: nat)
    ensures e.vaddr <= v
  {
    if t == 0 then e.vaddr + PAGE_SIZE * e.heap else ThreadStart(e, t - 1) + PAGE_SIZE * (e.stack + 8)
  }

  function ThreadLoads(e: Record, start: nat): (ls: seq<PageLoad>)
    ensures |ls| == e.stack + 5
  {
    StackLoads(start, e.stack) + ControlLoads(e, start)
  }

  function ThreadsLoads(e: Record, n: nat): seq<PageLoad> {
    if n == 0 then [] else ThreadsLoads(e, n - 1) + ThreadLoads(e, ThreadStart(e, n - 1))
  }

  function NumEeidPages(numBytes: nat): nat {
    numBytes / PAGE_SIZE + if numBytes % PAGE_SIZE != 0 then 1 else 0
  }

  /** The bytes of a structure of `n` bytes that reach its pages: all of them, but for the last
      page of a structure that fills its pages exactly. */
  function BoundBytes(n: nat): nat {
    if n % PAGE_SIZE == 0 && n > 0 then n - PAGE_SIZE else n
  }

  function BoundByte(image: seq<byte>, k: nat): byte {
    if k < BoundBytes(|image|) then image[k] else 0
  }

  function BoundSlice(image: seq<byte>, start: nat, n: nat): (s: seq<byte>)
    ensures |s| == n
  {
    seq<byte>(n, k requires 0 <= k < n => BoundByte(image, start + k))
  }

  /** The `i`th EEID page: bound bytes where there are any, then zeros. */
  function EeidPage(image: seq<byte>, i: nat): (p: Page) {
    BoundSlice(image, PAGE_SIZE * i, PAGE_SIZE)
  }

  lemma PageAt(image: seq<byte>, i: nat, k: nat)
    requires k < PAGE_SIZE
    ensures EeidPage(image, i)[k] == BoundByte(image, PAGE_SIZE * i + k)
  {
    hide BoundByte;
  }

  function EeidLoads(start: nat, image: seq<byte>, n: nat): (ls: seq<PageLoad>)
    ensures |ls| == n
  {
    seq(n, i requires 0 <= i < n =>
      PageLoad(Wrap(start + PAGE_SIZE * i), READ_ONLY, true, EeidPage(image, i)))
  }

  function BaseLoads(e: Record): seq<PageLoad> {
    HeapLoads(e.vaddr, e.heap) + ThreadsLoads(e, e.tcs)
  }

  function Replay(e: Record, withEeidPages: bool): seq<PageLoad> {
    BaseLoads(e)
    + if withEeidPages then EeidLoads(ThreadStart(e, e.tcs), Image(e), NumEeidPages(|Image(e)|)) else []
  }

  // ----- loads whose address fits above the base

  predicate Fits(l: PageLoad) {
    BASE + l.vaddr < UINT64_LIMIT
  }

  predicate AllFit(ls: seq<PageLoad>) {
    forall i :: 0 <= i < |ls| ==> Fits(ls[i])
  }

  /** How many loads come before the first that does not fit. */
  function FitCount(ls: seq<PageLoad>): (k: nat)
    ensures k <= |ls| && (forall i :: 0 <= i < k ==> Fits(ls[i])) && (k < |ls| ==> !Fits(ls[k]))
  {
    if ls == [] then 0
    else
      var k := FitCount(ls[..|ls| - 1]);
      if k == |ls| - 1 && Fits(ls[k]) then |ls| else k
  }

  function Fitting(ls: seq<PageLoad>): seq<PageLoad> {
    ls[..FitCount(ls)]
  }

  lemma FittingIs(ls: seq<PageLoad>, k: nat)
    requires k <= |ls| && AllFit(ls[..k]) && (k < |ls| ==> !Fits(ls[k]))
    ensures FitCount(ls) == k && Fitting(ls) == ls[..k]
  {
    hide Fits, FitCount;
    assert forall i :: 0 <= i < k ==> ls[..k][i] == ls[i];
  }

  lemma FittingAppend(a: seq<PageLoad>, b: seq<PageLoad>)
    ensures AllFit(a + b) <==> AllFit(a) && AllFit(b)
    ensures Fitting(a + b) == if AllFit(a) then a + Fitting(b) else Fitting(a)
  {
    hide Fits, FitCount;
    var ls := a + b;
    assert forall i :: 0 <= i < |b| ==> ls[|a| + i] == b[i];
    assert forall i :: 0 <= i < |a| ==> ls[i] == a[i];
    if AllFit(a) {
      var k := |a| + FitCount(b);
      assert ls[..k] == a + Fitting(b);
      FittingIs(ls, k);
    } else {
      var k := FitCount(a);
      assert k < |a| && ls[..k] == a[..k];
      FittingIs(ls, k);
    }
  }

  lemma FittingAll(ls: seq<PageLoad>)
    ensures AllFit(ls) <==> Fitting(ls) == ls
    ensures !AllFit(ls) ==> |Fitting(ls)| < |ls|
  {
    hide Fits, FitCount;
    if AllFit(ls) {
      assert ls[..|ls|] == ls;
      FittingIs(ls, |ls|);
    }
  }

  /** Whoever stops early hashes a strictly shorter log. */
  lemma FittingLog(ls: seq<PageLoad>)
    ensures LoadsLog(Fitting(ls)) == LoadsLog(ls) <==> AllFit(ls)
  {
    hide FitCount, LoadsLog, AllFit;
    FittingAll(ls);
    if !AllFit(ls) {
      var k := FitCount(ls);
      assert ls == ls[..k] + ls[k..];
      LoadsLogAppend(ls[..k], ls[k..]);
      SomeLog(ls[k..]);
    }
  }

  lemma SomeLog(ls: seq<PageLoad>)
    requires ls != []
    ensures |LoadsLog(ls)| > 0
  {
    hide LoadLog;
  }

  /** The loads whose failure is noticed: all but the four blank pages of the last thread, when
      nothing is measured after them. */
  function Noticed(e: Record, withEeidPages: bool): seq<PageLoad> {
    var ls := Replay(e, withEeidPages);
    if withEeidPages || e.tcs == 0 || |ls| < 4 then ls else ls[..|ls| - 4]
  }

  // ----- addresses modulo 2^64

  lemma WrapAdd(x: nat, y: nat)
    ensures Wrap(Wrap(x) + y) == Wrap(x + y)
  {
  }

  lemma {:induction false} ThreadStartMonotone(e: Record, t: nat, u: nat)
    requires t <= u
    ensures ThreadStart(e, t) + PAGE_SIZE * (u - t) * (e.stack + 8) == ThreadStart(e, u)
    ensures t < u ==> ThreadStart(e, t) + PAGE_SIZE * (e.stack + 8) <= ThreadStart(e, u)
    ensures ThreadStart(e, t) <= ThreadStart(e, u)
    decreases u
  {
    if t < u {
      ThreadStartMonotone(e, t, u - 1);
    }
  }

  // ----- the replay itself

  /** The sum with the base stays above the base exactly when it does not wrap. */
  lemma AboveBase(v: uint64)
    ensures BASE <= Wrap(BASE + v) <==> BASE + v < UINT64_LIMIT
    ensures BASE + v < UINT64_LIMIT ==> Wrap(BASE + v) == BASE + v
  {
  }

  method MeasurePage(context: Sha256Context, page: Page, at: uint64, extend: bool, readonly: bool)
    returns (result: OeResult, vaddr: uint64)
    modifies context
    ensures result.OK? <==> 0x0ab0c0d0e0f + at < UINT64_LIMIT
    ensures result.OK? ==>
              && vaddr == Wrap(at + PAGE_SIZE)
              && context.log == old(context.log)
                 + LoadLog(PageLoad(at, if readonly then READ_ONLY else READ_WRITE, extend, page))
    ensures !result.OK? ==> vaddr == at && context.log == old(context.log)
  {
    hide LoadLog, Wrap;
    vaddr := at;
    var flags: uint64 := SECINFO_REG + SECINFO_R;
    if !readonly {
      flags := flags + SECINFO_W;
    }
    AboveBase(at);
    result := MeasureLoadEnclaveData(context, BASE, Wrap(BASE + vaddr), Some(page), flags, extend);
    if result.OK? {
      vaddr := Wrap(vaddr + PAGE_SIZE);
    }
  }

  lemma LogNext(ls: seq<PageLoad>, i: nat)
    requires i < |ls|
    ensures LoadsLog(ls[..i + 1]) == LoadsLog(ls[..i]) + LoadLog(ls[i])
    ensures AllFit(ls[..i + 1]) <==> AllFit(ls[..i]) && Fits(ls[i])
  {
    hide LoadLog, Fits, LoadsLog;
    assert ls[..i + 1] == ls[..i] + [ls[i]];
    LoadsLogSnoc(ls[..i], ls[i]);
    FittingAppend(ls[..i], [ls[i]]);
    assert AllFit([ls[i]]) <==> Fits([ls[i]][0]);
  }

  /** The first `i` loads are done and the next, if any, did not fit. */
  lemma StoppedAt(ls: seq<PageLoad>, i: nat)
    requires i <= |ls| && AllFit(ls[..i]) && (i < |ls| ==> !Fits(ls[i]))
    ensures Fitting(ls) == ls[..i] && (AllFit(ls) <==> i == |ls|)
  {
    hide Fits, FitCount;
    FittingIs(ls, i);
    FittingAll(ls);
    assert i == |ls| ==> ls[..i] == ls;
  }

  method MeasureHeap(context: Sha256Context, e: Record) returns (result: OeResult, vaddr: uint64)
    modifies context
    ensures result.OK? <==> AllFit(HeapLoads(e.vaddr, e.heap))
    ensures result.OK? ==> vaddr == Wrap(ThreadStart(e, 0))
    ensures context.log == old(context.log) + LoadsLog(Fitting(HeapLoads(e.vaddr, e.heap)))
  {
    hide LoadLog, LoadsLog, Wrap, Fitting, AllFit;
    ghost var ls := HeapLoads(e.vaddr, e.heap);
    result, vaddr := OK, e.vaddr;
    Start(ls, e.vaddr);
    var i := 0;
    while i < e.heap
      invariant i <= e.heap && result.OK?
      invariant vaddr == Wrap(e.vaddr + PAGE_SIZE * i)
      invariant AllFit(ls[..i]) && context.log == old(context.log) + LoadsLog(ls[..i])
    {
      LogNext(ls, i);
      result, vaddr := MeasurePage(context, BLANK_PAGE, vaddr, false, false);
      if !result.OK? {
        StoppedAt(ls, i);
        return;
      }
      WrapAdd(e.vaddr + PAGE_SIZE * i, PAGE_SIZE);
      i := i + 1;
    }
    StoppedAt(ls, i);
  }

  lemma Start(ls: seq<PageLoad>, vaddr: uint64)
    ensures LoadsLog(ls[..0]) == [] && AllFit(ls[..0]) && Wrap(vaddr) == vaddr
  {
  }

  method MeasureStack(context: Sha256Context, e: Record, guard: uint64) returns (result: OeResult, vaddr: uint64)
    modifies context
    ensures result.OK? <==> AllFit(StackLoads(guard, e.stack))
    ensures result.OK? ==> vaddr == Wrap(guard + PAGE_SIZE * (1 + e.stack))
    ensures context.log == old(context.log) + LoadsLog(Fitting(StackLoads(guard, e.stack)))
  {
    hide LoadLog, LoadsLog, Wrap, Fitting, AllFit;
    ghost var ls := StackLoads(guard, e.stack);
    result, vaddr := OK, Wrap(guard + PAGE_SIZE); /* guard page */
    Start(ls, guard);
    var i := 0;
    while i < e.stack
      invariant i <= e.stack && result.OK?
      invariant vaddr == Wrap(guard + PAGE_SIZE * (1 + i))
      invariant AllFit(ls[..i]) && context.log == old(context.log) + LoadsLog(ls[..i])
    {
      LogNext(ls, i);
      result, vaddr := MeasurePage(context, STACK_PAGE, vaddr, true, false);
      if !result.OK? {
        StoppedAt(ls, i);
        return;
      }
      WrapAdd(guard + PAGE_SIZE * (1 + i), PAGE_SIZE);
      i := i + 1;
    }
    StoppedAt(ls, i);
  }

  /** An address that does not fit, with room before the end of the address space: where the
      blank pages that failed have left off. */
  predicate Stuck(vaddr: nat) {
    UINT64_LIMIT - BASE <= vaddr && vaddr + 16 * PAGE_SIZE < UINT64_LIMIT
  }

  /** Two blank pages; their results are not looked at, and a page that fails does not advance. */
  method MeasureBlankPages(context: Sha256Context, at: uint64) returns (vaddr: uint64)
    requires at + 2 * PAGE_SIZE < UINT64_LIMIT
    modifies context
    ensures var ls := Pair(at);
            && vaddr == at + PAGE_SIZE * FitCount(ls)
            && context.log == old(context.log) + LoadsLog(Fitting(ls))
  {
    hide LoadLog, LoadsLog, FitCount;
    ghost var ls := Pair(at);
    Start(ls, at);
    LogNext(ls, 0);
    LogNext(ls, 1);
    ghost var fit := 0;
    vaddr := at;
    var i := 0;
    while i < 2
      invariant i <= 2 && fit <= i
      invariant vaddr == at + PAGE_SIZE * fit
      invariant AllFit(ls[..fit]) && context.log == old(context.log) + LoadsLog(ls[..fit])
      invariant fit < i ==> !Fits(ls[fit])
    {
      var result, v := MeasurePage(context, BLANK_PAGE, vaddr, true, false);
      if result.OK? {
        fit := fit + 1;
      }
      vaddr := v;
      i := i + 1;
    }
    StoppedAt(ls, fit);
    FittingIs(ls, fit);
  }

  /** The thread's five control pages, when the first of them fits: nothing wraps. */
  lemma ControlAddresses(e: Record, start: nat)
    requires Fits(TcsLoad(e, start))
    ensures var t := TcsLoad(e, start).vaddr;
            && t + 16 * PAGE_SIZE < UINT64_LIMIT
            && ControlLoads(e, start)
            == [TcsLoad(e, start)] + Pair(t + PAGE_SIZE) + Pair(t + 4 * PAGE_SIZE)
            && t + 6 * PAGE_SIZE == Wrap(start + PAGE_SIZE * (e.stack + 8))
  {
    hide TcsPage;
    var x := start + PAGE_SIZE * (e.stack + 2);
    StepInside(x, 1);
    StepInside(x, 2);
    StepInside(x, 4);
    StepInside(x, 5);
    StepInside(x, 6);
  }

  lemma StepInside(x: nat, k: nat)
    requires Wrap(x) + 16 * PAGE_SIZE < UINT64_LIMIT && k <= 16
    ensures Wrap(x + PAGE_SIZE * k) == Wrap(x) + PAGE_SIZE * k
  {
    WrapAdd(x, PAGE_SIZE * k);
  }

  /** A control page and the blank pages behind it, two on each side of a guard page. The
      results of the last four measurements are not looked at. */
  method MeasureControlPages(context: Sha256Context, e: Record, guard: uint64, ghost start: nat)
    returns (result: OeResult, vaddr: uint64)
    requires guard == Wrap(start + PAGE_SIZE * (e.stack + 1))
    modifies context
    ensures result.OK? <==> Fits(TcsLoad(e, start))
    ensures context.log == old(context.log) + LoadsLog(Fitting(ControlLoads(e, start)))
    ensures result.OK? && AllFit(ControlLoads(e, start)) ==> vaddr == Wrap(start + PAGE_SIZE * (e.stack + 8))
    ensures result.OK? && !AllFit(ControlLoads(e, start)) ==> Stuck(vaddr)
  {
    hide LoadLog, LoadsLog, TcsPage, ControlLoads, FitCount, Fitting, AllFit, Wrap;
    vaddr := Wrap(guard + PAGE_SIZE);
    WrapAdd(start + PAGE_SIZE * (e.stack + 1), PAGE_SIZE);
    TcsPageWraps(start + PAGE_SIZE * (e.stack + 2), e.entryPoint, e.tlsPageCount);
    var tcs := TcsPage(vaddr, e.entryPoint, e.tlsPageCount);
    ghost var t := TcsLoad(e, start);
    AboveBase(vaddr);
    result := MeasureLoadEnclaveData(context, BASE, Wrap(BASE + vaddr), Some(tcs), SECINFO_TCS, true);
    if !result.OK? {
      TcsUnfit(e, start);
      return;
    }
    ControlAddresses(e, start);
    BlanksFit(t);
    vaddr := vaddr + PAGE_SIZE;
    ghost var first := Fitting(Pair(vaddr));
    vaddr := MeasureBlankPages(context, vaddr);
    vaddr := vaddr + PAGE_SIZE; /* guard page */
    ThreeLogs(t, first, Fitting(Pair(vaddr)));
    vaddr := MeasureBlankPages(context, vaddr);
  }

  function Pair(vaddr: uint64): (ls: seq<PageLoad>)
    requires vaddr + PAGE_SIZE < UINT64_LIMIT
    ensures |ls| == 2
  {
    [BlankAt(vaddr), BlankAt(vaddr + PAGE_SIZE)]
  }

  /** The second pair starts where the first left off, a page further on. Once a blank page has
      failed so do all that follow, and the loads that did fit are a prefix. */
  lemma BlanksFit(tcs: PageLoad)
    requires BASE + tcs.vaddr < UINT64_LIMIT
    ensures var t := tcs.vaddr;
            var c := FitCount(Pair(t + PAGE_SIZE));
            var second := Pair(t + PAGE_SIZE * (2 + c));
            var all := [tcs] + Pair(t + PAGE_SIZE) + Pair(t + 4 * PAGE_SIZE);
            var end := t + PAGE_SIZE * (2 + c + FitCount(second));
            && Fitting(all) == [tcs] + Fitting(Pair(t + PAGE_SIZE)) + Fitting(second)
            && if AllFit(all) then end == t + 6 * PAGE_SIZE else Stuck(end)
  {
    hide FitCount, Pair, Fits, AllFit;
    var t := tcs.vaddr;
    PairCount(t + PAGE_SIZE);
    PairCount(t + 4 * PAGE_SIZE);
    var first, last := Pair(t + PAGE_SIZE), Pair(t + 4 * PAGE_SIZE);
    var c := FitCount(first);
    PairCount(t + PAGE_SIZE * (2 + c));
    FittingAppend([tcs] + first, last);
    FittingAppend([tcs], first);
    assert AllFit([tcs]) by { OneFits(tcs); }
    FittingAll(first);
    FittingAll(last);
  }

  lemma OneFits(l: PageLoad)
    requires BASE + l.vaddr < UINT64_LIMIT
    ensures AllFit([l])
  {
  }

  lemma PairCount(v: uint64)
    requires v + PAGE_SIZE < UINT64_LIMIT
    ensures FitCount(Pair(v))
         == if BASE + v >= UINT64_LIMIT then 0 else if BASE + v + PAGE_SIZE >= UINT64_LIMIT then 1 else 2
  {
    hide FitCount;
    assert Pair(v)[0].vaddr == v && Pair(v)[1].vaddr == v + PAGE_SIZE;
  }

  lemma ThreeLogs(a: PageLoad, b: seq<PageLoad>, c: seq<PageLoad>)
    ensures LoadsLog([a] + b + c) == LoadLog(a) + LoadsLog(b) + LoadsLog(c)
  {
    hide LoadLog;
    LoadsLogAppend([a] + b, c);
    LoadsLogAppend([a], b);
    assert LoadsLog([a]) == LoadLog(a) + LoadsLog([]);
  }


  lemma TcsPageWraps(vaddr: nat, entryPoint: uint64, tlsPageCount: uint64)
    ensures TcsPage(Wrap(vaddr), entryPoint, tlsPageCount) == TcsPage(vaddr, entryPoint, tlsPageCount)
  {
    hide LittleEndian, Wrap;
    WrapAdd(vaddr, PAGE_SIZE);
    WrapAdd(vaddr, (tlsPageCount + TCS_CONTROL_PAGES) * PAGE_SIZE);
  }

  lemma TcsUnfit(e: Record, start: nat)
    requires !Fits(TcsLoad(e, start))
    ensures LoadsLog(Fitting(ControlLoads(e, start))) == [] && !AllFit(ControlLoads(e, start))
  {
    hide FitCount, TcsPage, Fits, TcsLoad, BlankLoad;
    assert ControlLoads(e, start)[0] == TcsLoad(e, start);
    FittingIs(ControlLoads(e, start), 0);
  }

  method MeasureThread(context: Sha256Context, e: Record, start: uint64) returns (result: OeResult, vaddr: uint64)
    modifies context
    ensures result.OK? <==> AllFit(ThreadLoads(e, start)[..e.stack + 1])
    ensures context.log == old(context.log) + LoadsLog(Fitting(ThreadLoads(e, start)))
    ensures result.OK? && AllFit(ThreadLoads(e, start)) ==> vaddr == Wrap(start + PAGE_SIZE * (e.stack + 8))
    ensures result.OK? && !AllFit(ThreadLoads(e, start)) ==> Stuck(vaddr)
  {
    hide LoadLog, LoadsLog, ControlLoads, TcsLoad, StackLoads, Fitting, AllFit, Fits, Wrap;
    ghost var stack, control := StackLoads(start, e.stack), ControlLoads(e, start);
    FittingAppend(stack, control);
    LoadsLogAppend(stack, Fitting(control));
    NoticedOfThread(e, start);
    result, vaddr := MeasureStack(context, e, start);
    if !result.OK? {
      return;
    }
    FittingAll(stack);
    result, vaddr := MeasureControlPages(context, e, vaddr, start);
  }

  lemma NoticedOfThread(e: Record, start: nat)
    ensures AllFit(ThreadLoads(e, start)[..e.stack + 1])
       <==> AllFit(StackLoads(start, e.stack)) && Fits(TcsLoad(e, start))
  {
    hide Fits, StackLoads, TcsLoad, BlankLoad;
    var stack, tcs := StackLoads(start, e.stack), TcsLoad(e, start);
    assert ThreadLoads(e, start)[..e.stack + 1] == stack + [tcs];
    FittingAppend(stack, [tcs]);
    assert AllFit([tcs]) <==> Fits([tcs][0]);
  }

  /** A thread sees its start only modulo 2^64. */
  lemma ThreadWraps(e: Record, start: nat)
    ensures ThreadLoads(e, Wrap(start)) == ThreadLoads(e, start)
    ensures Wrap(Wrap(start) + PAGE_SIZE * (e.stack + 8)) == Wrap(start + PAGE_SIZE * (e.stack + 8))
  {
    hide TcsPage, Wrap;
    var v := Wrap(start);
    forall i | 0 <= i < e.stack ensures StackLoads(v, e.stack)[i] == StackLoads(start, e.stack)[i] {
      WrapAdd(start, PAGE_SIZE * (1 + i));
    }
    WrapAdd(start, PAGE_SIZE * (e.stack + 2));
    TcsPageWraps(v + PAGE_SIZE * (e.stack + 2), e.entryPoint, e.tlsPageCount);
    TcsPageWraps(start + PAGE_SIZE * (e.stack + 2), e.entryPoint, e.tlsPageCount);
    WrapAdd(start, PAGE_SIZE * (e.stack + 3));
    WrapAdd(start, PAGE_SIZE * (e.stack + 4));
    WrapAdd(start, PAGE_SIZE * (e.stack + 6));
    WrapAdd(start, PAGE_SIZE * (e.stack + 7));
    WrapAdd(start, PAGE_SIZE * (e.stack + 8));
  }

  /** A thread that starts stuck measures nothing, and that is noticed. */
  lemma ThreadStuck(e: Record, start: nat)
    requires Stuck(start)
    ensures Fitting(ThreadLoads(e, start)) == [] && !AllFit(ThreadLoads(e, start)[..e.stack + 1])
  {
    hide TcsPage, FitCount;
    var ls := ThreadLoads(e, start);
    assert e.stack > 0 ==> ls[0] == StackLoads(start, e.stack)[0];
    assert e.stack == 0 ==> ls[0] == TcsLoad(e, start);
    assert !Fits(ls[0]) && ls[..e.stack + 1][0] == ls[0];
    FittingIs(ls, 0);
  }

  /** The loads of the first `n` threads whose failure is noticed. */
  function NoticedThreads(e: Record, n: nat): seq<PageLoad> {
    if n == 0 then [] else ThreadsLoads(e, n - 1) + ThreadLoads(e, ThreadStart(e, n - 1))[..e.stack + 1]
  }

  /** What goes wrong in the first `n` threads goes wrong in all of them. */
  lemma {:induction false} ThreadsPrefix(e: Record, n: nat, m: nat)
    requires n <= m
    ensures ThreadsLoads(e, n) <= ThreadsLoads(e, m)
    ensures !AllFit(ThreadsLoads(e, n)) ==>
              Fitting(ThreadsLoads(e, m)) == Fitting(ThreadsLoads(e, n)) && !AllFit(ThreadsLoads(e, m))
    decreases m
  {
    hide ThreadLoads, Fitting, AllFit;
    if n < m {
      ThreadsPrefix(e, n, m - 1);
      FittingAppend(ThreadsLoads(e, m - 1), ThreadLoads(e, ThreadStart(e, m - 1)));
    }
  }

  lemma NoticedPrefix(e: Record, n: nat, m: nat)
    requires n < m
    ensures !AllFit(ThreadsLoads(e, n)) ==> !AllFit(NoticedThreads(e, m))
    ensures !AllFit(NoticedThreads(e, n)) ==> !AllFit(NoticedThreads(e, m))
    ensures AllFit(ThreadsLoads(e, n)) ==> AllFit(NoticedThreads(e, n))
  {
    hide ThreadLoads, Fitting, AllFit, ThreadsLoads;
    ThreadsPrefix(e, n, m - 1);
    FittingAppend(ThreadsLoads(e, m - 1), ThreadLoads(e, ThreadStart(e, m - 1))[..e.stack + 1]);
    NoticedInside(e, n);
  }

  lemma NoticedInside(e: Record, n: nat)
    ensures !AllFit(NoticedThreads(e, n)) ==> !AllFit(ThreadsLoads(e, n))
  {
    hide ThreadLoads, Fitting, AllFit;
    if n > 0 {
      var ls := ThreadLoads(e, ThreadStart(e, n - 1));
      assert ls == ls[..e.stack + 1] + ls[e.stack + 1..];
      FittingAppend(ThreadsLoads(e, n - 1), ls);
      FittingAppend(ThreadsLoads(e, n - 1), ls[..e.stack + 1]);
      FittingAppend(ls[..e.stack + 1], ls[e.stack + 1..]);
    }
  }

  method MeasureThreads(context: Sha256Context, e: Record, at: uint64) returns (result: OeResult, vaddr: uint64)
    requires at == Wrap(ThreadStart(e, 0))
    modifies context
    ensures result.OK? <==> AllFit(NoticedThreads(e, e.tcs))
    ensures context.log == old(context.log) + LoadsLog(Fitting(ThreadsLoads(e, e.tcs)))
    ensures result.OK? && AllFit(ThreadsLoads(e, e.tcs)) ==> vaddr == Wrap(ThreadStart(e, e.tcs))
    ensures result.OK? && !AllFit(ThreadsLoads(e, e.tcs)) ==> Stuck(vaddr)
  {
    hide LoadLog, LoadsLog, ThreadLoads, Fitting, AllFit, Fits, Wrap, Stuck, NoticedThreads, ThreadsLoads, ThreadStart;
    result, vaddr := OK, at;
    NoThreads(e);
    var i := 0;
    while i < e.tcs
      invariant i <= e.tcs && result.OK? && AllFit(NoticedThreads(e, i))
      invariant context.log == old(context.log) + LoadsLog(Fitting(ThreadsLoads(e, i)))
      invariant AllFit(ThreadsLoads(e, i)) ==> vaddr == Wrap(ThreadStart(e, i))
      invariant !AllFit(ThreadsLoads(e, i)) ==> Stuck(vaddr)
    {
      ghost var start := vaddr;
      NextThread(e, i, start);
      if i + 1 < e.tcs {
        NoticedPrefix(e, i + 1, e.tcs);
      }
      ThreadsPrefix(e, i + 1, e.tcs);
      NoticedInside(e, i + 1);
      result, vaddr := MeasureThread(context, e, vaddr);
      if !result.OK? {
        return;
      }
      i := i + 1;
    }
  }

  lemma NoThreads(e: Record)
    ensures AllFit(NoticedThreads(e, 0)) && AllFit(ThreadsLoads(e, 0)) && LoadsLog(Fitting(ThreadsLoads(e, 0))) == []
  {
  }

  /** One more thread, from wherever the ones before have left off. */
  lemma NextThread(e: Record, i: nat, at: uint64)
    requires AllFit(ThreadsLoads(e, i)) ==> at == Wrap(ThreadStart(e, i))
    requires !AllFit(ThreadsLoads(e, i)) ==> Stuck(at)
    ensures AllFit(ThreadLoads(e, at)[..e.stack + 1]) <==> AllFit(NoticedThreads(e, i + 1))
    ensures LoadsLog(Fitting(ThreadsLoads(e, i + 1)))
         == LoadsLog(Fitting(ThreadsLoads(e, i))) + LoadsLog(Fitting(ThreadLoads(e, at)))
    ensures AllFit(ThreadLoads(e, at)[..e.stack + 1]) ==>
              && (AllFit(ThreadsLoads(e, i + 1)) <==> AllFit(ThreadLoads(e, at)))
              && Wrap(at + PAGE_SIZE * (e.stack + 8)) == Wrap(ThreadStart(e, i + 1))
  {
    hide LoadLog, ThreadLoads, Fitting, AllFit, Fits, Wrap, Stuck;
    var before, start := ThreadsLoads(e, i), ThreadStart(e, i);
    FittingAppend(before, ThreadLoads(e, start));
    FittingAppend(before, ThreadLoads(e, start)[..e.stack + 1]);
    if AllFit(before) {
      ThreadWraps(e, start);
      LoadsLogAppend(before, Fitting(ThreadLoads(e, start)));
      FittingAll(before);
    } else {
      ThreadStuck(e, at);
      assert LoadsLog([]) == [];
    }
  }

  /** One page of the structure: zeroed, then filled with a page's worth of bytes, or for the
      last page with the remainder. */
  method FillEeidPage(image: seq<byte>, numPages: nat, i: nat) returns (page: array<byte>)
    requires i < numPages == NumEeidPages(|image|)
    ensures page.Length == PAGE_SIZE && fresh(page)
    ensures forall k :: 0 <= k < PAGE_SIZE ==>
              page[k] == if PAGE_SIZE * i + k < BoundBytes(|image|) then image[PAGE_SIZE * i + k] else 0
  {
    page := new byte[PAGE_SIZE](_ => 0);
    var n := if i != numPages - 1 then PAGE_SIZE else |image| % PAGE_SIZE;
    RemainderRule(|image|, i);
    var k := 0;
    while k < n
      invariant 0 <= k <= n
      invariant forall j :: 0 <= j < PAGE_SIZE ==> page[j] == if j < k then image[PAGE_SIZE * i + j] else 0
    {
      page[k] := image[PAGE_SIZE * i + k];
      k := k + 1;
    }
  }

  /** The remainder rule copies exactly the bound bytes that fall on the page. */
  lemma RemainderRule(size: nat, i: nat)
    requires i < NumEeidPages(size)
    ensures i < NumEeidPages(size) - 1 ==> PAGE_SIZE * (i + 1) <= BoundBytes(size) <= size
    ensures i == NumEeidPages(size) - 1 ==> PAGE_SIZE * i + size % PAGE_SIZE == BoundBytes(size) <= size
  {
  }

  method MeasureEeidPages(context: Sha256Context, image: seq<byte>, start: uint64)
    returns (result: OeResult, vaddr: uint64)
    modifies context
    ensures result.OK? <==> AllFit(EeidLoads(start, image, NumEeidPages(|image|)))
    ensures context.log == old(context.log) + LoadsLog(Fitting(EeidLoads(start, image, NumEeidPages(|image|))))
  {
    hide LoadLog, LoadsLog, Wrap, Fitting, AllFit, BoundByte, BoundBytes;
    result, vaddr := OK, start;
    var numBytes := |image|;
    var numPages := numBytes / PAGE_SIZE + if numBytes % PAGE_SIZE != 0 then 1 else 0;
    ghost var ls := EeidLoads(start, image, numPages);
    Start(ls, start);
    var i := 0;
    while i < numPages
      invariant i <= numPages && result.OK?
      invariant vaddr == Wrap(start + PAGE_SIZE * i)
      invariant AllFit(ls[..i]) && context.log == old(context.log) + LoadsLog(ls[..i])
    {
      LogNext(ls, i);
      var page := FillEeidPage(image, numPages, i);
      PageIs(image, i, page[..]);
      result, vaddr := MeasurePage(context, page[..], vaddr, true, true);
      if !result.OK? {
        StoppedAt(ls, i);
        return;
      }
      WrapAdd(start + PAGE_SIZE * i, PAGE_SIZE);
      i := i + 1;
    }
    StoppedAt(ls, i);
  }

  lemma PageIs(image: seq<byte>, i: nat, page: seq<byte>)
    requires |page| == PAGE_SIZE
    requires forall k :: 0 <= k < PAGE_SIZE ==>
               page[k] == if PAGE_SIZE * i + k < BoundBytes(|image|) then image[PAGE_SIZE * i + k] else 0
    ensures page == EeidPage(image, i)
  {
    hide BoundBytes;
    forall k | 0 <= k < PAGE_SIZE ensures page[k] == EeidPage(image, i)[k] {
      PageAt(image, i, k);
    }
  }

  /** What the parts of the replay say about the whole. */
  lemma ReplayParts(e: Record, withEeidPages: bool)
    ensures var heap, threads := HeapLoads(e.vaddr, e.heap), ThreadsLoads(e, e.tcs);
            var pages := EeidLoads(ThreadStart(e, e.tcs), Image(e), NumEeidPages(|Image(e)|));
            var all := Replay(e, withEeidPages);
            && (AllFit(all) <==> AllFit(heap) && AllFit(threads) && (withEeidPages ==> AllFit(pages)))
            && (AllFit(Noticed(e, withEeidPages)) <==>
                  if withEeidPages then AllFit(all) else AllFit(heap) && AllFit(NoticedThreads(e, e.tcs)))
            && (AllFit(threads) ==> AllFit(NoticedThreads(e, e.tcs)))
            && (AllFit(heap) && !withEeidPages ==>
                  LoadsLog(Fitting(all)) == LoadsLog(Fitting(heap)) + LoadsLog(Fitting(threads)))
            && (AllFit(heap) && AllFit(threads) && withEeidPages ==>
                  LoadsLog(Fitting(all)) == LoadsLog(Fitting(heap)) + LoadsLog(Fitting(threads)) + LoadsLog(Fitting(pages)))
  {
    hide LoadsLog, HeapLoads, ThreadsLoads, NoticedThreads, EeidLoads, AllFit, Fitting, Image;
    var heap, threads := HeapLoads(e.vaddr, e.heap), ThreadsLoads(e, e.tcs);
    var pages := EeidLoads(ThreadStart(e, e.tcs), Image(e), NumEeidPages(|Image(e)|));
    NoticedInside(e, e.tcs);
    FittingAppend(heap, threads);
    FittingAppend(heap + threads, pages);
    FittingAll(heap);
    FittingAll(threads);
    LoadsLogAppend(heap, Fitting(threads));
    LoadsLogAppend(heap, threads);
    LoadsLogAppend(heap + threads, Fitting(pages));
    assert heap + threads + [] == heap + threads;
    if !withEeidPages {
      NoticedIs(e);
      FittingAppend(heap, NoticedThreads(e, e.tcs));
    }
  }

  lemma NoticedIs(e: Record)
    ensures Noticed(e, false) == HeapLoads(e.vaddr, e.heap) + NoticedThreads(e, e.tcs)
  {
    hide HeapLoads, ThreadLoads;
    var heap := HeapLoads(e.vaddr, e.heap);
    assert Replay(e, false) == heap + ThreadsLoads(e, e.tcs);
    if e.tcs > 0 {
      var last := ThreadLoads(e, ThreadStart(e, e.tcs - 1));
      assert last == last[..e.stack + 1] + last[e.stack + 1..];
    }
  }

  /** The EEID pages, from wherever the threads have left off. */
  lemma EeidPagesFrom(e: Record, at: uint64)
    requires |Image(e)| > 0
    requires AllFit(ThreadsLoads(e, e.tcs)) ==> at == Wrap(ThreadStart(e, e.tcs))
    requires !AllFit(ThreadsLoads(e, e.tcs)) ==> Stuck(at)
    ensures var n := NumEeidPages(|Image(e)|);
            if AllFit(ThreadsLoads(e, e.tcs))
            then EeidLoads(at, Image(e), n) == EeidLoads(ThreadStart(e, e.tcs), Image(e), n)
            else !AllFit(EeidLoads(at, Image(e), n))
  {
    hide ThreadsLoads, ThreadStart, Image, EeidPage, Wrap;
    var n := NumEeidPages(|Image(e)|);
    assert n > 0;
    if AllFit(ThreadsLoads(e, e.tcs)) {
      forall i | 0 <= i < n
        ensures EeidLoads(at, Image(e), n)[i] == EeidLoads(ThreadStart(e, e.tcs), Image(e), n)[i]
      {
        WrapAdd(ThreadStart(e, e.tcs), PAGE_SIZE * i);
      }
    } else {
      Start([], at);
      assert !Fits(EeidLoads(at, Image(e), n)[0]);
    }
  }

  /** The hash is taken over `hashed`, when the replay gets that far; the result code says OK
      either way. A hash comes out exactly when every load fits whose failure is noticed, and it
      covers the whole replay exactly when every load fits. */
  method RemeasureMemoryPages(context: Sha256Context, e: Record, withEeidPages: bool)
    returns (result: OeResult, hashed: Option<seq<byte>>)
    requires Valid(e)
    modifies context
    ensures result.OK?
    ensures hashed.Some? <==> AllFit(Noticed(e, withEeidPages))
    ensures hashed.Some? ==> hashed.value == old(context.log) + LoadsLog(Fitting(Replay(e, withEeidPages)))
    ensures hashed == Some(old(context.log) + LoadsLog(Replay(e, withEeidPages))) <==> AllFit(Replay(e, withEeidPages))
  {
    hide LoadsLog, HeapLoads, ThreadsLoads, NoticedThreads, EeidLoads, AllFit, Fitting, Stuck, Replay, Noticed, Image;
    ReplayParts(e, withEeidPages);
    FittingLog(Replay(e, withEeidPages));
    SamePrefix(context.log, LoadsLog(Fitting(Replay(e, withEeidPages))), LoadsLog(Replay(e, withEeidPages)));
    var step, vaddr := MeasureHeap(context, e);
    if !step.OK? {
      return OK, None;
    }
    step, vaddr := MeasureThreads(context, e, vaddr);
    if !step.OK? {
      return OK, None;
    }
    if withEeidPages {
      ImageLength(e);
      EeidPagesFrom(e, vaddr);
      step, vaddr := MeasureEeidPages(context, Image(e), vaddr);
      if !step.OK? {
        return OK, None;
      }
    }
    return OK, Some(context.log);
  }

  lemma SamePrefix(s: seq<byte>, a: seq<byte>, b: seq<byte>)
    ensures s + a == s + b <==> a == b
  {
    assert (s + a)[|s|..] == a && (s + b)[|s|..] == b;
  }

  /** A supported structure with these settings and no data. */
  function Bare(heap: uint64, stack: uint64, tcs: uint64, vaddr: uint64): Record {
    Record(EEID_VERSION, [0, 0, 0, 0, 0, 0, 0, 0], [0, 0], 0, heap, stack, tcs, vaddr, 0, 0, 0, [])
  }

  /** One heap page at the top of the address space: OK is returned and there is no hash. */
  lemma HashMissing(withEeidPages: bool)
    ensures var e := Bare(1, 0, 0, UINT64_LIMIT - 1);
            Valid(e) && !AllFit(Noticed(e, withEeidPages))
  {
    hide EeidLoads, Image;
    var e := Bare(1, 0, 0, UINT64_LIMIT - 1);
    assert Replay(e, withEeidPages)[0] == HeapLoads(e.vaddr, 1)[0];
    assert !Fits(Replay(e, withEeidPages)[0]);
    assert Noticed(e, withEeidPages) == Replay(e, withEeidPages);
  }

  /** A thread whose control page is the last to fit: the hash leaves its blank pages out. */
  lemma HashIncomplete()
    ensures var e := Bare(0, 0, 1, UINT64_LIMIT - BASE - 1 - 2 * PAGE_SIZE);
            Valid(e) && AllFit(Noticed(e, false)) && !AllFit(Replay(e, false))
  {
    hide TcsPage;
    var e := Bare(0, 0, 1, UINT64_LIMIT - BASE - 1 - 2 * PAGE_SIZE);
    var start := ThreadStart(e, 0);
    assert ThreadsLoads(e, 0) == [] && ThreadsLoads(e, 1) == ControlLoads(e, start);
    assert Replay(e, false) == ControlLoads(e, start);
    assert Noticed(e, false) == [TcsLoad(e, start)];
    assert !Fits(Replay(e, false)[1]);
  }
}
