/** What the EEID replay lays out, and why its log pins the size settings down. */
module EeidLayout {
  import opened Bytes
  import opened Measure
  import opened EeidCodec
  import opened EeidImage
  import opened EeidReplay

  // ----- how many pages are measured

  /** Page loads per thread. */
  function PerThread(e: Record): nat { e.stack + 5 }

  lemma {:induction false} ThreadsLoadsLength(e: Record, n: nat)
    ensures |ThreadsLoads(e, n)| == n * PerThread(e)
  {
    hide ThreadLoads;
    if n > 0 {
      ThreadsLoadsLength(e, n - 1);
      assert (n - 1) * PerThread(e) + PerThread(e) == n * PerThread(e);
    }
  }

  /** The replay measures heap + tcs * (stack + 5) pages, and the EEID pages when asked to. */
  lemma ReplayCount(e: Record, withEeidPages: bool)
    ensures |BaseLoads(e)| == e.heap + e.tcs * (e.stack + 5)
    ensures |Replay(e, withEeidPages)| ==
            e.heap + e.tcs * (e.stack + 5) + if withEeidPages then (|Image(e)| + PAGE_SIZE - 1) / PAGE_SIZE else 0
  {
    ThreadsLoadsLength(e, e.tcs);
  }

  /** The part before the EEID pages ends at vaddr + 4096 * (heap + tcs * (stack + 8)). */
  lemma {:induction false} ThreadStartClosedForm(e: Record, t: nat)
    ensures ThreadStart(e, t) == e.vaddr + PAGE_SIZE * (e.heap + t * (e.stack + 8))
  {
    if t > 0 {
      ThreadStartClosedForm(e, t - 1);
      assert (t - 1) * (e.stack + 8) + (e.stack + 8) == t * (e.stack + 8);
    }
  }

  // ----- where the pages lie

  /** The replay's span, guard pages included, ends within the address space. */
  predicate Unwrapped(e: Record, withEeidPages: bool) {
    End(e, withEeidPages) <= UINT64_LIMIT
  }

  function End(e: Record, withEeidPages: bool): nat {
    ThreadStart(e, e.tcs) + if withEeidPages then PAGE_SIZE * NumEeidPages(|Image(e)|) else 0
  }

  lemma {:induction false} ThreadsAt(e: Record, n: nat, t: nat, j: nat)
    requires t < n && j < PerThread(e)
    ensures t * PerThread(e) + j < |ThreadsLoads(e, n)|
    ensures ThreadsLoads(e, n)[t * PerThread(e) + j] == ThreadLoads(e, ThreadStart(e, t))[j]
  {
    hide ThreadLoads;
    ThreadsLoadsLength(e, n);
    ThreadsLoadsLength(e, n - 1);
    if t < n - 1 {
      ThreadsAt(e, n - 1, t, j);
    }
  }

  /** The `j`th load of thread `t`, as it stands in the whole replay. */
  lemma ReplayAt(e: Record, withEeidPages: bool, t: nat, j: nat)
    requires t < e.tcs && j < PerThread(e)
    ensures e.heap + t * PerThread(e) + j < |BaseLoads(e)| <= |Replay(e, withEeidPages)|
    ensures Replay(e, withEeidPages)[e.heap + t * PerThread(e) + j] == ThreadLoads(e, ThreadStart(e, t))[j]
  {
    hide ThreadLoads, ThreadsLoads, HeapLoads, EeidLoads, ThreadStart, PerThread;
    ThreadsAt(e, e.tcs, t, j);
    var k := t * PerThread(e) + j;
    Shifted(HeapLoads(e.vaddr, e.heap), ThreadsLoads(e, e.tcs), k);
    assert e.heap + t * PerThread(e) + j == e.heap + k;
  }

  lemma Shifted(a: seq<PageLoad>, b: seq<PageLoad>, k: nat)
    requires k < |b|
    ensures (a + b)[|a| + k] == b[k]
  {
  }

  /** Loads on distinct pages of [lo, hi), in increasing order, each a whole number of pages above lo. */
  predicate Ascending(ls: seq<PageLoad>, lo: nat, hi: nat) {
    && (forall i :: 0 <= i < |ls| ==> InSteps(ls[i].vaddr, lo, hi))
    && (forall i, j :: 0 <= i < j < |ls| ==> ls[i].vaddr + PAGE_SIZE <= ls[j].vaddr)
  }

  predicate InSteps(v: nat, lo: nat, hi: nat) {
    lo <= v && v + PAGE_SIZE <= hi && (v - lo) % PAGE_SIZE == 0
  }

  lemma AscendingAppend(a: seq<PageLoad>, b: seq<PageLoad>, lo: nat, mid: nat, hi: nat)
    requires Ascending(a, lo, mid) && Ascending(b, mid, hi)
    requires lo <= mid <= hi && (mid - lo) % PAGE_SIZE == 0
    ensures Ascending(a + b, lo, hi)
  {
    var ls := a + b;
    forall i | 0 <= i < |ls| ensures InSteps(ls[i].vaddr, lo, hi) {
      if i < |a| {
        assert InSteps(a[i].vaddr, lo, mid);
      } else {
        assert InSteps(b[i - |a|].vaddr, mid, hi);
      }
    }
    forall i, j | 0 <= i < j < |ls| ensures ls[i].vaddr + PAGE_SIZE <= ls[j].vaddr {
      if i < |a| <= j {
        assert InSteps(a[i].vaddr, lo, mid) && InSteps(b[j - |a|].vaddr, mid, hi);
      }
    }
  }

  lemma HeapAscending(e: Record)
    requires ThreadStart(e, 0) <= UINT64_LIMIT
    ensures Ascending(HeapLoads(e.vaddr, e.heap), e.vaddr, ThreadStart(e, 0))
  {
    var ls := HeapLoads(e.vaddr, e.heap);
    forall i | 0 <= i < |ls| ensures InSteps(ls[i].vaddr, e.vaddr, ThreadStart(e, 0)) {
      assert ls[i].vaddr == e.vaddr + PAGE_SIZE * i;
    }
  }

  /** Which page of a thread's span its `j`th load fills: pages 0, stack + 1 and stack + 5 are guards. */
  function Slot(e: Record, j: nat): (k: nat)
    requires j < PerThread(e)
    ensures k != 0 && k != e.stack + 1 && k != e.stack + 5 && k < e.stack + 8
  {
    if j < e.stack then j + 1 else if j < e.stack + 3 then j + 2 else j + 3
  }

  lemma ThreadSlots(e: Record, start: nat, j: nat)
    requires j < PerThread(e)
    ensures ThreadLoads(e, start)[j].vaddr == Wrap(start + PAGE_SIZE * Slot(e, j))
    ensures ThreadLoads(e, start)[j].extend
    ensures ThreadLoads(e, start)[j].flags == if j == e.stack then SECINFO_TCS else READ_WRITE
  {
    hide TcsPage;
  }

  lemma ThreadAscending(e: Record, start: nat)
    requires start + PAGE_SIZE * (e.stack + 8) <= UINT64_LIMIT
    ensures Ascending(ThreadLoads(e, start), start, start + PAGE_SIZE * (e.stack + 8))
  {
    hide ThreadLoads;
    var ls := ThreadLoads(e, start);
    forall i | 0 <= i < |ls| ensures ls[i].vaddr == start + PAGE_SIZE * Slot(e, i) {
      ThreadSlots(e, start, i);
    }
  }

  lemma {:induction false} ThreadsAscending(e: Record, n: nat)
    requires ThreadStart(e, n) <= UINT64_LIMIT
    ensures Ascending(ThreadsLoads(e, n), ThreadStart(e, 0), ThreadStart(e, n))
    ensures ThreadStart(e, 0) <= ThreadStart(e, n) && (ThreadStart(e, n) - ThreadStart(e, 0)) % PAGE_SIZE == 0
  {
    hide ThreadLoads, InSteps;
    if n > 0 {
      ThreadStartMonotone(e, n - 1, n);
      ThreadsAscending(e, n - 1);
      ThreadAscending(e, ThreadStart(e, n - 1));
      AscendingAppend(ThreadsLoads(e, n - 1), ThreadLoads(e, ThreadStart(e, n - 1)),
                      ThreadStart(e, 0), ThreadStart(e, n - 1), ThreadStart(e, n));
    }
  }

  lemma EeidAscending(start: nat, image: seq<byte>)
    requires start + PAGE_SIZE * NumEeidPages(|image|) <= UINT64_LIMIT
    ensures Ascending(EeidLoads(start, image, NumEeidPages(|image|)), start, start + PAGE_SIZE * NumEeidPages(|image|))
  {
    hide EeidPage;
    var ls := EeidLoads(start, image, NumEeidPages(|image|));
    forall i | 0 <= i < |ls| ensures ls[i].vaddr == start + PAGE_SIZE * i {}
  }

  lemma {:induction false} ThreadStartSteps(e: Record, t: nat)
    ensures (ThreadStart(e, t) - e.vaddr) % PAGE_SIZE == 0
  {
    if t > 0 {
      ThreadStartSteps(e, t - 1);
    }
  }

  lemma BaseAscending(e: Record)
    requires ThreadStart(e, e.tcs) <= UINT64_LIMIT
    ensures Ascending(BaseLoads(e), e.vaddr, ThreadStart(e, e.tcs))
  {
    hide HeapLoads, ThreadsLoads, Ascending;
    ThreadStartMonotone(e, 0, e.tcs);
    ThreadStartSteps(e, 0);
    HeapAscending(e);
    ThreadsAscending(e, e.tcs);
    AscendingAppend(HeapLoads(e.vaddr, e.heap), ThreadsLoads(e, e.tcs),
                    e.vaddr, ThreadStart(e, 0), ThreadStart(e, e.tcs));
  }

  /** Every measured page is a whole number of pages above vaddr, and offsets only grow. */
  lemma ReplayAscending(e: Record, withEeidPages: bool)
    requires Unwrapped(e, withEeidPages)
    ensures Ascending(Replay(e, withEeidPages), e.vaddr, End(e, withEeidPages))
  {
    hide BaseLoads, EeidLoads, Ascending, NumEeidPages, ThreadStart;
    BaseAscending(e);
    ThreadStartSteps(e, e.tcs);
    var end := ThreadStart(e, e.tcs);
    if withEeidPages {
      EeidAscending(end, Image(e));
      AscendingAppend(BaseLoads(e), EeidLoads(end, Image(e), NumEeidPages(|Image(e)|)),
                      e.vaddr, end, end + PAGE_SIZE * NumEeidPages(|Image(e)|));
    } else {
      assert BaseLoads(e) + [] == BaseLoads(e);
    }
  }

  /** A span that ends below the top of the address space, measured from the base, fits. */
  lemma SpanFits(e: Record, withEeidPages: bool)
    requires BASE + End(e, withEeidPages) <= UINT64_LIMIT
    ensures AllFit(Replay(e, withEeidPages))
  {
    hide Replay, End;
    ReplayAscending(e, withEeidPages);
    var ls := Replay(e, withEeidPages);
    forall i | 0 <= i < |ls| ensures Fits(ls[i]) {
      assert InSteps(ls[i].vaddr, e.vaddr, End(e, withEeidPages));
    }
  }

  predicate Guard(e: Record, g: nat) {
    g == 0 || g == e.stack + 1 || g == e.stack + 5
  }

  lemma OwnGuards(e: Record, start: nat, g: nat)
    requires start + PAGE_SIZE * (e.stack + 8) <= UINT64_LIMIT && Guard(e, g)
    ensures forall i :: 0 <= i < e.stack + 5 ==> ThreadLoads(e, start)[i].vaddr != start + PAGE_SIZE * g
  {
    hide ThreadLoads;
    forall i | 0 <= i < e.stack + 5 ensures ThreadLoads(e, start)[i].vaddr != start + PAGE_SIZE * g {
      ThreadSlots(e, start, i);
    }
  }

  lemma AscendingAvoids(ls: seq<PageLoad>, lo: nat, hi: nat, x: nat)
    requires Ascending(ls, lo, hi) && (x < lo || hi <= x)
    ensures forall i :: 0 <= i < |ls| ==> ls[i].vaddr != x
  {
    forall i | 0 <= i < |ls| ensures ls[i].vaddr != x {
      assert InSteps(ls[i].vaddr, lo, hi);
    }
  }

  lemma {:induction false} ThreadsAvoidGuards(e: Record, n: nat, t: nat, g: nat)
    requires ThreadStart(e, n) <= UINT64_LIMIT && t < n && Guard(e, g)
    ensures forall i :: 0 <= i < |ThreadsLoads(e, n)| ==>
              ThreadsLoads(e, n)[i].vaddr != ThreadStart(e, t) + PAGE_SIZE * g
  {
    hide ThreadLoads, Ascending;
    var start, x := ThreadStart(e, n - 1), ThreadStart(e, t) + PAGE_SIZE * g;
    ThreadStartMonotone(e, n - 1, n);
    if t == n - 1 {
      ThreadsAscending(e, n - 1);
      AscendingAvoids(ThreadsLoads(e, n - 1), ThreadStart(e, 0), start, x);
      OwnGuards(e, start, g);
    } else {
      ThreadStartMonotone(e, t + 1, n - 1);
      ThreadsAvoidGuards(e, n - 1, t, g);
      ThreadAscending(e, start);
      AscendingAvoids(ThreadLoads(e, start), start, ThreadStart(e, n), x);
    }
  }

  /** The three guard pages of each thread are never measured. */
  lemma GuardPagesSkipped(e: Record, withEeidPages: bool, t: nat, g: nat, i: nat)
    requires Unwrapped(e, withEeidPages)
    requires t < e.tcs && Guard(e, g)
    requires i < |Replay(e, withEeidPages)|
    ensures Replay(e, withEeidPages)[i].vaddr != ThreadStart(e, t) + PAGE_SIZE * g
  {
    hide HeapLoads, ThreadsLoads, EeidLoads, NumEeidPages, Ascending;
    var ls := Replay(e, withEeidPages);
    ThreadStartMonotone(e, 0, t);
    ThreadStartMonotone(e, t + 1, e.tcs);
    if i < e.heap {
      HeapAscending(e);
      AscendingAvoids(HeapLoads(e.vaddr, e.heap), e.vaddr, ThreadStart(e, 0), ThreadStart(e, t) + PAGE_SIZE * g);
    } else if i < |BaseLoads(e)| {
      ThreadsAvoidGuards(e, e.tcs, t, g);
      assert ls[i] == ThreadsLoads(e, e.tcs)[i - e.heap];
    } else {
      var end := ThreadStart(e, e.tcs);
      EeidAscending(end, Image(e));
      AscendingAvoids(EeidLoads(end, Image(e), NumEeidPages(|Image(e)|)), end,
                      end + PAGE_SIZE * NumEeidPages(|Image(e)|), ThreadStart(e, t) + PAGE_SIZE * g);
    }
  }

  /** Each TCS says its state save area starts at the next measured page. */
  lemma TcsOssa(e: Record, withEeidPages: bool, t: nat)
    requires Unwrapped(e, withEeidPages) && t < e.tcs
    ensures var i := e.heap + t * PerThread(e) + e.stack;
            && i + 1 < |Replay(e, withEeidPages)|
            && Replay(e, withEeidPages)[i].flags == SECINFO_TCS
            && FromLittleEndian(Replay(e, withEeidPages)[i].page[16..24]) == Replay(e, withEeidPages)[i + 1].vaddr
  {
    hide EeidLoads;
    ReplayAt(e, withEeidPages, t, e.stack);
    ReplayAt(e, withEeidPages, t, e.stack + 1);
    var start := ThreadStart(e, t);
    assert ThreadLoads(e, start)[e.stack] == TcsLoad(e, start);
    assert ThreadLoads(e, start)[e.stack + 1] == BlankLoad(start, e.stack + 3);
    TcsPageOssa(start + PAGE_SIZE * (e.stack + 2), e.entryPoint, e.tlsPageCount);
  }

  lemma TcsPageOssa(vaddr: nat, entryPoint: uint64, tlsPageCount: uint64)
    ensures FromLittleEndian(TcsPage(vaddr, entryPoint, tlsPageCount)[16..24]) == Wrap(vaddr + PAGE_SIZE)
    ensures FromLittleEndian(TcsPage(vaddr, entryPoint, tlsPageCount)[32..40]) == entryPoint
    ensures FromLittleEndian(TcsPage(vaddr, entryPoint, tlsPageCount)[48..56])
         == Wrap(vaddr + (tlsPageCount + TCS_CONTROL_PAGES) * PAGE_SIZE)
  {
    Pow256Values();
    var p := TcsPage(vaddr, entryPoint, tlsPageCount);
    var fsbase := Wrap(vaddr + (tlsPageCount + TCS_CONTROL_PAGES) * PAGE_SIZE);
    assert p[16..24] == LittleEndian(Wrap(vaddr + PAGE_SIZE), 8);
    assert p[32..40] == LittleEndian(entryPoint, 8);
    assert p[48..56] == LittleEndian(fsbase, 8);
    LittleEndianRoundTrip(Wrap(vaddr + PAGE_SIZE), 8);
    LittleEndianRoundTrip(entryPoint, 8);
    LittleEndianRoundTrip(fsbase, 8);
  }

  // ----- the log pins the settings down

  /** Heap pages are the ones not extended, EEID pages the ones flagged read-only, and no
      control page comes before the first thread's stack. */
  lemma LoadKinds(e: Record, withEeidPages: bool, i: nat)
    requires i < |Replay(e, withEeidPages)|
    ensures var l := Replay(e, withEeidPages)[i];
            && (l.extend <==> i >= e.heap)
            && (l.flags == READ_ONLY <==> i >= e.heap + e.tcs * PerThread(e))
            && (l.flags == SECINFO_TCS ==> e.tcs > 0 && e.heap + e.stack <= i)
  {
    hide ThreadsLoads, EeidPage, ThreadStart;
    ReplayCount(e, withEeidPages);
    if e.heap <= i < e.heap + e.tcs * PerThread(e) {
      ThreadLoadKind(e, withEeidPages, i);
    }
  }

  lemma ThreadLoadKind(e: Record, withEeidPages: bool, i: nat)
    requires e.heap <= i < e.heap + e.tcs * PerThread(e)
    ensures i < |Replay(e, withEeidPages)|
    ensures Replay(e, withEeidPages)[i].extend
    ensures Replay(e, withEeidPages)[i].flags == READ_WRITE
         || (Replay(e, withEeidPages)[i].flags == SECINFO_TCS && e.heap + e.stack <= i)
  {
    hide Replay, ThreadLoads, ThreadStart;
    var t, j := BlockOf(i - e.heap, PerThread(e), e.tcs);
    ReplayAt(e, withEeidPages, t, j);
    ThreadSlots(e, ThreadStart(e, t), j);
  }

  /** The block of size `d`, out of `n` blocks, that holds index `x`. */
  lemma BlockOf(x: nat, d: nat, n: nat) returns (t: nat, j: nat)
    requires d > 0 && x < n * d
    ensures x == t * d + j && t < n && j < d
  {
    t, j := x / d, x % d;
    if t >= n {
      MultiplesOrdered(n, t, d);
    }
  }

  lemma MultiplesOrdered(n: nat, m: nat, d: nat)
    requires n <= m
    ensures n * d <= m * d
  {
    assert m * d == n * d + (m - n) * d;
  }

  /** Two replays that leave the same log. */
  predicate SameReplay(a: Record, withA: bool, b: Record, withB: bool) {
    SameMeasuredLoads(Replay(a, withA), Replay(b, withB))
  }

  lemma HeapAtMost(a: Record, withA: bool, b: Record, withB: bool)
    requires SameReplay(a, withA, b, withB)
    ensures a.heap <= b.heap
  {
    hide Replay;
    var ra, rb := Replay(a, withA), Replay(b, withB);
    if b.heap < a.heap {
      ReplayCount(a, withA);
      assert SameMeasuredLoad(ra[b.heap], rb[b.heap]);
      LoadKinds(a, withA, b.heap);
      LoadKinds(b, withB, b.heap);
    }
  }

  lemma StackAtLeast(a: Record, withA: bool, b: Record, withB: bool)
    requires SameReplay(a, withA, b, withB) && a.heap == b.heap && a.tcs > 0
    ensures b.tcs > 0 && b.stack <= a.stack
  {
    hide Replay;
    hide ThreadStart, TcsPage;
    var i := a.heap + a.stack;
    FirstTcs(a, withA);
    assert SameMeasuredLoad(Replay(a, withA)[i], Replay(b, withB)[i]);
    LoadKinds(b, withB, i);
  }

  lemma ThreadsAtMost(a: Record, withA: bool, b: Record, withB: bool)
    requires SameReplay(a, withA, b, withB) && a.heap == b.heap && a.stack == b.stack
    ensures a.tcs <= b.tcs
  {
    hide Replay;
    if b.tcs < a.tcs {
      var i := a.heap + b.tcs * PerThread(a) + a.stack;
      ReplayAt(a, withA, b.tcs, a.stack);
      ThreadSlots(a, ThreadStart(a, b.tcs), a.stack);
      assert SameMeasuredLoad(Replay(a, withA)[i], Replay(b, withB)[i]);
      LoadKinds(b, withB, i);
    }
  }

  /** The replay of an EEID fixes its size settings, and with any thread at all its
      address, entry point and (up to the wrap-around of the base) its TLS page count. */
  lemma ReplayFixesSettings(a: Record, withA: bool, b: Record, withB: bool)
    requires LoadsLog(Replay(a, withA)) == LoadsLog(Replay(b, withB))
    ensures a.heap == b.heap && a.tcs == b.tcs
    ensures (if withA then NumEeidPages(|Image(a)|) else 0) == if withB then NumEeidPages(|Image(b)|) else 0
    ensures a.heap > 0 ==> a.vaddr == b.vaddr
    ensures a.tcs > 0 ==>
              && a.stack == b.stack && a.vaddr == b.vaddr && a.entryPoint == b.entryPoint
              && Wrap(a.tlsPageCount * PAGE_SIZE) == Wrap(b.tlsPageCount * PAGE_SIZE)
  {
    hide Replay, LoadsLog, BaseLoads;
    LoadsLogInjective(Replay(a, withA), Replay(b, withB));
    HeapAtMost(a, withA, b, withB);
    HeapAtMost(b, withB, a, withA);
    if a.tcs > 0 || b.tcs > 0 {
      if a.tcs > 0 { StackAtLeast(a, withA, b, withB); } else { StackAtLeast(b, withB, a, withA); }
      StackAtLeast(a, withA, b, withB);
      StackAtLeast(b, withB, a, withA);
      ThreadsAtMost(a, withA, b, withB);
      ThreadsAtMost(b, withB, a, withA);
      FirstTcsAgrees(a, withA, b, withB);
    }
    ReplayCount(a, withA);
    ReplayCount(b, withB);
    if a.heap > 0 {
      FirstHeapPage(a, withA);
      FirstHeapPage(b, withB);
      assert SameMeasuredLoad(Replay(a, withA)[0], Replay(b, withB)[0]);
    }
  }

  lemma FirstHeapPage(e: Record, withEeidPages: bool)
    requires e.heap > 0
    ensures |Replay(e, withEeidPages)| > 0 && Replay(e, withEeidPages)[0].vaddr == e.vaddr
  {
    hide ThreadsLoads, EeidLoads;
    assert Replay(e, withEeidPages)[0] == HeapLoads(e.vaddr, e.heap)[0];
  }

  lemma FirstTcs(e: Record, withEeidPages: bool)
    requires e.tcs > 0
    ensures e.heap + e.stack < |Replay(e, withEeidPages)|
    ensures Replay(e, withEeidPages)[e.heap + e.stack] == TcsLoad(e, ThreadStart(e, 0))
  {
    hide Replay, ThreadStart, TcsPage;
    ReplayAt(e, withEeidPages, 0, e.stack);
    assert ThreadLoads(e, ThreadStart(e, 0))[e.stack] == TcsLoad(e, ThreadStart(e, 0));
  }

  lemma FirstTcsContents(e: Record)
    ensures var t := TcsLoad(e, ThreadStart(e, 0));
            && t.extend && t.vaddr == Wrap(e.vaddr + PAGE_SIZE * (e.heap + e.stack + 2))
            && FromLittleEndian(t.page[32..40]) == e.entryPoint
            && FromLittleEndian(t.page[48..56]) == Wrap(t.vaddr + (e.tlsPageCount + TCS_CONTROL_PAGES) * PAGE_SIZE)
  {
    hide TcsPage, Wrap;
    var v := e.vaddr + PAGE_SIZE * (e.heap + e.stack + 2);
    TcsPageOssa(v, e.entryPoint, e.tlsPageCount);
    WrapAdd(v, (e.tlsPageCount + TCS_CONTROL_PAGES) * PAGE_SIZE);
  }

  lemma FirstTcsAgrees(a: Record, withA: bool, b: Record, withB: bool)
    requires SameReplay(a, withA, b, withB)
    requires a.heap == b.heap && a.stack == b.stack && a.tcs == b.tcs > 0
    ensures a.vaddr == b.vaddr && a.entryPoint == b.entryPoint
    ensures Wrap(a.tlsPageCount * PAGE_SIZE) == Wrap(b.tlsPageCount * PAGE_SIZE)
  {
    hide Replay, TcsLoad, TcsPage, ThreadStart, Wrap;
    var i := a.heap + a.stack;
    FirstTcs(a, withA);
    FirstTcs(b, withB);
    assert SameMeasuredLoad(Replay(a, withA)[i], Replay(b, withB)[i]);
    FirstTcsContents(a);
    FirstTcsContents(b);
    var c := PAGE_SIZE * (a.heap + a.stack + 2);
    WrapCancel(c, a.vaddr, b.vaddr);
    InRange(a.vaddr);
    InRange(b.vaddr);
    var t := TcsLoad(a, ThreadStart(a, 0)).vaddr;
    WrapCancel(t + TCS_CONTROL_PAGES * PAGE_SIZE, a.tlsPageCount * PAGE_SIZE, b.tlsPageCount * PAGE_SIZE);
  }

  lemma InRange(x: uint64)
    ensures Wrap(x) == x
  {
  }

  lemma WrapCancel(c: nat, x: nat, y: nat)
    requires Wrap(c + x) == Wrap(c + y)
    ensures Wrap(x) == Wrap(y)
  {
  }

  // ----- what the EEID pages say about the EEID

  /** Each of the bound bytes can be read off its page. */
  lemma PageByte(image: seq<byte>, k: nat)
    requires k < BoundBytes(|image|)
    ensures k / PAGE_SIZE < NumEeidPages(|image|)
    ensures EeidPage(image, k / PAGE_SIZE)[k % PAGE_SIZE] == image[k]
  {
    PageAt(image, k / PAGE_SIZE, k % PAGE_SIZE);
    assert k == PAGE_SIZE * (k / PAGE_SIZE) + k % PAGE_SIZE;
  }

  predicate SamePages(a: seq<byte>, b: seq<byte>) {
    && NumEeidPages(|a|) == NumEeidPages(|b|)
    && forall i :: 0 <= i < NumEeidPages(|a|) ==> EeidPage(a, i) == EeidPage(b, i)
  }

  predicate SameBoundBytes(a: seq<byte>, b: seq<byte>) {
    |a| == |b| && a[..BoundBytes(|a|)] == b[..BoundBytes(|a|)]
  }

  /** Structures of one size have the same pages exactly when their bound bytes agree. */
  lemma PagesBindBytes(a: seq<byte>, b: seq<byte>)
    requires |a| == |b|
    ensures SamePages(a, b) <==> SameBoundBytes(a, b)
  {
    hide EeidPage, NumEeidPages, BoundBytes;
    var n := BoundBytes(|a|);
    assert n <= |a| by { BoundInside(|a|); }
    if SamePages(a, b) {
      forall k | 0 <= k < n ensures a[k] == b[k] {
        PageByte(a, k);
        PageByte(b, k);
      }
    }
    if a[..n] == b[..n] {
      forall i | 0 <= i < NumEeidPages(|a|) ensures EeidPage(a, i) == EeidPage(b, i) {
        PageFromBoundBytes(a, b, i);
      }
    }
  }

  lemma BoundInside(n: nat)
    ensures BoundBytes(n) <= n
  {
  }

  lemma PageFromBoundBytes(a: seq<byte>, b: seq<byte>, i: nat)
    requires SameBoundBytes(a, b)
    ensures EeidPage(a, i) == EeidPage(b, i)
  {
    hide BoundBytes;
    BoundInside(|a|);
    forall k | 0 <= k < PAGE_SIZE ensures EeidPage(a, i)[k] == EeidPage(b, i)[k] {
      PageAt(a, i, k);
      PageAt(b, i, k);
      assert PAGE_SIZE * i + k < BoundBytes(|a|) ==>
          a[..BoundBytes(|a|)][PAGE_SIZE * i + k] == b[..BoundBytes(|a|)][PAGE_SIZE * i + k];
    }
  }

  /** The sizes are written in the first page, so equal pages come from structures of one size. */
  lemma PagesFixSize(a: Record, b: Record)
    requires Valid(a) && Valid(b) && a.version == b.version == EEID_VERSION
    requires SamePages(Image(a), Image(b))
    ensures |Image(a)| == |Image(b)|
  {
    hide EeidPage, Image, Head;
    ImageLength(a);
    ImageLength(b);
    FirstByte(a);
    FirstByte(b);
    assert EeidPage(Image(a), 0) == EeidPage(Image(b), 0);
    if |Image(a)| != PAGE_SIZE {
      HeadOnFirstPage(a);
      HeadOnFirstPage(b);
      HeadInjective(a, b);
    }
  }

  /** The first page shows a one exactly when the structure does not fill that page alone. */
  lemma FirstByte(e: Record)
    requires Valid(e) && e.version == EEID_VERSION
    ensures EeidPage(Image(e), 0)[0] == if |Image(e)| == PAGE_SIZE then 0 else 1
  {
    hide Image;
    ImageLength(e);
    ImageStarts(e);
    PageAt(Image(e), 0, 0);
  }

  lemma HeadOnFirstPage(e: Record)
    requires Valid(e) && |Image(e)| != PAGE_SIZE
    ensures EeidPage(Image(e), 0)[..FIXED_SIZE] == Head(e)
  {
    hide Head;
    ImageLength(e);
    forall k | 0 <= k < FIXED_SIZE ensures EeidPage(Image(e), 0)[k] == Head(e)[k] {
      PageAt(Image(e), 0, k);
    }
  }

  /** The measured pages of two supported structures agree exactly when the structures have one
      size and agree on their bound bytes: on everything, unless they fill their pages exactly. */
  lemma EeidPagesBindImage(a: Record, b: Record)
    requires Valid(a) && Valid(b) && a.version == b.version == EEID_VERSION
    ensures SamePages(Image(a), Image(b)) <==> SameBoundBytes(Image(a), Image(b))
  {
    hide SamePages, SameBoundBytes, Image;
    if SamePages(Image(a), Image(b)) {
      PagesFixSize(a, b);
      PagesBindBytes(Image(a), Image(b));
    }
    if SameBoundBytes(Image(a), Image(b)) {
      assert |Image(a)| == |Image(b)| by { BoundSize(Image(a), Image(b)); }
      PagesBindBytes(Image(a), Image(b));
    }
  }

  lemma BoundSize(a: seq<byte>, b: seq<byte>)
    requires SameBoundBytes(a, b)
    ensures |a| == |b|
  {
  }

  // ----- what the whole log says about the EEID

  lemma SamePagesSameLoads(start: nat, a: seq<byte>, b: seq<byte>)
    ensures SamePages(a, b) <==>
            EeidLoads(start, a, NumEeidPages(|a|)) == EeidLoads(start, b, NumEeidPages(|b|))
  {
    hide EeidPage, NumEeidPages;
    var la, lb := EeidLoads(start, a, NumEeidPages(|a|)), EeidLoads(start, b, NumEeidPages(|b|));
    if la == lb {
      forall i | 0 <= i < NumEeidPages(|a|) ensures EeidPage(a, i) == EeidPage(b, i) {
        assert la[i].page == EeidPage(a, i) && lb[i].page == EeidPage(b, i);
      }
    }
  }

  /** Equal replays measure equal EEID pages. */
  lemma ReplayShowsPages(a: Record, b: Record)
    requires SameReplay(a, true, b, true) && a.heap == b.heap && a.tcs == b.tcs && (a.tcs > 0 ==> a.stack == b.stack)
    requires NumEeidPages(|Image(a)|) == NumEeidPages(|Image(b)|)
    ensures SamePages(Image(a), Image(b))
  {
    hide BaseLoads, EeidPage, NumEeidPages, Image, ThreadStart, Replay;
    ReplayCount(a, true);
    ReplayCount(b, true);
    var n, k := NumEeidPages(|Image(a)|), |BaseLoads(a)|;
    assert |BaseLoads(b)| == k;
    forall i | 0 <= i < n ensures EeidPage(Image(a), i) == EeidPage(Image(b), i) {
      PageInReplay(a, i);
      PageInReplay(b, i);
      assert SameMeasuredLoad(Replay(a, true)[k + i], Replay(b, true)[k + i]);
    }
  }

  lemma PageInReplay(e: Record, i: nat)
    requires i < NumEeidPages(|Image(e)|)
    ensures |BaseLoads(e)| + i < |Replay(e, true)|
    ensures Replay(e, true)[|BaseLoads(e)| + i].extend
    ensures Replay(e, true)[|BaseLoads(e)| + i].page == EeidPage(Image(e), i)
  {
    hide BaseLoads, EeidPage, NumEeidPages, Image, ThreadStart;
  }

  /** Structures with the same settings have the same base loads. */
  lemma SettingsFixBase(a: Record, b: Record)
    requires SameHead(a, b)
    ensures BaseLoads(a) == BaseLoads(b) && ThreadStart(a, a.tcs) == ThreadStart(b, b.tcs)
  {
    hide HeapLoads;
    ThreadsAlike(a, b, a.tcs);
  }

  lemma {:induction false} ThreadsAlike(a: Record, b: Record, n: nat)
    requires SameHead(a, b)
    ensures ThreadsLoads(a, n) == ThreadsLoads(b, n) && ThreadStart(a, n) == ThreadStart(b, n)
  {
    hide TcsPage, StackLoads, BlankLoad;
    if n > 0 {
      ThreadsAlike(a, b, n - 1);
    }
  }

  /** What a replay with EEID pages shows of a structure besides those pages. */
  predicate SameSettings(a: Record, b: Record) {
    && a.heap == b.heap && a.tcs == b.tcs && a.vaddr == b.vaddr
    && (a.tcs > 0 ==> && a.stack == b.stack && a.entryPoint == b.entryPoint
                      && Wrap(a.tlsPageCount * PAGE_SIZE) == Wrap(b.tlsPageCount * PAGE_SIZE))
  }

  lemma WrapShift(x: nat, y: nat, z: nat)
    requires Wrap(x) == Wrap(y)
    ensures Wrap(x + z) == Wrap(y + z)
  {
    var k := x / UINT64_LIMIT - y / UINT64_LIMIT;
    assert x + z == y + z + k * UINT64_LIMIT;
    WrapPeriod(x + z, y + z, k);
  }

  lemma WrapPeriod(x: nat, y: nat, k: int)
    requires x == y + k * UINT64_LIMIT
    ensures Wrap(x) == Wrap(y)
  {
    assert x / UINT64_LIMIT == y / UINT64_LIMIT + k;
  }

  lemma TcsAlike(a: Record, b: Record, start: nat)
    requires SameSettings(a, b) && a.tcs > 0
    ensures TcsLoad(a, start) == TcsLoad(b, start)
  {
    hide Wrap, LittleEndian;
    var vaddr, x, y := start + PAGE_SIZE * (a.stack + 2), a.tlsPageCount * PAGE_SIZE, b.tlsPageCount * PAGE_SIZE;
    WrapShift(x, y, vaddr + TCS_CONTROL_PAGES * PAGE_SIZE);
    assert vaddr + (a.tlsPageCount + TCS_CONTROL_PAGES) * PAGE_SIZE == x + (vaddr + TCS_CONTROL_PAGES * PAGE_SIZE);
    assert vaddr + (b.tlsPageCount + TCS_CONTROL_PAGES) * PAGE_SIZE == y + (vaddr + TCS_CONTROL_PAGES * PAGE_SIZE);
  }

  lemma {:induction false} ThreadsSettled(a: Record, b: Record, n: nat)
    requires SameSettings(a, b) && n <= a.tcs
    ensures ThreadsLoads(a, n) == ThreadsLoads(b, n) && ThreadStart(a, n) == ThreadStart(b, n)
  {
    hide TcsLoad, StackLoads, BlankLoad;
    if n > 0 {
      ThreadsSettled(a, b, n - 1);
      TcsAlike(a, b, ThreadStart(a, n - 1));
    }
  }

  /** The address of the first EEID page shows the base address even when nothing else is loaded. */
  lemma ReplayShowsBase(a: Record, b: Record)
    requires SameReplay(a, true, b, true) && a.heap == b.heap == 0 && a.tcs == b.tcs == 0
    requires |Image(a)| > 0 && |Image(b)| > 0
    ensures a.vaddr == b.vaddr
  {
    hide Image, EeidPage;
    assert NumEeidPages(|Image(a)|) > 0 && NumEeidPages(|Image(b)|) > 0;
    assert SameMeasuredLoad(Replay(a, true)[0], Replay(b, true)[0]);
    assert Replay(a, true)[0].vaddr == a.vaddr && Replay(b, true)[0].vaddr == b.vaddr;
  }

  lemma ReplayShowsSettings(a: Record, b: Record)
    requires LoadsLog(Replay(a, true)) == LoadsLog(Replay(b, true)) && |Image(a)| > 0 && |Image(b)| > 0
    ensures SameSettings(a, b)
  {
    hide LoadsLog, Replay, Image, NumEeidPages;
    ReplayFixesSettings(a, true, b, true);
    LoadsLogInjective(Replay(a, true), Replay(b, true));
    if a.heap == 0 && a.tcs == 0 {
      ReplayShowsBase(a, b);
    }
  }

  /** Two supported structures replay to one log exactly when they have one size and agree on their
      bound bytes, and on their settings where those are not among the bound bytes. */
  lemma ReplayBindsImage(a: Record, b: Record)
    requires Valid(a) && Valid(b) && a.version == b.version == EEID_VERSION
    ensures LoadsLog(Replay(a, true)) == LoadsLog(Replay(b, true)) <==>
            SameBoundBytes(Image(a), Image(b)) && (|Image(a)| == PAGE_SIZE ==> SameSettings(a, b))
  {
    hide LoadsLog, BaseLoads, Image, SamePages, SameBoundBytes, NumEeidPages, EeidLoads, ThreadStart, SameHead, SameMeasuredLoads,
      SameSettings;
    EeidPagesBindImage(a, b);
    ImageStarts(a);
    ImageStarts(b);
    if LoadsLog(Replay(a, true)) == LoadsLog(Replay(b, true)) {
      ReplayShowsSettings(a, b);
      ReplayFixesSettings(a, true, b, true);
      LoadsLogInjective(Replay(a, true), Replay(b, true));
      ReplayShowsPages(a, b);
    }
    if SameBoundBytes(Image(a), Image(b)) && (|Image(a)| == PAGE_SIZE ==> SameSettings(a, b)) {
      if |Image(a)| != PAGE_SIZE {
        BoundHead(a, b);
        SettingsFixBase(a, b);
      } else {
        SettingsAlike(a, b);
      }
      SamePagesSameLoads(ThreadStart(a, a.tcs), Image(a), Image(b));
    }
  }

  lemma SettingsAlike(a: Record, b: Record)
    requires SameSettings(a, b)
    ensures BaseLoads(a) == BaseLoads(b) && ThreadStart(a, a.tcs) == ThreadStart(b, b.tcs)
  {
    hide HeapLoads;
    ThreadsSettled(a, b, a.tcs);
  }

  lemma BoundHead(a: Record, b: Record)
    requires Valid(a) && Valid(b) && |Image(a)| != PAGE_SIZE && SameBoundBytes(Image(a), Image(b))
    ensures SameHead(a, b)
  {
    hide Head;
    ImageLength(a);
    ImageLength(b);
    var n := BoundBytes(|Image(a)|);
    assert n >= FIXED_SIZE;
    assert Image(a)[..n][..FIXED_SIZE] == Head(a) && Image(b)[..n][..FIXED_SIZE] == Head(b);
    HeadInjective(a, b);
  }

  /** The replay's log fixes the whole structure, unless the structure fills its pages exactly. */
  lemma ReplayFixesEeid(a: Record, b: Record)
    requires Valid(a) && Valid(b) && a.version == b.version == EEID_VERSION && |Image(a)| % PAGE_SIZE != 0
    ensures LoadsLog(Replay(a, true)) == LoadsLog(Replay(b, true)) <==> a == b
  {
    hide LoadsLog, Replay, Image;
    ReplayBindsImage(a, b);
    if SameBoundBytes(Image(a), Image(b)) {
      assert Image(a)[..|Image(a)|] == Image(a) && Image(b)[..|Image(a)|] == Image(b);
      ImageInjective(a, b);
    }
  }

  /** The structure with another last byte. */
  function OtherLast(e: Record): (r: Record)
    requires |e.data| > 0
    ensures r != e
  {
    var n := |e.data| - 1;
    var other: byte := if e.data[n] == 0 then 1 else 0;
    var r := e.(data := e.data[n := other]);
    assert r.data[n] != e.data[n];
    r
  }

  /** A structure that fills its pages exactly has another one with the same replay. */
  lemma ExactPagesNotBound(a: Record)
    requires Valid(a) && a.version == EEID_VERSION && |Image(a)| % PAGE_SIZE == 0
    ensures |a.data| > 0 && Valid(OtherLast(a)) && Replay(OtherLast(a), true) == Replay(a, true)
  {
    hide BaseLoads, EeidLoads, ThreadStart, SamePages, Head, NumEeidPages;
    ImageLength(a);
    assert |a.data| > 0;
    var b := OtherLast(a);
    ImageLength(b);
    assert SameHead(a, b);
    assert Head(a) == Head(b) by { HeadInjective(a, b); }
    SettingsFixBase(a, b);
    var n := BoundBytes(|Image(a)|);
    assert n == |Image(a)| - PAGE_SIZE;
    assert Image(a)[..n] == Image(b)[..n];
    PagesBindBytes(Image(a), Image(b));
    SamePagesSameLoads(ThreadStart(a, a.tcs), Image(a), Image(b));
  }

  /** The replay's log fixes a supported structure exactly when it does not fill its pages. */
  lemma BoundIff(a: Record)
    requires Valid(a) && a.version == EEID_VERSION
    ensures (forall b :: Valid(b) && b.version == EEID_VERSION && LoadsLog(Replay(b, true)) == LoadsLog(Replay(a, true)) ==> b == a)
       <==> |Image(a)| % PAGE_SIZE != 0
  {
    hide LoadsLog, Replay, Image, Valid;
    if |Image(a)| % PAGE_SIZE == 0 {
      ExactPagesNotBound(a);
      var b := OtherLast(a);
      assert Valid(b) && b.version == EEID_VERSION && LoadsLog(Replay(b, true)) == LoadsLog(Replay(a, true)) && b != a;
    } else {
      forall b | Valid(b) && b.version == EEID_VERSION && LoadsLog(Replay(b, true)) == LoadsLog(Replay(a, true)) ensures b == a {
        ReplayFixesEeid(a, b);
      }
    }
  }

  /** A structure of exactly one page, with its data all `x`. */
  function OnePage(x: byte): Record {
    Record(EEID_VERSION, [0, 0, 0, 0, 0, 0, 0, 0], [0, 0], 0, 1, 1, 1, 0, 0, 0, 3988, seq(3988, _ => x))
  }

  /** Two such structures differ, and replay to one log. */
  lemma ExactPageNotBound(x: byte, y: byte)
    requires x != y
    ensures Valid(OnePage(x)) && Valid(OnePage(y)) && |Image(OnePage(x))| == |Image(OnePage(y))| == PAGE_SIZE
    ensures OnePage(x) != OnePage(y) && Replay(OnePage(x), true) == Replay(OnePage(y), true)
  {
    hide Image, BaseLoads, EeidLoads, ThreadStart, SamePages;
    var a, b := OnePage(x), OnePage(y);
    ImageLength(a);
    ImageLength(b);
    assert a.data[0] == x && b.data[0] == y;
    SettingsFixBase(a, b);
    PagesBindBytes(Image(a), Image(b));
    SamePagesSameLoads(ThreadStart(a, a.tcs), Image(a), Image(b));
  }
}
