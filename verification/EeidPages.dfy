/** Every load of the EEID replay (common/sgx/eeid.c), byte by byte: at which index it stands, at
    which offset it is measured, with which flags, and what its page holds. */
module EeidPages {
  import opened Bytes
  import opened Measure
  import opened EeidCodec
  import opened EeidImage
  import opened EeidReplay
  import opened EeidLayout

  predicate Filled(p: Page, b: byte) {
    forall k :: 0 <= k < 4096 ==> p[k] == b
  }

  /** A thread control structure: ossa at 16, nssa at 28, oentry at 32, fsbase and gsbase at 48 and
      56, their limits at 64 and 68, and zeros everywhere else. */
  predicate TcsHolds(p: Page, ossa: nat, oentry: nat, base: nat) {
    && FromLittleEndian(p[16..24]) == ossa && FromLittleEndian(p[28..32]) == 2
    && FromLittleEndian(p[32..40]) == oentry
    && FromLittleEndian(p[48..56]) == base && FromLittleEndian(p[56..64]) == base
    && FromLittleEndian(p[64..68]) == 0xFFFF_FFFF && FromLittleEndian(p[68..72]) == 0xFFFF_FFFF
    && (forall k :: 0 <= k < 4096 && (k < 16 || 24 <= k < 28 || 40 <= k < 48 || 72 <= k) ==> p[k] == 0)
  }

  lemma TcsFields(vaddr: nat, entryPoint: uint64, tlsPageCount: uint64)
    ensures TcsHolds(TcsPage(vaddr, entryPoint, tlsPageCount), (vaddr + 4096) % UINT64_LIMIT, entryPoint,
                     (vaddr + (tlsPageCount + 4) * 4096) % UINT64_LIMIT)
  {
    hide LittleEndian, FromLittleEndian;
    var p := TcsPage(vaddr, entryPoint, tlsPageCount);
    var ossa, base := Wrap(vaddr + 4096), Wrap(vaddr + (tlsPageCount + 4) * 4096);
    Pow256Values();
    assert p[16..24] == LittleEndian(ossa, 8) && p[28..32] == LittleEndian(2, 4) && p[32..40] == LittleEndian(entryPoint, 8);
    assert p[48..56] == LittleEndian(base, 8) && p[56..64] == LittleEndian(base, 8);
    assert p[64..68] == LittleEndian(0xFFFF_FFFF, 4) && p[68..72] == LittleEndian(0xFFFF_FFFF, 4);
    LittleEndianRoundTrip(ossa, 8);
    LittleEndianRoundTrip(2, 4);
    LittleEndianRoundTrip(entryPoint, 8);
    LittleEndianRoundTrip(base, 8);
    LittleEndianRoundTrip(0xFFFF_FFFF, 4);
    TcsZeros(vaddr, entryPoint, tlsPageCount);
  }

  lemma TcsZeros(vaddr: nat, entryPoint: uint64, tlsPageCount: uint64)
    ensures var p := TcsPage(vaddr, entryPoint, tlsPageCount);
            forall k :: 0 <= k < 4096 && (k < 16 || 24 <= k < 28 || 40 <= k < 48 || 72 <= k) ==> p[k] == 0
  {
    hide Digit;
    var p := TcsPage(vaddr, entryPoint, tlsPageCount);
    forall k | 24 <= k < 28 ensures p[k] == 0 {
      var i: nat := k - 24;
      ZeroDigit(i);
      assert p[k] == LittleEndian(0, 4)[i];
    }
  }

  /** Load `i` of a list: a page of equal bytes, with literal flags, at an offset modulo 2^64. */
  predicate FilledAt(ls: seq<PageLoad>, i: nat, vaddr: nat, flags: nat, extend: bool, b: byte) {
    && i < |ls| && ls[i].vaddr == vaddr % UINT64_LIMIT && ls[i].flags == flags && ls[i].extend == extend
    && Filled(ls[i].page, b)
  }

  predicate TcsAt(ls: seq<PageLoad>, i: nat, vaddr: nat, oentry: nat, tls: nat) {
    && i < |ls| && ls[i].vaddr == vaddr % UINT64_LIMIT && ls[i].flags == 0x100 && ls[i].extend
    && TcsHolds(ls[i].page, (vaddr + 4096) % UINT64_LIMIT, oentry, (vaddr + (tls + 4) * 4096) % UINT64_LIMIT)
  }

  /** Heap pages: one after the other from the start address, writable, blank and not extended. */
  lemma HeapPages(e: Record, withEeidPages: bool, i: nat)
    requires i < e.heap
    ensures FilledAt(Replay(e, withEeidPages), i, e.vaddr + 4096 * i, 0x203, false, 0)
  {
    hide ThreadsLoads, EeidLoads;
    assert Replay(e, withEeidPages)[i] == HeapLoads(e.vaddr, e.heap)[i];
  }

  /** The index of load `j` of thread `t`. */
  function Index(e: Record, t: nat, j: nat): nat {
    e.heap + t * (e.stack + 5) + j
  }

  /** Where the span of thread `t` begins: behind the heap and the spans of the threads before it. */
  function Span(e: Record, t: nat): nat {
    e.vaddr + 4096 * (e.heap + t * (e.stack + 8))
  }

  /** Stack pages: behind a guard page, writable, extended, and 0xcc all over. */
  lemma StackPages(e: Record, withEeidPages: bool, t: nat, j: nat)
    requires t < e.tcs && j < e.stack
    ensures FilledAt(Replay(e, withEeidPages), Index(e, t, j), Span(e, t) + 4096 * (1 + j), 0x203, true, 0xcc)
  {
    hide EeidLoads, Replay, ThreadStart, ControlLoads;
    ReplayAt(e, withEeidPages, t, j);
    ThreadStartClosedForm(e, t);
    assert ThreadLoads(e, ThreadStart(e, t))[j] == StackLoads(ThreadStart(e, t), e.stack)[j];
  }

  /** The thread control structure: behind the stack and another guard page. */
  lemma TcsPages(e: Record, withEeidPages: bool, t: nat)
    requires t < e.tcs
    ensures TcsAt(Replay(e, withEeidPages), Index(e, t, e.stack), Span(e, t) + 4096 * (e.stack + 2), e.entryPoint, e.tlsPageCount)
  {
    hide EeidLoads, Replay, ThreadStart, StackLoads, TcsPage, TcsHolds;
    ReplayAt(e, withEeidPages, t, e.stack);
    ThreadStartClosedForm(e, t);
    assert ThreadLoads(e, ThreadStart(e, t))[e.stack] == TcsLoad(e, ThreadStart(e, t));
    TcsFields(Span(e, t) + 4096 * (e.stack + 2), e.entryPoint, e.tlsPageCount);
  }

  /** The slots of the four blank pages: two state save areas, a guard page, two data pages. */
  function BlankSlot(e: Record, j: nat): nat
    requires j < 4
  {
    if j < 2 then e.stack + 3 + j else e.stack + 4 + j
  }

  lemma BlankPages(e: Record, withEeidPages: bool, t: nat, j: nat)
    requires t < e.tcs && j < 4
    ensures FilledAt(Replay(e, withEeidPages), Index(e, t, e.stack + 1 + j), Span(e, t) + 4096 * BlankSlot(e, j), 0x203, true, 0)
  {
    hide EeidLoads, Replay, ThreadStart, StackLoads, TcsPage;
    ReplayAt(e, withEeidPages, t, e.stack + 1 + j);
    ThreadStartClosedForm(e, t);
    assert ThreadLoads(e, ThreadStart(e, t))[e.stack + 1 + j] == ControlLoads(e, ThreadStart(e, t))[1 + j];
  }

  /** Byte `k` of page `i` of a structure: its own byte, but that the last page of a structure that
      fills its pages comes out as zeros. */
  function StructureByte(image: seq<byte>, i: nat, k: nat): byte {
    if 4096 * i + k < |image| && 4096 * (i + 1) != |image| then image[4096 * i + k] else 0
  }

  predicate StructureAt(ls: seq<PageLoad>, n: nat, vaddr: nat, image: seq<byte>, i: nat) {
    && n < |ls| && ls[n].vaddr == vaddr % UINT64_LIMIT && ls[n].flags == 0x201 && ls[n].extend
    && (forall k :: 0 <= k < 4096 ==> ls[n].page[k] == StructureByte(image, i, k))
  }

  /** The EEID pages: read-only, extended, behind everything else. */
  lemma StructurePages(e: Record, i: nat)
    requires 4096 * i < |Image(e)|
    ensures StructureAt(Replay(e, true), Index(e, e.tcs, i), Span(e, e.tcs) + 4096 * i, Image(e), i)
  {
    hide BaseLoads, ThreadStart, Image, EeidPage, BoundByte;
    ReplayCount(e, true);
    ThreadStartClosedForm(e, e.tcs);
    assert i < NumEeidPages(|Image(e)|);
    var loads := EeidLoads(ThreadStart(e, e.tcs), Image(e), NumEeidPages(|Image(e)|));
    assert Replay(e, true)[|BaseLoads(e)| + i] == loads[i];
    forall k | 0 <= k < 4096 ensures loads[i].page[k] == StructureByte(Image(e), i, k) {
      PageAt(Image(e), i, k);
      ByteOf(Image(e), i, k);
    }
  }

  lemma ByteOf(image: seq<byte>, i: nat, k: nat)
    requires 4096 * i < |image| && k < 4096
    ensures BoundByte(image, 4096 * i + k) == StructureByte(image, i, k)
  {
  }
}
