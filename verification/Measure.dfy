/** The enclave measurement log (common/sgx/sgxmeasure.c).

    MRENCLAVE is the SHA-256 hash of a byte log to which ECREATE, EADD and EEXTEND
    each append. SHA-256 itself is left abstract: a hash context is the log that has
    been fed to it. The main result is that the log is uniquely decodable, so two
    enclaves with one log were built by the same measured operations. */
module Measure {
  import opened Bytes
  import opened Results

  const PAGE_SIZE := 4096
  const CHUNK_SIZE := 256
  const CHUNKS_PER_PAGE := 16
  const SHA256_BLOCK := 64

  type Page = p: seq<byte> | |p| == PAGE_SIZE witness Zeros(PAGE_SIZE)

  /** The two SECS fields that ECREATE measures. */
  datatype Secs = Secs(ssaframesize: uint32, size: uint64)

  /** One page load: EADD, followed by EEXTEND of the whole page when `extend`. */
  datatype PageLoad = PageLoad(vaddr: uint64, flags: uint64, extend: bool, page: Page)

  // ----- the tags; each is the 8-byte image of a NUL-padded C string

  const ECREATE: seq<byte> := [0x45, 0x43, 0x52, 0x45, 0x41, 0x54, 0x45, 0]
  const EADD: seq<byte> := [0x45, 0x41, 0x44, 0x44, 0, 0, 0, 0]
  const EEXTEND: seq<byte> := [0x45, 0x45, 0x58, 0x54, 0x45, 0x4e, 0x44, 0]

  // ----- what each operation appends

  function CreateLog(secs: Secs): (s: seq<byte>)
    ensures |s| == SHA256_BLOCK
  {
    ECREATE + LittleEndian(secs.ssaframesize, 4) + LittleEndian(secs.size, 8) + Zeros(44)
  }

  function AddLog(vaddr: uint64, flags: uint64): (s: seq<byte>)
    ensures |s| == SHA256_BLOCK
  {
    EADD + LittleEndian(vaddr, 8) + LittleEndian(flags, 8) + Zeros(40)
  }

  /** EEXTEND of the `k`th 256-byte chunk; the chunk's offset wraps at 64 bits. */
  function ChunkLog(vaddr: uint64, page: Page, k: nat): (s: seq<byte>)
    requires k < CHUNKS_PER_PAGE
    ensures |s| == SHA256_BLOCK + CHUNK_SIZE
  {
    EEXTEND + LittleEndian((vaddr + k * CHUNK_SIZE) % UINT64_LIMIT, 8) + Zeros(48)
    + page[k * CHUNK_SIZE..(k + 1) * CHUNK_SIZE]
  }

  /** EEXTEND of the first `k` chunks. */
  function ExtendLog(vaddr: uint64, page: Page, k: nat): (s: seq<byte>)
    requires k <= CHUNKS_PER_PAGE
    ensures |s| == k * (SHA256_BLOCK + CHUNK_SIZE)
  {
    if k == 0 then [] else ExtendLog(vaddr, page, k - 1) + ChunkLog(vaddr, page, k - 1)
  }

  function LoadLog(l: PageLoad): (s: seq<byte>)
    ensures |s| == if l.extend then 5184 else 64
  {
    AddLog(l.vaddr, l.flags)
    + if l.extend then ExtendLog(l.vaddr, l.page, CHUNKS_PER_PAGE) else []
  }

  function LoadsLog(loads: seq<PageLoad>): seq<byte> {
    if loads == [] then [] else LoadLog(loads[0]) + LoadsLog(loads[1..])
  }

  /** The log of a whole enclave: ECREATE, then each page load in order. */
  function EnclaveLog(secs: Secs, loads: seq<PageLoad>): seq<byte> {
    CreateLog(secs) + LoadsLog(loads)
  }

  lemma {:induction false} LoadsLogAppend(a: seq<PageLoad>, b: seq<PageLoad>)
    ensures LoadsLog(a + b) == LoadsLog(a) + LoadsLog(b)
  {
    hide LoadLog;
    if a == [] {
      assert a + b == b;
    } else {
      LoadsLogAppend(a[1..], b);
      assert (a + b)[1..] == a[1..] + b;
      assert LoadsLog(a + b) == LoadLog(a[0]) + LoadsLog(a[1..] + b);
      hide LoadsLog;
      Associative(LoadLog(a[0]), LoadsLog(a[1..]), LoadsLog(b));
    }
  }

  lemma Associative(a: seq<byte>, b: seq<byte>, c: seq<byte>)
    ensures a + b + c == a + (b + c)
  {
  }

  lemma LoadsLogSnoc(a: seq<PageLoad>, l: PageLoad)
    ensures LoadsLog(a + [l]) == LoadsLog(a) + LoadLog(l)
  {
    LoadsLogAppend(a, [l]);
    assert LoadsLog([l]) == LoadLog(l) + LoadsLog([]);
  }

  /** After every operation the log is a whole number of SHA-256 blocks. */
  lemma {:induction false} WholeBlocks(secs: Secs, loads: seq<PageLoad>)
    ensures |EnclaveLog(secs, loads)| % SHA256_BLOCK == 0
    ensures |LoadsLog(loads)| % SHA256_BLOCK == 0
    decreases |loads|
  {
    if loads != [] {
      WholeBlocks(secs, loads[1..]);
    }
  }

  // ----- what stands where in the log

  /** An ECREATE record: tag, SSA frame size in pages, enclave size, 44 zeros. */
  predicate CreateAt(log: seq<byte>, i: nat, secs: Secs) {
    && i + 64 <= |log|
    && log[i..i + 8] == [0x45, 0x43, 0x52, 0x45, 0x41, 0x54, 0x45, 0x00]
    && FromLittleEndian(log[i + 8..i + 12]) == secs.ssaframesize
    && FromLittleEndian(log[i + 12..i + 20]) == secs.size
    && (forall j :: i + 20 <= j < i + 64 ==> log[j] == 0)
  }

  /** An EADD record: tag, offset, flags, 40 zeros. */
  predicate AddAt(log: seq<byte>, i: nat, offset: nat, flags: nat) {
    && i + 64 <= |log|
    && log[i..i + 8] == [0x45, 0x41, 0x44, 0x44, 0x00, 0x00, 0x00, 0x00]
    && FromLittleEndian(log[i + 8..i + 16]) == offset
    && FromLittleEndian(log[i + 16..i + 24]) == flags
    && (forall j :: i + 24 <= j < i + 64 ==> log[j] == 0)
  }

  /** The `k`th EEXTEND record of a page whose records begin at `i`: tag, the chunk's own offset,
      48 zeros, the chunk. */
  predicate ChunkAt(log: seq<byte>, i: nat, vaddr: uint64, page: Page, k: nat)
    requires k < 16
  {
    var at := i + 320 * k;
    && at + 320 <= |log|
    && log[at..at + 8] == [0x45, 0x45, 0x58, 0x54, 0x45, 0x4e, 0x44, 0x00]
    && FromLittleEndian(log[at + 8..at + 16]) == (vaddr + 256 * k) % UINT64_LIMIT
    && (forall j :: at + 16 <= j < at + 64 ==> log[j] == 0)
    && log[at + 64..at + 320] == page[256 * k..256 * k + 256]
  }

  predicate ChunksAt(log: seq<byte>, i: nat, vaddr: uint64, page: Page, n: nat)
    requires n <= 16
  {
    forall k :: 0 <= k < n ==> ChunkAt(log, i, vaddr, page, k)
  }

  lemma CreateRecord(secs: Secs)
    ensures CreateAt(CreateLog(secs), 0, secs)
  {
    hide LittleEndian, FromLittleEndian;
    var s := CreateLog(secs);
    Pow256Values();
    assert s[8..12] == LittleEndian(secs.ssaframesize, 4) && s[12..20] == LittleEndian(secs.size, 8);
    LittleEndianRoundTrip(secs.ssaframesize, 4);
    LittleEndianRoundTrip(secs.size, 8);
  }

  lemma AddRecord(before: seq<byte>, vaddr: uint64, flags: uint64, after: seq<byte>)
    ensures AddAt(before + AddLog(vaddr, flags) + after, |before|, vaddr, flags)
  {
    hide LittleEndian, FromLittleEndian;
    var log, i := before + AddLog(vaddr, flags) + after, |before|;
    Pow256Values();
    assert log[i..i + 8] == EADD;
    assert log[i + 8..i + 16] == LittleEndian(vaddr, 8) && log[i + 16..i + 24] == LittleEndian(flags, 8);
    LittleEndianRoundTrip(vaddr, 8);
    LittleEndianRoundTrip(flags, 8);
  }

  lemma ChunkRecord(log: seq<byte>, i: nat, vaddr: uint64, page: Page, k: nat)
    requires k < 16 && |log| == i + 320 * k
    ensures ChunkAt(log + ChunkLog(vaddr, page, k), i, vaddr, page, k)
  {
    hide LittleEndian, FromLittleEndian;
    var s, at := log + ChunkLog(vaddr, page, k), |log|;
    var offset := (vaddr + 256 * k) % UINT64_LIMIT;
    Pow256Values();
    assert s[at..at + 8] == EEXTEND;
    assert s[at + 8..at + 16] == LittleEndian(offset, 8);
    assert s[at + 64..at + 320] == page[256 * k..256 * k + 256];
    LittleEndianRoundTrip(offset, 8);
  }

  /** What is appended later does not move a record. */
  lemma ChunkStays(log: seq<byte>, i: nat, vaddr: uint64, page: Page, k: nat, more: seq<byte>)
    requires k < 16 && ChunkAt(log, i, vaddr, page, k)
    ensures ChunkAt(log + more, i, vaddr, page, k)
  {
    hide FromLittleEndian;
    var s, at := log + more, i + 320 * k;
    assert s[at..at + 8] == log[at..at + 8] && s[at + 8..at + 16] == log[at + 8..at + 16];
    assert s[at + 64..at + 320] == log[at + 64..at + 320];
  }

  /** The EEXTEND records of a page, read back from the log. */
  lemma {:induction false} ChunkRecords(before: seq<byte>, vaddr: uint64, page: Page, n: nat)
    requires n <= 16
    ensures ChunksAt(before + ExtendLog(vaddr, page, n), |before|, vaddr, page, n)
  {
    if n > 0 {
      hide ChunkLog, ChunkAt;
      var log, last := before + ExtendLog(vaddr, page, n - 1), ChunkLog(vaddr, page, n - 1);
      ChunkRecords(before, vaddr, page, n - 1);
      ChunkRecord(log, |before|, vaddr, page, n - 1);
      assert before + ExtendLog(vaddr, page, n) == log + last;
      forall k | 0 <= k < n - 1 ensures ChunkAt(log + last, |before|, vaddr, page, k) {
        ChunkStays(log, |before|, vaddr, page, k, last);
      }
    }
  }

  /** The records of a load, read back from the log: EADD and, when extended, sixteen EEXTENDs. */
  predicate LoadAt(log: seq<byte>, i: nat, l: PageLoad) {
    AddAt(log, i, l.vaddr, l.flags) && (l.extend ==> ChunksAt(log, i + 64, l.vaddr, l.page, 16))
  }

  lemma LoadRecord(before: seq<byte>, l: PageLoad)
    ensures LoadAt(before + LoadLog(l), |before|, l)
  {
    hide AddLog, ExtendLog, AddAt, ChunksAt;
    var add := AddLog(l.vaddr, l.flags);
    var more := if l.extend then ExtendLog(l.vaddr, l.page, 16) else [];
    assert before + LoadLog(l) == before + add + more;
    AddRecord(before, l.vaddr, l.flags, more);
    if l.extend {
      ChunkRecords(before + add, l.vaddr, l.page, 16);
    }
  }

  lemma LoadStays(log: seq<byte>, i: nat, l: PageLoad, more: seq<byte>)
    requires LoadAt(log, i, l)
    ensures LoadAt(log + more, i, l)
  {
    hide ChunkAt, FromLittleEndian;
    var s := log + more;
    assert s[i..i + 8] == log[i..i + 8] && s[i + 8..i + 16] == log[i + 8..i + 16] && s[i + 16..i + 24] == log[i + 16..i + 24];
    if l.extend {
      var at := i + 64;
      forall k | 0 <= k < 16 ensures ChunkAt(s, at, l.vaddr, l.page, k) {
        ChunkStays(log, at, l.vaddr, l.page, k, more);
      }
    }
  }

  /** Where the records of load `i` begin in the log of an enclave. */
  function Place(loads: seq<PageLoad>, i: nat): nat
    requires i <= |loads|
  {
    if i == 0 then 64 else Place(loads, i - 1) + if loads[i - 1].extend then 5184 else 64
  }

  lemma {:induction false} PlaceIsLength(secs: Secs, loads: seq<PageLoad>, i: nat)
    requires i <= |loads|
    ensures |EnclaveLog(secs, loads[..i])| == Place(loads, i)
  {
    hide LoadLog;
    if i > 0 {
      PlaceIsLength(secs, loads, i - 1);
      assert loads[..i] == loads[..i - 1] + [loads[i - 1]];
      LoadsLogSnoc(loads[..i - 1], loads[i - 1]);
    }
  }

  lemma EnclaveSplit(secs: Secs, loads: seq<PageLoad>, i: nat)
    requires i < |loads|
    ensures EnclaveLog(secs, loads) == EnclaveLog(secs, loads[..i]) + LoadLog(loads[i]) + LoadsLog(loads[i + 1..])
  {
    hide LoadLog, CreateLog, LoadsLog;
    var before, l, rest := loads[..i], loads[i], loads[i + 1..];
    assert loads == (before + [l]) + rest;
    LoadsLogAppend(before + [l], rest);
    LoadsLogSnoc(before, l);
  }

  /** What stands where in the log of a whole enclave. */
  lemma EnclaveRecords(secs: Secs, loads: seq<PageLoad>, i: nat)
    requires i < |loads|
    ensures CreateAt(EnclaveLog(secs, loads), 0, secs)
    ensures LoadAt(EnclaveLog(secs, loads), Place(loads, i), loads[i])
    ensures |EnclaveLog(secs, loads)| == Place(loads, |loads|)
  {
    CreateRecord(secs);
    CreateStays(CreateLog(secs), secs, LoadsLog(loads));
    hide EnclaveLog, LoadLog, LoadAt, CreateLog, LoadsLog, CreateAt;
    var before, l := EnclaveLog(secs, loads[..i]), loads[i];
    EnclaveSplit(secs, loads, i);
    PlaceIsLength(secs, loads, i);
    LoadRecord(before, l);
    LoadStays(before + LoadLog(l), Place(loads, i), l, LoadsLog(loads[i + 1..]));
    PlaceIsLength(secs, loads, |loads|);
    assert loads[..|loads|] == loads;
  }

  lemma CreateStays(log: seq<byte>, secs: Secs, more: seq<byte>)
    requires CreateAt(log, 0, secs)
    ensures CreateAt(log + more, 0, secs)
  {
    hide FromLittleEndian;
    var s := log + more;
    assert s[0..8] == log[0..8] && s[8..12] == log[8..12] && s[12..20] == log[12..20];
  }

  // ----- the operations

  /** A hash context, as the bytes hashed so far. */
  class Sha256Context {
    var log: seq<byte>

    constructor ()
      ensures log == []
    {
      log := [];
    }

    /** A context resumed from a saved hash state. */
    constructor Restore(hashed: seq<byte>)
      ensures log == hashed
    {
      log := hashed;
    }

    method Init()
      modifies this
      ensures log == []
    {
      log := [];
    }

    method Update(data: seq<byte>)
      modifies this
      ensures log == old(log) + data
    {
      log := log + data;
    }
  }

  method MeasureZeros(context: Sha256Context, count: nat)
    modifies context
    ensures context.log == old(context.log) + Zeros(count)
  {
    var size: nat := count;
    while size != 0
      invariant size <= count
      invariant context.log == old(context.log) + Zeros(count - size)
    {
      if size < 128 {
        context.Update(Zeros(size));
        size := 0;
      } else {
        context.Update(Zeros(128));
        size := size - 128;
      }
    }
  }

  method MeasureEextend(context: Sha256Context, vaddr: uint64, page: Page)
    modifies context
    ensures context.log == old(context.log) + ExtendLog(vaddr, page, CHUNKS_PER_PAGE)
    ensures ChunksAt(context.log, |old(context.log)|, vaddr, page, 16)
  {
    hide LittleEndian, Zeros, ChunksAt;
    var pgoff := 0;
    ghost var k := 0;
    while pgoff < PAGE_SIZE
      invariant k <= CHUNKS_PER_PAGE && pgoff == k * CHUNK_SIZE
      invariant context.log == old(context.log) + ExtendLog(vaddr, page, k)
    {
      var moffset := (vaddr + pgoff) % UINT64_LIMIT;
      context.Update(EEXTEND);
      context.Update(LittleEndian(moffset, 8));
      MeasureZeros(context, 48);
      context.Update(page[pgoff..pgoff + CHUNK_SIZE]);
      assert context.log == old(context.log) + (ExtendLog(vaddr, page, k) + ChunkLog(vaddr, page, k));
      pgoff := pgoff + CHUNK_SIZE;
      k := k + 1;
    }
    ChunkRecords(old(context.log), vaddr, page, CHUNKS_PER_PAGE);
  }

  method MeasureCreateEnclave(context: Sha256Context, secs: Option<Secs>) returns (result: OeResult)
    modifies context
    ensures result == if secs.None? then INVALID_PARAMETER else OK
    ensures context.log == if secs.None? then old(context.log) else EnclaveLog(secs.value, [])
    ensures secs.Some? ==> |context.log| == 64 && CreateAt(context.log, 0, secs.value)
  {
    hide CreateAt, LittleEndian, Zeros;
    if secs.None? {
      return INVALID_PARAMETER;
    }
    context.Init();
    context.Update(ECREATE);
    context.Update(LittleEndian(secs.value.ssaframesize, 4));
    context.Update(LittleEndian(secs.value.size, 8));
    MeasureZeros(context, 44);
    assert context.log == CreateLog(secs.value) + [];
    CreateRecord(secs.value);
    assert CreateLog(secs.value) + [] == CreateLog(secs.value);
    return OK;
  }

  method MeasureLoadEnclaveData(context: Sha256Context, base: uint64, addr: uint64, src: Option<Page>,
                                flags: uint64, extend: bool)
    returns (result: OeResult)
    modifies context
    ensures result == if addr != 0 && src.Some? && flags != 0 && base <= addr then OK else INVALID_PARAMETER
    ensures result != OK ==> context.log == old(context.log)
    ensures result == OK ==>
              var l := PageLoad(addr - base, flags, extend, src.value);
              context.log == old(context.log) + LoadLog(l) && LoadAt(context.log, |old(context.log)|, l)
  {
    hide ExtendLog, LittleEndian, Zeros, LoadAt;
    var vaddr := (addr - base) % UINT64_LIMIT;
    if addr == 0 || src.None? || flags == 0 || addr < base {
      return INVALID_PARAMETER;
    }
    context.Update(EADD);
    context.Update(LittleEndian(vaddr, 8));
    context.Update(LittleEndian(flags, 8));
    MeasureZeros(context, 40);
    assert context.log == old(context.log) + AddLog(vaddr, flags);
    if extend {
      MeasureEextend(context, vaddr, src.value);
    }
    assert context.log == old(context.log) + LoadLog(PageLoad(vaddr, flags, extend, src.value));
    LoadRecord(old(context.log), PageLoad(vaddr, flags, extend, src.value));
    return OK;
  }

  // ----- unique decodability

  /** Loads that hardware cannot tell apart: the same up to pages that were not extended. */
  predicate SameMeasuredLoad(a: PageLoad, b: PageLoad) {
    && a.vaddr == b.vaddr && a.flags == b.flags && a.extend == b.extend
    && (a.extend ==> a.page == b.page)
  }

  predicate SameMeasuredLoads(a: seq<PageLoad>, b: seq<PageLoad>) {
    |a| == |b| && forall i :: 0 <= i < |a| ==> SameMeasuredLoad(a[i], b[i])
  }

  lemma CreateLogInjective(a: Secs, b: Secs)
    requires CreateLog(a) == CreateLog(b)
    ensures a == b
  {
    Pow256Values();
    var s, t := CreateLog(a), CreateLog(b);
    assert s[8..12] == LittleEndian(a.ssaframesize, 4) && t[8..12] == LittleEndian(b.ssaframesize, 4);
    assert s[12..20] == LittleEndian(a.size, 8) && t[12..20] == LittleEndian(b.size, 8);
    LittleEndianInjective(a.ssaframesize, b.ssaframesize, 4);
    LittleEndianInjective(a.size, b.size, 8);
  }

  lemma AddLogInjective(v: uint64, f: uint64, w: uint64, g: uint64)
    requires AddLog(v, f) == AddLog(w, g)
    ensures v == w && f == g
  {
    Pow256Values();
    var s, t := AddLog(v, f), AddLog(w, g);
    assert s[8..16] == LittleEndian(v, 8) && t[8..16] == LittleEndian(w, 8);
    assert s[16..24] == LittleEndian(f, 8) && t[16..24] == LittleEndian(g, 8);
    LittleEndianInjective(v, w, 8);
    LittleEndianInjective(f, g, 8);
  }

  /** The chunks that were extended can be read back from the log. */
  lemma {:induction false} ExtendLogInjective(v: uint64, p: Page, q: Page, k: nat)
    requires k <= CHUNKS_PER_PAGE
    requires ExtendLog(v, p, k) == ExtendLog(v, q, k)
    ensures p[..k * CHUNK_SIZE] == q[..k * CHUNK_SIZE]
  {
    if k > 0 {
      var n := (k - 1) * (SHA256_BLOCK + CHUNK_SIZE);
      var s, t := ExtendLog(v, p, k), ExtendLog(v, q, k);
      assert s[..n] == ExtendLog(v, p, k - 1) && t[..n] == ExtendLog(v, q, k - 1);
      ExtendLogInjective(v, p, q, k - 1);
      assert s[n..] == ChunkLog(v, p, k - 1) && t[n..] == ChunkLog(v, q, k - 1);
      var i, j := (k - 1) * CHUNK_SIZE, k * CHUNK_SIZE;
      assert ChunkLog(v, p, k - 1)[64..] == p[i..j] && ChunkLog(v, q, k - 1)[64..] == q[i..j];
      assert p[..j] == p[..i] + p[i..j] && q[..j] == q[..i] + q[i..j];
    }
  }

  /** An extended page is followed by "EEXTEND", any other page by "EADD" or the end. */
  lemma ExtendBitVisible(a: PageLoad, s: seq<byte>, b: PageLoad, bs: seq<PageLoad>)
    requires a.extend && !b.extend
    ensures LoadLog(a) + s != LoadLog(b) + LoadsLog(bs)
  {
    var x, y := LoadLog(a) + s, LoadLog(b) + LoadsLog(bs);
    ExtendStartsWithTag(a.vaddr, a.page, CHUNKS_PER_PAGE);
    assert x[65] == EEXTEND[1];
    if bs != [] {
      assert y[65] == LoadLog(bs[0])[1] == EADD[1];
    }
  }

  lemma {:induction false} ExtendStartsWithTag(v: uint64, p: Page, k: nat)
    requires 0 < k <= CHUNKS_PER_PAGE
    ensures ExtendLog(v, p, k)[..8] == EEXTEND
  {
    if k > 1 {
      ExtendStartsWithTag(v, p, k - 1);
      assert ExtendLog(v, p, k)[..8] == ExtendLog(v, p, k - 1)[..8];
    } else {
      assert ExtendLog(v, p, 1) == [] + ChunkLog(v, p, 0);
    }
  }

  lemma LoadLogInjective(a: PageLoad, b: PageLoad)
    requires LoadLog(a) == LoadLog(b)
    ensures SameMeasuredLoad(a, b)
  {
    assert LoadLog(a)[..64] == AddLog(a.vaddr, a.flags) && LoadLog(b)[..64] == AddLog(b.vaddr, b.flags);
    AddLogInjective(a.vaddr, a.flags, b.vaddr, b.flags);
    if a.extend {
      assert LoadLog(a)[64..] == ExtendLog(a.vaddr, a.page, CHUNKS_PER_PAGE);
      assert LoadLog(b)[64..] == ExtendLog(b.vaddr, b.page, CHUNKS_PER_PAGE);
      ExtendLogInjective(a.vaddr, a.page, b.page, CHUNKS_PER_PAGE);
      assert a.page == a.page[..4096] && b.page == b.page[..4096];
    }
  }

  lemma {:induction false} LoadsLogInjective(a: seq<PageLoad>, b: seq<PageLoad>)
    requires LoadsLog(a) == LoadsLog(b)
    ensures SameMeasuredLoads(a, b)
  {
    if a != [] && b != [] {
      if a[0].extend && !b[0].extend {
        ExtendBitVisible(a[0], LoadsLog(a[1..]), b[0], b[1..]);
      } else if b[0].extend && !a[0].extend {
        ExtendBitVisible(b[0], LoadsLog(b[1..]), a[0], a[1..]);
      }
      var n := |LoadLog(a[0])|;
      assert LoadsLog(a)[..n] == LoadLog(a[0]) && LoadsLog(b)[..n] == LoadLog(b[0]);
      LoadLogInjective(a[0], b[0]);
      assert LoadsLog(a)[n..] == LoadsLog(a[1..]) && LoadsLog(b)[n..] == LoadsLog(b[1..]);
      LoadsLogInjective(a[1..], b[1..]);
      forall i | 0 <= i < |a| ensures SameMeasuredLoad(a[i], b[i]) {
        if i > 0 {
          assert a[i] == a[1..][i - 1] && b[i] == b[1..][i - 1];
        }
      }
    }
  }

  /** Equal logs exactly when the enclave parameters and the measured loads agree. */
  lemma EnclaveLogUniquelyDecodable(secs: Secs, loads: seq<PageLoad>, secs': Secs, loads': seq<PageLoad>)
    ensures EnclaveLog(secs, loads) == EnclaveLog(secs', loads') <==>
            secs == secs' && SameMeasuredLoads(loads, loads')
  {
    if EnclaveLog(secs, loads) == EnclaveLog(secs', loads') {
      assert EnclaveLog(secs, loads)[..64] == CreateLog(secs);
      assert EnclaveLog(secs', loads')[..64] == CreateLog(secs');
      CreateLogInjective(secs, secs');
      assert EnclaveLog(secs, loads)[64..] == LoadsLog(loads);
      assert EnclaveLog(secs', loads')[64..] == LoadsLog(loads');
      LoadsLogInjective(loads, loads');
    } else if secs == secs' && SameMeasuredLoads(loads, loads') {
      LoadsLogCongruent(loads, loads');
    }
  }

  lemma {:induction false} LoadsLogCongruent(a: seq<PageLoad>, b: seq<PageLoad>)
    requires SameMeasuredLoads(a, b)
    ensures LoadsLog(a) == LoadsLog(b)
  {
    if a != [] {
      assert SameMeasuredLoad(a[0], b[0]);
      forall i | 0 <= i < |a[1..]| ensures SameMeasuredLoad(a[1..][i], b[1..][i]) {
        assert SameMeasuredLoad(a[i + 1], b[i + 1]);
      }
      LoadsLogCongruent(a[1..], b[1..]);
    }
  }
}
