/** Scatter/gather vectors flattened for the host (syscall/iov.c): 16-byte headers that hold an
    offset and a length, then the data of all segments. */
module Iov {
  import opened Bytes

  const HEADER_SIZE := 16
  const INT_MAX := 0x7fff_ffff

  /** One element of a vector; a missing base is a null pointer. */
  datatype Segment = Segment(base: Option<seq<byte>>, len: nat)

  predicate Valid(s: Segment) {
    s.len < UINT64_LIMIT && (s.base.Some? ==> |s.base.value| == s.len)
  }

  predicate AllValid(segs: seq<Segment>) {
    forall i :: 0 <= i < |segs| ==> Valid(segs[i])
  }

  /** Every segment with bytes says where they are. */
  predicate Based(segs: seq<Segment>) {
    forall i :: 0 <= i < |segs| ==> segs[i].len > 0 ==> segs[i].base.Some?
  }

  function Contents(s: Segment): seq<byte> {
    if s.base.Some? then s.base.value else []
  }

  // ----- the packed form

  /** The lengths of the first `k` segments, added up. */
  function Sum(segs: seq<Segment>, k: nat): nat
    requires k <= |segs|
  {
    if k == 0 then 0 else Sum(segs, k - 1) + segs[k - 1].len
  }

  /** The contents of the first `k` segments, concatenated. */
  function Data(segs: seq<Segment>, k: nat): seq<byte>
    requires k <= |segs|
  {
    if k == 0 then [] else Data(segs, k - 1) + Contents(segs[k - 1])
  }

  function Offset(segs: seq<Segment>, i: nat): nat
    requires i <= |segs|
  {
    HEADER_SIZE * |segs| + Sum(segs, i)
  }

  /** A segment without bytes has a header of zeros. */
  function Header(segs: seq<Segment>, i: nat): (h: seq<byte>)
    requires i < |segs|
    ensures |h| == HEADER_SIZE
  {
    if segs[i].len == 0 then Zeros(HEADER_SIZE)
    else LittleEndian(Offset(segs, i), 8) + LittleEndian(segs[i].len, 8)
  }

  function Headers(segs: seq<Segment>, k: nat): (s: seq<byte>)
    requires k <= |segs|
    ensures |s| == HEADER_SIZE * k
  {
    if k == 0 then [] else Headers(segs, k - 1) + Header(segs, k - 1)
  }

  function Packed(segs: seq<Segment>): seq<byte> {
    Headers(segs, |segs|) + Data(segs, |segs|)
  }

  lemma {:induction false} SumGrows(segs: seq<Segment>, j: nat, k: nat)
    requires j <= k <= |segs|
    ensures Sum(segs, j) <= Sum(segs, k)
    decreases k
  {
    if j < k {
      SumGrows(segs, j, k - 1);
    }
  }

  lemma ContentsLength(s: Segment)
    requires Valid(s) && (s.len > 0 ==> s.base.Some?)
    ensures |Contents(s)| == s.len
  {
  }

  lemma {:induction false} DataLength(segs: seq<Segment>, k: nat)
    requires k <= |segs| && AllValid(segs) && Based(segs)
    ensures |Data(segs, k)| == Sum(segs, k)
  {
    if k > 0 {
      DataLength(segs, k - 1);
    }
  }

  // ----- packing

  /** The buffer while packing: `i` segments done, the rest still zero. */
  function Layout(segs: seq<Segment>, i: nat, size: nat): seq<byte>
    requires i <= |segs|
  {
    Headers(segs, i) + Zeros(HEADER_SIZE * (|segs| - i)) + Data(segs, i)
    + Zeros(if size < Sum(segs, i) then 0 else size - Sum(segs, i))
  }

  /** Overwriting the middle of a concatenation. */
  lemma Spliced(s: seq<byte>, a: seq<byte>, b: seq<byte>, c: seq<byte>, middle: seq<byte>, t: seq<byte>)
    requires s == a + b + c && |middle| == |b| && |t| == |s|
    requires t[..|a| + |b|] == s[..|a|] + middle && t[|a| + |b|..] == s[|a| + |b|..]
    ensures t == a + middle + c
  {
    assert s[..|a|] == a && s[|a| + |b|..] == c;
    assert t == t[..|a| + |b|] + t[|a| + |b|..];
  }

  /** Writing header `i` and data `i` into the layout of `i` gives the layout of `i + 1`. */
  lemma LayoutStep(segs: seq<Segment>, i: nat, size: nat, one: seq<byte>, two: seq<byte>)
    requires i < |segs| && |Data(segs, i)| == Sum(segs, i)
    requires |Contents(segs[i])| == segs[i].len && Sum(segs, i) + segs[i].len <= size
    requires |one| == |two| == |Layout(segs, i, size)|
    requires var at := HEADER_SIZE * i;
             one[..at + HEADER_SIZE] == Layout(segs, i, size)[..at] + Header(segs, i)
             && one[at + HEADER_SIZE..] == Layout(segs, i, size)[at + HEADER_SIZE..]
    requires var p := Offset(segs, i);
             two[..p + segs[i].len] == one[..p] + Contents(segs[i]) && two[p + segs[i].len..] == one[p + segs[i].len..]
    ensures two == Layout(segs, i + 1, size)
  {
    hide Header, Contents, Zeros;
    LayoutParts(segs, i, size);
    SumSnoc(segs, i);
    assert Headers(segs, i + 1) == Headers(segs, i) + Header(segs, i);
    assert Data(segs, i + 1) == Data(segs, i) + Contents(segs[i]);
    hide Headers, Data, Sum;
    var h, d := Headers(segs, i), Data(segs, i);
    var z := Zeros(HEADER_SIZE * (|segs| - i - 1));
    var gap, rest := Zeros(segs[i].len), Zeros(size - Sum(segs, i) - segs[i].len);
    assert Layout(segs, i + 1, size) == h + Header(segs, i) + z + (d + Contents(segs[i])) + rest;
    BothSpliced(Layout(segs, i, size), h, Zeros(HEADER_SIZE), z, d, gap, rest, Header(segs, i), Contents(segs[i]), one, two);
  }

  lemma BothSpliced(s: seq<byte>, h: seq<byte>, b: seq<byte>, z: seq<byte>, d: seq<byte>, gap: seq<byte>, rest: seq<byte>,
                    b': seq<byte>, gap': seq<byte>, one: seq<byte>, two: seq<byte>)
    requires s == h + b + (z + d + gap + rest) && |b| == |b'| && |gap| == |gap'| && |one| == |two| == |s|
    requires one[..|h| + |b|] == s[..|h|] + b' && one[|h| + |b|..] == s[|h| + |b|..]
    requires var p := |h| + |b| + |z| + |d|;
             two[..p + |gap|] == one[..p] + gap' && two[p + |gap|..] == one[p + |gap|..]
    ensures two == h + b' + z + (d + gap') + rest
  {
    Spliced(s, h, b, z + d + gap + rest, b', one);
    assert one == (h + b' + z + d) + gap + rest;
    Spliced(one, h + b' + z + d, gap, rest, gap', two);
  }

  lemma LayoutParts(segs: seq<Segment>, i: nat, size: nat)
    requires i < |segs| && Sum(segs, i) + segs[i].len <= size
    ensures Layout(segs, i, size)
         == Headers(segs, i) + Zeros(HEADER_SIZE)
            + (Zeros(HEADER_SIZE * (|segs| - i - 1)) + Data(segs, i) + Zeros(segs[i].len)
               + Zeros(size - Sum(segs, i) - segs[i].len))
  {
    hide Headers, Data, Sum, Zeros;
    ZerosAppend(HEADER_SIZE, HEADER_SIZE * (|segs| - i - 1));
    ZerosAppend(segs[i].len, size - Sum(segs, i) - segs[i].len);
  }

  lemma SumSnoc(segs: seq<Segment>, i: nat)
    requires i < |segs|
    ensures Sum(segs, i + 1) == Sum(segs, i) + segs[i].len
  {
  }

  lemma LayoutSkip(segs: seq<Segment>, i: nat, size: nat)
    requires i < |segs| && segs[i].len == 0 && Contents(segs[i]) == []
    ensures Layout(segs, i + 1, size) == Layout(segs, i, size)
  {
    assert Headers(segs, i + 1) == Headers(segs, i) + Zeros(HEADER_SIZE);
    assert Data(segs, i + 1) == Data(segs, i) && Sum(segs, i + 1) == Sum(segs, i);
    ZerosAppend(HEADER_SIZE, HEADER_SIZE * (|segs| - i - 1));
    hide Headers, Data, Sum, Zeros;
    assert Headers(segs, i) + Zeros(HEADER_SIZE) + Zeros(HEADER_SIZE * (|segs| - i - 1))
        == Headers(segs, i) + (Zeros(HEADER_SIZE) + Zeros(HEADER_SIZE * (|segs| - i - 1)));
  }

  lemma LayoutEnds(segs: seq<Segment>)
    ensures Layout(segs, |segs|, Sum(segs, |segs|)) == Packed(segs)
  {
    hide Headers, Data, Sum, Zeros;
    Unpadded(Headers(segs, |segs|), Data(segs, |segs|));
  }

  lemma Unpadded(h: seq<byte>, d: seq<byte>)
    ensures h + Zeros(0) + d + Zeros(0) == h + d
  {
  }

  /** The data size as the code adds it up: modulo 2^64. */
  method DataSize(segs: seq<Segment>) returns (size: nat)
    requires AllValid(segs)
    ensures size == Sum(segs, |segs|) % UINT64_LIMIT
  {
    size := 0;
    var i := 0;
    while i < |segs|
      invariant 0 <= i <= |segs| && size == Sum(segs, i) % UINT64_LIMIT
    {
      WrappedAdd(Sum(segs, i), segs[i].len);
      size := (size + segs[i].len) % UINT64_LIMIT;
      i := i + 1;
    }
  }

  lemma WrappedAdd(a: nat, b: nat)
    ensures (a % UINT64_LIMIT + b) % UINT64_LIMIT == (a + b) % UINT64_LIMIT
  {
  }

  /** Packs one segment. */
  method PackSegment(segs: seq<Segment>, i: nat, buf: array<byte>, ghost size: nat)
    requires i < |segs| && AllValid(segs) && segs[i].base.Some? && segs[i].len > 0
    requires |Data(segs, i)| == Sum(segs, i) && Sum(segs, i) + segs[i].len <= size
    requires buf[..] == Layout(segs, i, size)
    modifies buf
    ensures buf[..] == Layout(segs, i + 1, size)
  {
    hide Layout, Headers, Data, LittleEndian, Offset;
    LayoutLength(segs, i, size);
    var at, p := HEADER_SIZE * i, Offset(segs, i);
    Put(buf, at, LittleEndian(p, 8) + LittleEndian(segs[i].len, 8));
    ghost var one := buf[..];
    Put(buf, p, segs[i].base.value);
    LayoutStep(segs, i, size, one, buf[..]);
  }

  lemma LayoutLength(segs: seq<Segment>, i: nat, size: nat)
    requires i < |segs| && |Data(segs, i)| == Sum(segs, i) && Sum(segs, i) <= size
    ensures |Layout(segs, i, size)| == HEADER_SIZE * |segs| + size
    ensures HEADER_SIZE * (i + 1) <= Offset(segs, i) && Offset(segs, i) + (size - Sum(segs, i)) == HEADER_SIZE * |segs| + size
  {
  }

  /** The size handed to the allocator; headers and data are added modulo 2^64. */
  function Allocation(segs: seq<Segment>): nat {
    (HEADER_SIZE * |segs| + Sum(segs, |segs|) % UINT64_LIMIT) % UINT64_LIMIT
  }

  /** The sum of headers and (wrapped) data does not wrap again. */
  predicate SizeFits(segs: seq<Segment>) {
    HEADER_SIZE * |segs| + Sum(segs, |segs|) % UINT64_LIMIT < UINT64_LIMIT
  }

  /** The headers lie inside the allocation exactly when its size did not wrap. */
  lemma HeadersInside(segs: seq<Segment>)
    requires 0 < |segs| <= INT_MAX
    ensures HEADER_SIZE * |segs| <= Allocation(segs) <==> SizeFits(segs)
  {
    hide Sum;
    WrapsOnce(HEADER_SIZE * |segs| + Sum(segs, |segs|) % UINT64_LIMIT);
  }

  /** One segment of 2^64 - 8 bytes: eight bytes are allocated, and the header has sixteen. */
  lemma HeaderOutside()
    ensures var segs := [Segment(None, UINT64_LIMIT - 8)];
            AllValid(segs) && Allocation(segs) == 8 < HEADER_SIZE
  {
    var segs := [Segment(None, UINT64_LIMIT - 8)];
    assert Sum(segs, 0) == 0 && Sum(segs, 1) == UINT64_LIMIT - 8;
  }

  /** The first segment with bytes, or the number of segments. */
  function FirstFilled(segs: seq<Segment>): (j: nat)
    ensures j <= |segs| && (forall i :: 0 <= i < j ==> segs[i].len == 0) && (j < |segs| ==> segs[j].len > 0)
  {
    if segs == [] || segs[0].len > 0 then 0
    else
      assert forall i :: 1 <= i < |segs| ==> segs[i] == segs[1..][i - 1];
      1 + FirstFilled(segs[1..])
  }

  datatype PackResult = PackResult(buffer: Option<seq<byte>>, dataSize: nat)

  /** A failure, a buffer, or a write that leaves the allocation. */
  datatype PackOutcome = Refused | Filled(result: PackResult) | OutOfBounds

  /** What packing a non-empty vector comes to. When the allocation's size has wrapped, the first
      segment with bytes decides: only a missing base behind a header inside stops the writing. */
  ghost function PackedOutcome(segs: seq<Segment>): PackOutcome {
    if SizeFits(segs) then
      if Sum(segs, |segs|) < UINT64_LIMIT && Based(segs)
      then Filled(PackResult(Some(Packed(segs)), Sum(segs, |segs|))) else Refused
    else
      var j := FirstFilled(segs);
      if j < |segs| && HEADER_SIZE * (j + 1) <= Allocation(segs) && segs[j].base.None? then Refused else OutOfBounds
  }

  /** The first segment with bytes has its header inside the wrapped allocation, and no base. */
  ghost predicate StopsAtNull(segs: seq<Segment>) {
    exists j :: && 0 <= j < |segs| && segs[j].len > 0 && segs[j].base.None? && 16 * (j + 1) <= Allocation(segs)
                && forall i :: 0 <= i < j ==> segs[i].len == 0
  }

  /** When packing fills a buffer, is refused, or leaves its allocation. */
  lemma PackOutcomes(segs: seq<Segment>)
    ensures var r, total := PackedOutcome(segs), Sum(segs, |segs|);
            && (r == OutOfBounds <==> 16 * |segs| + total % UINT64_LIMIT >= UINT64_LIMIT && !StopsAtNull(segs))
            && (r.Filled? <==> 16 * |segs| + total % UINT64_LIMIT < UINT64_LIMIT && total < UINT64_LIMIT
                               && forall i :: 0 <= i < |segs| && segs[i].len > 0 ==> segs[i].base.Some?)
            && (r.Filled? ==> r.result == PackResult(Some(Packed(segs)), total))
  {
    hide Sum, Packed, FirstFilled;
    var j := FirstFilled(segs);
    forall k | 0 <= k < |segs| && segs[k].len > 0 && (forall i :: 0 <= i < k ==> segs[i].len == 0) ensures k == j {
    }
  }

  /** Packs a vector of `count` segments. */
  method Pack(iov: Option<seq<Segment>>, count: int) returns (r: PackOutcome)
    requires count <= INT_MAX
    requires iov.Some? ==> AllValid(iov.value) && (count >= 0 ==> |iov.value| == count)
    ensures count < 0 || (count > 0 && iov.None?) ==> r == Refused
    ensures count == 0 ==> r == Filled(PackResult(if iov.Some? then Some(Zeros(8)) else None, 0))
    ensures count > 0 && iov.Some? ==> r == PackedOutcome(iov.value)
  {
    if count < 0 || (count > 0 && iov.None?) {
      return Refused;
    }
    if count == 0 {
      return Filled(PackResult(if iov.Some? then Some(Zeros(8)) else None, 0));
    }
    r := PackSegments(iov.value);
  }

  /** The loop's state: the first `i` segments are packed, or, in an allocation that has wrapped,
      nothing has been written and none of them had bytes. */
  ghost predicate Packing(segs: seq<Segment>, i: nat, buf: seq<byte>) {
    && i <= |segs|
    && if SizeFits(segs)
       then && Sum(segs, i) <= Sum(segs, |segs|) % UINT64_LIMIT && Based(segs[..i]) && |Data(segs, i)| == Sum(segs, i)
            && buf == Layout(segs, i, Sum(segs, |segs|) % UINT64_LIMIT)
       else i <= FirstFilled(segs) && Sum(segs, i) == 0
  }

  method PackSegments(segs: seq<Segment>) returns (r: PackOutcome)
    requires 0 < |segs| <= INT_MAX && AllValid(segs)
    ensures r == PackedOutcome(segs)
  {
    hide Layout, Headers, Data, Packed, FirstFilled, AllValid, Packing, PackedOutcome, Sum;
    var count := |segs|;
    var dataSize := DataSize(segs);
    var size := (HEADER_SIZE * count + dataSize) % UINT64_LIMIT;
    var buf := new byte[size](_ => 0);
    PackingStarts(segs, buf[..]);
    var i, left := 0, dataSize;
    while i < count
      invariant 0 <= i <= count && Packing(segs, i, buf[..]) && 0 <= left == dataSize - Sum(segs, i)
    {
      SumSnoc(segs, i);
      var stop := PackNext(segs, i, dataSize, left, buf);
      if stop.Some? {
        return stop.value;
      }
      left := left - segs[i].len;
      i := i + 1;
    }
    PackingEnds(segs, buf[..]);
    if left != 0 {
      return Refused;
    }
    return Filled(PackResult(Some(buf[..]), dataSize));
  }

  /** One segment; `left` is what the copy is told there is room for. */
  method PackNext(segs: seq<Segment>, i: nat, dataSize: nat, left: nat, buf: array<byte>)
    returns (stop: Option<PackOutcome>)
    requires i < |segs| <= INT_MAX && AllValid(segs) && Packing(segs, i, buf[..]) && buf.Length == Allocation(segs)
    requires dataSize == Sum(segs, |segs|) % UINT64_LIMIT && left == dataSize - Sum(segs, i)
    modifies buf
    ensures stop.Some? ==> stop.value == PackedOutcome(segs)
    ensures stop.None? ==> Packing(segs, i + 1, buf[..]) && segs[i].len <= left
  {
    hide Layout, Headers, Data, Packed, FirstFilled, AllValid, Sum;
    var count := |segs|;
    WrapsOnce(HEADER_SIZE * count + Sum(segs, count) % UINT64_LIMIT);
    SumSnoc(segs, i);
    SumGrows(segs, i + 1, count);
    ValidAt(segs, i);
    DataSnoc(segs, i);
    assert segs[..i + 1] == segs[..i] + [segs[i]];
    if segs[i].len == 0 {
      LayoutSkip(segs, i, dataSize);
      return None;
    }
    if HEADER_SIZE * (i + 1) > buf.Length {
      return Some(OutOfBounds);
    }
    if segs[i].base.None? {
      return Some(Refused);
    }
    var p := HEADER_SIZE * count + (dataSize - left);
    if p + (if left < segs[i].len then left else segs[i].len) > buf.Length {
      return Some(OutOfBounds);
    }
    if left < segs[i].len {
      return Some(Refused);
    }
    PackSegment(segs, i, buf, dataSize);
    return None;
  }

  lemma ValidAt(segs: seq<Segment>, i: nat)
    requires AllValid(segs) && i < |segs|
    ensures Valid(segs[i])
  {
  }

  lemma PackingStarts(segs: seq<Segment>, buf: seq<byte>)
    requires buf == Zeros(Allocation(segs)) && |segs| <= INT_MAX
    ensures Packing(segs, 0, buf) && Sum(segs, 0) == 0
  {
    hide Layout, Data, FirstFilled;
    assert Sum(segs, 0) == 0;
    var dataSize := Sum(segs, |segs|) % UINT64_LIMIT;
    WrapsOnce(HEADER_SIZE * |segs| + dataSize);
    if SizeFits(segs) {
      LayoutStarts(segs, dataSize, buf);
    }
  }

  lemma PackingEnds(segs: seq<Segment>, buf: seq<byte>)
    requires Packing(segs, |segs|, buf) && |segs| <= INT_MAX
    ensures Sum(segs, |segs|) % UINT64_LIMIT == Sum(segs, |segs|)
    ensures PackedOutcome(segs) == Filled(PackResult(Some(buf), Sum(segs, |segs|)))
  {
    hide Layout, Data, FirstFilled, Packed, Sum;
    assert segs[..|segs|] == segs;
    WrapsOnce(Sum(segs, |segs|));
    LayoutEnds(segs);
  }

  lemma DataSnoc(segs: seq<Segment>, i: nat)
    requires i < |segs|
    ensures Data(segs, i + 1) == Data(segs, i) + Contents(segs[i])
  {
  }

  lemma LayoutStarts(segs: seq<Segment>, size: nat, buf: seq<byte>)
    requires buf == Zeros(HEADER_SIZE * |segs| + size)
    ensures buf == Layout(segs, 0, size) && Data(segs, 0) == [] && Sum(segs, 0) == 0
  {
    assert Headers(segs, 0) == [] && Data(segs, 0) == [] && Sum(segs, 0) == 0;
    ZerosAppend(HEADER_SIZE * |segs|, size);
    hide Headers, Data, Sum, Zeros;
    assert Layout(segs, 0, size) == [] + Zeros(HEADER_SIZE * |segs|) + [] + Zeros(size);
  }

  lemma ZerosAppend(m: nat, n: nat)
    ensures Zeros(m) + Zeros(n) == Zeros(m + n)
  {
  }

  // ----- synchronizing

  function HeaderOffset(buf: seq<byte>, i: nat): (x: nat)
    requires HEADER_SIZE * i + HEADER_SIZE <= |buf|
    ensures x < UINT64_LIMIT
  {
    Read64(buf, HEADER_SIZE * i)
  }

  function HeaderLength(buf: seq<byte>, i: nat): (x: nat)
    requires HEADER_SIZE * i + HEADER_SIZE <= |buf|
    ensures x < UINT64_LIMIT
  {
    Read64(buf, HEADER_SIZE * i + 8)
  }

  /** The code's bounds test on addresses, where `addr` is the buffer's own address. */
  predicate PassesBounds(addr: nat, size: nat, offset: nat, len: nat) {
    var src := (offset + addr) % UINT64_LIMIT;
    var end := (src + len) % UINT64_LIMIT;
    !(src < addr || end < src || end > addr + size)
  }

  lemma WrapsOnce(x: nat)
    ensures x < UINT64_LIMIT ==> x % UINT64_LIMIT == x
    ensures UINT64_LIMIT <= x < 2 * UINT64_LIMIT ==> x % UINT64_LIMIT == x - UINT64_LIMIT
  {
  }

  /** The test passes exactly for ranges inside the buffer, whatever wraps around. */
  lemma BoundsMeanInside(addr: nat, size: nat, offset: nat, len: nat)
    requires addr + size < UINT64_LIMIT && offset < UINT64_LIMIT && len < UINT64_LIMIT
    ensures PassesBounds(addr, size, offset, len) <==> offset + len <= size
  {
    WrapsOnce(offset + addr);
    WrapsOnce((offset + addr) % UINT64_LIMIT + len);
  }

  /** Outside: a header was read past the end of the buffer, whose size is not compared with the
      number of headers. */
  datatype Status = Ok | Rejected | Outside

  /** The vector after some steps, and how much of the buffer is still unaccounted for. */
  datatype Progress = Progress(status: Status, segs: seq<Segment>, left: int)

  datatype Verdict = Reject | Skip | Copy(offset: nat)

  /** What happens to segment `i`, given its header. */
  function Judge(s: Segment, buf: seq<byte>, left: int, i: nat): (v: Verdict)
    requires HEADER_SIZE * i + HEADER_SIZE <= |buf|
    ensures v.Copy? ==> s.base.Some? && v.offset == HeaderOffset(buf, i) && v.offset + s.len <= |buf|
  {
    var offset, len := HeaderOffset(buf, i), HeaderLength(buf, i);
    if len != s.len then Reject
    else if len == 0 then Skip
    else if (offset != 0) != s.base.Some? then Reject
    else if offset == 0 then Skip
    else if left < len || offset + len > |buf| then Reject
    else Copy(offset)
  }

  function Loaded(s: Segment, buf: seq<byte>, offset: nat): Segment
    requires offset + s.len <= |buf|
  {
    Segment(Some(buf[offset..offset + s.len]), s.len)
  }

  /** The state after the first `k` segments of `segs`. */
  function Synced(segs: seq<Segment>, buf: seq<byte>, k: nat): (p: Progress)
    requires k <= |segs|
    ensures |p.segs| == |segs| && forall j :: k <= j < |segs| ==> p.segs[j] == segs[j]
  {
    if k == 0 then Progress(Ok, segs, |buf|)
    else
      var p, s := Synced(segs, buf, k - 1), segs[k - 1];
      if p.status != Ok then p
      else if HEADER_SIZE * k > |buf| then Progress(Outside, p.segs, p.left)
      else
        match Judge(s, buf, p.left, k - 1)
        case Reject => Progress(Rejected, p.segs, p.left)
        case Skip => Progress(Ok, p.segs, if s.len == 0 then p.left - s.len else p.left)
        case Copy(offset) => Progress(Ok, p.segs[k - 1 := Loaded(s, buf, offset)], p.left - s.len)
  }

  lemma {:induction false} RejectedStays(segs: seq<Segment>, buf: seq<byte>, k: nat, n: nat)
    requires k <= n <= |segs| && Synced(segs, buf, k).status != Ok
    ensures Synced(segs, buf, n) == Synced(segs, buf, k)
    decreases n
  {
    hide Judge;
    if k < n {
      RejectedStays(segs, buf, k, n - 1);
    }
  }

  /** Copies the buffer's data back into the vector, in place. The headers are read from the
      buffer, which the host may have changed at will. */
  method Sync(iov: array?<Segment>, count: int, buf: seq<byte>, addr: nat) returns (status: Status)
    requires iov != null && count >= 0 ==>
               iov.Length == count && AllValid(iov[..]) && addr + |buf| < UINT64_LIMIT
    modifies iov
    ensures count < 0 || (count > 0 && iov == null) ==> status == Rejected
    ensures count == 0 ==> status == Ok
    ensures iov != null && count < 0 ==> iov[..] == old(iov[..])
    ensures iov != null && count >= 0 ==>
              var p := Synced(old(iov[..]), buf, count); status == p.status && iov[..] == p.segs
  {
    if count < 0 || (count > 0 && iov == null) {
      return Rejected;
    }
    if count == 0 {
      return Ok;
    }
    status := SyncSegments(iov, buf, addr);
  }

  method SyncSegments(iov: array<Segment>, buf: seq<byte>, addr: nat) returns (status: Status)
    requires AllValid(iov[..]) && addr + |buf| < UINT64_LIMIT
    modifies iov
    ensures var p := Synced(old(iov[..]), buf, iov.Length); status == p.status && iov[..] == p.segs
  {
    hide HeaderOffset, HeaderLength, PassesBounds;
    var i, left := 0, |buf|;
    while i < iov.Length
      invariant 0 <= i <= iov.Length
      invariant Synced(old(iov[..]), buf, i) == Progress(Ok, iov[..], left)
    {
      if HEADER_SIZE * (i + 1) > |buf| {
        RejectedStays(old(iov[..]), buf, i + 1, iov.Length);
        return Outside;
      }
      var s, offset, len := iov[i], HeaderOffset(buf, i), HeaderLength(buf, i);
      assert s == old(iov[..])[i];
      BoundsMeanInside(addr, |buf|, offset, len);
      if len != s.len
         || (len != 0 && ((offset != 0 && s.base.None?) || (offset == 0 && s.base.Some?)
                          || (offset != 0 && (left < len || !PassesBounds(addr, |buf|, offset, len))))) {
        RejectedStays(old(iov[..]), buf, i + 1, iov.Length);
        return Rejected;
      }
      if len == 0 || offset != 0 {
        if len != 0 {
          iov[i] := Loaded(s, buf, offset);
        }
        left := left - len;
      }
      i := i + 1;
    }
    return Ok;
  }

  /** The bytes that the first `k` headers claim from the buffer. */
  function Claimed(segs: seq<Segment>, buf: seq<byte>, k: nat): nat
    requires k <= |segs| && HEADER_SIZE * k <= |buf|
  {
    if k == 0 then 0
    else Claimed(segs, buf, k - 1) + if HeaderOffset(buf, k - 1) != 0 then segs[k - 1].len else 0
  }

  /** Header `i` is not refused, if none before it is. */
  predicate Fine(segs: seq<Segment>, buf: seq<byte>, i: nat)
    requires i < |segs| && HEADER_SIZE * i + HEADER_SIZE <= |buf|
  {
    Judge(segs[i], buf, |buf| - Claimed(segs, buf, i), i) != Reject
  }

  /** None of the first `k` headers is refused. */
  predicate InOrder(segs: seq<Segment>, buf: seq<byte>, k: nat)
    requires k <= |segs| && HEADER_SIZE * k <= |buf|
  {
    forall i :: 0 <= i < k ==> Fine(segs, buf, i)
  }

  lemma JudgeClaims(s: Segment, buf: seq<byte>, left: int, i: nat)
    requires HEADER_SIZE * i + HEADER_SIZE <= |buf|
    ensures var v := Judge(s, buf, left, i);
            && (v.Copy? ==> HeaderOffset(buf, i) != 0) && (v.Skip? ==> s.len == 0 || HeaderOffset(buf, i) == 0)
  {
    hide HeaderOffset, HeaderLength;
  }

  lemma SyncedStep(segs: seq<Segment>, buf: seq<byte>, k: nat)
    requires 0 < k <= |segs| && HEADER_SIZE * k <= |buf| && Synced(segs, buf, k - 1).status == Ok
    ensures var left := Synced(segs, buf, k - 1).left;
            var p := Synced(segs, buf, k);
            && p.status != Outside && (p.status == Ok <==> Judge(segs[k - 1], buf, left, k - 1) != Reject)
            && (p.status == Ok ==> p.left == left - if HeaderOffset(buf, k - 1) != 0 then segs[k - 1].len else 0)
  {
    hide HeaderOffset, HeaderLength, Judge, Loaded;
    JudgeClaims(segs[k - 1], buf, Synced(segs, buf, k - 1).left, k - 1);
  }

  lemma SyncedNone(segs: seq<Segment>, buf: seq<byte>)
    ensures Synced(segs, buf, 0) == Progress(Ok, segs, |buf|) && InOrder(segs, buf, 0) && Claimed(segs, buf, 0) == 0
  {
  }

  lemma ClaimedStep(segs: seq<Segment>, buf: seq<byte>, k: nat)
    requires 0 < k <= |segs| && HEADER_SIZE * k <= |buf|
    ensures Claimed(segs, buf, k) == Claimed(segs, buf, k - 1) + if HeaderOffset(buf, k - 1) != 0 then segs[k - 1].len else 0
  {
    hide HeaderOffset;
  }

  lemma InOrderStep(segs: seq<Segment>, buf: seq<byte>, k: nat)
    requires 0 < k <= |segs| && HEADER_SIZE * k <= |buf|
    ensures InOrder(segs, buf, k) <==> InOrder(segs, buf, k - 1) && Fine(segs, buf, k - 1)
  {
    hide Fine;
  }

  /** As long as the buffer holds the headers, the steps succeed exactly when they are in order. */
  lemma {:induction false} SyncedOk(segs: seq<Segment>, buf: seq<byte>, k: nat)
    requires k <= |segs| && HEADER_SIZE * k <= |buf|
    ensures Synced(segs, buf, k).status != Outside
    ensures Synced(segs, buf, k).status == Ok <==> InOrder(segs, buf, k)
    ensures Synced(segs, buf, k).status == Ok ==> Synced(segs, buf, k).left == |buf| - Claimed(segs, buf, k)
  {
    hide HeaderOffset, HeaderLength, Judge, Synced, InOrder, Claimed;
    if k == 0 {
      SyncedNone(segs, buf);
    } else {
      SyncedOk(segs, buf, k - 1);
      InOrderStep(segs, buf, k);
      ClaimedStep(segs, buf, k);
      if Synced(segs, buf, k - 1).status == Ok {
        SyncedStep(segs, buf, k);
      } else {
        RejectedStays(segs, buf, k - 1, k);
      }
    }
  }

  /** A header is read outside the buffer exactly when the buffer is shorter than its headers and
      those it does hold are in order. */
  lemma {:induction false} OutsideIff(segs: seq<Segment>, buf: seq<byte>, n: nat)
    requires n <= |segs|
    ensures Synced(segs, buf, n).status == Outside <==>
            |buf| < HEADER_SIZE * n && InOrder(segs, buf, |buf| / HEADER_SIZE)
  {
    hide Judge, InOrder, Synced;
    var k := |buf| / HEADER_SIZE;
    if |buf| < HEADER_SIZE * n {
      SyncedOk(segs, buf, k);
      if Synced(segs, buf, k).status == Ok {
        OutsideNext(segs, buf, k);
        RejectedStays(segs, buf, k + 1, n);
      } else {
        RejectedStays(segs, buf, k, n);
      }
    } else {
      SyncedOk(segs, buf, n);
    }
  }

  lemma OutsideNext(segs: seq<Segment>, buf: seq<byte>, k: nat)
    requires k < |segs| && |buf| < HEADER_SIZE * (k + 1) && Synced(segs, buf, k).status == Ok
    ensures Synced(segs, buf, k + 1).status == Outside
  {
    hide Judge;
  }

  /** With an empty buffer and one empty segment, a header is read that is not there. */
  lemma OutsideEmptyBuffer()
    ensures AllValid([Segment(None, 0)]) && Synced([Segment(None, 0)], [], 1).status == Outside
  {
    OutsideIff([Segment(None, 0)], [], 1);
  }

  /** Whatever the host put in the buffer: every segment keeps its length, and holds either its
      old bytes or a stretch of the buffer. A segment without bytes or base is never written. */
  lemma {:induction false} SyncStaysInside(segs: seq<Segment>, buf: seq<byte>, k: nat, i: nat)
    requires i < |segs| && k <= |segs|
    ensures var after := Synced(segs, buf, k).segs[i];
            || after == segs[i]
            || (exists offset: nat :: segs[i].base.Some? && offset + segs[i].len <= |buf| && after == Loaded(segs[i], buf, offset))
    decreases k
  {
    hide Judge, Loaded;
    if k > 0 {
      SyncStaysInside(segs, buf, k - 1, i);
    }
  }

  /** What every segment holds after `k` steps: those before the first refused header, or before the
      first that the buffer does not hold, have been synchronized, and stay so; the rest are as they
      were. */
  lemma {:induction false} SyncedSegment(segs: seq<Segment>, buf: seq<byte>, k: nat, i: nat)
    requires i < k <= |segs|
    ensures var after := Synced(segs, buf, k).segs[i];
            if 16 * i + 16 <= |buf| && InOrder(segs, buf, i + 1) then
              var offset := FromLittleEndian(buf[16 * i..16 * i + 8]);
              if segs[i].len > 0 && offset > 0
              then && offset + segs[i].len <= |buf|
                   && after == Segment(Some(buf[offset..offset + segs[i].len]), segs[i].len)
              else after == segs[i]
            else after == segs[i]
    decreases k
  {
    hide Judge, HeaderOffset, HeaderLength, InOrder, Claimed, FromLittleEndian;
    if i + 1 < k {
      SyncedSegment(segs, buf, k - 1, i);
      SyncedElsewhere(segs, buf, k, i);
    } else if 16 * k <= |buf| {
      SyncedOk(segs, buf, i);
      SyncedOk(segs, buf, k);
      InOrderStep(segs, buf, k);
      if InOrder(segs, buf, k) {
        JudgeMeaning(segs[i], buf, Synced(segs, buf, i).left, i);
      } else if Synced(segs, buf, i).status == Ok {
        SyncedStep(segs, buf, k);
      }
    } else {
      OutsideLeaves(segs, buf, k);
    }
  }

  lemma SyncedElsewhere(segs: seq<Segment>, buf: seq<byte>, k: nat, i: nat)
    requires 0 < k <= |segs| && i < |segs| && i != k - 1
    ensures Synced(segs, buf, k).segs[i] == Synced(segs, buf, k - 1).segs[i]
  {
    hide Judge, Loaded;
  }

  lemma OutsideLeaves(segs: seq<Segment>, buf: seq<byte>, k: nat)
    requires 0 < k <= |segs| && HEADER_SIZE * k > |buf|
    ensures Synced(segs, buf, k).segs == Synced(segs, buf, k - 1).segs
  {
    hide Judge, Loaded;
  }

  // ----- packing, then synchronizing

  lemma {:induction false} HeadersHold(segs: seq<Segment>, k: nat, i: nat)
    requires i < k <= |segs|
    ensures Headers(segs, k)[HEADER_SIZE * i..HEADER_SIZE * i + HEADER_SIZE] == Header(segs, i)
    decreases k
  {
    hide Header;
    if i < k - 1 {
      HeadersHold(segs, k - 1, i);
      assert Headers(segs, k)[HEADER_SIZE * i..HEADER_SIZE * i + HEADER_SIZE]
          == Headers(segs, k - 1)[HEADER_SIZE * i..HEADER_SIZE * i + HEADER_SIZE];
    }
  }

  /** The headers say what was packed. */
  lemma HeaderReads(segs: seq<Segment>, data: seq<byte>, i: nat)
    requires i < |segs| && AllValid(segs) && HEADER_SIZE * |segs| + Sum(segs, |segs|) < UINT64_LIMIT
    ensures var buf := Headers(segs, |segs|) + data;
            && HEADER_SIZE * i + HEADER_SIZE <= |buf|
            && HeaderLength(buf, i) == segs[i].len
            && (segs[i].len > 0 ==> HeaderOffset(buf, i) == Offset(segs, i))
  {
    hide Headers, LittleEndian, Read64, Sum;
    var buf, at := Headers(segs, |segs|) + data, HEADER_SIZE * i;
    HeadersHold(segs, |segs|, i);
    SumGrows(segs, i, |segs|);
    assert buf[at..at + HEADER_SIZE] == Headers(segs, |segs|)[at..at + HEADER_SIZE] == Header(segs, i);
    var offset := if segs[i].len == 0 then 0 else Offset(segs, i);
    assert Header(segs, i) == LittleEndian(offset, 8) + LittleEndian(segs[i].len, 8) by { ZeroHeader(); }
    assert At(buf, at, LittleEndian(offset, 8) + LittleEndian(segs[i].len, 8));
    AtAppend(buf, at, LittleEndian(offset, 8), LittleEndian(segs[i].len, 8));
    Read64At(buf, at, offset);
    Read64At(buf, at + 8, segs[i].len);
  }

  lemma ZeroHeader()
    ensures LittleEndian(0, 8) + LittleEndian(0, 8) == Zeros(HEADER_SIZE)
  {
    ZeroImage();
  }

  /** Segment `i` of a vector cut out of `data`. */
  function Cut(segs: seq<Segment>, data: seq<byte>, i: nat): Segment
    requires i < |segs| && Sum(segs, i) + segs[i].len <= |data|
  {
    if segs[i].len == 0 then segs[i] else Segment(Some(data[Sum(segs, i)..Sum(segs, i) + segs[i].len]), segs[i].len)
  }

  lemma {:induction false} SyncCuts(segs: seq<Segment>, data: seq<byte>, k: nat)
    requires k <= |segs| && AllValid(segs) && Based(segs)
    requires |data| == Sum(segs, |segs|) && HEADER_SIZE * |segs| + |data| < UINT64_LIMIT
    ensures var buf := Headers(segs, |segs|) + data;
            var p := Synced(segs, buf, k);
            && p.status == Ok && p.left == |buf| - Sum(segs, k)
            && forall i :: 0 <= i < k ==> (SumGrows(segs, i + 1, |segs|); p.segs[i] == Cut(segs, data, i))
  {
    hide Headers, Judge, Loaded, Cut;
    if k > 0 {
      var buf, i := Headers(segs, |segs|) + data, k - 1;
      SyncCuts(segs, data, i);
      JudgedCut(segs, data, i);
    }
  }

  lemma JudgedCut(segs: seq<Segment>, data: seq<byte>, i: nat)
    requires i < |segs| && AllValid(segs) && Based(segs)
    requires |data| == Sum(segs, |segs|) && HEADER_SIZE * |segs| + |data| < UINT64_LIMIT
    ensures Sum(segs, i) + segs[i].len <= |data|
    ensures var buf := Headers(segs, |segs|) + data;
            var v := Judge(segs[i], buf, |buf| - Sum(segs, i), i);
            if segs[i].len == 0 then v == Skip && Cut(segs, data, i) == segs[i]
            else v.Copy? && Loaded(segs[i], buf, v.offset) == Cut(segs, data, i)
  {
    hide Headers, HeaderOffset, HeaderLength, Sum;
    var buf, from := Headers(segs, |segs|) + data, Offset(segs, i);
    SumSnoc(segs, i);
    SumGrows(segs, i + 1, |segs|);
    HeaderReads(segs, data, i);
    assert buf[from..from + segs[i].len] == data[Sum(segs, i)..Sum(segs, i) + segs[i].len];
  }

  lemma {:induction false} CutsConcatenate(segs: seq<Segment>, data: seq<byte>, after: seq<Segment>, k: nat)
    requires k <= |segs| == |after| && |data| == Sum(segs, |segs|) && AllValid(segs) && Based(segs)
    requires forall i :: 0 <= i < |segs| ==> (SumGrows(segs, i + 1, |segs|); after[i] == Cut(segs, data, i))
    ensures Sum(segs, k) <= |data| && Data(after, k) == data[..Sum(segs, k)]
  {
    hide Cut, Contents;
    SumGrows(segs, k, |segs|);
    if k > 0 {
      CutsConcatenate(segs, data, after, k - 1);
      assert after[k - 1] == Cut(segs, data, k - 1);
      CutContents(segs, data, k - 1);
      assert data[..Sum(segs, k - 1)] + data[Sum(segs, k - 1)..Sum(segs, k)] == data[..Sum(segs, k)];
    }
  }

  lemma CutContents(segs: seq<Segment>, data: seq<byte>, i: nat)
    requires i < |segs| && Valid(segs[i]) && Sum(segs, i) + segs[i].len <= |data|
    ensures Contents(Cut(segs, data, i)) == data[Sum(segs, i)..Sum(segs, i) + segs[i].len]
  {
  }

  /** If the host overwrites only the data area, synchronizing succeeds and the segments, in
      order, are exactly the host's bytes. */
  lemma SyncDeliversData(segs: seq<Segment>, data: seq<byte>)
    requires AllValid(segs) && Based(segs)
    requires |data| == Sum(segs, |segs|) && HEADER_SIZE * |segs| + |data| < UINT64_LIMIT
    ensures var p := Synced(segs, Headers(segs, |segs|) + data, |segs|);
            p.status == Ok && Data(p.segs, |segs|) == data
  {
    hide Synced, Headers, Data, Cut;
    var p := Synced(segs, Headers(segs, |segs|) + data, |segs|);
    SyncCuts(segs, data, |segs|);
    CutsConcatenate(segs, data, p.segs, |segs|);
  }

  lemma {:induction false} DataHolds(segs: seq<Segment>, k: nat, i: nat)
    requires i < k <= |segs| && AllValid(segs) && Based(segs)
    ensures Sum(segs, i) + segs[i].len <= |Data(segs, k)|
    ensures Data(segs, k)[Sum(segs, i)..Sum(segs, i) + segs[i].len] == Contents(segs[i])
    decreases k
  {
    hide Contents;
    DataLength(segs, k - 1);
    if i < k - 1 {
      DataHolds(segs, k - 1, i);
      assert Data(segs, k - 1) <= Data(segs, k);
    } else {
      assert |Contents(segs[i])| == segs[i].len by { ContentsLength(segs[i]); }
    }
  }

  lemma CutIsSegment(segs: seq<Segment>, i: nat)
    requires i < |segs| && AllValid(segs) && Based(segs)
    ensures Sum(segs, i) + segs[i].len <= |Data(segs, |segs|)|
    ensures Cut(segs, Data(segs, |segs|), i) == segs[i]
  {
    hide Data, Sum;
    DataHolds(segs, |segs|, i);
  }

  /** What stands where in a packed vector: per segment an offset and a length of eight bytes each,
      least significant first, and the segment's bytes at that offset. */
  lemma PackedLayout(segs: seq<Segment>, i: nat)
    requires i < |segs| && AllValid(segs) && Based(segs) && 16 * |segs| + Sum(segs, |segs|) < UINT64_LIMIT
    ensures var s, offset := Packed(segs), 16 * |segs| + Sum(segs, i);
            && |s| == 16 * |segs| + Sum(segs, |segs|) && 16 * i + 16 <= |s| && offset + segs[i].len <= |s|
            && FromLittleEndian(s[16 * i..16 * i + 8]) == (if segs[i].len == 0 then 0 else offset)
            && FromLittleEndian(s[16 * i + 8..16 * i + 16]) == segs[i].len
            && (segs[i].len > 0 ==> s[offset..offset + segs[i].len] == segs[i].base.value)
  {
    hide Headers, Data, Sum, FromLittleEndian, LittleEndian;
    var s, data := Packed(segs), Data(segs, |segs|);
    DataLength(segs, |segs|);
    SumSnoc(segs, i);
    SumGrows(segs, i + 1, |segs|);
    HeaderReads(segs, data, i);
    DataHolds(segs, |segs|, i);
    var offset := 16 * |segs| + Sum(segs, i);
    assert s[offset..offset + segs[i].len] == data[Sum(segs, i)..Sum(segs, i) + segs[i].len];
    if segs[i].len == 0 {
      HeadersHold(segs, |segs|, i);
      assert s[16 * i..16 * i + 16] == Headers(segs, |segs|)[16 * i..16 * i + 16];
      assert s[16 * i..16 * i + 8] == s[16 * i..16 * i + 16][..8] == Zeros(8);
      ZeroImage();
      Pow256Values();
      LittleEndianRoundTrip(0, 8);
    }
  }

  /** When a header is accepted, and what is then done, on the bytes of the buffer. */
  lemma JudgeMeaning(s: Segment, buf: seq<byte>, left: int, i: nat)
    requires 16 * i + 16 <= |buf|
    ensures var offset, len := FromLittleEndian(buf[16 * i..16 * i + 8]), FromLittleEndian(buf[16 * i + 8..16 * i + 16]);
            var v := Judge(s, buf, left, i);
            && (v == Skip <==> len == s.len && (len == 0 || (offset == 0 && s.base.None?)))
            && (v.Copy? <==> len == s.len && len > 0 && offset > 0 && s.base.Some? && len <= left && offset + len <= |buf|)
            && (v.Copy? ==> v.offset == offset)
  {
    hide FromLittleEndian;
  }

  /** Synchronizing with an untouched buffer changes nothing. */
  lemma SyncUndoesPack(segs: seq<Segment>)
    requires AllValid(segs) && Based(segs) && HEADER_SIZE * |segs| + Sum(segs, |segs|) < UINT64_LIMIT
    ensures var p := Synced(segs, Packed(segs), |segs|); p.status == Ok && p.segs == segs
  {
    hide Synced, Headers, Data, Cut, Sum, AllValid, Based;
    var data := Data(segs, |segs|);
    DataLength(segs, |segs|);
    SyncCuts(segs, data, |segs|);
    var p := Synced(segs, Headers(segs, |segs|) + data, |segs|);
    forall i | 0 <= i < |segs| ensures p.segs[i] == segs[i] {
      SumGrows(segs, i + 1, |segs|);
      CutIsSegment(segs, i);
    }
    assert p.segs == segs;
  }
}
