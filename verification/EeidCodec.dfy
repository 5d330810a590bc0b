/** The EEID structure in network order (common/sgx/eeid.c): eleven 32-bit words, eight 64-bit
    words, then the data and the signature. */
module EeidCodec {
  import opened Bytes
  import opened Results

  const EEID_VERSION := 1
  const FIXED_SIZE := 108

  datatype Record = Record(version: uint32, h: seq<uint32>, n: seq<uint32>, signatureSize: uint64,
                           heap: uint64, stack: uint64, tcs: uint64, vaddr: uint64, entryPoint: uint64,
                           tlsPageCount: uint64, dataSize: uint64, data: seq<byte>)

  /** How many bytes follow the fixed part; the sum of the two sizes is taken modulo 2^64. */
  function TailSize(dataSize: uint64, signatureSize: uint64): nat {
    (dataSize + signatureSize) % UINT64_LIMIT
  }

  /** A structure that lies in memory. */
  predicate Valid(e: Record) {
    && |e.h| == 8 && |e.n| == 2
    && |e.data| == TailSize(e.dataSize, e.signatureSize)
    && FIXED_SIZE + |e.data| < UINT64_LIMIT
  }

  // ----- the format

  function Words(width: nat, xs: seq<nat>): seq<byte> {
    if xs == [] then [] else Words(width, xs[..|xs| - 1]) + BigEndian(xs[|xs| - 1], width)
  }

  function Words32(e: Record): seq<nat> {
    [e.version] + e.h + e.n
  }

  function Words64(e: Record): (ws: seq<nat>)
    ensures |ws| == 8
  {
    [e.signatureSize, e.heap, e.stack, e.tcs, e.vaddr, e.entryPoint, e.tlsPageCount, e.dataSize]
  }

  function Encoded(e: Record): seq<byte> {
    Words(4, Words32(e)) + Words(8, Words64(e)) + e.data
  }

  lemma WordsSnoc(width: nat, xs: seq<nat>, k: nat)
    requires k < |xs|
    ensures Words(width, xs[..k + 1]) == Words(width, xs[..k]) + BigEndian(xs[k], width)
  {
    hide BigEndian;
    assert xs[..k + 1][..k] == xs[..k];
  }

  lemma {:induction false} Words4Length(xs: seq<nat>)
    ensures |Words(4, xs)| == 4 * |xs|
  {
    hide BigEndian;
    if xs != [] {
      Words4Length(xs[..|xs| - 1]);
    }
  }

  lemma {:induction false} Words8Length(xs: seq<nat>)
    ensures |Words(8, xs)| == 8 * |xs|
  {
    hide BigEndian;
    if xs != [] {
      Words8Length(xs[..|xs| - 1]);
    }
  }

  lemma {:induction false} Words4At(xs: seq<nat>, i: nat)
    requires i < |xs|
    ensures |Words(4, xs)| == 4 * |xs| && Words(4, xs)[4 * i..4 * i + 4] == BigEndian(xs[i], 4)
  {
    hide BigEndian;
    var n := |xs| - 1;
    Words4Length(xs[..n]);
    if i < n {
      Words4At(xs[..n], i);
    }
  }

  lemma {:induction false} Words8At(xs: seq<nat>, i: nat)
    requires i < |xs|
    ensures |Words(8, xs)| == 8 * |xs| && Words(8, xs)[8 * i..8 * i + 8] == BigEndian(xs[i], 8)
  {
    hide BigEndian;
    var n := |xs| - 1;
    Words8Length(xs[..n]);
    if i < n {
      Words8At(xs[..n], i);
    }
  }

  /** The size as the code computes it, modulo 2^64. */
  function ByteSize(e: Record): nat {
    (FIXED_SIZE + e.dataSize + e.signatureSize) % UINT64_LIMIT
  }

  /** The computed size is the size of the encoding, even when the two sizes wrap around. */
  lemma ByteSizeIsLength(e: Record)
    requires Valid(e)
    ensures ByteSize(e) == |Encoded(e)| == FIXED_SIZE + |e.data|
  {
    hide BigEndian;
    Words4Length(Words32(e));
    Words8Length(Words64(e));
    var sum := e.dataSize + e.signatureSize;
    assert sum < UINT64_LIMIT || sum - UINT64_LIMIT == |e.data|;
  }

  // ----- writing

  /** Writes one integer at `pos`, most significant byte first. */
  method Hton(x: nat, width: nat, buf: array<byte>, pos: nat) returns (ok: bool)
    requires pos <= buf.Length
    modifies buf
    ensures ok <==> width <= buf.Length - pos
    ensures ok ==> buf[..pos + width] == old(buf[..pos]) + BigEndian(x, width)
    ensures forall k :: pos + width <= k < buf.Length ==> buf[k] == old(buf[k])
    ensures !ok ==> buf[..] == old(buf[..])
  {
    if buf.Length - pos < width {
      return false;
    }
    hide Digit;
    ghost var image := BigEndian(x, width);
    var i := 0;
    while i < width
      invariant 0 <= i <= width
      invariant buf[..pos + i] == old(buf[..pos]) + image[..i]
      invariant forall k :: pos + i <= k < buf.Length ==> buf[k] == old(buf[k])
    {
      buf[pos + i] := Digit(x, width - 1 - i);
      assert image[..i + 1] == image[..i] + [image[i]];
      i := i + 1;
    }
    return true;
  }

  /** Writes word `k` of a list after the ones before it. */
  method HtonWord(xs: seq<nat>, k: nat, width: nat, buf: array<byte>, pos: nat, ghost prefix: seq<byte>)
    returns (ok: bool)
    requires k < |xs| && pos <= buf.Length && buf[..pos] == prefix + Words(width, xs[..k])
    modifies buf
    ensures ok <==> pos + width <= buf.Length
    ensures ok ==> buf[..pos + width] == prefix + Words(width, xs[..k + 1])
    ensures forall j :: pos + width <= j < buf.Length ==> buf[j] == old(buf[j])
    ensures !ok ==> buf[..] == old(buf[..])
  {
    hide BigEndian, Words;
    WordsSnoc(width, xs, k);
    ok := Hton(xs[k], width, buf, pos);
  }

  /** Writes the words from `k` on, `count` of them, up to the last that fits. */
  method HtonWords(xs: seq<nat>, k: nat, count: nat, buf: array<byte>) returns (ok: bool)
    requires k + count <= |xs| && 4 * k <= buf.Length && buf[..4 * k] == Words(4, xs[..k])
    modifies buf
    ensures ok <==> 4 * (k + count) <= buf.Length
    ensures var w := if ok then k + count else buf.Length / 4;
            && w <= |xs| && buf[..4 * w] == Words(4, xs[..w])
            && forall j :: 4 * w <= j < buf.Length ==> buf[j] == old(buf[j])
  {
    hide Words;
    var i := 0;
    while i < count
      invariant 0 <= i <= count && 4 * (k + i) <= buf.Length
      invariant buf[..4 * (k + i)] == [] + Words(4, xs[..k + i])
      invariant forall j :: 4 * (k + i) <= j < buf.Length ==> buf[j] == old(buf[j])
    {
      ok := HtonWord(xs, k + i, 4, buf, 4 * (k + i), []);
      if !ok {
        return;
      }
      i := i + 1;
    }
    return true;
  }

  /** The 32-bit part, up to the last word that fits. */
  method HtonHead(e: Record, buf: array<byte>) returns (ok: bool)
    requires Valid(e)
    modifies buf
    ensures ok <==> 44 <= buf.Length
    ensures var w := if ok then 11 else buf.Length / 4;
            buf[..4 * w] == Words(4, Words32(e)[..w]) && forall j :: 4 * w <= j < buf.Length ==> buf[j] == old(buf[j])
  {
    var ws := Words32(e);
    NoWords(4, ws);
    hide Words, Words32;
    ok := HtonWords(ws, 0, 1, buf);
    if !ok {
      return;
    }
    ok := HtonWords(ws, 1, 8, buf);
    if !ok {
      return;
    }
    ok := HtonWords(ws, 9, 2, buf);
  }

  lemma NoWords(width: nat, xs: seq<nat>)
    ensures Words(width, xs[..0]) == []
  {
  }

  /** The 64-bit part, after the 32-bit part, up to the last word that fits. */
  method HtonMiddle(e: Record, buf: array<byte>, ghost prefix: seq<byte>) returns (ok: bool)
    requires |prefix| == 44 <= buf.Length && buf[..44] == prefix
    modifies buf
    ensures ok <==> FIXED_SIZE <= buf.Length
    ensures var w := if ok then 8 else (buf.Length - 44) / 8;
            && buf[..44 + 8 * w] == prefix + Words(8, Words64(e)[..w])
            && forall j :: 44 + 8 * w <= j < buf.Length ==> buf[j] == old(buf[j])
  {
    hide Words;
    var ws := Words64(e);
    NoWords(8, ws);
    assert prefix + [] == prefix;
    ok := HtonWord(ws, 0, 8, buf, 44, prefix);
    if !ok { return; }
    ok := HtonWord(ws, 1, 8, buf, 52, prefix);
    if !ok { return; }
    ok := HtonWord(ws, 2, 8, buf, 60, prefix);
    if !ok { return; }
    ok := HtonWord(ws, 3, 8, buf, 68, prefix);
    if !ok { return; }
    ok := HtonWord(ws, 4, 8, buf, 76, prefix);
    if !ok { return; }
    ok := HtonWord(ws, 5, 8, buf, 84, prefix);
    if !ok { return; }
    ok := HtonWord(ws, 6, 8, buf, 92, prefix);
    if !ok { return; }
    ok := HtonWord(ws, 7, 8, buf, 100, prefix);
  }

  /** How much of the encoding lands in a buffer of `size` bytes: as many whole fields as fit. */
  function Written(e: Record, size: nat): nat {
    if size < 44 then size / 4 * 4
    else if size < FIXED_SIZE then 44 + (size - 44) / 8 * 8
    else if size < FIXED_SIZE + |e.data| then FIXED_SIZE
    else FIXED_SIZE + |e.data|
  }

  /** The places between fields: eleven of four bytes, eight of eight bytes, and the data. */
  predicate FieldBoundary(e: Record, w: nat) {
    || (w <= 44 && w % 4 == 0)
    || (44 <= w <= 108 && (w - 44) % 8 == 0)
    || w == 108 + |e.data|
  }

  /** It is the last place between fields that the buffer reaches. */
  lemma WrittenFields(e: Record, size: nat)
    ensures FieldBoundary(e, Written(e, size)) && Written(e, size) <= size
    ensures forall w: nat :: FieldBoundary(e, w) && w <= size ==> w <= Written(e, size)
  {
    forall w: nat | FieldBoundary(e, w) && w <= size ensures w <= Written(e, size) {
      if size < 44 {
        assert w == w / 4 * 4 && w / 4 <= size / 4;
      } else if size < FIXED_SIZE && w > 44 {
        var k := (w - 44) / 8;
        assert w == 44 + 8 * k && k <= (size - 44) / 8;
      }
    }
  }

  lemma WrittenHead(e: Record, w: nat)
    requires Valid(e) && w <= 11
    ensures 4 * w <= |Encoded(e)| && Encoded(e)[..4 * w] == Words(4, Words32(e)[..w])
  {
    hide Words;
    Words4Prefix(Words32(e), w);
  }

  lemma WrittenMiddle(e: Record, w: nat)
    requires Valid(e) && w <= 8
    ensures 44 + 8 * w <= |Encoded(e)| && Encoded(e)[..44 + 8 * w] == Words(4, Words32(e)) + Words(8, Words64(e)[..w])
  {
    hide Words;
    Words4Length(Words32(e));
    Words8Prefix(Words64(e), w);
  }

  lemma {:induction false} Words4Prefix(xs: seq<nat>, w: nat)
    requires w <= |xs|
    ensures |Words(4, xs)| == 4 * |xs| && Words(4, xs)[..4 * w] == Words(4, xs[..w])
    decreases |xs|
  {
    hide BigEndian;
    Words4Length(xs);
    if w == |xs| {
      assert xs[..w] == xs;
    } else {
      var n := |xs| - 1;
      Words4Prefix(xs[..n], w);
      assert xs[..n][..w] == xs[..w];
    }
  }

  lemma {:induction false} Words8Prefix(xs: seq<nat>, w: nat)
    requires w <= |xs|
    ensures |Words(8, xs)| == 8 * |xs| && Words(8, xs)[..8 * w] == Words(8, xs[..w])
    decreases |xs|
  {
    hide BigEndian;
    Words8Length(xs);
    if w == |xs| {
      assert xs[..w] == xs;
    } else {
      var n := |xs| - 1;
      Words8Prefix(xs[..n], w);
      assert xs[..n][..w] == xs[..w];
    }
  }

  /** Writes a supported structure exactly when the buffer holds its size. Either way the buffer
      then begins with as many whole fields of the encoding as fit, and the rest is untouched. */
  method HtonEeid(e: Option<Record>, buf: array?<byte>) returns (r: OeResult)
    requires e.Some? ==> Valid(e.value)
    modifies buf
    ensures r == OK <==> e.Some? && buf != null && e.value.version == EEID_VERSION && ByteSize(e.value) <= buf.Length
    ensures r != OK ==> r == INVALID_PARAMETER
    ensures r == OK ==> Written(e.value, buf.Length) == ByteSize(e.value) == |Encoded(e.value)|
    ensures e.Some? && buf != null && e.value.version == EEID_VERSION ==>
              var w := Written(e.value, buf.Length);
              && w <= buf.Length && w <= |Encoded(e.value)| && buf[..w] == Encoded(e.value)[..w]
              && forall j :: w <= j < buf.Length ==> buf[j] == old(buf[j])
    ensures e.Some? && buf != null && e.value.version != EEID_VERSION ==> buf[..] == old(buf[..])
  {
    hide Words, ByteSize, Words32, Words64, Encoded, BigEndian;
    if e.Some? {
      ByteSizeIsLength(e.value);
    }
    if e.None? || buf == null || buf.Length == 0 || e.value.version != EEID_VERSION {
      return INVALID_PARAMETER;
    }
    var ok := HtonHead(e.value, buf);
    if !ok {
      WrittenHead(e.value, buf.Length / 4);
      return INVALID_PARAMETER;
    }
    WholeHead(e.value);
    ok := HtonMiddle(e.value, buf, buf[..44]);
    if !ok {
      WrittenMiddle(e.value, (buf.Length - 44) / 8);
      return INVALID_PARAMETER;
    }
    WrittenMiddle(e.value, 8);
    var size := TailSize(e.value.dataSize, e.value.signatureSize);
    if buf.Length - FIXED_SIZE < size {
      return INVALID_PARAMETER;
    }
    ghost var before := buf[..];
    Put(buf, FIXED_SIZE, e.value.data);
    WholeEncoding(e.value);
    forall j | FIXED_SIZE + size <= j < buf.Length ensures buf[j] == old(buf[j]) {
      assert buf[FIXED_SIZE + size..][j - FIXED_SIZE - size] == before[FIXED_SIZE + size..][j - FIXED_SIZE - size];
    }
    return OK;
  }

  lemma WholeHead(e: Record)
    requires Valid(e)
    ensures Words32(e)[..11] == Words32(e) && Words64(e)[..8] == Words64(e)
  {
  }

  lemma WholeEncoding(e: Record)
    requires Valid(e)
    ensures |Encoded(e)| == FIXED_SIZE + |e.data|
    ensures Encoded(e)[..FIXED_SIZE] + e.data == Encoded(e)
  {
    hide Words;
    Words4Length(Words32(e));
    Words8Length(Words64(e));
  }

  // ----- reading

  function Word(buf: seq<byte>, pos: nat, width: nat): nat
    requires pos + width <= |buf|
  {
    FromBigEndian(buf[pos..pos + width])
  }

  function Word32(buf: seq<byte>, pos: nat): uint32
    requires pos + 4 <= |buf|
  {
    Pow256Values();
    FromBigEndianBound(buf[pos..pos + 4]);
    Word(buf, pos, 4)
  }

  function Word64(buf: seq<byte>, pos: nat): uint64
    requires pos + 8 <= |buf|
  {
    Pow256Values();
    FromBigEndianBound(buf[pos..pos + 8]);
    Word(buf, pos, 8)
  }

  /** `count` consecutive 32-bit words. */
  function List32(buf: seq<byte>, pos: nat, count: nat): (ws: seq<uint32>)
    requires pos + 4 * count <= |buf|
    ensures |ws| == count
  {
    seq(count, i requires 0 <= i < count => Word32(buf, pos + 4 * i))
  }

  /** The structure at the start of a buffer. */
  function Decoded(buf: seq<byte>): Option<Record> {
    if |buf| < FIXED_SIZE || Word32(buf, 0) != EEID_VERSION then None
    else
      var size := TailSize(Word64(buf, 100), Word64(buf, 44));
      if |buf| - FIXED_SIZE < size then None
      else
        Some(Record(Word32(buf, 0),
                    List32(buf, 4, 8), List32(buf, 36, 2),
                    Word64(buf, 44), Word64(buf, 52), Word64(buf, 60), Word64(buf, 68), Word64(buf, 76),
                    Word64(buf, 84), Word64(buf, 92), Word64(buf, 100),
                    buf[FIXED_SIZE..FIXED_SIZE + size]))
  }

  /** Reads one integer at `pos`. */
  method Ntoh(buf: seq<byte>, pos: nat, width: nat) returns (r: Option<nat>)
    requires pos <= |buf|
    ensures r == if |buf| - pos < width then None else Some(Word(buf, pos, width))
  {
    if |buf| - pos < width {
      return None;
    }
    var x: nat, i := 0, 0;
    while i < width
      invariant 0 <= i <= width && x == FromBigEndian(buf[pos..pos + i])
    {
      assert buf[pos..pos + i + 1][..i] == buf[pos..pos + i];
      x := x * 256 + buf[pos + i];
      i := i + 1;
    }
    return Some(x);
  }

  /** Reads `count` words of 32 bits. */
  method NtohWords(buf: seq<byte>, pos: nat, count: nat) returns (r: Option<seq<uint32>>)
    requires pos <= |buf|
    ensures r == if |buf| - pos < 4 * count then None
                 else Some(List32(buf, pos, count))
  {
    var words: seq<uint32>, i := [], 0;
    while i < count
      invariant 0 <= i <= count && pos + 4 * i <= |buf| && |words| == i
      invariant forall k :: 0 <= k < i ==> words[k] == Word32(buf, pos + 4 * k)
    {
      var x := Ntoh(buf, pos + 4 * i, 4);
      if x.None? {
        return None;
      }
      assert x.value == Word32(buf, pos + 4 * i);
      words, i := words + [x.value], i + 1;
    }
    assert words == List32(buf, pos, count);
    return Some(words);
  }

  method Ntoh64(buf: seq<byte>, pos: nat) returns (r: Option<uint64>)
    requires pos <= |buf|
    ensures r == if |buf| - pos < 8 then None else Some(Word64(buf, pos))
  {
    var x := Ntoh(buf, pos, 8);
    if x.None? {
      return None;
    }
    assert x.value == Word64(buf, pos);
    return Some(x.value);
  }

  /** A buffer holds a structure exactly when it begins with the supported version, has room for the
      fixed fields, and behind them for as many bytes as two of them say. */
  lemma DecodedIff(buf: seq<byte>)
    ensures Decoded(buf).Some? <==>
            && |buf| >= 108 && buf[0..4] == [0, 0, 0, 1]
            && 108 + (FromBigEndian(buf[44..52]) + FromBigEndian(buf[100..108])) % UINT64_LIMIT <= |buf|
  {
    hide BigEndian, FromBigEndian;
    if |buf| >= 108 {
      Word32Image(buf, 0);
      VersionBytes();
      assert Word32(buf, 0) == EEID_VERSION <==> buf[0..4] == [0, 0, 0, 1];
    }
  }

  lemma VersionBytes()
    ensures BigEndian(EEID_VERSION, 4) == [0, 0, 0, 1] && FromBigEndian([0, 0, 0, 1]) == EEID_VERSION
  {
    Pow256Values();
    BigEndianRoundTrip(EEID_VERSION, 4);
    assert BigEndian(EEID_VERSION, 4) == [0, 0, 0, 1];
  }

  /** Reads the structure field by field, giving up at the first field that is missing. */
  method NtohEeid(buffer: Option<seq<byte>>) returns (r: Result<Record, OeResult>)
    ensures r.Success? <==>
            && buffer.Some? && |buffer.value| >= 108 && buffer.value[0..4] == [0, 0, 0, 1]
            && var sizes := FromBigEndian(buffer.value[44..52]) + FromBigEndian(buffer.value[100..108]);
               108 + sizes % UINT64_LIMIT <= |buffer.value|
    ensures r == if buffer.Some? && Decoded(buffer.value).Some? then Success(Decoded(buffer.value).value)
                 else Failure(INVALID_PARAMETER)
  {
    hide Word32, Word64, TailSize;
    r := Failure(INVALID_PARAMETER);
    if buffer.None? || buffer.value == [] {
      return;
    }
    var buf := buffer.value;
    DecodedIff(buf);
    var version := NtohWords(buf, 0, 1);
    if version.None? || version.value[0] != EEID_VERSION {
      return;
    }
    var h := NtohWords(buf, 4, 8);
    if h.None? { return; }
    var n := NtohWords(buf, 36, 2);
    if n.None? { return; }
    var signatureSize := Ntoh64(buf, 44);
    if signatureSize.None? { return; }
    var heap := Ntoh64(buf, 52);
    if heap.None? { return; }
    var stack := Ntoh64(buf, 60);
    if stack.None? { return; }
    var tcs := Ntoh64(buf, 68);
    if tcs.None? { return; }
    var vaddr := Ntoh64(buf, 76);
    if vaddr.None? { return; }
    var entryPoint := Ntoh64(buf, 84);
    if entryPoint.None? { return; }
    var tlsPageCount := Ntoh64(buf, 92);
    if tlsPageCount.None? { return; }
    var dataSize := Ntoh64(buf, 100);
    if dataSize.None? { return; }
    var size := TailSize(dataSize.value, signatureSize.value);
    if |buf| - FIXED_SIZE < size { return; }
    r := Success(Record(version.value[0], h.value, n.value, signatureSize.value, heap.value, stack.value, tcs.value,
                        vaddr.value, entryPoint.value, tlsPageCount.value, dataSize.value,
                        buf[FIXED_SIZE..FIXED_SIZE + size]));
  }

  // ----- the two undo each other

  lemma Word32At(e: Record, rest: seq<byte>, i: nat)
    requires Valid(e) && i < 11
    ensures var buf := Encoded(e) + rest; |buf| >= FIXED_SIZE && Word32(buf, 4 * i) == Words32(e)[i]
  {
    hide BigEndian, Words;
    var ws, buf := Words32(e), Encoded(e) + rest;
    Words4At(ws, i);
    Words8Length(Words64(e));
    assert buf[4 * i..4 * i + 4] == Words(4, ws)[4 * i..4 * i + 4];
    Pow256Values();
    WordFits(e, i);
    BigEndianRoundTrip(ws[i], 4);
  }

  lemma WordFits(e: Record, i: nat)
    requires Valid(e) && i < 11
    ensures Words32(e)[i] < UINT32_LIMIT
  {
  }

  lemma Word64At(e: Record, rest: seq<byte>, i: nat)
    requires Valid(e) && i < 8
    ensures var buf := Encoded(e) + rest; |buf| >= FIXED_SIZE && Word64(buf, 44 + 8 * i) == Words64(e)[i]
  {
    hide BigEndian, Words;
    var ws, buf := Words64(e), Encoded(e) + rest;
    Words4Length(Words32(e));
    Words8At(ws, i);
    assert buf[44 + 8 * i..52 + 8 * i] == Words(8, ws)[8 * i..8 * i + 8];
    Pow256Values();
    BigEndianRoundTrip(ws[i], 8);
  }

  lemma DataAt(e: Record, rest: seq<byte>)
    requires Valid(e)
    ensures var buf := Encoded(e) + rest;
            FIXED_SIZE + |e.data| <= |buf| && buf[FIXED_SIZE..FIXED_SIZE + |e.data|] == e.data
  {
    hide BigEndian, Words;
    Words4Length(Words32(e));
    Words8Length(Words64(e));
  }

  /** Reading any buffer that begins with a written structure returns that structure. */
  lemma DecodeUndoesEncode(e: Record, rest: seq<byte>)
    requires Valid(e) && e.version == EEID_VERSION
    ensures Decoded(Encoded(e) + rest) == Some(e)
  {
    hide Encoded, Word32, Word64, TailSize;
    var buf := Encoded(e) + rest;
    DataAt(e, rest);
    Word32At(e, rest, 0);
    forall i | 0 <= i < 8 ensures List32(buf, 4, 8)[i] == e.h[i] {
      Word32At(e, rest, 1 + i);
    }
    forall i | 0 <= i < 2 ensures List32(buf, 36, 2)[i] == e.n[i] {
      Word32At(e, rest, 9 + i);
    }
    assert List32(buf, 4, 8) == e.h && List32(buf, 36, 2) == e.n;
    hide List32;
    Word64At(e, rest, 0);
    Word64At(e, rest, 1);
    Word64At(e, rest, 2);
    Word64At(e, rest, 3);
    Word64At(e, rest, 4);
    Word64At(e, rest, 5);
    Word64At(e, rest, 6);
    Word64At(e, rest, 7);
  }

  lemma {:induction false} Words4Are(buf: seq<byte>, pos: nat, xs: seq<nat>)
    requires pos + 4 * |xs| <= |buf|
    requires forall i :: 0 <= i < |xs| ==> xs[i] == Word32(buf, pos + 4 * i)
    ensures Words(4, xs) == buf[pos..pos + 4 * |xs|]
    decreases |xs|
  {
    hide BigEndian, Word32;
    if xs != [] {
      var n := |xs| - 1;
      Words4Are(buf, pos, xs[..n]);
      assert xs[n] == Word32(buf, pos + 4 * n);
      Word32Image(buf, pos + 4 * n);
    }
  }

  lemma {:induction false} Words8Are(buf: seq<byte>, pos: nat, xs: seq<nat>)
    requires pos + 8 * |xs| <= |buf|
    requires forall i :: 0 <= i < |xs| ==> xs[i] == Word64(buf, pos + 8 * i)
    ensures Words(8, xs) == buf[pos..pos + 8 * |xs|]
    decreases |xs|
  {
    hide BigEndian, Word64;
    if xs != [] {
      var n := |xs| - 1;
      Words8Are(buf, pos, xs[..n]);
      assert xs[n] == Word64(buf, pos + 8 * n);
      Word64Image(buf, pos + 8 * n);
    }
  }

  lemma Word32Image(buf: seq<byte>, pos: nat)
    requires pos + 4 <= |buf|
    ensures BigEndian(Word32(buf, pos), 4) == buf[pos..pos + 4]
  {
    hide BigEndian;
    FromBigEndianRoundTrip(buf[pos..pos + 4]);
  }

  lemma Word64Image(buf: seq<byte>, pos: nat)
    requires pos + 8 <= |buf|
    ensures BigEndian(Word64(buf, pos), 8) == buf[pos..pos + 8]
  {
    hide BigEndian;
    FromBigEndianRoundTrip(buf[pos..pos + 8]);
  }

  /** Whatever is read from a buffer is a structure whose encoding the buffer begins with. */
  lemma EncodeUndoesDecode(buf: seq<byte>)
    requires |buf| < UINT64_LIMIT && Decoded(buf).Some?
    ensures Valid(Decoded(buf).value) && Encoded(Decoded(buf).value) <= buf
  {
    hide Words, Word32, Word64;
    var e := Decoded(buf).value;
    Words4Are(buf, 0, Words32(e));
    Words8Are(buf, 44, Words64(e));
    assert buf[..FIXED_SIZE + |e.data|] == buf[0..44] + buf[44..FIXED_SIZE] + buf[FIXED_SIZE..FIXED_SIZE + |e.data|];
  }
}
