/** The packed EEID structure as it lies in memory (include/openenclave/bits/eeid.h): the fields
    of the network form, in the same order, little-endian. */
module EeidImage {
  import opened Bytes
  import opened EeidCodec

  function LittleWords(width: nat, xs: seq<nat>): seq<byte> {
    if xs == [] then [] else LittleWords(width, xs[..|xs| - 1]) + LittleEndian(xs[|xs| - 1], width)
  }

  function Head(e: Record): seq<byte> {
    LittleWords(4, Words32(e)) + LittleWords(8, Words64(e))
  }

  function Image(e: Record): seq<byte> {
    Head(e) + e.data
  }

  lemma {:induction false} Little4Length(xs: seq<nat>)
    ensures |LittleWords(4, xs)| == 4 * |xs|
  {
    hide LittleEndian;
    if xs != [] {
      Little4Length(xs[..|xs| - 1]);
    }
  }

  lemma {:induction false} Little8Length(xs: seq<nat>)
    ensures |LittleWords(8, xs)| == 8 * |xs|
  {
    hide LittleEndian;
    if xs != [] {
      Little8Length(xs[..|xs| - 1]);
    }
  }

  /** The computed size covers exactly the structure. */
  lemma ImageLength(e: Record)
    requires Valid(e)
    ensures |Head(e)| == FIXED_SIZE && |Image(e)| == ByteSize(e) == FIXED_SIZE + |e.data|
  {
    hide LittleEndian, Encoded, ByteSize;
    Little4Length(Words32(e));
    Little8Length(Words64(e));
    ByteSizeIsLength(e);
  }

  lemma {:induction false} Little4Injective(xs: seq<uint32>, ys: seq<uint32>)
    requires |xs| == |ys| && LittleWords(4, xs) == LittleWords(4, ys)
    ensures xs == ys
    decreases |xs|
  {
    hide LittleEndian;
    if xs != [] {
      var n := |xs| - 1;
      var s := LittleWords(4, xs);
      Little4Length(xs[..n]);
      Little4Length(ys[..n]);
      assert s[..4 * n] == LittleWords(4, xs[..n]) == LittleWords(4, ys[..n]);
      assert s[4 * n..] == LittleEndian(xs[n], 4) == LittleEndian(ys[n], 4);
      Pow256Values();
      LittleEndianInjective(xs[n], ys[n], 4);
      Little4Injective(xs[..n], ys[..n]);
      assert xs == xs[..n] + [xs[n]] && ys == ys[..n] + [ys[n]];
    }
  }

  lemma {:induction false} Little8Injective(xs: seq<uint64>, ys: seq<uint64>)
    requires |xs| == |ys| && LittleWords(8, xs) == LittleWords(8, ys)
    ensures xs == ys
    decreases |xs|
  {
    hide LittleEndian;
    if xs != [] {
      var n := |xs| - 1;
      var s := LittleWords(8, xs);
      Little8Length(xs[..n]);
      Little8Length(ys[..n]);
      assert s[..8 * n] == LittleWords(8, xs[..n]) == LittleWords(8, ys[..n]);
      assert s[8 * n..] == LittleEndian(xs[n], 8) == LittleEndian(ys[n], 8);
      Pow256Values();
      LittleEndianInjective(xs[n], ys[n], 8);
      Little8Injective(xs[..n], ys[..n]);
      assert xs == xs[..n] + [xs[n]] && ys == ys[..n] + [ys[n]];
    }
  }

  /** Structures that differ at most in their data, which has the same length in both. */
  predicate SameHead(a: Record, b: Record) {
    a.(data := []) == b.(data := [])
  }

  lemma HeadInjective(a: Record, b: Record)
    requires Valid(a) && Valid(b)
    ensures Head(a) == Head(b) <==> SameHead(a, b)
  {
    hide LittleWords;
    if Head(a) == Head(b) {
      var xs: seq<uint32>, ys: seq<uint32> := [a.version] + a.h + a.n, [b.version] + b.h + b.n;
      Little4Length(xs);
      Little4Length(ys);
      assert Head(a)[..44] == LittleWords(4, xs) && Head(b)[..44] == LittleWords(4, ys);
      assert Head(a)[44..] == LittleWords(8, Words64(a)) && Head(b)[44..] == LittleWords(8, Words64(b));
      Little4Injective(xs, ys);
      assert xs[0] == ys[0] && xs[1..9] == a.h && ys[1..9] == b.h && xs[9..] == a.n && ys[9..] == b.n;
      Words64Injective(a, b);
    }
  }

  lemma Words64Injective(a: Record, b: Record)
    requires LittleWords(8, Words64(a)) == LittleWords(8, Words64(b))
    ensures Words64(a) == Words64(b)
    ensures a.signatureSize == b.signatureSize && a.heap == b.heap && a.stack == b.stack && a.tcs == b.tcs
    ensures a.vaddr == b.vaddr && a.entryPoint == b.entryPoint && a.tlsPageCount == b.tlsPageCount && a.dataSize == b.dataSize
  {
    hide LittleWords;
    Little8Injective(Words64(a), Words64(b));
    var xs, ys := Words64(a), Words64(b);
    assert xs[0] == ys[0] && xs[1] == ys[1] && xs[2] == ys[2] && xs[3] == ys[3];
    assert xs[4] == ys[4] && xs[5] == ys[5] && xs[6] == ys[6] && xs[7] == ys[7];
  }

  /** The image tells structures apart. */
  lemma ImageInjective(a: Record, b: Record)
    requires Valid(a) && Valid(b)
    ensures Image(a) == Image(b) <==> a == b
  {
    hide Head, Valid;
    ImageLength(a);
    ImageLength(b);
    if Image(a) == Image(b) {
      assert Image(a)[..FIXED_SIZE] == Head(a) && Image(b)[..FIXED_SIZE] == Head(b);
      assert Image(a)[FIXED_SIZE..] == a.data && Image(b)[FIXED_SIZE..] == b.data;
      HeadInjective(a, b);
    }
  }

  /** A supported structure does not begin with a zero byte. */
  lemma ImageStarts(e: Record)
    requires Valid(e) && e.version == EEID_VERSION
    ensures |Image(e)| > 0 && Image(e)[0] == 1
  {
    ImageLength(e);
    var ws := Words32(e);
    FirstWord(ws);
    assert Head(e)[0] == LittleWords(4, ws)[0];
  }

  lemma {:induction false} FirstWord(xs: seq<nat>)
    requires xs != []
    ensures |LittleWords(4, xs)| == 4 * |xs| && LittleWords(4, xs)[0] == xs[0] % 256
    decreases |xs|
  {
    Little4Length(xs);
    var n := |xs| - 1;
    if n > 0 {
      FirstWord(xs[..n]);
      hide LittleEndian;
      assert LittleWords(4, xs)[0] == LittleWords(4, xs[..n])[0];
    } else {
      assert LittleWords(4, xs[..n]) == [];
    }
  }
}
