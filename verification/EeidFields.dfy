/** What stands where in an EEID structure, in network order (common/sgx/eeid.c) and in memory
    (include/openenclave/bits/eeid.h). */
module EeidFields {
  import opened Bytes
  import opened EeidCodec
  import opened EeidImage

  /** The fields at their offsets, given a way to read integers. */
  ghost predicate FieldsAt(s: seq<byte>, e: Record, read: seq<byte> -> nat)
    requires |e.h| == 8 && |e.n| == 2
  {
    && |s| == 108 + |e.data|
    && read(s[0..4]) == e.version
    && (forall i :: 0 <= i < 8 ==> read(s[4 + 4 * i..8 + 4 * i]) == e.h[i])
    && read(s[36..40]) == e.n[0] && read(s[40..44]) == e.n[1]
    && read(s[44..52]) == e.signatureSize
    && read(s[52..60]) == e.heap && read(s[60..68]) == e.stack && read(s[68..76]) == e.tcs
    && read(s[76..84]) == e.vaddr && read(s[84..92]) == e.entryPoint && read(s[92..100]) == e.tlsPageCount
    && read(s[100..108]) == e.dataSize
    && s[108..] == e.data
  }

  // ----- network order

  lemma EncodedWord32(e: Record, i: nat)
    requires Valid(e) && i < 11
    ensures |Encoded(e)| == 108 + |e.data| && FromBigEndian(Encoded(e)[4 * i..4 * i + 4]) == Words32(e)[i]
  {
    hide BigEndian, FromBigEndian, Words, Words32, Words64;
    var ws := Words32(e);
    assert |ws| == 11 && ws[i] < UINT32_LIMIT by { Words32Range(e, i); }
    ByteSizeIsLength(e);
    Words4At(ws, i);
    assert Encoded(e)[4 * i..4 * i + 4] == Words(4, ws)[4 * i..4 * i + 4];
    Pow256Values();
    BigEndianRoundTrip(ws[i], 4);
  }

  lemma Words32Range(e: Record, i: nat)
    requires Valid(e) && i < 11
    ensures |Words32(e)| == 11 && Words32(e)[i] < UINT32_LIMIT
    ensures Words32(e)[i] == if i == 0 then e.version else if i < 9 then e.h[i - 1] else e.n[i - 9]
  {
  }

  lemma EncodedWord64(e: Record, i: nat)
    requires Valid(e) && i < 8
    ensures |Encoded(e)| == 108 + |e.data| && FromBigEndian(Encoded(e)[44 + 8 * i..52 + 8 * i]) == Words64(e)[i]
  {
    hide BigEndian, FromBigEndian, Words, Words32, Words64;
    var ws := Words64(e);
    assert ws[i] < UINT64_LIMIT by { Words64Range(e, i); }
    ByteSizeIsLength(e);
    assert |Words32(e)| == 11 by { Words32Range(e, 0); }
    Words4Length(Words32(e));
    Words8At(ws, i);
    assert Encoded(e)[44 + 8 * i..52 + 8 * i] == Words(8, ws)[8 * i..8 * i + 8];
    Pow256Values();
    BigEndianRoundTrip(ws[i], 8);
  }

  lemma Words64Range(e: Record, i: nat)
    requires i < 8
    ensures Words64(e)[i] < UINT64_LIMIT
  {
  }

  lemma EncodedTail(e: Record)
    requires Valid(e)
    ensures |Encoded(e)| == 108 + |e.data| && Encoded(e)[108..] == e.data
  {
    hide Words;
    Words4Length(Words32(e));
    Words8Length(Words64(e));
  }

  /** Every field of the encoding at its offset, most significant byte first. */
  lemma EncodedFields(e: Record)
    requires Valid(e)
    ensures FieldsAt(Encoded(e), e, s => FromBigEndian(s))
  {
    hide Encoded, FromBigEndian, Words32;
    forall i: nat | i < 11
      ensures |Encoded(e)| == 108 + |e.data|
      ensures FromBigEndian(Encoded(e)[4 * i..4 * i + 4])
           == if i == 0 then e.version else if i < 9 then e.h[i - 1] else e.n[i - 9]
    {
      EncodedWord32(e, i);
      Words32Range(e, i);
    }
    forall i | 0 <= i < 8 ensures FromBigEndian(Encoded(e)[4 + 4 * i..8 + 4 * i]) == e.h[i] {
      assert 4 + 4 * i == 4 * (i + 1) && 8 + 4 * i == 4 * (i + 1) + 4;
    }
    EncodedWord32(e, 0);
    Words32Range(e, 0);
    EncodedWord32(e, 9);
    Words32Range(e, 9);
    EncodedWord32(e, 10);
    Words32Range(e, 10);
    EncodedWord64(e, 0);
    EncodedWord64(e, 1);
    EncodedWord64(e, 2);
    EncodedWord64(e, 3);
    EncodedWord64(e, 4);
    EncodedWord64(e, 5);
    EncodedWord64(e, 6);
    EncodedWord64(e, 7);
    EncodedTail(e);
  }

  // ----- in memory

  lemma {:induction false} Little4At(xs: seq<nat>, i: nat)
    requires i < |xs|
    ensures |LittleWords(4, xs)| == 4 * |xs| && LittleWords(4, xs)[4 * i..4 * i + 4] == LittleEndian(xs[i], 4)
  {
    hide LittleEndian;
    var n := |xs| - 1;
    Little4Length(xs[..n]);
    if i < n {
      Little4At(xs[..n], i);
    }
  }

  lemma {:induction false} Little8At(xs: seq<nat>, i: nat)
    requires i < |xs|
    ensures |LittleWords(8, xs)| == 8 * |xs| && LittleWords(8, xs)[8 * i..8 * i + 8] == LittleEndian(xs[i], 8)
  {
    hide LittleEndian;
    var n := |xs| - 1;
    Little8Length(xs[..n]);
    if i < n {
      Little8At(xs[..n], i);
    }
  }

  lemma ImageWord32(e: Record, i: nat)
    requires Valid(e) && i < 11
    ensures |Image(e)| == 108 + |e.data| && FromLittleEndian(Image(e)[4 * i..4 * i + 4]) == Words32(e)[i]
  {
    hide LittleEndian, FromLittleEndian, LittleWords, Words32, Words64;
    var ws := Words32(e);
    assert |ws| == 11 && ws[i] < UINT32_LIMIT by { Words32Range(e, i); }
    ImageLength(e);
    Little4At(ws, i);
    assert Image(e)[4 * i..4 * i + 4] == LittleWords(4, ws)[4 * i..4 * i + 4];
    Pow256Values();
    LittleEndianRoundTrip(ws[i], 4);
  }

  lemma ImageWord64(e: Record, i: nat)
    requires Valid(e) && i < 8
    ensures |Image(e)| == 108 + |e.data| && FromLittleEndian(Image(e)[44 + 8 * i..52 + 8 * i]) == Words64(e)[i]
  {
    hide LittleEndian, FromLittleEndian, LittleWords, Words32, Words64;
    var ws := Words64(e);
    assert ws[i] < UINT64_LIMIT by { Words64Range(e, i); }
    ImageLength(e);
    assert |Words32(e)| == 11 by { Words32Range(e, 0); }
    Little4Length(Words32(e));
    Little8At(ws, i);
    assert Image(e)[44 + 8 * i..52 + 8 * i] == LittleWords(8, ws)[8 * i..8 * i + 8];
    Pow256Values();
    LittleEndianRoundTrip(ws[i], 8);
  }

  lemma ImageTail(e: Record)
    requires Valid(e)
    ensures |Image(e)| == 108 + |e.data| && Image(e)[108..] == e.data
  {
    hide Head;
    ImageLength(e);
  }

  /** Every field of the structure in memory at its offset, least significant byte first. */
  lemma ImageFields(e: Record)
    requires Valid(e)
    ensures FieldsAt(Image(e), e, s => FromLittleEndian(s))
  {
    hide Image, FromLittleEndian, Words32;
    forall i: nat | i < 11
      ensures |Image(e)| == 108 + |e.data|
      ensures FromLittleEndian(Image(e)[4 * i..4 * i + 4])
           == if i == 0 then e.version else if i < 9 then e.h[i - 1] else e.n[i - 9]
    {
      ImageWord32(e, i);
      Words32Range(e, i);
    }
    forall i | 0 <= i < 8 ensures FromLittleEndian(Image(e)[4 + 4 * i..8 + 4 * i]) == e.h[i] {
      assert 4 + 4 * i == 4 * (i + 1) && 8 + 4 * i == 4 * (i + 1) + 4;
    }
    ImageWord32(e, 0);
    Words32Range(e, 0);
    ImageWord32(e, 9);
    Words32Range(e, 9);
    ImageWord32(e, 10);
    Words32Range(e, 10);
    ImageWord64(e, 0);
    ImageWord64(e, 1);
    ImageWord64(e, 2);
    ImageWord64(e, 3);
    ImageWord64(e, 4);
    ImageWord64(e, 5);
    ImageWord64(e, 6);
    ImageWord64(e, 7);
    ImageTail(e);
  }
}
