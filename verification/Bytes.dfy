/** Bytes, fixed-width unsigned integers and their little- and big-endian images.

    Machine words are mathematical integers in range; wherever the C code lets a
    word wrap around, the model writes the `%` out. */
module Bytes {

  type byte = b: int | 0 <= b < 256

  const UINT8_LIMIT := 0x100
  const UINT16_LIMIT := 0x1_0000
  const UINT32_LIMIT := 0x1_0000_0000
  const UINT64_LIMIT := 0x1_0000_0000_0000_0000

  type uint32 = x: int | 0 <= x < UINT32_LIMIT
  type uint64 = x: int | 0 <= x < UINT64_LIMIT

  datatype Option<+T> = None | Some(value: T)

  datatype Result<+T, +E> = Success(value: T) | Failure(error: E) {
    predicate IsFailure() { Failure? }

    function PropagateFailure<U>(): Result<U, E>
      requires Failure?
    {
      Failure(error)
    }

    function Extract(): T
      requires Success?
    {
      value
    }
  }

  function Pow256(n: nat): (p: nat)
    ensures p > 0
  {
    if n == 0 then 1 else 256 * Pow256(n - 1)
  }

  lemma Pow256Values()
    ensures Pow256(1) == UINT8_LIMIT && Pow256(2) == UINT16_LIMIT
    ensures Pow256(4) == UINT32_LIMIT && Pow256(8) == UINT64_LIMIT
  {
    assert Pow256(2) == 256 * Pow256(1);
    assert Pow256(4) == 256 * Pow256(3) && Pow256(3) == 256 * Pow256(2);
    assert Pow256(8) == 256 * Pow256(7) && Pow256(7) == 256 * Pow256(6);
    assert Pow256(6) == 256 * Pow256(5) && Pow256(5) == 256 * Pow256(4);
  }

  /** `n` bytes equal to zero. */
  function Zeros(n: nat): (s: seq<byte>)
    ensures |s| == n
  {
    seq(n, _ => 0)
  }

  /** The `i`th least significant byte of `x`. */
  function Digit(x: nat, i: nat): byte
    decreases i
  {
    if i == 0 then x % 256 else Digit(x / 256, i - 1)
  }

  // ----- little-endian images (the in-memory form of an integer on x64)

  /** The low `n` bytes of `x`, least significant first. */
  function LittleEndian(x: nat, n: nat): (s: seq<byte>)
    ensures |s| == n
  {
    seq(n, i requires 0 <= i < n => Digit(x, i))
  }

  function FromLittleEndian(s: seq<byte>): nat {
    if s == [] then 0 else s[0] + 256 * FromLittleEndian(s[1..])
  }

  lemma {:induction false} LittleEndianRoundTrip(x: nat, n: nat)
    requires x < Pow256(n)
    ensures FromLittleEndian(LittleEndian(x, n)) == x
    decreases n
  {
    if n > 0 {
      LittleEndianRoundTrip(x / 256, n - 1);
      assert LittleEndian(x, n)[1..] == LittleEndian(x / 256, n - 1);
    }
  }

  lemma {:induction false} FromLittleEndianRoundTrip(s: seq<byte>)
    ensures FromLittleEndian(s) < Pow256(|s|)
    ensures LittleEndian(FromLittleEndian(s), |s|) == s
  {
    if s != [] {
      var x, rest := FromLittleEndian(s), FromLittleEndian(s[1..]);
      FromLittleEndianRoundTrip(s[1..]);
      assert x / 256 == rest && x % 256 == s[0];
      forall i | 0 <= i < |s| ensures LittleEndian(x, |s|)[i] == s[i] {
        assert i > 0 ==> LittleEndian(rest, |s| - 1)[i - 1] == s[1..][i - 1];
      }
    }
  }

  lemma LittleEndianInjective(x: nat, y: nat, n: nat)
    requires x < Pow256(n) && y < Pow256(n)
    requires LittleEndian(x, n) == LittleEndian(y, n)
    ensures x == y
  {
    LittleEndianRoundTrip(x, n);
    LittleEndianRoundTrip(y, n);
  }

  lemma {:induction false} ZeroDigit(i: nat)
    ensures Digit(0, i) == 0
  {
    if i > 0 {
      ZeroDigit(i - 1);
    }
  }

  lemma ZeroImage()
    ensures LittleEndian(0, 8) == Zeros(8)
  {
    forall i: nat | i < 8 ensures Digit(0, i) == 0 {
      ZeroDigit(i);
    }
  }

  // ----- big-endian images (network order)

  /** The low `n` bytes of `x`, most significant first. */
  function BigEndian(x: nat, n: nat): (s: seq<byte>)
    ensures |s| == n
  {
    seq(n, i requires 0 <= i < n => Digit(x, n - 1 - i))
  }

  function FromBigEndian(s: seq<byte>): nat {
    if s == [] then 0 else 256 * FromBigEndian(s[..|s| - 1]) + s[|s| - 1]
  }

  lemma {:induction false} BigEndianRoundTrip(x: nat, n: nat)
    requires x < Pow256(n)
    ensures FromBigEndian(BigEndian(x, n)) == x
    decreases n
  {
    if n > 0 {
      BigEndianRoundTrip(x / 256, n - 1);
      forall i | 0 <= i < n - 1 ensures BigEndian(x, n)[i] == BigEndian(x / 256, n - 1)[i] {
        assert Digit(x, n - 1 - i) == Digit(x / 256, n - 1 - i - 1);
      }
      assert BigEndian(x, n)[..n - 1] == BigEndian(x / 256, n - 1);
      assert BigEndian(x, n)[n - 1] == Digit(x, 0);
    }
  }

  lemma {:induction false} FromBigEndianBound(s: seq<byte>)
    ensures FromBigEndian(s) < Pow256(|s|)
  {
    if s != [] {
      FromBigEndianBound(s[..|s| - 1]);
    }
  }

  lemma {:induction false} FromBigEndianRoundTrip(s: seq<byte>)
    ensures BigEndian(FromBigEndian(s), |s|) == s
  {
    if s != [] {
      var n := |s| - 1;
      var x, rest := FromBigEndian(s), FromBigEndian(s[..n]);
      FromBigEndianRoundTrip(s[..n]);
      assert x / 256 == rest && x % 256 == s[n];
      forall i | 0 <= i < n ensures BigEndian(x, n + 1)[i] == s[i] {
        assert BigEndian(rest, n)[i] == s[..n][i];
        assert Digit(x, n - i) == Digit(rest, n - i - 1);
      }
      assert BigEndian(x, n + 1)[n] == Digit(x, 0) == s[n];
    }
  }

  // ----- text at a place in a buffer

  predicate At(buf: seq<byte>, itr: nat, text: seq<byte>) {
    itr + |text| <= |buf| && buf[itr..itr + |text|] == text
  }

  lemma AtAppend(buf: seq<byte>, itr: nat, a: seq<byte>, b: seq<byte>)
    requires At(buf, itr, a + b)
    ensures At(buf, itr, a) && At(buf, itr + |a|, b)
    ensures b != [] ==> itr + |a| < |buf| && buf[itr + |a|] == b[0]
  {
    var s := buf[itr..itr + |a + b|];
    assert s[..|a|] == buf[itr..itr + |a|] && s[|a|..] == buf[itr + |a|..itr + |a| + |b|];
    assert b != [] ==> s[|a|] == buf[itr + |a|];
  }

  lemma AtFirst(buf: seq<byte>, itr: nat, text: seq<byte>)
    requires At(buf, itr, text) && text != []
    ensures itr < |buf| && buf[itr] == text[0]
  {
    assert buf[itr..itr + |text|][0] == buf[itr];
  }

  // ----- reading and writing a buffer

  /** The 64-bit integer stored at `pos`. */
  function Read64(buf: seq<byte>, pos: nat): (x: nat)
    requires pos + 8 <= |buf|
    ensures x < UINT64_LIMIT
  {
    Pow256Values();
    FromLittleEndianRoundTrip(buf[pos..pos + 8]);
    FromLittleEndian(buf[pos..pos + 8])
  }

  lemma Read64At(buf: seq<byte>, pos: nat, x: nat)
    requires x < UINT64_LIMIT && At(buf, pos, LittleEndian(x, 8))
    ensures Read64(buf, pos) == x
  {
    Pow256Values();
    LittleEndianRoundTrip(x, 8);
  }

  lemma Read64Image(buf: seq<byte>, pos: nat)
    requires pos + 8 <= |buf|
    ensures LittleEndian(Read64(buf, pos), 8) == buf[pos..pos + 8]
  {
    FromLittleEndianRoundTrip(buf[pos..pos + 8]);
  }

  /** Copies `src` over the bytes at `pos`. */
  method Put(dst: array<byte>, pos: nat, src: seq<byte>)
    requires pos + |src| <= dst.Length
    modifies dst
    ensures dst[..pos + |src|] == old(dst[..pos]) + src
    ensures dst[pos + |src|..] == old(dst[pos + |src|..])
  {
    forall k | 0 <= k < |src| {
      dst[pos + k] := src[k];
    }
  }
}
