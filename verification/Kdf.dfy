/** Counter-mode key derivation (common/kdf.c) against section 5.1 of NIST SP 800-108 (2009),
    with the keyed hash left as a parameter. */
module Kdf {
  import opened Bytes
  import opened Results

  const SHA256_SIZE := 32

  /** HMAC-SHA256: key and message to a 32-byte digest. */
  type Hmac = (seq<byte>, seq<byte>) -> seq<byte>

  ghost predicate DigestSized(hmac: Hmac) {
    forall key: seq<byte>, message: seq<byte> :: |hmac(key, message)| == SHA256_SIZE
  }

  // ----- the standard's definition

  /** Block `i`, counted from 1: the digest of the big-endian counter and the fixed data. */
  function Block(hmac: Hmac, key: seq<byte>, fixedData: seq<byte>, i: nat): seq<byte> {
    hmac(key, BigEndian(i, 4) + fixedData)
  }

  /** The first `n` blocks, concatenated. */
  function Stream(hmac: Hmac, key: seq<byte>, fixedData: seq<byte>, n: nat): seq<byte> {
    if n == 0 then [] else Stream(hmac, key, fixedData, n - 1) + Block(hmac, key, fixedData, n)
  }

  lemma {:induction false} StreamLength(hmac: Hmac, key: seq<byte>, fixedData: seq<byte>, n: nat)
    requires DigestSized(hmac)
    ensures |Stream(hmac, key, fixedData, n)| == SHA256_SIZE * n
  {
    if n > 0 {
      StreamLength(hmac, key, fixedData, n - 1);
    }
  }

  lemma {:induction false} StreamPrefix(hmac: Hmac, key: seq<byte>, fixedData: seq<byte>, m: nat, n: nat)
    requires DigestSized(hmac) && m <= n
    ensures Stream(hmac, key, fixedData, m) <= Stream(hmac, key, fixedData, n)
    decreases n
  {
    if m < n {
      StreamPrefix(hmac, key, fixedData, m, n - 1);
    }
  }

  function BlockCount(size: nat): (n: nat)
    ensures SHA256_SIZE * (n - 1) < size <= SHA256_SIZE * n
  {
    (size + SHA256_SIZE - 1) / SHA256_SIZE
  }

  /** The leftmost `size` bytes of as many blocks as they need. */
  ghost function Derived(hmac: Hmac, key: seq<byte>, fixedData: seq<byte>, size: nat): (r: seq<byte>)
    requires DigestSized(hmac)
    ensures |r| == size
  {
    StreamLength(hmac, key, fixedData, BlockCount(size));
    Stream(hmac, key, fixedData, BlockCount(size))[..size]
  }

  /** Each derived byte belongs to the block and the offset its index says, whatever the length. */
  lemma {:induction false} DerivedAt(hmac: Hmac, key: seq<byte>, fixedData: seq<byte>, size: nat, j: nat)
    requires DigestSized(hmac) && j < size
    ensures Derived(hmac, key, fixedData, size)[j]
         == Block(hmac, key, fixedData, j / SHA256_SIZE + 1)[j % SHA256_SIZE]
  {
    var i := j / SHA256_SIZE;
    StreamLength(hmac, key, fixedData, i);
    StreamLength(hmac, key, fixedData, i + 1);
    StreamLength(hmac, key, fixedData, BlockCount(size));
    StreamPrefix(hmac, key, fixedData, i + 1, BlockCount(size));
    assert Stream(hmac, key, fixedData, i + 1)[j] == Block(hmac, key, fixedData, i + 1)[j - SHA256_SIZE * i];
  }

  /** Byte `j` of a key is byte `j % 32` of the digest of a message: the number of its block, counted
      from one, in four bytes with the most significant first, and then the fixed data. */
  ghost predicate CounterMode(key: seq<byte>, hmac: Hmac, secret: seq<byte>, data: seq<byte>)
    requires DigestSized(hmac)
  {
    forall j :: 0 <= j < |key| ==>
                  var n := j / 32 + 1;
                  key[j] == hmac(secret, [n / 0x100_0000 % 256, n / 0x1_0000 % 256, n / 0x100 % 256, n % 256] + data)[j % 32]
  }

  lemma CounterBytes(n: uint32)
    ensures BigEndian(n, 4) == [n / 0x100_0000 % 256, n / 0x1_0000 % 256, n / 0x100 % 256, n % 256]
  {
    var a, b, c := n / 256, n / 256 / 256, n / 256 / 256 / 256;
    assert b == n / 0x1_0000 && c == n / 0x100_0000;
    assert Digit(n, 1) == Digit(a, 0) && Digit(n, 2) == Digit(a, 1) == Digit(b, 0);
    assert Digit(n, 3) == Digit(a, 2) == Digit(b, 1) == Digit(c, 0);
    assert BigEndian(n, 4) == [Digit(n, 3), Digit(n, 2), Digit(n, 1), Digit(n, 0)];
  }

  /** The standard's bytes are in counter mode. */
  lemma DerivedCounterMode(hmac: Hmac, key: seq<byte>, fixedData: seq<byte>, size: nat)
    requires DigestSized(hmac) && BlockCount(size) < UINT32_LIMIT
    ensures CounterMode(Derived(hmac, key, fixedData, size), hmac, key, fixedData)
  {
    hide Derived, BigEndian;
    forall j | 0 <= j < size
      ensures var n := j / 32 + 1;
              Derived(hmac, key, fixedData, size)[j]
              == hmac(key, [n / 0x100_0000 % 256, n / 0x1_0000 % 256, n / 0x100 % 256, n % 256] + fixedData)[j % 32]
    {
      DerivedAt(hmac, key, fixedData, size, j);
      CounterBytes(j / 32 + 1);
    }
  }

  /** For the same fixed data a shorter output is a prefix of a longer one. */
  lemma ShorterIsPrefix(hmac: Hmac, key: seq<byte>, fixedData: seq<byte>, shorter: nat, longer: nat)
    requires DigestSized(hmac) && shorter <= longer
    ensures Derived(hmac, key, fixedData, shorter) <= Derived(hmac, key, fixedData, longer)
  {
    forall j | 0 <= j < shorter
      ensures Derived(hmac, key, fixedData, shorter)[j] == Derived(hmac, key, fixedData, longer)[j]
    {
      DerivedAt(hmac, key, fixedData, shorter, j);
      DerivedAt(hmac, key, fixedData, longer, j);
    }
  }

  // ----- the code

  /** The byte swap, with the masks and shifts written as arithmetic. */
  function ToBigEndian(x: uint32): uint32 {
    Digit(x, 3) + Digit(x, 2) * 0x100 + Digit(x, 1) * 0x1_0000 + Digit(x, 0) * 0x100_0000
  }

  lemma DigitsOfSum(a: byte, b: byte, c: byte, d: byte)
    ensures LittleEndian(a + b * 0x100 + c * 0x1_0000 + d * 0x100_0000, 4) == [a, b, c, d]
  {
    var x := a + b * 0x100 + c * 0x1_0000 + d * 0x100_0000;
    assert x / 256 == b + c * 0x100 + d * 0x1_0000 && x % 256 == a;
    assert x / 256 / 256 == c + d * 0x100 && x / 256 % 256 == b;
    assert x / 256 / 256 / 256 == d && x / 256 / 256 % 256 == c;
    assert Digit(x, 1) == Digit(x / 256, 0);
    assert Digit(x, 2) == Digit(x / 256, 1) == Digit(x / 256 / 256, 0);
    assert Digit(x, 3) == Digit(x / 256, 2) == Digit(x / 256 / 256, 1) == Digit(x / 256 / 256 / 256, 0);
  }

  /** The in-memory image of the swapped integer is the big-endian encoding. */
  lemma SwapIsBigEndian(x: uint32)
    ensures LittleEndian(ToBigEndian(x), 4) == BigEndian(x, 4)
  {
    DigitsOfSum(Digit(x, 3), Digit(x, 2), Digit(x, 1), Digit(x, 0));
    assert BigEndian(x, 4) == [Digit(x, 3), Digit(x, 2), Digit(x, 1), Digit(x, 0)];
  }

  function Min(x: nat, y: nat): nat {
    if x < y then x else y
  }

  /** A missing key or output is refused. */
  method DeriveKey(hmac: Hmac, key: Option<seq<byte>>, fixedData: Option<seq<byte>>, out: array?<byte>)
    returns (r: OeResult)
    requires DigestSized(hmac) && (out != null ==> out.Length < UINT64_LIMIT)
    modifies out
    ensures key.None? || out == null ==> r == INVALID_PARAMETER
    ensures key.Some? && out != null ==>
              r == if out.Length + 31 >= UINT64_LIMIT then INTEGER_OVERFLOW
                   else if (out.Length + 31) / 32 >= UINT32_LIMIT then CONSTRAINT_FAILED else OK
    ensures r == OK ==>
              out[..] == Derived(hmac, key.value, if fixedData.Some? then fixedData.value else [], out.Length)
    ensures r == OK ==> CounterMode(out[..], hmac, key.value, if fixedData.Some? then fixedData.value else [])
    ensures out != null && r != OK ==> out[..] == old(out[..])
  {
    hide CounterMode;
    if key.None? || out == null {
      return INVALID_PARAMETER;
    }
    r := FillKey(hmac, key.value, fixedData, out);
  }

  /** Fills the whole output with exactly the standard's bytes. It fails, writing nothing, only
      when the rounded size overflows or more than 2^32 - 1 blocks would be needed. */
  method FillKey(hmac: Hmac, key: seq<byte>, fixedData: Option<seq<byte>>, out: array<byte>) returns (r: OeResult)
    requires DigestSized(hmac) && out.Length < UINT64_LIMIT
    modifies out
    ensures r == if out.Length + 31 >= UINT64_LIMIT then INTEGER_OVERFLOW
                 else if (out.Length + 31) / 32 >= UINT32_LIMIT then CONSTRAINT_FAILED else OK
    ensures r == OK ==>
              out[..] == Derived(hmac, key, if fixedData.Some? then fixedData.value else [], out.Length)
    ensures r == OK ==> CounterMode(out[..], hmac, key, if fixedData.Some? then fixedData.value else [])
    ensures r != OK ==> out[..] == old(out[..])
  {
    hide CounterMode;
    if out.Length + SHA256_SIZE - 1 >= UINT64_LIMIT {
      return INTEGER_OVERFLOW;
    }
    var iters := (out.Length + SHA256_SIZE - 1) / SHA256_SIZE;
    if iters > UINT32_LIMIT - 1 {
      return CONSTRAINT_FAILED;
    }
    ghost var data := if fixedData.Some? then fixedData.value else [];
    var pos: nat, left: nat := 0, out.Length;
    var i := 1;
    while i <= iters
      invariant 1 <= i <= iters + 1
      invariant pos + left == out.Length && pos == Min(SHA256_SIZE * (i - 1), out.Length)
      invariant |Stream(hmac, key, data, i - 1)| == SHA256_SIZE * (i - 1)
      invariant out[..pos] == Stream(hmac, key, data, i - 1)[..pos]
    {
      hide BigEndian;
      var count := Min(left, SHA256_SIZE);
      var message := Message(i, fixedData);
      var digest := hmac(key, message);
      assert digest == Block(hmac, key, data, i);
      Extend(out[..pos], Stream(hmac, key, data, i - 1), digest, count);
      Put(out, pos, digest[..count]);
      pos, left := pos + count, left - count;
      i := i + 1;
    }
    DerivedCounterMode(hmac, key, data, out.Length);
    return OK;
  }

  /** The counter in its big-endian image, and the fixed data if there is any. */
  method Message(i: uint32, fixedData: Option<seq<byte>>) returns (message: seq<byte>)
    ensures message == BigEndian(i, 4) + if fixedData.Some? then fixedData.value else []
  {
    hide BigEndian, ToBigEndian, LittleEndian;
    SwapIsBigEndian(i);
    message := LittleEndian(ToBigEndian(i), 4);
    if fixedData.Some? {
      message := message + fixedData.value;
    } else {
      assert message + [] == message;
    }
  }

  lemma Extend(written: seq<byte>, stream: seq<byte>, digest: seq<byte>, count: nat)
    requires |written| == |stream| && written == stream[..|written|] && count <= |digest|
    ensures written + digest[..count] == (stream + digest)[..|written| + count]
  {
  }

  // ----- the fixed data

  /** label || 0 || context || output size in bits. */
  function FixedData(name: seq<byte>, context: seq<byte>, keySize: nat): seq<byte> {
    name + [0] + context + BigEndian(8 * keySize, 4)
  }

  /** The label, a zero byte, the context, and the size in bits, most significant byte first. */
  predicate LaidOut(s: seq<byte>, l: seq<byte>, c: seq<byte>, bits: nat) {
    && |s| == |l| + 1 + |c| + 4
    && s[..|l|] == l && s[|l|] == 0 && s[|l| + 1..|l| + 1 + |c|] == c
    && s[|s| - 4] == bits / 0x100_0000 % 256 && s[|s| - 3] == bits / 0x1_0000 % 256
    && s[|s| - 2] == bits / 0x100 % 256 && s[|s| - 1] == bits % 256
  }

  lemma FixedDataLaidOut(l: seq<byte>, c: seq<byte>, keySize: nat)
    requires keySize <= MAX_KEY_SIZE
    ensures LaidOut(FixedData(l, c, keySize), l, c, 8 * keySize)
  {
    hide BigEndian;
    CounterBytes(8 * keySize);
    var s, bits := FixedData(l, c, keySize), BigEndian(8 * keySize, 4);
    assert s[|s| - 4] == bits[0] && s[|s| - 3] == bits[1] && s[|s| - 2] == bits[2] && s[|s| - 1] == bits[3];
  }

  const MAX_KEY_SIZE := 536870911  // (2^32 - 1) / 8

  method CreateFixedData(name: Option<seq<byte>>, context: Option<seq<byte>>, keySize: uint64)
    returns (r: Result<seq<byte>, OeResult>)
    ensures var l := if name.Some? then name.value else [];
            var c := if context.Some? then context.value else [];
            r == (if keySize > MAX_KEY_SIZE then Failure(CONSTRAINT_FAILED)
                  else if |l| + |c| + 5 >= UINT64_LIMIT then Failure(INTEGER_OVERFLOW)
                  else Success(FixedData(l, c, keySize)))
            && (r.Success? ==> LaidOut(r.value, l, c, 8 * keySize))
  {
    hide LaidOut;
    hide BigEndian, ToBigEndian, LittleEndian;
    if keySize > (UINT32_LIMIT - 1) / 8 {
      return Failure(CONSTRAINT_FAILED);
    }
    var nameSize: nat := if name.Some? then |name.value| else 0;
    var contextSize: nat := if context.Some? then |context.value| else 0;
    if nameSize + contextSize >= UINT64_LIMIT || nameSize + contextSize + 5 >= UINT64_LIMIT {
      return Failure(INTEGER_OVERFLOW);
    }
    var data := new byte[nameSize + contextSize + 5];
    var at := 0;
    if name.Some? {
      Put(data, at, name.value);
    }
    at := at + nameSize;
    ghost var l := if name.Some? then name.value else [];
    assert data[..at] == l;
    data[at] := 0;
    at := at + 1;
    assert data[..at] == l + [0];
    if context.Some? {
      Put(data, at, context.value);
    }
    at := at + contextSize;
    ghost var c := if context.Some? then context.value else [];
    assert data[..at] == l + [0] + c;
    SwapIsBigEndian(8 * keySize);
    var bits := LittleEndian(ToBigEndian(8 * keySize), 4);
    Put(data, at, bits);
    assert data[..] == l + [0] + c + bits;
    FixedDataLaidOut(l, c, keySize);
    return Success(data[..]);
  }

  predicate NulFree(s: seq<byte>) {
    forall i :: 0 <= i < |s| ==> s[i] != 0
  }

  /** The size in bits is always told apart. */
  lemma SizeBound(l: seq<byte>, c: seq<byte>, n: nat, l': seq<byte>, c': seq<byte>, n': nat)
    requires n <= MAX_KEY_SIZE && n' <= MAX_KEY_SIZE
    ensures FixedData(l, c, n) == FixedData(l', c', n') <==> n == n' && l + [0] + c == l' + [0] + c'
  {
    hide BigEndian;
    var s, s' := FixedData(l, c, n), FixedData(l', c', n');
    if s == s' {
      assert s[..|s| - 4] == l + [0] + c && s'[..|s'| - 4] == l' + [0] + c';
      assert s[|s| - 4..] == BigEndian(8 * n, 4) && s'[|s'| - 4..] == BigEndian(8 * n', 4);
      Pow256Values();
      BigEndianRoundTrip(8 * n, 4);
      BigEndianRoundTrip(8 * n', 4);
    }
  }

  /** A label is taken for a longer one exactly when the longer one continues it with a zero byte
      and the context supplies the rest. */
  lemma LabelShorter(l: seq<byte>, c: seq<byte>, l': seq<byte>, c': seq<byte>)
    requires |l| < |l'|
    ensures l + [0] + c == l' + [0] + c' <==> l + [0] <= l' && c == l'[|l| + 1..] + [0] + c'
  {
    var s, s' := l + [0] + c, l' + [0] + c';
    if s == s' {
      assert s[..|l| + 1] == l + [0] && s'[..|l| + 1] == l'[..|l| + 1];
      assert s[|l| + 1..] == c && s'[|l| + 1..] == l'[|l| + 1..] + [0] + c';
    }
    if l + [0] <= l' {
      assert l' == l + [0] + l'[|l| + 1..];
    }
  }

  lemma LabelsAlike(l: seq<byte>, c: seq<byte>, l': seq<byte>, c': seq<byte>)
    requires |l| == |l'|
    ensures l + [0] + c == l' + [0] + c' <==> l == l' && c == c'
  {
    var s, s' := l + [0] + c, l' + [0] + c';
    if s == s' {
      assert s[..|l|] == l && s'[..|l|] == l' && s[|l| + 1..] == c && s'[|l| + 1..] == c';
    }
  }

  /** Two different labels can share their fixed data exactly when one of them begins with the
      other and a zero byte. */
  lemma LabelsCollide(l: seq<byte>, l': seq<byte>, n: nat)
    requires l != l' && n <= MAX_KEY_SIZE
    ensures (exists c, c' :: FixedData(l, c, n) == FixedData(l', c', n)) <==> l + [0] <= l' || l' + [0] <= l
  {
    hide FixedData;
    if c, c' :| FixedData(l, c, n) == FixedData(l', c', n) {
      SizeBound(l, c, n, l', c', n);
      if |l| < |l'| {
        LabelShorter(l, c, l', c');
      } else if |l'| < |l| {
        LabelShorter(l', c', l, c);
      } else {
        LabelsAlike(l, c, l', c');
      }
    }
    if l + [0] <= l' {
      var c := l'[|l| + 1..] + [0] + [];
      LabelShorter(l, c, l', []);
      SizeBound(l, c, n, l', [], n);
    } else if l' + [0] <= l {
      var c := l[|l'| + 1..] + [0] + [];
      LabelShorter(l', c, l, []);
      SizeBound(l, [], n, l', c, n);
    }
  }

  lemma NotContinued(l: seq<byte>, l': seq<byte>)
    ensures l + [0] <= l' ==> !NulFree(l')
  {
    if l + [0] <= l' {
      assert l'[|l|] == (l + [0])[|l|];
    }
  }

  /** With labels free of zero bytes, the fixed data tells label, context and size apart. */
  lemma FixedDataBinds(l: seq<byte>, c: seq<byte>, n: nat, l': seq<byte>, c': seq<byte>, n': nat)
    requires NulFree(l) && NulFree(l') && n <= MAX_KEY_SIZE && n' <= MAX_KEY_SIZE
    ensures FixedData(l, c, n) == FixedData(l', c', n') <==> l == l' && c == c' && n == n'
  {
    hide FixedData, NulFree;
    NotContinued(l, l');
    NotContinued(l', l);
    if FixedData(l, c, n) == FixedData(l', c', n') {
      SizeBound(l, c, n, l', c', n');
      if l != l' {
        LabelsCollide(l, l', n);
      } else {
        LabelsAlike(l, c, l', c');
      }
    }
  }

  /** A zero byte in a label lets it be taken for part of the context. */
  lemma NulInLabelNotBound(n: nat)
    ensures FixedData([1, 0, 2], [3], n) == FixedData([1], [2, 0, 3], n)
  {
  }
}
