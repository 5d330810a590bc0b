/** Argument vectors flattened to one buffer and split again (common/argv.c). */
module Argv {
  import opened Bytes
  import opened Results

  const MAX_LENGTHS := 32
  const POINTER_SIZE := 8

  /** A C string's characters. */
  type Chars = seq<byte>

  predicate NulFree(s: Chars) {
    forall i :: 0 <= i < |s| ==> s[i] != 0
  }

  predicate AllNulFree(args: seq<Chars>) {
    forall i :: 0 <= i < |args| ==> NulFree(args[i])
  }

  /** Each string with its terminator, concatenated. */
  function Flatten(args: seq<Chars>): seq<byte> {
    if args == [] then [] else Flatten(args[..|args| - 1]) + args[|args| - 1] + [0]
  }

  function CountNuls(s: seq<byte>): nat {
    if s == [] then 0 else CountNuls(s[..|s| - 1]) + if s[|s| - 1] == 0 then 1 else 0
  }

  /** The place after the last zero byte. */
  function LastEnd(s: seq<byte>): (e: nat)
    ensures e <= |s| && (e > 0 ==> s[e - 1] == 0)
    ensures forall i :: e <= i < |s| ==> s[i] != 0
  {
    if s == [] then 0 else if s[|s| - 1] == 0 then |s| else LastEnd(s[..|s| - 1])
  }

  /** The index of the first zero byte, or the length. */
  function FirstNul(s: seq<byte>): (e: nat)
    ensures e <= |s| && (e < |s| ==> s[e] == 0)
    ensures forall i :: 0 <= i < e ==> s[i] != 0
  {
    if s == [] || s[0] == 0 then 0
    else
      assert forall i :: 1 <= i < |s| ==> s[i] == s[1..][i - 1];
      1 + FirstNul(s[1..])
  }

  /** The strings of a buffer, read from the front. */
  function Split(s: seq<byte>): seq<Chars>
    decreases |s|
  {
    var e := FirstNul(s);
    if s == [] then [] else if e == |s| then [s] else [s[..e]] + Split(s[e + 1..])
  }

  // ----- flattening and splitting are inverse

  lemma {:induction false} FlattenCons(first: Chars, rest: seq<Chars>)
    ensures Flatten([first] + rest) == first + [0] + Flatten(rest)
    decreases |rest|
  {
    var args := [first] + rest;
    if rest == [] {
      assert args[..0] == [] && Flatten([]) == [];
      assert args == [first];
    } else {
      var init := rest[..|rest| - 1];
      FlattenCons(first, init);
      assert args[..|args| - 1] == [first] + init;
    }
  }

  lemma FirstNulAfter(first: Chars, rest: seq<byte>)
    requires NulFree(first)
    ensures FirstNul(first + [0] + rest) == |first|
  {
    var s := first + [0] + rest;
    assert s[|first|] == 0;
    assert forall i :: 0 <= i < |first| ==> s[i] == first[i];
  }

  lemma {:induction false} SplitFlatten(args: seq<Chars>)
    requires AllNulFree(args)
    ensures Split(Flatten(args)) == args
    decreases |args|
  {
    if args != [] {
      var first, rest := args[0], args[1..];
      assert args == [first] + rest;
      FlattenCons(first, rest);
      SplitFlatten(rest);
      FirstNulAfter(first, Flatten(rest));
      var s := first + [0] + Flatten(rest);
      assert s[..|first|] == first && s[|first| + 1..] == Flatten(rest);
    }
  }

  lemma {:induction false} NulFreeCounts(s: seq<byte>, t: Chars)
    requires NulFree(t)
    ensures CountNuls(s + t) == CountNuls(s)
    decreases |t|
  {
    if t == [] {
      assert s + t == s;
    } else {
      NulFreeCounts(s, t[..|t| - 1]);
      assert (s + t)[..|s + t| - 1] == s + t[..|t| - 1];
    }
  }

  /** Adding one terminated string adds one zero byte. */
  lemma CountTerminated(s: seq<byte>, t: Chars)
    requires NulFree(t)
    ensures CountNuls(s + t + [0]) == CountNuls(s) + 1
  {
    NulFreeCounts(s, t);
    assert (s + t + [0])[..|s + t|] == s + t;
  }

  lemma {:induction false} CountGrows(s: seq<byte>, k: nat)
    requires k <= |s|
    ensures CountNuls(s[..k]) <= CountNuls(s)
    ensures k < |s| && s[|s| - 1] == 0 ==> CountNuls(s[..k]) < CountNuls(s)
    decreases |s|
  {
    if k == |s| {
      assert s[..k] == s;
    } else {
      CountGrows(s[..|s| - 1], k);
      assert s[..|s| - 1][..k] == s[..k];
    }
  }

  // ----- to a buffer

  /** The total size modulo 2^64, with the first lengths kept for the second pass. */
  method Measure(argv: seq<Option<Chars>>, lengths: array<nat>) returns (r: Result<nat, OeResult>)
    requires lengths.Length == MAX_LENGTHS
    modifies lengths
    ensures r.Success? <==> forall i :: 0 <= i < |argv| ==> argv[i].Some?
    ensures r.Failure? ==> r.error == FAILURE
    ensures r.Success? ==> r.value == |Flatten(Values(argv))| % UINT64_LIMIT
    ensures r.Success? ==> forall i :: 0 <= i < |argv| && i < MAX_LENGTHS ==> lengths[i] == |argv[i].value|
  {
    hide Flatten, Values;
    FlattenNone(argv[..0]);
    var size: nat, i := 0, 0;
    while i < |argv|
      invariant 0 <= i <= |argv|
      invariant forall k :: 0 <= k < i ==> argv[k].Some?
      invariant size == |Flatten(Values(argv[..i]))| % UINT64_LIMIT
      invariant forall k :: 0 <= k < i && k < MAX_LENGTHS ==> lengths[k] == |argv[k].value|
    {
      if argv[i].None? {
        return Failure(FAILURE);
      }
      var len := |argv[i].value|;
      if i < MAX_LENGTHS {
        lengths[i] := len;
      }
      FlattenNext(argv, i);
      WrappedAdd(|Flatten(Values(argv[..i]))|, len + 1);
      size := (size + len + 1) % UINT64_LIMIT;
      i := i + 1;
    }
    assert argv[..i] == argv;
    return Success(size);
  }

  lemma WrappedAdd(a: nat, b: nat)
    ensures (a % UINT64_LIMIT + b) % UINT64_LIMIT == (a + b) % UINT64_LIMIT
  {
  }

  function Values(argv: seq<Option<Chars>>): (r: seq<Chars>)
    requires forall i :: 0 <= i < |argv| ==> argv[i].Some?
    ensures |r| == |argv|
  {
    seq(|argv|, i requires 0 <= i < |argv| => argv[i].value)
  }

  lemma FlattenNext(argv: seq<Option<Chars>>, i: nat)
    requires i < |argv| && forall k :: 0 <= k <= i ==> argv[k].Some?
    ensures Flatten(Values(argv[..i + 1])) == Flatten(Values(argv[..i])) + argv[i].value + [0]
  {
    var next := Values(argv[..i + 1]);
    assert next[..|next| - 1] == Values(argv[..i]);
  }

  lemma {:induction false} FlattenGrows(argv: seq<Option<Chars>>, i: nat)
    requires i <= |argv| && forall k :: 0 <= k < |argv| ==> argv[k].Some?
    ensures |Flatten(Values(argv[..i]))| <= |Flatten(Values(argv))|
    decreases |argv| - i
  {
    if i < |argv| {
      FlattenNext(argv, i);
      FlattenGrows(argv, i + 1);
    } else {
      assert argv[..i] == argv;
    }
  }

  /** Copies the strings; the first lengths come from the first pass, the others are measured
      again. Nothing compares the place reached with the size: it stops here, with false, where
      the original would go on past the end. */
  method CopyStrings(argv: seq<Option<Chars>>, lengths: array<nat>, buf: array<byte>) returns (inside: bool)
    requires forall i :: 0 <= i < |argv| ==> argv[i].Some?
    requires lengths.Length == MAX_LENGTHS
    requires forall i :: 0 <= i < |argv| && i < MAX_LENGTHS ==> lengths[i] == |argv[i].value|
    modifies buf
    ensures var image := Flatten(Values(argv));
            && (inside <==> |image| <= buf.Length)
            && (inside ==> buf[..|image|] == image && buf[|image|..] == old(buf[|image|..]))
  {
    hide Flatten, Values;
    FlattenNone(argv[..0]);
    var p: nat, i := 0, 0;
    ghost var all := |Flatten(Values(argv))|;
    while i < |argv|
      invariant 0 <= i <= |argv| && p <= all && p <= buf.Length
      invariant buf[..p] == Flatten(Values(argv[..i]))
      invariant forall k :: p <= k < buf.Length ==> buf[k] == old(buf[k])
    {
      var len := if i < MAX_LENGTHS then lengths[i] else |argv[i].value|;
      FlattenNext(argv, i);
      FlattenGrows(argv, i + 1);
      if p + len + 1 > buf.Length {
        return false;
      }
      ghost var before, next := buf[..], p + len + 1;
      Put(buf, p, argv[i].value + [0]);
      forall k | next <= k < buf.Length ensures buf[k] == old(buf[k]) {
        assert buf[next..][k - next] == before[next..][k - next];
      }
      p := p + len + 1;
      i := i + 1;
    }
    assert argv[..i] == argv;
    return true;
  }

  /** Writes the flattened vector and reports its size, which is added up modulo 2^64. A call
      without a buffer asks for the size. There is no result when a string is copied past the end
      of the buffer: exactly when the size has wrapped and the buffer passes for large enough. */
  method ArgvToBuffer(argv: Option<seq<Option<Chars>>>, buf: array?<byte>, bufSize: nat)
    returns (r: Option<OeResult>, sizeOut: Option<nat>)
    requires (buf != null ==> buf.Length == bufSize) && bufSize < UINT64_LIMIT
    modifies buf
    ensures argv.None? ==> r == Some(UNEXPECTED) && sizeOut == None
    ensures argv.Some? && (exists i :: 0 <= i < |argv.value| && argv.value[i].None?) ==>
              r == Some(FAILURE) && sizeOut == None
    ensures argv.Some? && (forall i :: 0 <= i < |argv.value| ==> argv.value[i].Some?) ==>
              var image := Flatten(Values(argv.value));
              var size := |image| % UINT64_LIMIT;
              && sizeOut == Some(size) && (size == |image| <==> |image| < UINT64_LIMIT)
              && (r == Some(BUFFER_TOO_SMALL) <==> bufSize < size)
              && (r == None <==> size <= bufSize && buf != null && |image| >= UINT64_LIMIT)
              && (r != None && size <= bufSize ==> r == Some(OK))
              && (buf != null && r == Some(OK) ==> buf[..|image|] == image && buf[|image|..] == old(buf[|image|..]))
    ensures buf != null && r.Some? && r != Some(OK) ==> buf[..] == old(buf[..])
  {
    hide Flatten;
    if argv.None? {
      return Some(UNEXPECTED), None;
    }
    if |argv.value| == 0 {
      FlattenNone(argv.value);
      return Some(OK), Some(0);
    }
    var lengths := new nat[MAX_LENGTHS];
    var measured := Measure(argv.value, lengths);
    if measured.Failure? {
      return Some(measured.error), None;
    }
    if bufSize < measured.value {
      return Some(BUFFER_TOO_SMALL), Some(measured.value);
    }
    if buf != null {
      var inside := CopyStrings(argv.value, lengths, buf);
      if !inside {
        return None, Some(measured.value);
      }
    }
    return Some(OK), Some(measured.value);
  }

  /** Pointers may repeat a string, so a vector may be much longer than the memory it stands in. */
  lemma {:induction false} RepeatedLength(s: Chars, n: nat)
    ensures |Flatten(seq(n, _ => s))| == n * (|s| + 1)
  {
    if n > 0 {
      RepeatedLength(s, n - 1);
      assert seq(n, _ => s)[..n - 1] == seq(n - 1, _ => s);
      assert n * (|s| + 1) == (n - 1) * (|s| + 1) + (|s| + 1);
    }
  }

  /** 2^24 pointers to one string of 2^40 - 1 characters: the total wraps to zero. */
  lemma TotalWraps()
    ensures var long: Chars := seq(0xff_ffff_ffff, _ => 1);
            var args := seq(0x100_0000, _ => long);
            NulFree(long) && |Flatten(args)| == UINT64_LIMIT && |Flatten(args)| % UINT64_LIMIT == 0
  {
    hide Flatten;
    var long: Chars := seq(0xff_ffff_ffff, _ => 1);
    RepeatedLength(long, 0x100_0000);
  }

  lemma FlattenNone(argv: seq<Option<Chars>>)
    requires argv == []
    ensures Flatten(Values(argv)) == []
  {
  }

  // ----- from a buffer

  /** The end of the string at `p`: the next zero byte, or the end of the buffer. */
  method StringEnd(buf: seq<byte>, p: nat) returns (e: nat)
    requires p <= |buf|
    ensures p <= e <= |buf| && (e < |buf| ==> buf[e] == 0)
    ensures NulFree(buf[p..e])
  {
    e := p;
    while e != |buf| && buf[e] != 0
      invariant p <= e <= |buf| && forall i :: p <= i < e ==> buf[i] != 0
    {
      e := e + 1;
    }
  }

  lemma LastEndIs(s: seq<byte>, p: nat)
    requires p <= |s| && (p > 0 ==> s[p - 1] == 0) && NulFree(s[p..])
    ensures LastEnd(s) == p
  {
    assert forall i :: p <= i < |s| ==> s[i] == s[p..][i - p];
  }

  /** The size of the block to allocate. */
  method BlockSize(buf: seq<byte>, argc: nat) returns (r: Result<nat, OeResult>)
    ensures var pointers := 8 * (argc + 1);
            r == if pointers >= UINT64_LIMIT || pointers + LastEnd(buf) >= UINT64_LIMIT then Failure(INTEGER_OVERFLOW)
                 else if LastEnd(buf) != |buf| then Failure(FAILURE)
                 else Success(pointers + |buf|)
  {
    if argc + 1 >= UINT64_LIMIT || POINTER_SIZE * (argc + 1) >= UINT64_LIMIT {
      return Failure(INTEGER_OVERFLOW);
    }
    var size := POINTER_SIZE * (argc + 1);
    var p := 0;
    while p != |buf|
      invariant 0 <= p <= |buf| && (p > 0 ==> buf[p - 1] == 0)
      invariant size == POINTER_SIZE * (argc + 1) + p < UINT64_LIMIT
      decreases |buf| - p
    {
      var start := p;
      p := StringEnd(buf, p);
      if p == |buf| {
        assert buf[start..] == buf[start..p];
        LastEndIs(buf, start);
        return Failure(FAILURE);
      }
      p := p + 1;
      if size + (p - start) >= UINT64_LIMIT {
        return Failure(INTEGER_OVERFLOW);
      }
      size := size + (p - start);
    }
    LastEndIs(buf, p);
    return Success(size);
  }

  /** The vector as the program sees it: the strings, then a null pointer. */
  function Pointers(args: seq<Chars>): seq<Option<Chars>> {
    seq(|args| + 1, i requires 0 <= i < |args| + 1 => if i < |args| then Some(args[i]) else None)
  }

  /** Fills the pointer array from the buffer. */
  method ExtractStrings(buf: seq<byte>, argv: array<Option<Chars>>, argc: nat) returns (ok: bool)
    requires argv.Length == argc + 1 && LastEnd(buf) == |buf|
    modifies argv
    ensures ok <==> CountNuls(buf) == argc
    ensures ok ==> argv[..] == Pointers(Split(buf))
  {
    hide Split, Flatten, LastEnd, Pointers, CountNuls;
    var p, index := 0, 0;
    ghost var args: seq<Chars> := [];
    NoneYet(buf[..0]);
    while p != |buf|
      invariant 0 <= p <= |buf| && 0 <= index == |args| <= argc
      invariant AllNulFree(args) && Flatten(args) == buf[..p] && CountNuls(buf[..p]) == index
      invariant forall i :: 0 <= i < index ==> argv[i] == Some(args[i])
      decreases |buf| - p
    {
      var start := p;
      EndsInNul(buf);
      CountGrows(buf, p);
      if index == argc {
        return false;
      }
      p := StringEnd(buf, p);
      EndsInside(buf, start, p);
      p := p + 1;
      argv[index] := Some(buf[start..p - 1]);
      index := index + 1;
      Extended(buf, args, start, p - 1);
      args := args + [buf[start..p - 1]];
    }
    assert buf[..p] == buf;
    SplitFlatten(args);
    argv[index] := None;
    PointersAre(args, argv[..]);
    return index == argc;
  }

  lemma NoneYet(s: seq<byte>)
    requires s == []
    ensures Flatten([]) == s && CountNuls(s) == 0
  {
  }

  lemma EndsInNul(s: seq<byte>)
    requires s != [] && LastEnd(s) == |s|
    ensures s[|s| - 1] == 0
  {
  }

  lemma PointersAre(args: seq<Chars>, argv: seq<Option<Chars>>)
    requires |args| < |argv| && (forall i :: 0 <= i < |args| ==> argv[i] == Some(args[i])) && argv[|args|] == None
    ensures |argv| == |args| + 1 ==> argv == Pointers(args)
  {
  }

  lemma EndsInside(buf: seq<byte>, start: nat, e: nat)
    requires start < |buf| && start <= e <= |buf| && NulFree(buf[start..e]) && LastEnd(buf) == |buf|
    ensures e < |buf|
  {
    EndsInNul(buf);
    hide LastEnd;
    assert forall i :: start <= i < e ==> buf[i] == buf[start..e][i - start];
  }

  lemma Extended(buf: seq<byte>, args: seq<Chars>, start: nat, e: nat)
    requires start <= e < |buf| && buf[e] == 0 && NulFree(buf[start..e])
    requires Flatten(args) == buf[..start]
    ensures Flatten(args + [buf[start..e]]) == buf[..e + 1]
    ensures CountNuls(buf[..e + 1]) == CountNuls(buf[..start]) + 1
  {
    assert (args + [buf[start..e]])[..|args|] == args;
    assert buf[..e + 1] == buf[..start] + buf[start..e] + [0];
    CountTerminated(buf[..start], buf[start..e]);
  }

  /** Splits a buffer into exactly `argc` strings. Where the sizes fit it succeeds exactly when
      the buffer is empty or ends in a zero byte and holds `argc` zero bytes. */
  method BufferToArgv(buf: Option<seq<byte>>, argc: nat) returns (r: Result<seq<Option<Chars>>, OeResult>)
    ensures buf.None? ==> r == Failure(INVALID_PARAMETER)
    ensures buf.Some? ==>
              var s, pointers := buf.value, 8 * (argc + 1);
              r == if pointers + LastEnd(s) >= UINT64_LIMIT then Failure(INTEGER_OVERFLOW)
                   else if (s == [] || s[|s| - 1] == 0) && CountNuls(s) == argc then Success(Pointers(Split(s)))
                   else Failure(FAILURE)
    ensures r.Success? ==>
              && |r.value| == argc + 1 == |Split(buf.value)| + 1 && r.value[argc] == None
              && forall i :: 0 <= i < argc ==> r.value[i] == Some(Split(buf.value)[i])
  {
    hide Split, CountNuls, LastEnd;
    if buf.None? {
      return Failure(INVALID_PARAMETER);
    }
    var size :- BlockSize(buf.value, argc);
    assert LastEnd(buf.value) == |buf.value|;
    var argv := new Option<Chars>[argc + 1];
    var ok := ExtractStrings(buf.value, argv, argc);
    if !ok {
      return Failure(FAILURE);
    }
    return Success(argv[..]);
  }

  /** Splitting undoes flattening, for any number of strings. */
  lemma BufferUndoesArgv(args: seq<Chars>)
    requires AllNulFree(args)
    ensures var buf := Flatten(args);
            (buf == [] || buf[|buf| - 1] == 0) && CountNuls(buf) == |args| && Split(buf) == args
  {
    SplitFlatten(args);
    CountFlatten(args);
  }

  lemma {:induction false} CountFlatten(args: seq<Chars>)
    requires AllNulFree(args)
    ensures CountNuls(Flatten(args)) == |args|
    decreases |args|
  {
    if args != [] {
      var n := |args| - 1;
      CountFlatten(args[..n]);
      CountTerminated(Flatten(args[..n]), args[n]);
    }
  }

  /** Flattening undoes splitting, on every buffer that is empty or ends in a zero byte. */
  lemma {:induction false} ArgvUndoesBuffer(s: seq<byte>)
    requires s == [] || s[|s| - 1] == 0
    ensures Flatten(Split(s)) == s && AllNulFree(Split(s))
    decreases |s|
  {
    if s != [] {
      var e := FirstNul(s);
      hide Split, FirstNul, Flatten, AllNulFree;
      FirstNulInside(s);
      SplitStep(s, e);
      CutAt(s, e);
      var rest := s[e + 1..];
      assert rest != [] ==> rest[|rest| - 1] == s[|s| - 1];
      ArgvUndoesBuffer(rest);
      FlattenCons(s[..e], Split(rest));
      NulFreeCons(s[..e], Split(rest));
    } else {
      assert Split(s) == [];
    }
  }

  lemma SplitStep(s: seq<byte>, e: nat)
    requires e == FirstNul(s) < |s|
    ensures Split(s) == [s[..e]] + Split(s[e + 1..])
  {
    hide FirstNul;
  }

  lemma FirstNulInside(s: seq<byte>)
    requires s != [] && s[|s| - 1] == 0
    ensures FirstNul(s) < |s|
  {
    hide FirstNul;
  }

  lemma CutAt(s: seq<byte>, e: nat)
    requires e < |s| && s[e] == 0
    ensures s == s[..e] + [0] + s[e + 1..]
  {
    assert s == s[..e] + s[e..] && s[e..] == [0] + s[e + 1..];
  }

  lemma NulFreeCons(first: Chars, rest: seq<Chars>)
    requires NulFree(first) && AllNulFree(rest)
    ensures AllNulFree([first] + rest)
  {
    hide NulFree;
    assert forall i :: 1 <= i <= |rest| ==> ([first] + rest)[i] == rest[i - 1];
  }
}
