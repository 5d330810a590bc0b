/** The cursor readers of common/sgx/tcbinfo.c.

    A cursor is an index into the document. Readers without a loop are functions from a
    cursor to a token and the cursor behind it; readers with a loop are methods, each proved
    to compute such a function. */
module TcbJson {
  import opened Bytes
  import opened Results
  import opened Datetime

  /** A value read, and the cursor behind it and the white space that follows. */
  datatype Token<+T> = Token(value: T, next: nat)

  type Read<T> = Result<Token<T>, OeResult>

  /** The text of a string literal, as a stretch of the document. */
  datatype Span = Span(start: nat, end: nat)

  /** The bytes of a literal; only 7-bit characters are used. */
  function Ascii(s: string): (b: seq<byte>)
    ensures |b| == |s|
  {
    seq(|s|, i requires 0 <= i < |s| => s[i] as int % 128)
  }

  const QUOTE: byte := 0x22
  const BACKSLASH: byte := 0x5c
  const OPEN: byte := 0x5b
  const CLOSE: byte := 0x5d

  predicate IsSpace(c: byte) {
    c == ' ' as int || 9 <= c <= 13 || c == 0
  }

  // ----- white space

  function SkipSpace(buf: seq<byte>, itr: nat): (p: nat)
    requires itr <= |buf|
    ensures itr <= p <= |buf|
    ensures forall k :: itr <= k < p ==> IsSpace(buf[k])
    ensures p < |buf| ==> !IsSpace(buf[p])
    decreases |buf| - itr
  {
    if itr < |buf| && IsSpace(buf[itr]) then SkipSpace(buf, itr + 1) else itr
  }

  method SkipWs(buf: seq<byte>, itr: nat) returns (p: nat)
    requires itr <= |buf|
    ensures p == SkipSpace(buf, itr) && itr <= p <= |buf|
    ensures forall k :: itr <= k < p ==> buf[k] in {9, 10, 11, 12, 13, 32, 0}
    ensures p < |buf| ==> buf[p] !in {9, 10, 11, 12, 13, 32, 0}
  {
    p := itr;
    while p < |buf| && IsSpace(buf[p])
      invariant itr <= p <= |buf| && SkipSpace(buf, p) == SkipSpace(buf, itr)
    {
      p := p + 1;
    }
  }

  // ----- one character

  function ReadChar(ch: byte, buf: seq<byte>, itr: nat): (r: Result<nat, OeResult>)
    requires itr <= |buf|
    ensures r.Success? <==> itr < |buf| && buf[itr] == ch
    ensures r.Success? ==> itr < r.value <= |buf|
    ensures r.Failure? ==> r.error == JSON_INFO_PARSE_ERROR
  {
    if itr < |buf| && buf[itr] == ch then Success(SkipSpace(buf, itr + 1)) else Failure(JSON_INFO_PARSE_ERROR)
  }

  // ----- integers

  /** Integers from here on are refused, though the last six of them would fit in 64 bits. */
  const INTEGER_LIMIT := 18446744073709551610

  /** The end of the run of digits at the cursor. */
  function DigitsEnd(buf: seq<byte>, itr: nat): (e: nat)
    requires itr <= |buf|
    ensures itr <= e <= |buf| && AllDigits(buf[itr..e])
    ensures e < |buf| ==> !IsDigit(buf[e])
    decreases |buf| - itr
  {
    if itr < |buf| && IsDigit(buf[itr]) then
      var e := DigitsEnd(buf, itr + 1);
      assert buf[itr..e] == [buf[itr]] + buf[itr + 1..e];
      e
    else itr
  }

  function ReadInteger(buf: seq<byte>, itr: nat): (r: Read<nat>)
    requires itr <= |buf|
    ensures r.Success? ==> itr < r.value.next <= |buf| && r.value.value < INTEGER_LIMIT
    ensures r.Failure? ==> r.error == JSON_INFO_PARSE_ERROR
  {
    var e := DigitsEnd(buf, itr);
    if e == itr then Failure(JSON_INFO_PARSE_ERROR)
    else
      DecimalOfDigits(buf[itr..e]);
      var v := FromDecimal(buf[itr..e]);
      if v < INTEGER_LIMIT then Success(Token(v, SkipSpace(buf, e))) else Failure(JSON_INFO_PARSE_ERROR)
  }

  lemma {:induction false} DigitsEndExact(buf: seq<byte>, itr: nat, e: nat)
    requires itr <= e <= |buf| && AllDigits(buf[itr..e]) && (e < |buf| ==> !IsDigit(buf[e]))
    ensures DigitsEnd(buf, itr) == e
    decreases e - itr
  {
    if itr < e {
      assert IsDigit(buf[itr..e][0]);
      assert buf[itr + 1..e] == buf[itr..e][1..];
      DigitsEndExact(buf, itr + 1, e);
    }
  }

  /** A longer digit string is worth at least ten times as much. */
  lemma {:induction false} FromDecimalGrows(s: seq<byte>, k: nat)
    requires k <= |s| && AllDigits(s)
    ensures 0 <= FromDecimal(s[..k]) <= FromDecimal(s)
    decreases |s|
  {
    DecimalOfDigits(s[..k]);
    if k < |s| {
      assert s[..|s| - 1][..k] == s[..k];
      FromDecimalGrows(s[..|s| - 1], k);
    } else {
      assert s[..k] == s;
    }
  }

  /** The overflow test, made before each further digit, is exact at INTEGER_LIMIT. */
  method ScanInteger(buf: seq<byte>, itr: nat) returns (r: Read<nat>)
    requires itr <= |buf|
    ensures r == ReadInteger(buf, itr)
  {
    hide FromDecimal;
    var p := itr;
    if !(p < |buf| && IsDigit(buf[p])) {
      return Failure(JSON_INFO_PARSE_ERROR);
    }
    ghost var e := DigitsEnd(buf, itr);
    var value: nat := buf[p] - '0' as int;
    OneDigit(buf[p]);
    assert buf[itr..itr + 1] == [buf[itr]];
    p := p + 1;
    while p < |buf| && IsDigit(buf[p])
      invariant itr < p <= e
      invariant value == FromDecimal(buf[itr..p])
      invariant value < INTEGER_LIMIT
    {
      assert p != e;
      MoreDigits(buf, itr, p, e);
      if value >= (UINT64_LIMIT - 1) / 10 {
        return Failure(JSON_INFO_PARSE_ERROR);
      }
      value := value * 10 + (buf[p] - '0' as int);
      p := p + 1;
    }
    assert buf[itr..p] == buf[itr..e][..p - itr];
    DigitsEndExact(buf, itr, p);
    var next := SkipWs(buf, p);
    return Success(Token(value, next));
  }

  lemma OneDigit(c: byte)
    requires IsDigit(c)
    ensures FromDecimal([c]) == c - '0' as int
  {
    assert [c][..0] == [];
  }

  lemma MoreDigits(buf: seq<byte>, itr: nat, p: nat, e: nat)
    requires itr < p < e <= |buf| && AllDigits(buf[itr..e])
    ensures IsDigit(buf[p])
    ensures FromDecimal(buf[itr..p + 1]) == 10 * FromDecimal(buf[itr..p]) + (buf[p] - '0' as int)
    ensures 0 <= FromDecimal(buf[itr..p]) && FromDecimal(buf[itr..p + 1]) <= FromDecimal(buf[itr..e])
  {
    var s, k := buf[itr..e], p - itr;
    assert s[k] == buf[p];
    assert s[..k + 1] == buf[itr..p + 1];
    assert s[..k] == buf[itr..p];
    assert s[..k + 1][..k] == s[..k];
    FromDecimalGrows(s, k + 1);
    FromDecimalGrows(s, k);
  }

  // ----- strings

  /** The first quote or backslash at or after the cursor, or the end. */
  function StringEnd(buf: seq<byte>, itr: nat): (e: nat)
    requires itr <= |buf|
    ensures itr <= e <= |buf|
    ensures forall k :: itr <= k < e ==> buf[k] != QUOTE && buf[k] != BACKSLASH
    ensures e < |buf| ==> buf[e] == QUOTE || buf[e] == BACKSLASH
    decreases |buf| - itr
  {
    if itr < |buf| && buf[itr] != QUOTE && buf[itr] != BACKSLASH then StringEnd(buf, itr + 1) else itr
  }

  /** A string literal; escape sequences are refused. */
  function ReadString(buf: seq<byte>, itr: nat): (r: Read<Span>)
    requires itr <= |buf|
    ensures r.Success? ==> itr < r.value.value.start <= r.value.value.end < r.value.next <= |buf|
    ensures r.Failure? ==> r.error == JSON_INFO_PARSE_ERROR
  {
    var p := SkipSpace(buf, itr);
    if p < |buf| && buf[p] == QUOTE then
      var e := StringEnd(buf, p + 1);
      if e < |buf| && buf[e] == QUOTE then Success(Token(Span(p + 1, e), SkipSpace(buf, e + 1)))
      else Failure(JSON_INFO_PARSE_ERROR)
    else Failure(JSON_INFO_PARSE_ERROR)
  }

  method ScanString(buf: seq<byte>, itr: nat) returns (r: Read<Span>)
    requires itr <= |buf|
    ensures r == ReadString(buf, itr)
  {
    var p := SkipWs(buf, itr);
    if !(p < |buf| && buf[p] == QUOTE) {
      return Failure(JSON_INFO_PARSE_ERROR);
    }
    p := p + 1;
    var start := p;
    while p < |buf| && buf[p] != QUOTE
      invariant start <= p <= |buf| && StringEnd(buf, p) == StringEnd(buf, start)
    {
      if buf[p] == BACKSLASH {
        return Failure(JSON_INFO_PARSE_ERROR);
      }
      p := p + 1;
    }
    if p < |buf| && buf[p] == QUOTE {
      var next := SkipWs(buf, p + 1);
      return Success(Token(Span(start, p), next));
    }
    return Failure(JSON_INFO_PARSE_ERROR);
  }

  /** A property name and its colon. */
  function ReadName(name: seq<byte>, buf: seq<byte>, itr: nat): (r: Result<nat, OeResult>)
    requires itr <= |buf|
    ensures r.Success? ==> itr < r.value <= |buf|
    ensures r.Failure? ==> r.error == JSON_INFO_PARSE_ERROR
  {
    var s :- ReadString(buf, itr);
    if buf[s.value.start..s.value.end] == name then ReadChar(':' as int, buf, s.next)
    else Failure(JSON_INFO_PARSE_ERROR)
  }

  /** A name is read only off that very name in quotes and a colon, white space aside. */
  lemma NameRead(name: seq<byte>, buf: seq<byte>, itr: nat)
    requires itr <= |buf| && ReadName(name, buf, itr).Success?
    ensures var p := SkipSpace(buf, itr);
            && At(buf, p, [QUOTE] + name + [QUOTE])
            && var q := SkipSpace(buf, p + |name| + 2);
               q < |buf| && buf[q] == ':' as int && ReadName(name, buf, itr).value == SkipSpace(buf, q + 1)
  {
    hide SkipSpace, StringEnd;
    var p := SkipSpace(buf, itr);
    var span := ReadString(buf, itr).value.value;
    assert buf[p..span.end + 1] == [buf[p]] + buf[p + 1..span.end] + [buf[span.end]];
  }

  // ----- hex strings

  function HexDigit(c: byte): (v: nat)
    ensures v <= 16
  {
    if '0' as int <= c <= '9' as int then c - '0' as int
    else if 'a' as int <= c <= 'f' as int then c - 'a' as int + 10
    else if 'A' as int <= c <= 'F' as int then c - 'A' as int + 10
    else 16
  }

  /** The hex digits of either case have their values, and no other character has one. */
  lemma HexDigitMeaning(c: byte)
    ensures forall v :: 0 <= v < 16 ==>
              (HexDigit(c) == v <==> c == "0123456789abcdef"[v] as int || c == "0123456789ABCDEF"[v] as int)
    ensures HexDigit(c) == 16 <==>
            forall v :: 0 <= v < 16 ==> c != "0123456789abcdef"[v] as int && c != "0123456789ABCDEF"[v] as int
  {
    var lower, upper := "0123456789abcdef", "0123456789ABCDEF";
    forall v | 0 <= v < 16 ensures lower[v] as int == (if v < 10 then 48 + v else 87 + v)
                                && upper[v] as int == (if v < 10 then 48 + v else 55 + v) {
      assert v == 0 || v == 1 || v == 2 || v == 3 || v == 4 || v == 5 || v == 6 || v == 7 || v == 8 || v == 9
          || v == 10 || v == 11 || v == 12 || v == 13 || v == 14 || v == 15;
    }
    if HexDigit(c) < 16 {
      assert c == lower[HexDigit(c)] as int || c == upper[HexDigit(c)] as int;
    }
  }

  /** (high << 4) | low, for digits up to 16. */
  function HexByte(high: nat, low: nat): nat
    requires high <= 16 && low <= 16
  {
    if low == 16 && high % 2 == 1 then high * 16 else high * 16 + low
  }

  /** Two hex digits make their byte. Behind a first digit, a character that is none sets the bit of
      weight 16 and changes no other. */
  lemma HexByteOr(high: nat, low: nat)
    requires high <= 16 && low <= 16
    ensures low < 16 ==> HexByte(high, low) == 16 * high + low
    ensures low == 16 ==>
              var v := HexByte(high, low);
              v % 16 == 0 && v / 16 % 2 == 1 && v / 32 == high / 2
  {
  }

  /** The bytes of a hex string; None when some byte does not fit. A bad second digit is
      not noticed. */
  function HexBytes(s: seq<byte>): (r: Option<seq<byte>>)
    requires |s| % 2 == 0
    ensures r.Some? ==> |r.value| == |s| / 2
  {
    if s == [] then Some([])
    else
      var n := |s| - 2;
      var init := HexBytes(s[..n]);
      var v := HexByte(HexDigit(s[n]), HexDigit(s[n + 1]));
      if init.Some? && v < 256 then Some(init.value + [v]) else None
  }

  function ReadHexString(buf: seq<byte>, itr: nat, length: nat): (r: Read<seq<byte>>)
    requires itr <= |buf|
    ensures r.Success? ==> itr < r.value.next <= |buf| && |r.value.value| == length
    ensures r.Failure? ==> r.error == JSON_INFO_PARSE_ERROR
  {
    var s :- ReadString(buf, itr);
    if s.value.end - s.value.start != length * 2 then Failure(JSON_INFO_PARSE_ERROR)
    else
      var bytes := HexBytes(buf[s.value.start..s.value.end]);
      if bytes.Some? then Success(Token(bytes.value, s.next)) else Failure(JSON_INFO_PARSE_ERROR)
  }

  method ScanHexString(buf: seq<byte>, itr: nat, length: nat) returns (r: Read<seq<byte>>)
    requires itr <= |buf|
    ensures r == ReadHexString(buf, itr, length)
  {
    hide HexBytes, ReadString;
    var s :- ScanString(buf, itr);
    if s.value.end - s.value.start != length * 2 {
      return Failure(JSON_INFO_PARSE_ERROR);
    }
    var str := buf[s.value.start..s.value.end];
    var bytes: seq<byte> := [];
    HexStep(str, 0);
    var i := 0;
    while i < length
      invariant i <= length && HexBytes(str[..2 * i]) == Some(bytes)
    {
      HexStep(str, i + 1);
      var value := HexByte(HexDigit(str[i * 2]), HexDigit(str[i * 2 + 1]));
      if value > 255 {
        HexPrefix(str, i + 1);
        return Failure(JSON_INFO_PARSE_ERROR);
      }
      bytes := bytes + [value];
      i := i + 1;
    }
    assert str[..2 * length] == str;
    return Success(Token(bytes, s.next));
  }

  lemma HexStep(s: seq<byte>, k: nat)
    requires |s| % 2 == 0 && 2 * k <= |s|
    ensures HexBytes(s[..2 * k]) ==
            if k == 0 then Some([])
            else
              var v := HexByte(HexDigit(s[2 * k - 2]), HexDigit(s[2 * k - 1]));
              var init := HexBytes(s[..2 * (k - 1)]);
              if init.Some? && v < 256 then Some(init.value + [v]) else None
  {
    if k > 0 {
      assert s[..2 * k][..2 * k - 2] == s[..2 * (k - 1)];
    }
  }

  lemma {:induction false} HexPrefix(s: seq<byte>, k: nat)
    requires |s| % 2 == 0 && 2 * k <= |s|
    ensures HexBytes(s[..2 * k]).None? ==> HexBytes(s).None?
    decreases |s|
  {
    if 2 * k < |s| {
      assert s[..|s| - 2][..2 * k] == s[..2 * k];
      HexPrefix(s[..|s| - 2], k);
    } else {
      assert s[..2 * k] == s;
    }
  }

  // ----- skipping the rest of an array

  /** Opening minus closing brackets in buf[i..j]. */
  function Depth(buf: seq<byte>, i: nat, j: nat): int
    requires i <= j <= |buf|
    decreases j - i
  {
    if i == j then 0
    else Depth(buf, i, j - 1) + if buf[j - 1] == OPEN then 1 else if buf[j - 1] == CLOSE then -1 else 0
  }

  /** Where the array open at `itr` closes: the first closing bracket at depth zero, or the end. */
  predicate ClosesAt(buf: seq<byte>, itr: nat, p: nat)
    requires itr <= |buf|
  {
    && itr <= p <= |buf|
    && (p < |buf| ==> buf[p] == CLOSE && Depth(buf, itr, p) == 0)
    && (forall k :: itr <= k < p ==> !(buf[k] == CLOSE && Depth(buf, itr, k) == 0))
  }

  lemma ClosesAtUnique(buf: seq<byte>, itr: nat, p: nat, q: nat)
    requires itr <= |buf| && ClosesAt(buf, itr, p) && ClosesAt(buf, itr, q)
    ensures p == q
  {
  }

  /** Inside the array the nesting depth is never negative. */
  lemma {:induction false} DepthNonNegative(buf: seq<byte>, itr: nat, p: nat, k: nat)
    requires itr <= |buf| && ClosesAt(buf, itr, p) && itr <= k <= p
    ensures Depth(buf, itr, k) >= 0
    decreases k
  {
    if itr < k {
      DepthNonNegative(buf, itr, p, k - 1);
    }
  }

  lemma DepthEmpty(buf: seq<byte>, i: nat)
    requires i <= |buf|
    ensures Depth(buf, i, i) == 0
  {
  }

  lemma DepthNext(buf: seq<byte>, i: nat, j: nat)
    requires i <= j < |buf|
    ensures Depth(buf, i, j + 1)
         == Depth(buf, i, j) + if buf[j] == OPEN then 1 else if buf[j] == CLOSE then -1 else 0
  {
  }

  function ArrayEnd(buf: seq<byte>, itr: nat, from: nat): (p: nat)
    requires itr <= from <= |buf|
    requires forall k :: itr <= k < from ==> !(buf[k] == CLOSE && Depth(buf, itr, k) == 0)
    ensures ClosesAt(buf, itr, p)
    decreases |buf| - from
  {
    if from < |buf| && !(buf[from] == CLOSE && Depth(buf, itr, from) == 0) then ArrayEnd(buf, itr, from + 1) else from
  }

  /** _move_to_end_of_tcb_levels; its unsigned counter never goes below zero. */
  method MoveToEndOfTcbLevels(buf: seq<byte>, itr: nat) returns (p: nat)
    requires itr <= |buf|
    ensures ClosesAt(buf, itr, p)
    ensures p == ArrayEnd(buf, itr, itr)
  {
    hide ArrayEnd, Depth;
    var squareBracketCount: nat := 0;
    assert Depth(buf, itr, itr) == 0 by { DepthEmpty(buf, itr); }
    p := itr;
    while p < |buf| && (buf[p] != CLOSE || squareBracketCount != 0)
      invariant itr <= p <= |buf| && squareBracketCount == Depth(buf, itr, p)
      invariant forall k :: itr <= k < p ==> !(buf[k] == CLOSE && Depth(buf, itr, k) == 0)
    {
      DepthNext(buf, itr, p);
      if buf[p] == OPEN {
        squareBracketCount := squareBracketCount + 1;
      } else if buf[p] == CLOSE {
        squareBracketCount := squareBracketCount - 1;
      }
      p := p + 1;
    }
    ClosesAtUnique(buf, itr, p, ArrayEnd(buf, itr, itr));
  }
}
