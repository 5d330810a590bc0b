/** Dates and times (common/datetime.c): order, printing and parsing.

    A printed date is a byte string; RFC 3339, section 5.1, asks that such strings sort as
    the dates do. */
module Datetime {
  import opened Bytes
  import opened Results

  const STR_SIZE := 21

  datatype Date = Date(year: uint32, month: uint32, day: uint32, hours: uint32, minutes: uint32, seconds: uint32)

  const ZERO := Date(0, 0, 0, 0, 0, 0)

  predicate IsLeapYear(year: uint32) {
    year % 4 == 0 && (year % 100 == 0 ==> year % 400 == 0)
  }

  predicate ValidDay(year: uint32, month: uint32, day: uint32) {
    match month
    case 1 => 1 <= day <= 31
    case 2 => 1 <= day <= if IsLeapYear(year) then 29 else 28
    case 3 => 1 <= day <= 31
    case 4 => 1 <= day <= 30
    case 5 => 1 <= day <= 31
    case 6 => 1 <= day <= 30
    case 7 => 1 <= day <= 31
    case 8 => 1 <= day <= 31
    case 9 => 1 <= day <= 30
    case 10 => 1 <= day <= 31
    case 11 => 1 <= day <= 30
    case 12 => 1 <= day <= 31
    case _ => false
  }

  /** oe_datetime_is_valid: from the Unix epoch on, with no upper bound on the year. */
  predicate IsValid(d: Date) {
    && 1970 <= d.year && ValidDay(d.year, d.month, d.day)
    && d.hours < 24 && d.minutes < 60 && d.seconds < 60
  }

  /** The Gregorian calendar from 1970 on: months of 31 and 30 days take turns, starting over in
      August, and February has 28 days, or 29 in every fourth year that does not end a century,
      and in every fourth century. */
  lemma Calendar(d: Date)
    ensures IsValid(d) <==>
            && d.year >= 1970 && 1 <= d.month <= 12 && 1 <= d.day && d.hours <= 23 && d.minutes <= 59 && d.seconds <= 59
            && d.day <= (if d.month != 2 then 30 + (d.month + d.month / 8) % 2
                         else if d.year % 400 == 0 || (d.year % 4 == 0 && d.year % 100 != 0) then 29 else 28)
  {
    assert d.year % 400 == 0 ==> d.year % 4 == 0 && d.year % 100 == 0;
    var m := d.month;
    if 1 <= m <= 12 {
      assert m == 1 || m == 2 || m == 3 || m == 4 || m == 5 || m == 6
          || m == 7 || m == 8 || m == 9 || m == 10 || m == 11 || m == 12;
    }
  }

  // ----- order

  function Compare(a: Date, b: Date): int {
    if a.year != b.year then if a.year < b.year then -1 else 1
    else if a.month != b.month then if a.month < b.month then -1 else 1
    else if a.day != b.day then if a.day < b.day then -1 else 1
    else if a.hours != b.hours then if a.hours < b.hours then -1 else 1
    else if a.minutes != b.minutes then if a.minutes < b.minutes then -1 else 1
    else if a.seconds != b.seconds then if a.seconds < b.seconds then -1 else 1
    else 0
  }

  function Sign(x: int): int {
    if x < 0 then -1 else if x > 0 then 1 else 0
  }

  /** A number whose order is the order of dates. */
  function Rank(d: Date): nat {
    ((((d.year * UINT32_LIMIT + d.month) * UINT32_LIMIT + d.day) * UINT32_LIMIT + d.hours) * UINT32_LIMIT
     + d.minutes) * UINT32_LIMIT + d.seconds
  }

  /** Comparison is the total order of ranks, and only equal dates compare equal. */
  lemma CompareIsRankOrder(a: Date, b: Date)
    ensures Compare(a, b) == Sign(Rank(a) - Rank(b))
    ensures Compare(a, b) == 0 <==> a == b
  {
  }

  // ----- decimal numbers

  function Power10(n: nat): (p: nat)
    ensures p > 0
  {
    if n == 0 then 1 else 10 * Power10(n - 1)
  }

  function DecimalDigit(x: nat, i: nat): (d: nat)
    ensures d < 10
    decreases i
  {
    if i == 0 then x % 10 else DecimalDigit(x / 10, i - 1)
  }

  /** The low `n` decimal digits of `x`. */
  function Decimal(x: nat, n: nat): (s: seq<byte>)
    ensures |s| == n
  {
    seq(n, i requires 0 <= i < n => '0' as int + DecimalDigit(x, n - 1 - i))
  }

  predicate IsDigit(c: byte) { '0' as int <= c <= '9' as int }

  /** A char is a signed byte. */
  function Signed(c: byte): int { if c < 128 then c else c - 256 }

  /** The value of a digit string; other characters count as if they were digits. */
  function FromDecimal(s: seq<byte>): int {
    if s == [] then 0 else 10 * FromDecimal(s[..|s| - 1]) + (Signed(s[|s| - 1]) - '0' as int)
  }

  /** Digits have their values; characters from 128 on count as negative numbers. */
  lemma CharValue(c: byte)
    ensures FromDecimal([c]) == if c < 128 then c - 48 else c - 304
  {
    assert [c][..0] == [];
  }

  predicate AllDigits(s: seq<byte>) {
    forall i :: 0 <= i < |s| ==> IsDigit(s[i])
  }

  lemma DecimalSnoc(x: nat, n: nat)
    requires n > 0
    ensures Decimal(x, n) == Decimal(x / 10, n - 1) + ['0' as int + x % 10]
  {
    forall i | 0 <= i < n - 1 ensures Decimal(x, n)[i] == Decimal(x / 10, n - 1)[i] {
      assert DecimalDigit(x, n - 1 - i) == DecimalDigit(x / 10, n - 1 - i - 1);
    }
    assert Decimal(x, n)[n - 1] == '0' as int + DecimalDigit(x, 0);
  }

  lemma {:induction false} DecimalRoundTrip(x: nat, n: nat)
    requires x < Power10(n)
    ensures FromDecimal(Decimal(x, n)) == x
    decreases n
  {
    if n > 0 {
      DecimalSnoc(x, n);
      DecimalRoundTrip(x / 10, n - 1);
    }
  }

  lemma {:induction false} DecimalOfDigits(s: seq<byte>)
    requires AllDigits(s)
    ensures 0 <= FromDecimal(s) < Power10(|s|)
    ensures Decimal(FromDecimal(s), |s|) == s
  {
    if s != [] {
      DecimalOfDigits(s[..|s| - 1]);
      DecimalSnoc(FromDecimal(s), |s|);
      assert FromDecimal(s) / 10 == FromDecimal(s[..|s| - 1]);
    }
  }

  // ----- printing

  function Print(d: Date): (s: seq<byte>)
    ensures |s| == 20
  {
    Decimal(d.year, 4) + ['-' as int] + Decimal(d.month, 2) + ['-' as int] + Decimal(d.day, 2) + ['T' as int]
    + Decimal(d.hours, 2) + [':' as int] + Decimal(d.minutes, 2) + [':' as int] + Decimal(d.seconds, 2) + ['Z' as int]
  }

  /** oe_num_to_str: fills the digits from the right. */
  method NumToStr(num: uint32, digits: nat, p: array<byte>, at: nat)
    requires at + digits <= p.Length
    modifies p
    ensures p[..] == old(p[..at]) + Decimal(num, digits) + old(p[at + digits..])
  {
    var rest: nat := num;
    var i := digits;
    while i > 0
      invariant 0 <= i <= digits
      invariant forall k :: 0 <= k < at + i ==> p[k] == old(p[k])
      invariant forall k :: at + digits <= k < p.Length ==> p[k] == old(p[k])
      invariant forall k :: i <= k < digits ==> p[at + k] == Decimal(num, digits)[k]
      invariant forall j :: 0 <= j < i ==> DecimalDigit(rest, j) == DecimalDigit(num, digits - i + j)
    {
      i := i - 1;
      assert DecimalDigit(rest, 0) == DecimalDigit(num, digits - 1 - i);
      forall j | 0 <= j < i ensures DecimalDigit(rest / 10, j) == DecimalDigit(num, digits - i + j) {
        assert DecimalDigit(rest, j + 1) == DecimalDigit(rest / 10, j);
      }
      p[at + i] := '0' as int + rest % 10;
      rest := rest / 10;
    }
  }

  /** oe_datetime_to_string; a null buffer or a short one yields the size needed. */
  method ToString(datetime: Option<Date>, str: array?<byte>, strLength: nat)
    returns (result: OeResult, newLength: nat)
    requires str != null ==> strLength <= str.Length
    modifies if str == null then {} else {str}
    ensures datetime.None? ==> result == INVALID_PARAMETER && newLength == strLength
    ensures datetime.Some? && (str == null || strLength < 21) ==> result == BUFFER_TOO_SMALL && newLength == 21
    ensures datetime.Some? && str != null && strLength >= 21 ==>
              && newLength == (if IsValid(datetime.value) then 21 else strLength)
              && result == (if IsValid(datetime.value) then OK else INVALID_UTC_DATE_TIME)
              && str[..] == if IsValid(datetime.value) then Print(datetime.value) + [0] + old(str[21..]) else old(str[..])
  {
    hide IsValid, Decimal;
    if datetime.None? {
      return INVALID_PARAMETER, strLength;
    }
    if str == null || strLength < STR_SIZE {
      return BUFFER_TOO_SMALL, STR_SIZE;
    }
    var d := datetime.value;
    if !IsValid(d) {
      return INVALID_UTC_DATE_TIME, strLength;
    }
    PutFields(str, d);
    str[20] := 0;
    return OK, STR_SIZE;
  }

  /** The six fields, one after the other. */
  method PutFields(str: array<byte>, d: Date)
    requires str.Length >= STR_SIZE
    modifies str
    ensures str[..20] == Print(d)
    ensures forall k :: 20 <= k < str.Length ==> str[k] == old(str[k])
  {
    hide Decimal;
    PutField(str, 0, d.year, 4, '-' as int, []);
    PutField(str, 5, d.month, 2, '-' as int, str[..5]);
    PutField(str, 8, d.day, 2, 'T' as int, str[..8]);
    PutField(str, 11, d.hours, 2, ':' as int, str[..11]);
    PutField(str, 14, d.minutes, 2, ':' as int, str[..14]);
    PutField(str, 17, d.seconds, 2, 'Z' as int, str[..17]);
  }

  /** One field and the punctuation after it. */
  method PutField(str: array<byte>, at: nat, num: uint32, digits: nat, mark: byte, ghost before: seq<byte>)
    requires at + digits < str.Length && before == str[..at]
    modifies str
    ensures str[..at + digits + 1] == before + Decimal(num, digits) + [mark]
    ensures forall k :: at + digits < k < str.Length ==> str[k] == old(str[k])
  {
    NumToStr(num, digits, str, at);
    assert forall k :: at + digits < k < str.Length ==> str[..][k] == old(str[..])[k];
    str[at + digits] := mark;
  }

  // ----- parsing

  /** oe_str_to_num: no character is checked, and the sum wraps at 32 bits. */
  method StrToNum(p: seq<byte>, digits: nat) returns (num: uint32)
    requires 0 < digits <= |p|
    ensures num == FromDecimal(p[..digits]) % UINT32_LIMIT
  {
    num := (Signed(p[0]) - '0' as int) % UINT32_LIMIT;
    assert p[..1][..0] == [];
    var i := 1;
    while i < digits
      invariant 1 <= i <= digits
      invariant num == FromDecimal(p[..i]) % UINT32_LIMIT
    {
      assert p[..i + 1][..i] == p[..i];
      WrappedStep(FromDecimal(p[..i]), Signed(p[i]) - '0' as int);
      num := (num * 10 + (Signed(p[i]) - '0' as int) % UINT32_LIMIT) % UINT32_LIMIT;
      i := i + 1;
    }
  }

  lemma WrappedStep(a: int, x: int)
    ensures (a % UINT32_LIMIT * 10 + x % UINT32_LIMIT) % UINT32_LIMIT == (10 * a + x) % UINT32_LIMIT
  {
    var q := 10 * (a / UINT32_LIMIT) + x / UINT32_LIMIT;
    assert 10 * a + x == q * UINT32_LIMIT + (a % UINT32_LIMIT * 10 + x % UINT32_LIMIT);
  }

  function Field(s: seq<byte>, at: nat, digits: nat): uint32
    requires at + digits <= |s|
  {
    FromDecimal(s[at..at + digits]) % UINT32_LIMIT
  }

  predicate Punctuated(s: seq<byte>)
    requires |s| >= 20
  {
    && s[4] == '-' as int && s[7] == '-' as int && s[10] == 'T' as int
    && s[13] == ':' as int && s[16] == ':' as int && s[19] == 'Z' as int
  }

  function Fields(s: seq<byte>): Date
    requires |s| >= 20
  {
    Date(Field(s, 0, 4), Field(s, 5, 2), Field(s, 8, 2), Field(s, 11, 2), Field(s, 14, 2), Field(s, 17, 2))
  }

  /** What parsing must yield: the fields of a punctuated string, if they are a valid date. */
  function Parse(s: seq<byte>): Result<Date, OeResult> {
    if |s| < 20 then Failure(INVALID_PARAMETER)
    else if Punctuated(s) && IsValid(Fields(s)) then Success(Fields(s))
    else Failure(INVALID_UTC_DATE_TIME)
  }

  /** The first `n` of the marks between the fields are in their places. */
  predicate Marked(s: seq<byte>, n: nat)
    requires |s| >= 20
  {
    && (n >= 1 ==> s[4] == '-' as int) && (n >= 2 ==> s[7] == '-' as int) && (n >= 3 ==> s[10] == 'T' as int)
    && (n >= 4 ==> s[13] == ':' as int) && (n >= 5 ==> s[16] == ':' as int)
  }

  /** Each field of the out parameter is stored when the marks before it are in their places, also
      when parsing then fails; the others keep what they held. */
  method FromString(str: seq<byte>, was: Date) returns (r: Result<Date, OeResult>, datetime: Date)
    ensures r == Parse(str)
    ensures r.Success? ==> datetime == r.value
    ensures |str| < 20 ==> datetime == was
    ensures |str| >= 20 ==>
              && datetime.year == Field(str, 0, 4)
              && datetime.month == (if Marked(str, 1) then Field(str, 5, 2) else was.month)
              && datetime.day == (if Marked(str, 2) then Field(str, 8, 2) else was.day)
              && datetime.hours == (if Marked(str, 3) then Field(str, 11, 2) else was.hours)
              && datetime.minutes == (if Marked(str, 4) then Field(str, 14, 2) else was.minutes)
              && datetime.seconds == (if Marked(str, 5) then Field(str, 17, 2) else was.seconds)
  {
    hide IsValid, FromDecimal;
    datetime := was;
    r := Failure(INVALID_UTC_DATE_TIME);
    if |str| < 20 {
      return Failure(INVALID_PARAMETER), datetime;
    }
    var n := NextField(str, 0, 4);
    datetime := datetime.(year := n);
    if str[4] != '-' as int {
      return;
    }
    n := NextField(str, 5, 2);
    datetime := datetime.(month := n);
    if str[7] != '-' as int {
      return;
    }
    n := NextField(str, 8, 2);
    datetime := datetime.(day := n);
    if str[10] != 'T' as int {
      return;
    }
    n := NextField(str, 11, 2);
    datetime := datetime.(hours := n);
    if str[13] != ':' as int {
      return;
    }
    n := NextField(str, 14, 2);
    datetime := datetime.(minutes := n);
    if str[16] != ':' as int {
      return;
    }
    n := NextField(str, 17, 2);
    datetime := datetime.(seconds := n);
    if str[19] != 'Z' as int || !IsValid(datetime) {
      return;
    }
    return Success(datetime), datetime;
  }

  method NextField(str: seq<byte>, p: nat, digits: nat) returns (n: uint32)
    requires 0 < digits && p + digits <= |str|
    ensures n == Field(str, p, digits)
  {
    n := StrToNum(str[p..], digits);
    assert str[p..][..digits] == str[p..p + digits];
  }

  /** Parsing succeeds exactly on twenty or more characters with the six marks in place whose fields
      are a valid date, and gives those fields. */
  lemma ParseOutcome(s: seq<byte>)
    ensures Parse(s).Success? <==>
            && |s| >= 20
            && s[4] == '-' as int && s[7] == '-' as int && s[10] == 'T' as int
            && s[13] == ':' as int && s[16] == ':' as int && s[19] == 'Z' as int
            && IsValid(Date(Field(s, 0, 4), Field(s, 5, 2), Field(s, 8, 2), Field(s, 11, 2), Field(s, 14, 2), Field(s, 17, 2)))
    ensures Parse(s).Success? ==>
              Parse(s).value
              == Date(Field(s, 0, 4), Field(s, 5, 2), Field(s, 8, 2), Field(s, 11, 2), Field(s, 14, 2), Field(s, 17, 2))
    ensures Parse(s).Failure? ==> Parse(s).error == if |s| < 20 then INVALID_PARAMETER else INVALID_UTC_DATE_TIME
  {
    hide IsValid, Field;
  }

  // ----- round trips

  lemma PrintedFields(d: Date)
    ensures var s := Print(d);
            && Punctuated(s)
            && s[0..4] == Decimal(d.year, 4) && s[5..7] == Decimal(d.month, 2) && s[8..10] == Decimal(d.day, 2)
            && s[11..13] == Decimal(d.hours, 2) && s[14..16] == Decimal(d.minutes, 2) && s[17..19] == Decimal(d.seconds, 2)
  {
    hide Decimal;
  }

  /** What stands where in a printed date. */
  lemma PrintedLayout(d: Date)
    ensures var s := Print(d);
            && s[4] == '-' as int && s[7] == '-' as int && s[10] == 'T' as int
            && s[13] == ':' as int && s[16] == ':' as int && s[19] == 'Z' as int
            && FromDecimal(s[0..4]) == d.year % 10000 && FromDecimal(s[5..7]) == d.month % 100
            && FromDecimal(s[8..10]) == d.day % 100 && FromDecimal(s[11..13]) == d.hours % 100
            && FromDecimal(s[14..16]) == d.minutes % 100 && FromDecimal(s[17..19]) == d.seconds % 100
  {
    hide Print, FromDecimal, Decimal;
    PrintedFields(d);
    LowDigits(d.year);
    LowDigits(d.month);
    LowDigits(d.day);
    LowDigits(d.hours);
    LowDigits(d.minutes);
    LowDigits(d.seconds);
  }

  /** One more digit in front of the last. */
  lemma LowDigit(x: nat, n: nat)
    requires n > 0
    ensures FromDecimal(Decimal(x, n)) == 10 * FromDecimal(Decimal(x / 10, n - 1)) + x % 10
  {
    hide Decimal;
    DecimalSnoc(x, n);
    var s := Decimal(x, n);
    assert s[..n - 1] == Decimal(x / 10, n - 1);
  }

  lemma LowDigits(x: nat)
    ensures FromDecimal(Decimal(x, 2)) == x % 100 && FromDecimal(Decimal(x, 4)) == x % 10000
  {
    hide Decimal, FromDecimal;
    var a, b, c, d := x / 10, x / 10 / 10, x / 10 / 10 / 10, x / 10 / 10 / 10 / 10;
    NoDigits(b);
    NoDigits(d);
    LowDigit(x, 2);
    LowDigit(a, 1);
    LowDigit(x, 4);
    LowDigit(a, 3);
    LowDigit(b, 2);
    LowDigit(c, 1);
    DigitSum(x);
  }

  lemma DigitSum(x: nat)
    ensures var a, b, c := x / 10, x / 10 / 10, x / 10 / 10 / 10;
            && x % 100 == 10 * (a % 10) + x % 10
            && x % 10000 == 10 * (10 * (10 * (c % 10) + b % 10) + a % 10) + x % 10
  {
    var a, b, c := x / 10, x / 10 / 10, x / 10 / 10 / 10;
    var d := c / 10;
    assert x == 10 * a + x % 10 && a == 10 * b + a % 10 && b == 10 * c + b % 10 && c == 10 * d + c % 10;
    Mod100(x, b, 10 * (a % 10) + x % 10);
    Mod10000(x, d, 10 * (10 * (10 * (c % 10) + b % 10) + a % 10) + x % 10);
  }

  lemma Mod100(x: nat, q: nat, r: nat)
    requires x == 100 * q + r && r < 100
    ensures x % 100 == r
  {
  }

  lemma Mod10000(x: nat, q: nat, r: nat)
    requires x == 10000 * q + r && r < 10000
    ensures x % 10000 == r
  {
  }

  lemma NoDigits(x: nat)
    ensures FromDecimal(Decimal(x, 0)) == 0
  {
  }

  lemma Powers()
    ensures Power10(2) == 100 && Power10(4) == 10000
  {
    assert Power10(2) == 10 * Power10(1) && Power10(4) == 10 * Power10(3) && Power10(3) == 10 * Power10(2);
  }

  lemma FieldOfDecimal(s: seq<byte>, at: nat, x: uint32, n: nat)
    requires at + n <= |s| && s[at..at + n] == Decimal(x, n) && x < Power10(n)
    ensures Field(s, at, n) == x
  {
    DecimalRoundTrip(x, n);
  }

  lemma ValidFieldsFit(d: Date)
    requires IsValid(d) && d.year <= 9999
    ensures d.year < Power10(4) && d.month < Power10(2) && d.day < Power10(2)
    ensures d.hours < Power10(2) && d.minutes < Power10(2) && d.seconds < Power10(2)
  {
    Powers();
    assert d.month <= 12 && d.day <= 31;
  }

  lemma PrintedShort(d: Date, rest: seq<byte>)
    requires IsValid(d) && d.year <= 9999
    ensures Parse(Print(d) + rest) == Success(d)
  {
    hide Decimal, Print, IsValid, Field, Power10;
    var p, s := Print(d), Print(d) + rest;
    PrintedFields(d);
    ValidFieldsFit(d);
    assert s[0..4] == p[0..4] && s[5..7] == p[5..7] && s[8..10] == p[8..10];
    assert s[11..13] == p[11..13] && s[14..16] == p[14..16] && s[17..19] == p[17..19];
    FieldOfDecimal(s, 0, d.year, 4);
    FieldOfDecimal(s, 5, d.month, 2);
    FieldOfDecimal(s, 8, d.day, 2);
    FieldOfDecimal(s, 11, d.hours, 2);
    FieldOfDecimal(s, 14, d.minutes, 2);
    FieldOfDecimal(s, 17, d.seconds, 2);
    assert Fields(s) == d;
  }

  /** Parsing undoes printing, exactly for the valid dates whose year has four digits. */
  lemma ParseUndoesPrint(d: Date, rest: seq<byte>)
    requires IsValid(d)
    ensures Parse(Print(d) + rest) == Success(d) <==> d.year <= 9999
  {
    hide Decimal, Print, IsValid, FromDecimal, Power10;
    if d.year <= 9999 {
      PrintedShort(d, rest);
    } else {
      PrintedFields(d);
      var s := Print(d) + rest;
      assert s[0..4] == Print(d)[0..4];
      DecimalHasDigits(d.year, 4);
      DecimalOfDigits(s[0..4]);
      Powers();
      assert Fields(s).year <= 9999;
    }
  }

  /** The places of a date string where RFC 3339 wants digits. */
  predicate DigitsInPlace(s: seq<byte>)
    requires |s| >= 20
  {
    && AllDigits(s[0..4]) && AllDigits(s[5..7]) && AllDigits(s[8..10])
    && AllDigits(s[11..13]) && AllDigits(s[14..16]) && AllDigits(s[17..19])
  }

  lemma FieldOfDigits(s: seq<byte>, at: nat, digits: nat)
    requires at + digits <= |s| && AllDigits(s[at..at + digits]) && digits <= 4
    ensures Decimal(Field(s, at, digits), digits) == s[at..at + digits]
  {
    DecimalOfDigits(s[at..at + digits]);
    Power10Monotone(digits, 4);
    Powers();
  }

  lemma {:induction false} Power10Monotone(a: nat, b: nat)
    requires a <= b
    ensures Power10(a) <= Power10(b)
  {
    if a < b {
      Power10Monotone(a, b - 1);
    }
  }

  /** Printing undoes parsing exactly when the string has digits where digits belong. The
      parser accepts more: see ParseAcceptsNonDigits. */
  lemma PrintUndoesParse(s: seq<byte>)
    requires Parse(s).Success?
    ensures Print(Parse(s).value) == s[..20] <==> DigitsInPlace(s)
  {
    hide Print, IsValid, AllDigits;
    var d := Parse(s).value;
    var p := Print(d);
    if p == s[..20] {
      PrintHasDigits(d);
      assert s[0..4] == p[0..4] && s[5..7] == p[5..7] && s[8..10] == p[8..10];
      assert s[11..13] == p[11..13] && s[14..16] == p[14..16] && s[17..19] == p[17..19];
    } else if DigitsInPlace(s) {
      FieldsPrinted(s);
    }
  }

  lemma DecimalHasDigits(x: nat, n: nat)
    ensures AllDigits(Decimal(x, n))
  {
    forall i | 0 <= i < n ensures IsDigit(Decimal(x, n)[i]) {
      assert Decimal(x, n)[i] == '0' as int + DecimalDigit(x, n - 1 - i);
    }
  }

  lemma PrintHasDigits(d: Date)
    ensures DigitsInPlace(Print(d))
  {
    hide Decimal, AllDigits, Print;
    PrintedFields(d);
    DecimalHasDigits(d.year, 4);
    DecimalHasDigits(d.month, 2);
    DecimalHasDigits(d.day, 2);
    DecimalHasDigits(d.hours, 2);
    DecimalHasDigits(d.minutes, 2);
    DecimalHasDigits(d.seconds, 2);
  }

  lemma FieldsPrinted(s: seq<byte>)
    requires |s| >= 20 && Punctuated(s) && DigitsInPlace(s)
    ensures Print(Fields(s)) == s[..20]
  {
    hide Decimal, AllDigits, Field;
    FieldOfDigits(s, 0, 4);
    FieldOfDigits(s, 5, 2);
    FieldOfDigits(s, 8, 2);
    FieldOfDigits(s, 11, 2);
    FieldOfDigits(s, 14, 2);
    FieldOfDigits(s, 17, 2);
  }

  /** "19:0-01-01T00:00:00Z" parses, as the year 2000. */
  lemma ParseAcceptsNonDigits()
    ensures var s := ['1' as int, '9' as int, ':' as int, '0' as int] + Print(Date(2000, 1, 1, 0, 0, 0))[4..];
            Parse(s) == Success(Date(2000, 1, 1, 0, 0, 0)) && !DigitsInPlace(s)
  {
    hide Decimal, Print;
    var d := Date(2000, 1, 1, 0, 0, 0);
    var p := Print(d);
    var y: seq<byte> := ['1' as int, '9' as int, ':' as int, '0' as int];
    var s := y + p[4..];
    ParseUndoesPrint(d, []);
    assert p + [] == p;
    assert forall k :: 4 <= k < 20 ==> s[k] == p[k];
    assert s[5..7] == p[5..7] && s[8..10] == p[8..10];
    assert s[11..13] == p[11..13] && s[14..16] == p[14..16] && s[17..19] == p[17..19];
    assert s[0..4] == y && !IsDigit(s[0..4][2]);
    FromDecimalFour('1' as int, '9' as int, ':' as int, '0' as int);
    assert Fields(s) == d;
  }

  lemma FromDecimalFour(a: byte, b: byte, c: byte, d: byte)
    ensures FromDecimal([a, b, c, d]) ==
            1000 * (Signed(a) - '0' as int) + 100 * (Signed(b) - '0' as int) + 10 * (Signed(c) - '0' as int) + Signed(d) - '0' as int
  {
    var s: seq<byte> := [a, b, c, d];
    assert s[..3] == [a, b, c] && [a, b, c][..2] == [a, b] && [a, b][..1] == [a] && [a][..0] == [];
    assert FromDecimal([a]) == Signed(a) - '0' as int;
    assert FromDecimal([a, b]) == 10 * FromDecimal([a]) + Signed(b) - '0' as int;
    assert FromDecimal([a, b, c]) == 10 * FromDecimal([a, b]) + Signed(c) - '0' as int;
  }

  // ----- printed order

  /** Byte-wise lexicographic comparison of strings of one length. */
  function LexCompare(s: seq<byte>, t: seq<byte>): int
    requires |s| == |t|
  {
    if s == [] then 0
    else if s[0] != t[0] then if s[0] < t[0] then -1 else 1
    else LexCompare(s[1..], t[1..])
  }

  lemma {:induction false} LexCompareAppend(a: seq<byte>, b: seq<byte>, s: seq<byte>, t: seq<byte>)
    requires |a| == |b| && |s| == |t|
    ensures LexCompare(a + s, b + t) == if LexCompare(a, b) != 0 then LexCompare(a, b) else LexCompare(s, t)
  {
    if a == [] {
      assert a + s == s && b + t == t;
    } else {
      assert (a + s)[1..] == a[1..] + s && (b + t)[1..] == b[1..] + t;
      LexCompareAppend(a[1..], b[1..], s, t);
    }
  }

  lemma {:induction false} DecimalOrder(x: nat, y: nat, n: nat)
    requires x < Power10(n) && y < Power10(n)
    ensures LexCompare(Decimal(x, n), Decimal(y, n)) == Sign(x - y)
    decreases n
  {
    if n > 0 {
      DecimalSnoc(x, n);
      DecimalSnoc(y, n);
      DecimalOrder(x / 10, y / 10, n - 1);
      LexCompareAppend(Decimal(x / 10, n - 1), Decimal(y / 10, n - 1), ['0' as int + x % 10], ['0' as int + y % 10]);
    }
  }

  /** A printed field with its mark, then more: the field decides unless it ties. */
  lemma FieldOrder(x: nat, y: nat, n: nat, mark: byte, s: seq<byte>, t: seq<byte>)
    requires x < Power10(n) && y < Power10(n) && |s| == |t|
    ensures LexCompare(Decimal(x, n) + ([mark] + s), Decimal(y, n) + ([mark] + t)) ==
            if x != y then Sign(x - y) else LexCompare(s, t)
  {
    DecimalOrder(x, y, n);
    LexCompareAppend(Decimal(x, n), Decimal(y, n), [mark] + s, [mark] + t);
    LexCompareAppend([mark], [mark], s, t);
  }

  function PrintDay(d: Date): seq<byte> { Decimal(d.day, 2) + (['T' as int] + PrintTime(d)) }

  function PrintTime(d: Date): seq<byte> {
    Decimal(d.hours, 2) + ([':' as int] + (Decimal(d.minutes, 2) + ([':' as int] + (Decimal(d.seconds, 2) + (['Z' as int] + [])))))
  }

  lemma PrintNested(d: Date)
    ensures Print(d) == Decimal(d.year, 4) + (['-' as int] + (Decimal(d.month, 2) + (['-' as int] + PrintDay(d))))
  {
    hide Decimal;
  }

  lemma TimeOrder(a: Date, b: Date)
    requires IsValid(a) && IsValid(b)
    ensures LexCompare(PrintTime(a), PrintTime(b)) ==
            if a.hours != b.hours then Sign(a.hours - b.hours)
            else if a.minutes != b.minutes then Sign(a.minutes - b.minutes)
            else Sign(a.seconds - b.seconds)
  {
    hide Decimal, LexCompare;
    Powers();
    var sa, sb := Decimal(a.seconds, 2) + (['Z' as int] + []), Decimal(b.seconds, 2) + (['Z' as int] + []);
    FieldOrder(a.seconds, b.seconds, 2, 'Z' as int, [], []);
    assert LexCompare([], []) == 0 by { DecimalOrder(0, 0, 0); assert Decimal(0, 0) == []; }
    var ma, mb := Decimal(a.minutes, 2) + ([':' as int] + sa), Decimal(b.minutes, 2) + ([':' as int] + sb);
    FieldOrder(a.minutes, b.minutes, 2, ':' as int, sa, sb);
    FieldOrder(a.hours, b.hours, 2, ':' as int, ma, mb);
  }

  /** Printed dates sort as the dates do. */
  lemma PrintedOrder(a: Date, b: Date)
    requires IsValid(a) && IsValid(b) && a.year <= 9999 && b.year <= 9999
    ensures LexCompare(Print(a), Print(b)) == Compare(a, b)
  {
    hide Decimal, LexCompare, Print, PrintTime;
    Powers();
    TimeOrder(a, b);
    PrintNested(a);
    PrintNested(b);
    assert a.month < 100 && b.month < 100 && a.day < 100 && b.day < 100;
    FieldOrder(a.day, b.day, 2, 'T' as int, PrintTime(a), PrintTime(b));
    FieldOrder(a.month, b.month, 2, '-' as int, PrintDay(a), PrintDay(b));
    FieldOrder(a.year, b.year, 4, '-' as int,
               Decimal(a.month, 2) + (['-' as int] + PrintDay(a)), Decimal(b.month, 2) + (['-' as int] + PrintDay(b)));
  }
}
