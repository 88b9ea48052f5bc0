/** constexpr_date as text: format, the digit loop behind it, and parse_date. */
module DateText {
  import opened ConstexprDate

  // ---------------------------------------------------------------------------------
  // Numbers
  // ---------------------------------------------------------------------------------

  function Digit(v: nat): (c: char)
    requires v < 10
  {
    '0' + v as char
  }

  /** The low decimal digits of v, at most room of them, without leading zeros of v itself. */
  function Digits(v: nat, room: nat): (s: string)
    ensures |s| <= room
  {
    if v == 0 || room == 0 then "" else Digits(v / 10, room - 1) + [Digit(v % 10)]
  }

  /** to_constexpr_string: zero, or digits and a sign where the room lasts. */
  function Decimal(value: int, room: nat): (s: string) {
    if value == 0 then "0"
    else if value > 0 then Digits(value, room)
    else if |Digits(-value, room)| < room then "-" + Digits(-value, room)
    else Digits(-value, room)
  }

  function Reversed(s: string): (r: string)
    ensures |r| == |s|
    ensures forall k :: 0 <= k < |s| ==> r[k] == s[|s| - 1 - k]
  {
    if s == "" then "" else [s[|s| - 1]] + Reversed(s[..|s| - 1])
  }

  lemma ReversedSnoc(s: string, c: char)
    ensures Reversed(s + [c]) == [c] + Reversed(s)
  {
    assert (s + [c])[..|s|] == s;
  }

  /** The swap loop that turns the digits round in place. */
  method Reverse(a: array<char>, n: nat)
    requires n <= a.Length
    modifies a
    ensures a[..n] == Reversed(old(a[..n]))
  {
    for i := 0 to n / 2
      invariant forall k :: 0 <= k < i ==> a[k] == old(a[n - 1 - k]) && a[n - 1 - k] == old(a[k])
      invariant forall k :: i <= k < n - i ==> a[k] == old(a[k])
    {
      a[i], a[n - 1 - i] := a[n - 1 - i], a[i];
    }
  }

  /** The wanted digits are those of value, still to come, and the low ones written so far. */
  ghost predicate DigitsSoFar(all: string, value: nat, room: nat, low: string) {
    all == Digits(value, room) + Reversed(low)
  }

  lemma DigitMoves(all: string, value: nat, room: nat, low: string)
    requires value > 0 && room > 0 && DigitsSoFar(all, value, room, low)
    ensures DigitsSoFar(all, value / 10, room - 1, low + [Digit(value % 10)])
  {
    ReversedSnoc(low, Digit(value % 10));
  }

  /** The digit loop: low digits first. */
  method LowDigits(v: nat, a: array<char>) returns (n: nat)
    modifies a
    ensures n <= a.Length
    ensures Reversed(a[..n]) == Digits(v, a.Length)
  {
    var value := v;
    n := 0;
    ghost var all := Digits(v, a.Length);
    assert all + Reversed("") == all;
    while value > 0 && n < a.Length
      invariant n <= a.Length
      invariant DigitsSoFar(all, value, a.Length - n, a[..n])
    {
      ghost var before := a[..n];
      DigitMoves(all, value, a.Length - n, before);
      a[n] := Digit(value % 10);
      assert a[..n + 1] == before + [Digit(value % 10)];
      n := n + 1;
      value := value / 10;
    }
  }

  /** The sign behind the digits, where there is room for it. */
  method PutSign(a: array<char>, n: nat) returns (m: nat)
    requires n <= a.Length
    modifies a
    ensures m <= a.Length
    ensures Reversed(a[..m]) == if n < a.Length then "-" + Reversed(old(a[..n])) else Reversed(old(a[..n]))
  {
    m := n;
    if n < a.Length {
      ghost var before := a[..n];
      a[n] := '-';
      ReversedSnoc(before, '-');
      assert a[..n + 1] == before + ['-'];
      m := n + 1;
    }
  }

  method ToConstexprString(value: int, room: nat) returns (s: string)
    requires room > 0
    ensures s == Decimal(value, room)
  {
    if value == 0 {
      return "0";
    }
    var a := new char[room](_ => '\0');
    var n := LowDigits(if value < 0 then -value else value, a);
    if value < 0 {
      n := PutSign(a, n);
    }
    Reverse(a, n);
    s := a[..n];
  }

  // ---------------------------------------------------------------------------------
  // Formatting
  // ---------------------------------------------------------------------------------

  function DayOfYear(d: Date): (n: nat)
    requires Valid(d)
  {
    MonthsBefore(d.year, d.month) + d.day
  }

  /** day_of_year. */
  method CountDayOfYear(d: Date) returns (days: nat)
    requires Valid(d)
    ensures days == DayOfYear(d)
  {
    days := d.day;
    var m := 1;
    while m < d.month
      invariant 1 <= m <= d.month
      invariant days == d.day + MonthsBefore(d.year, m)
    {
      days := days + [31, 28, 31, 30, 31, 30, 31, 31, 30, 31, 30, 31][m - 1];
      if m == 2 && IsLeapYear(d.year) {
        days := days + 1;
      }
      m := m + 1;
    }
  }

  predicate IsSpecifier(c: char) {
    c == 'Y' || c == 'm' || c == 'd' || c == 'j' || c == 'w'
  }

  function TwoDigits(v: nat): (s: string) {
    (if v < 10 then "0" else "") + Decimal(v, 2)
  }

  function ThreeDigits(v: nat): (s: string) {
    (if v < 100 then "0" else "") + (if v < 10 then "0" else "") + Decimal(v, 3)
  }

  function Piece(d: Date, c: char): (s: string)
    requires Valid(d) && IsSpecifier(c)
  {
    match c
    case 'Y' => Decimal(d.year, 4)
    case 'm' => TwoDigits(d.month)
    case 'd' => TwoDigits(d.day)
    case 'j' => ThreeDigits(DayOfYear(d))
    case _ => [Digit(DayOfWeek(d))]
  }

  /** Every specifier replaced, everything else copied. */
  function Expand(d: Date, fmt: string): (s: string)
    requires Valid(d)
  {
    if fmt == "" then ""
    else if fmt[0] == '%' && |fmt| > 1 && IsSpecifier(fmt[1]) then Piece(d, fmt[1]) + Expand(d, fmt[2..])
    else [fmt[0]] + Expand(d, fmt[1..])
  }

  function Capped(s: string, room: nat): (r: string) {
    if |s| <= room then s else s[..room]
  }

  /** Nothing is cut off that fits, and nothing is left over that does not. */
  lemma CappedMeans(s: string, room: nat)
    ensures Capped(s, room) <= s && |Capped(s, room)| <= room
    ensures |Capped(s, room)| < room ==> Capped(s, room) == s
  {}

  lemma CappedTwice(s: string, t: string, u: string, room: nat)
    ensures Capped(Capped(s + t, room) + u, room) == Capped(s + (t + u), room)
  {}

  /** Copy a piece as far as it fits. */
  method Put(text: string, piece: string, room: nat) returns (r: string)
    requires |text| <= room
    ensures r == Capped(text + piece, room)
  {
    r := text;
    for i := 0 to |piece|
      invariant r == Capped(text + piece[..i], room)
    {
      if |r| < room {
        assert text + piece[..i + 1] == (text + piece[..i]) + [piece[i]];
        r := r + [piece[i]];
      } else {
        assert text + piece[..i] <= text + piece[..i + 1];
      }
    }
    assert piece[..|piece|] == piece;
  }

  method PutNumber(text: string, zeros: string, value: int, digits: nat, room: nat) returns (r: string)
    requires |text| <= room && digits > 0
    ensures r == Capped(text + (zeros + Decimal(value, digits)), room)
  {
    var padded := Put(text, zeros, room);
    var number := ToConstexprString(value, digits);
    r := Put(padded, number, room);
    CappedTwice(text, zeros, number, room);
  }

  method PutPiece(text: string, d: Date, c: char, room: nat) returns (r: string)
    requires Valid(d) && IsSpecifier(c) && |text| <= room
    ensures r == Capped(text + Piece(d, c), room)
  {
    match c
    case 'Y' =>
      r := PutNumber(text, "", d.year, 4, room);
      assert "" + Decimal(d.year, 4) == Decimal(d.year, 4);
    case 'm' =>
      r := PutNumber(text, if d.month < 10 then "0" else "", d.month, 2, room);
    case 'd' =>
      r := PutNumber(text, if d.day < 10 then "0" else "", d.day, 2, room);
    case 'j' =>
      var doy := CountDayOfYear(d);
      r := PutNumber(text, (if doy < 100 then "0" else "") + (if doy < 10 then "0" else ""), doy, 3, room);
    case _ =>
      r := Put(text, [Digit(DayOfWeek(d))], room);
  }

  /** The wanted text is what is written and then rest, cut off. */
  ghost predicate WrittenSoFar(all: string, text: string, rest: string, room: nat) {
    all == Capped(text + rest, room)
  }

  lemma WritePiece(all: string, text: string, piece: string, rest: string, room: nat)
    requires WrittenSoFar(all, text, piece + rest, room)
    ensures WrittenSoFar(all, Capped(text + piece, room), rest, room)
  {
    CappedTwice(text, piece, rest, room);
  }

  lemma WrittenAll(all: string, text: string, rest: string, room: nat)
    requires WrittenSoFar(all, text, rest, room) && |text| <= room
    requires rest == "" || |text| == room
    ensures all == text
  {
    if rest == "" {
      assert text + rest == text;
    } else {
      assert (text + rest)[..room] == text;
    }
  }

  /** format: the expansion, cut off at the size of the result. */
  method Format(d: Date, fmt: string, room: nat) returns (text: string)
    requires Valid(d)
    ensures text == Capped(Expand(d, fmt), room)
  {
    text := "";
    var i := 0;
    ghost var all := Capped(Expand(d, fmt), room);
    assert fmt[0..] == fmt && "" + Expand(d, fmt) == Expand(d, fmt);
    while i < |fmt| && |text| < room
      invariant i <= |fmt| && |text| <= room
      invariant WrittenSoFar(all, text, Expand(d, fmt[i..]), room)
    {
      ghost var rest := fmt[i..];
      if fmt[i] == '%' && i + 1 < |fmt| && IsSpecifier(fmt[i + 1]) {
        assert rest[2..] == fmt[i + 2..];
        WritePiece(all, text, Piece(d, fmt[i + 1]), Expand(d, fmt[i + 2..]), room);
        text := PutPiece(text, d, fmt[i + 1], room);
        i := i + 2;
      } else {
        assert rest[1..] == fmt[i + 1..];
        WritePiece(all, text, [fmt[i]], Expand(d, fmt[i + 1..]), room);
        text := Put(text, [fmt[i]], room);
        i := i + 1;
      }
    }
    WrittenAll(all, text, Expand(d, fmt[i..]), room);
  }

  // ---------------------------------------------------------------------------------
  // Parsing
  // ---------------------------------------------------------------------------------

  predicate IsDigit(c: char) {
    '0' <= c <= '9'
  }

  /** The decimal value of the digits of s; other characters are passed over. */
  function Number(s: string): (v: nat) {
    if s == "" then 0
    else
      var v := Number(s[..|s| - 1]);
      if IsDigit(s[|s| - 1]) then 10 * v + (s[|s| - 1] - '0') as nat else v
  }

  lemma NumberLast(s: string, c: char)
    ensures Number(s + [c]) == if IsDigit(c) then 10 * Number(s) + (c - '0') as nat else Number(s)
  {
    assert (s + [c])[..|s|] == s;
  }

  predicate LooksLikeDate(s: string) {
    |s| == 10 && s[4] == '-' && s[7] == '-'
  }

  function Parsed(s: string): (d: Date) {
    if LooksLikeDate(s) then Date(Number(s[0..4]), Number(s[5..7]), Number(s[8..10])) else Date(1970, 1, 1)
  }

  method ParseNumber(s: string, from: nat, to: nat) returns (v: nat)
    requires from <= to <= |s|
    ensures v == Number(s[from..to])
  {
    v := 0;
    for i := from to to
      invariant v == Number(s[from..i])
    {
      NumberLast(s[from..i], s[i]);
      assert s[from..i + 1] == s[from..i] + [s[i]];
      if IsDigit(s[i]) {
        v := 10 * v + (s[i] - '0') as nat;
      }
    }
  }

  /** parse_date. */
  method ParseDate(s: string) returns (d: Date)
    ensures d == Parsed(s)
  {
    if !LooksLikeDate(s) {
      return Date(1970, 1, 1);
    }
    var year := ParseNumber(s, 0, 4);
    var month := ParseNumber(s, 5, 7);
    var day := ParseNumber(s, 8, 10);
    d := Date(year, month, day);
  }

  // ---------------------------------------------------------------------------------
  // The round trip
  // ---------------------------------------------------------------------------------

  const DEFAULT_FORMAT := "%Y-%m-%d"
  const DEFAULT_ROOM := 31

  function Pow10(k: nat): (p: nat)
    ensures p > 0
  {
    if k == 0 then 1 else 10 * Pow10(k - 1)
  }

  /** A number below 10^room is read back from its digits. */
  lemma {:induction false} DigitsReadBack(v: nat, room: nat)
    requires v < Pow10(room)
    ensures Number(Digits(v, room)) == v
    decreases room
  {
    if v > 0 && room > 0 {
      DigitsReadBack(v / 10, room - 1);
      var s := Digits(v, room);
      assert s[..|s| - 1] == Digits(v / 10, room - 1);
    }
  }

  /** It has k digits when it lies between 10^(k-1) and 10^k. */
  lemma {:induction false} DigitsLength(v: nat, room: nat, k: nat)
    requires v < Pow10(k) && k <= room
    ensures |Digits(v, room)| <= k
    ensures k > 0 && Pow10(k - 1) <= v ==> |Digits(v, room)| == k
    decreases k
  {
    if v > 0 {
      DigitsLength(v / 10, room - 1, k - 1);
    }
  }

  lemma {:induction false} NumberBelow(s: string)
    ensures Number(s) < Pow10(|s|)
    decreases |s|
  {
    if s != "" {
      NumberBelow(s[..|s| - 1]);
    }
  }

  lemma TwoDigitsReadBack(v: nat)
    requires 0 < v < 100
    ensures |TwoDigits(v)| == 2 && Number(TwoDigits(v)) == v
  {
    assert Pow10(1) == 10 && Pow10(2) == 100;
    if v < 10 {
      assert Digits(v, 2) == [Digit(v)];
      assert TwoDigits(v) == ['0', Digit(v)];
      assert TwoDigits(v)[..1] == ['0'];
      assert Number(['0']) == 0;
    } else {
      DigitsReadBack(v, 2);
      DigitsLength(v, 2, 2);
      assert TwoDigits(v) == Digits(v, 2);
    }
  }

  lemma ThreeDigitsReadBack(v: nat)
    requires 0 < v < 1000
    ensures |ThreeDigits(v)| == 3 && Number(ThreeDigits(v)) == v
  {
    assert Pow10(1) == 10 && Pow10(2) == 100 && Pow10(3) == 1000;
    DigitsReadBack(v, 3);
    var k := if v < 10 then 1 else if v < 100 then 2 else 3;
    DigitsLength(v, 3, k);
    ZeroInFront(Digits(v, 3));
    ZeroInFront("0" + Digits(v, 3));
    assert k == 1 ==> ThreeDigits(v) == "0" + ("0" + Digits(v, 3));
    assert k == 2 ==> ThreeDigits(v) == "0" + Digits(v, 3);
    assert k == 3 ==> ThreeDigits(v) == Digits(v, 3);
  }

  lemma {:induction false} ZeroInFront(s: string)
    ensures Number("0" + s) == Number(s)
    decreases |s|
  {
    if s == "" {
      NumberLast("", '0');
      assert "" + ['0'] == "0" + s;
    } else {
      var n := |s| - 1;
      ZeroInFront(s[..n]);
      assert "0" + s == ("0" + s[..n]) + [s[n]];
      NumberLast("0" + s[..n], s[n]);
    }
  }

  /** With the sign, as far as there is one. */
  function SignedNumber(s: string): (v: int) {
    if s != "" && s[0] == '-' then 0 - Number(s[1..]) else Number(s)
  }

  /** Once there are as many digits as there is room, there are never fewer. */
  lemma {:induction false} DigitsFillRoom(v: nat, room: nat)
    requires room > 0 && Pow10(room - 1) <= v
    ensures |Digits(v, room)| == room && IsDigit(Digits(v, room)[0])
    decreases room
  {
    if room > 1 {
      DigitsFillRoom(v / 10, room - 1);
    }
  }

  lemma {:induction false} StartsWithDigit(v: nat, room: nat)
    ensures v > 0 && room > 0 ==> Digits(v, room) != "" && IsDigit(Digits(v, room)[0])
    decreases room
  {
    if v > 0 && room > 0 {
      StartsWithDigit(v / 10, room - 1);
    }
  }

  lemma ShorterPower(room: nat)
    requires room > 0
    ensures Pow10(room - 1) <= Pow10(room)
  {}

  /** A number is read back, sign and all, exactly when its digits and its sign fit into the room. */
  lemma DecimalReadsBackIff(value: int, room: nat)
    requires room > 0
    ensures SignedNumber(Decimal(value, room)) == value <==>
            0 - Pow10(room - 1) < value < Pow10(room)
  {
    var v: nat := if value < 0 then -value else value;
    var s := Digits(v, room);
    ShorterPower(room);
    StartsWithDigit(v, room);
    if value == 0 {
      ZeroInFront("");
      assert "0" + "" == Decimal(0, room);
    } else if value > 0 {
      NumberBelow(s);
      PowersGoUp(|s|, room);
      if v < Pow10(room) { DigitsReadBack(v, room); }
    } else if v < Pow10(room - 1) {
      DigitsLength(v, room, room - 1);
      DigitsReadBack(v, room);
      assert ("-" + s)[1..] == s;
    } else {
      DigitsFillRoom(v, room);
    }
  }

  /** The sign of the year -1000 does not fit, and is left out. */
  lemma SignIsLost()
    ensures Decimal(-1000, 4) == Decimal(1000, 4)
  {
    assert Pow10(3) == 1000;
    DigitsFillRoom(1000, 4);
  }

  lemma {:induction false} PowersGoUp(a: nat, b: nat)
    requires a <= b
    ensures Pow10(a) <= Pow10(b)
    decreases b - a
  {
    if a < b {
      PowersGoUp(a, b - 1);
    }
  }

  lemma DayOfYearInside(d: Date)
    requires Valid(d)
    ensures 1 <= DayOfYear(d) <= YearLength(d.year)
  {
    MonthsGoUp(d.year, d.month + 1, 13);
    YearHasTwelveMonths(d.year);
  }

  lemma NextDayOfYear(d: Date)
    requires Valid(d) && NextDay(d).year == d.year
    ensures DayOfYear(NextDay(d)) == DayOfYear(d) + 1
  {}

  lemma LastDayOfYear(d: Date)
    requires Valid(d) && NextDay(d).year != d.year
    ensures DayOfYear(d) == YearLength(d.year)
  {
    YearHasTwelveMonths(d.year);
  }

  /** Days of the year count up from 1 on 1 January, through the whole year. */
  lemma DayOfYearGoesOn(d: Date)
    requires Valid(d)
    ensures d.month == 1 && d.day == 1 ==> DayOfYear(d) == 1
    ensures NextDay(d).year == d.year ==> DayOfYear(NextDay(d)) == DayOfYear(d) + 1
    ensures NextDay(d).year != d.year ==> DayOfYear(d) == YearLength(d.year)
    ensures 1 <= DayOfYear(d) <= YearLength(d.year)
  {
    DayOfYearInside(d);
    if NextDay(d).year == d.year { NextDayOfYear(d); } else { LastDayOfYear(d); }
  }

  /** What each specifier writes is the number it stands for, in as many characters as it promises. */
  lemma PiecesReadBack(d: Date)
    requires Valid(d)
    ensures |Piece(d, 'm')| == 2 && Number(Piece(d, 'm')) == d.month
    ensures |Piece(d, 'd')| == 2 && Number(Piece(d, 'd')) == d.day
    ensures |Piece(d, 'j')| == 3 && Number(Piece(d, 'j')) == DayOfYear(d)
    ensures |Piece(d, 'w')| == 1 && Number(Piece(d, 'w')) == DayOfWeek(d)
    ensures SignedNumber(Piece(d, 'Y')) == d.year <==> -1000 < d.year < 10000
  {
    TwoDigitsReadBack(d.month);
    TwoDigitsReadBack(d.day);
    DayOfYearGoesOn(d);
    ThreeDigitsReadBack(DayOfYear(d));
    NumberLast("", Digit(DayOfWeek(d)));
    assert "" + [Digit(DayOfWeek(d))] == Piece(d, 'w');
    assert Pow10(3) == 1000 && Pow10(4) == 10000;
    DecimalReadsBackIff(d.year, 4);
  }

  lemma ExpandCopies(d: Date, c: char, rest: string)
    requires Valid(d) && c != '%'
    ensures Expand(d, [c] + rest) == [c] + Expand(d, rest)
  {
    assert ([c] + rest)[1..] == rest;
  }

  /** The induction of the next lemma, for any function that copies one character. */
  lemma {:induction false} CopyAll(expand: string -> string, plain: string, rest: string)
    requires forall c, r :: c != '%' ==> expand([c] + r) == [c] + expand(r)
    requires '%' !in plain
    ensures expand(plain + rest) == plain + expand(rest)
    decreases |plain|
  {
    if plain == "" {
      assert plain + rest == rest;
    } else {
      CopyAll(expand, plain[1..], rest);
      assert plain + rest == [plain[0]] + (plain[1..] + rest);
    }
  }

  /** Text without a percent sign is copied. */
  lemma ExpandPlain(d: Date, plain: string, rest: string)
    requires Valid(d) && '%' !in plain
    ensures Expand(d, plain + rest) == plain + Expand(d, rest)
  {
    var expand := s => Expand(d, s);
    forall c, r: string | c != '%'
      ensures expand([c] + r) == [c] + expand(r)
    {
      ExpandCopies(d, c, r);
    }
    CopyAll(expand, plain, rest);
  }

  /** A percent sign before anything but one of the five letters, or at the end, is copied. */
  lemma ExpandUnknown(d: Date, rest: string)
    requires Valid(d) && (rest == "" || rest[0] !in "Ymdjw")
    ensures Expand(d, "%" + rest) == "%" + Expand(d, rest)
  {
    assert ("%" + rest)[1..] == rest;
    assert 'Y' == "Ymdjw"[0] && 'm' == "Ymdjw"[1] && 'd' == "Ymdjw"[2] && 'j' == "Ymdjw"[3] && 'w' == "Ymdjw"[4];
  }

  lemma ExpandSpecifier(d: Date, c: char, rest: string)
    requires Valid(d) && IsSpecifier(c)
    ensures Expand(d, ['%', c] + rest) == Piece(d, c) + Expand(d, rest)
  {
    assert (['%', c] + rest)[2..] == rest;
  }

  lemma DefaultDay(d: Date)
    requires Valid(d)
    ensures Expand(d, "-%d") == "-" + TwoDigits(d.day)
  {
    ExpandSpecifier(d, 'd', "");
    assert ['%', 'd'] + "" == "%d" && TwoDigits(d.day) + "" == TwoDigits(d.day);
    ExpandCopies(d, '-', "%d");
    assert "-" + "%d" == "-%d";
  }

  lemma DefaultMonth(d: Date)
    requires Valid(d)
    ensures Expand(d, "-%m-%d") == "-" + (TwoDigits(d.month) + ("-" + TwoDigits(d.day)))
  {
    DefaultDay(d);
    ExpandSpecifier(d, 'm', "-%d");
    assert ['%', 'm'] + "-%d" == "%m-%d";
    ExpandCopies(d, '-', "%m-%d");
    assert "-" + "%m-%d" == "-%m-%d";
  }

  /** What the default format writes. */
  lemma DefaultText(d: Date)
    requires Valid(d)
    ensures Expand(d, DEFAULT_FORMAT) == Dashed(Decimal(d.year, 4), TwoDigits(d.month), TwoDigits(d.day))
  {
    DefaultMonth(d);
    ExpandSpecifier(d, 'Y', "-%m-%d");
    assert ['%', 'Y'] + "-%m-%d" == DEFAULT_FORMAT;
  }

  /** The years 1000 to 9999 come back from their four digits. */
  lemma YearReadsBack(year: int)
    ensures 1000 <= year <= 9999 ==> |Decimal(year, 4)| == 4 && Number(Decimal(year, 4)) == year
    ensures 0 <= year < 1000 ==> |Decimal(year, 4)| < 4
    ensures |Decimal(year, 4)| <= 4
  {
    assert Pow10(3) == 1000 && Pow10(4) == 10000;
    if 1000 <= year <= 9999 {
      DigitsReadBack(year, 4);
      DigitsLength(year, 4, 4);
    } else if 0 < year < 1000 {
      DigitsLength(year, 4, 3);
    }
  }

  function Dashed(y: string, m: string, d: string): (s: string) {
    y + ("-" + (m + ("-" + d)))
  }

  /** A text with fields of two digits looks like a date exactly if its year has four characters. */
  lemma FieldsOfDate(y: string, m: string, d: string)
    requires |y| <= 4 && |m| == 2 && |d| == 2
    ensures Parsed(Dashed(y, m, d)) ==
            if |y| == 4 then Date(Number(y), Number(m), Number(d)) else Date(1970, 1, 1)
  {
    if |y| == 4 {
      CutFields(y, m, d);
    } else {
      assert |Dashed(y, m, d)| == |y| + 6;
    }
  }

  lemma CutFields(y: string, m: string, d: string)
    requires |y| == 4 && |m| == 2 && |d| == 2
    ensures var s := Dashed(y, m, d);
            LooksLikeDate(s) && s[0..4] == y && s[5..7] == m && s[8..10] == d
  {}

  /** parse_date undoes format exactly for the years 1000 to 9999. */
  lemma ParseFormatIff(d: Date)
    requires Valid(d)
    ensures Parsed(Capped(Expand(d, DEFAULT_FORMAT), DEFAULT_ROOM)) == d <==> 1000 <= d.year <= 9999
  {
    var y, m, a := Decimal(d.year, 4), TwoDigits(d.month), TwoDigits(d.day);
    DefaultText(d);
    TwoDigitsReadBack(d.month);
    TwoDigitsReadBack(d.day);
    YearReadsBack(d.year);
    assert |Dashed(y, m, a)| == |y| + 6;
    FieldsOfDate(y, m, a);
    if |y| == 4 {
      NumberBelow(y);
      assert Pow10(4) == 10000;
    }
  }

  /** The year 999 is written with three digits and read as no date at all. */
  lemma ShortYear()
    ensures var d := Date(999, 12, 31);
            Valid(d) && Parsed(Capped(Expand(d, DEFAULT_FORMAT), DEFAULT_ROOM)) == Date(1970, 1, 1)
  {
    var d := Date(999, 12, 31);
    var y, m, a := Decimal(999, 4), TwoDigits(12), TwoDigits(31);
    DefaultText(d);
    TwoDigitsReadBack(12);
    TwoDigitsReadBack(31);
    YearReadsBack(999);
    assert |Dashed(y, m, a)| == |y| + 6;
    FieldsOfDate(y, m, a);
  }

  /** A date written and read again is the same date exactly for the years 1000 to 9999. */
  method FormatThenParse(d: Date) returns (r: Date)
    requires Valid(d)
    ensures r == d <==> 1000 <= d.year <= 9999
  {
    var text := Format(d, DEFAULT_FORMAT, DEFAULT_ROOM);
    r := ParseDate(text);
    ParseFormatIff(d);
  }
}
