/**
 * How the columns of a sort key are written into a cursor and read back from one: moments as the
 * ISO 8601 text JavaScript writes, scores as whole numbers, ranks as numerics with seven places, ids
 * as UUIDs (RFC 9562, section 4).
 */
module CursorFormats {
  import opened Wrappers
  import opened Text
  import opened Feed

  // ----- digits -----

  type Base = b: int | b == 10 || b == 16 witness 10

  function DigitOf(d: int): char
    requires 0 <= d < 16
  {
    if d < 10 then '0' + d as char else 'a' + (d - 10) as char
  }

  function DigitValue(c: char): (d: Option<int>)
    ensures d.Some? ==> 0 <= d.value < 16
  {
    if '0' <= c <= '9' then Some(c as int - '0' as int)
    else if 'a' <= c <= 'f' then Some(c as int - 'a' as int + 10)
    else None
  }

  /** `n` with one more digit. */
  function With(n: int, d: int, b: Base): int {
    if b == 10 then 10 * n + d else 16 * n + d
  }

  function Front(n: nat, b: Base): nat {
    if b == 10 then n / 10 else n / 16
  }

  function Last(n: nat, b: Base): (d: nat)
    ensures d < b && With(Front(n, b), d, b) == n
  {
    if b == 10 then n % 10 else n % 16
  }

  function Pow(b: Base, width: nat): nat {
    if width == 0 then 1 else With(Pow(b, width - 1), 0, b)
  }

  predicate AllDigits(s: string) {
    forall i :: 0 <= i < |s| ==> DigitValue(s[i]).Some?
  }

  /** As many digits as it takes. */
  function Digits(n: nat): (s: string)
    ensures s != "" && AllDigits(s)
  {
    if n < 10 then [DigitOf(n)] else Digits(n / 10) + [DigitOf(n % 10)]
  }

  /** Exactly `width` digits, zeros in front. */
  function Fixed(n: nat, width: nat, b: Base): (s: string)
    ensures |s| == width && AllDigits(s)
  {
    if width == 0 then "" else Fixed(Front(n, b), width - 1, b) + [DigitOf(Last(n, b))]
  }

  function Number(s: string, b: Base): (n: Option<int>)
    ensures n.Some? ==> n.value >= 0
  {
    if s == "" then Some(0)
    else
      var front, d := Number(s[..|s| - 1], b), DigitValue(s[|s| - 1]);
      if front.None? || d.None? || d.value >= b then None else Some(With(front.value, d.value, b))
  }

  lemma {:induction false} NumberOfDigits(n: nat)
    ensures Number(Digits(n), 10) == Some(n)
  {
    var s := Digits(n);
    if n < 10 {
      assert s[..0] == "" && Number("", 10) == Some(0);
    } else {
      NumberOfDigits(n / 10);
      assert s[..|s| - 1] == Digits(n / 10);
    }
  }

  lemma {:induction false} NumberOfFixed(n: nat, width: nat, b: Base)
    requires n < Pow(b, width)
    ensures Number(Fixed(n, width, b), b) == Some(n)
  {
    if width > 0 {
      var s := Fixed(n, width, b);
      NumberOfFixed(Front(n, b), width - 1, b);
      assert s[..|s| - 1] == Fixed(Front(n, b), width - 1, b);
    }
  }

  lemma Powers()
    ensures Pow(10, 2) == 100 && Pow(10, 3) == 1000 && Pow(10, 4) == 10_000
    ensures Pow(10, 6) == 1_000_000 && Pow(10, 7) == 10_000_000
  {
    assert Pow(10, 0) == 1 && Pow(10, 1) == 10 && Pow(10, 2) == 100 && Pow(10, 3) == 1000;
    assert Pow(10, 4) == 10_000 && Pow(10, 5) == 100_000;
  }

  function Abs(n: int): nat {
    if n < 0 then -n else n
  }

  // ----- scores and ranks -----

  function WholeText(n: int): string {
    (if n < 0 then "-" else "") + Digits(Abs(n))
  }

  function Unsigned(s: string): Option<int> {
    if s == "" then None else Number(s, 10)
  }

  function Negated(n: Option<int>): Option<int> {
    if n.Some? then Some(-n.value) else None
  }

  function WholeValue(s: string): Option<int> {
    if s != "" && s[0] == '-' then Negated(Unsigned(s[1..])) else Unsigned(s)
  }

  /** Whole numbers are carried, all of them. */
  lemma WholeCarries(n: int)
    ensures Carries(Format(WholeText, WholeValue), n)
  {
    hide Digits, Number;
    NumberOfDigits(Abs(n));
    assert DigitValue(Digits(Abs(n))[0]).Some?;
    if n < 0 {
      assert WholeText(n)[1..] == Digits(-n);
    } else {
      assert WholeText(n) == Digits(n);
    }
  }

  const TEN_MILLION := 10_000_000

  /** A numeric with seven places, of which `n` counts the last one. */
  function NumericText(n: int): string {
    (if n < 0 then "-" else "") + (Digits(Abs(n) / TEN_MILLION) + ['.'] + Fixed(Abs(n) % TEN_MILLION, 7, 10))
  }

  function UnsignedNumeric(s: string): Option<int> {
    var parts := Split(s, '.');
    if |parts| != 2 || parts[0] == "" || |parts[1]| != 7 || Number(parts[0], 10).None? || Number(parts[1], 10).None? then None
    else Some(Number(parts[0], 10).value * TEN_MILLION + Number(parts[1], 10).value)
  }

  function NumericValue(s: string): Option<int> {
    if s != "" && s[0] == '-' then Negated(UnsignedNumeric(s[1..])) else UnsignedNumeric(s)
  }

  lemma NoPoint(s: string)
    requires AllDigits(s)
    ensures '.' !in s
  {
    assert DigitValue('.').None?;
  }

  lemma PlacesBack(n: nat)
    ensures UnsignedNumeric(Digits(n / TEN_MILLION) + ['.'] + Fixed(n % TEN_MILLION, 7, 10)) == Some(n)
  {
    hide Digits, Fixed, Number, Split, Pow, DigitValue, AllDigits;
    var whole, places := Digits(n / TEN_MILLION), Fixed(n % TEN_MILLION, 7, 10);
    NoPoint(whole);
    NoPoint(places);
    SplitAround(whole, '.', places);
    SplitWhole(whole, '.');
    SplitWhole(places, '.');
    assert Split(whole + ['.'] + places, '.') == [whole, places];
    Powers();
    NumberOfDigits(n / TEN_MILLION);
    NumberOfFixed(n % TEN_MILLION, 7, 10);
  }

  /** Numerics with seven places are carried, all of them. */
  lemma NumericCarries(n: int)
    ensures Carries(Format(NumericText, NumericValue), n)
  {
    PlacesBack(Abs(n));
    var unsigned := Digits(Abs(n) / TEN_MILLION) + ['.'] + Fixed(Abs(n) % TEN_MILLION, 7, 10);
    assert DigitValue(unsigned[0]).Some?;
    if n < 0 {
      assert NumericText(n)[1..] == unsigned;
    } else {
      assert NumericText(n) == unsigned;
    }
  }

  // ----- the calendar -----

  /** The first day of a year, in days since 1970 (ECMA-262, section 21.4.1.5). */
  function DayFromYear(y: int): int {
    365 * (y - 1970) + (y - 1969) / 4 - (y - 1901) / 100 + (y - 1601) / 400
  }

  predicate Leap(y: int) {
    y % 4 == 0 && (y % 100 != 0 || y % 400 == 0)
  }

  lemma Fourth(y: int)
    ensures (y - 1968) / 4 - (y - 1969) / 4 == if y % 4 == 0 then 1 else 0
  {
  }

  lemma Hundredth(y: int)
    ensures (y - 1900) / 100 - (y - 1901) / 100 == if y % 100 == 0 then 1 else 0
  {
  }

  lemma FourHundredth(y: int)
    ensures (y - 1600) / 400 - (y - 1601) / 400 == if y % 400 == 0 then 1 else 0
  {
  }

  lemma LeapOrder(y: int)
    ensures y % 400 == 0 ==> y % 100 == 0
    ensures y % 100 == 0 ==> y % 4 == 0
  {
  }

  lemma YearLength(y: int)
    ensures DayFromYear(y + 1) - DayFromYear(y) == if Leap(y) then 366 else 365
  {
    Fourth(y);
    Hundredth(y);
    FourHundredth(y);
    LeapOrder(y);
  }

  /** The year a day is in, looked for from an earlier one on. */
  function YearFrom(day: int, y: int): (year: int)
    requires DayFromYear(y) <= day
    ensures DayFromYear(year) <= day < DayFromYear(year + 1)
    decreases day - DayFromYear(y)
  {
    YearLength(y);
    if DayFromYear(y + 1) <= day then YearFrom(day, y + 1) else y
  }

  function YearOf(day: int): (year: int)
    ensures DayFromYear(year) <= day < DayFromYear(year + 1)
  {
    YearFrom(day, if day < 0 then 1968 + day / 365 else 1968 + day / 366)
  }

  function MonthStart(month: nat, leap: bool): nat
    requires month <= 12
  {
    var common := match month
      case 0 => 0 case 1 => 31 case 2 => 59 case 3 => 90 case 4 => 120 case 5 => 151 case 6 => 181
      case 7 => 212 case 8 => 243 case 9 => 273 case 10 => 304 case 11 => 334 case _ => 365;
    common + (if leap && month >= 2 then 1 else 0)
  }

  lemma YearStarts(leap: bool)
    ensures MonthStart(0, leap) == 0
  {
  }

  function MonthFrom(day: nat, leap: bool, month: nat): (m: nat)
    requires month < 12 && day < MonthStart(month + 1, leap)
    ensures m < 12 && MonthStart(m, leap) <= day < MonthStart(m + 1, leap)
  {
    YearStarts(leap);
    if MonthStart(month, leap) <= day then month else MonthFrom(day, leap, month - 1)
  }

  lemma MonthLength(month: nat, leap: bool)
    requires month < 12
    ensures MonthStart(month, leap) < MonthStart(month + 1, leap) <= MonthStart(month, leap) + 31
  {
  }

  // ----- moments -----

  const DAY := 86_400_000

  /** The furthest a date can be from 1970, in milliseconds. */
  const FURTHEST := 100_000_000 * DAY

  /** A field of the text: the character in front of it, and how many digits it has. */
  datatype Field = Field(lead: char, width: nat)

  const FIELDS := [Field('-', 2), Field('-', 2), Field('T', 2), Field(':', 2), Field(':', 2), Field('.', 3)]

  function WriteFields(fields: seq<Field>, ns: seq<nat>): string
    requires |fields| == |ns|
  {
    if fields == [] then "Z"
    else [fields[0].lead] + Fixed(ns[0], fields[0].width, 10) + WriteFields(fields[1..], ns[1..])
  }

  function ReadFields(fields: seq<Field>, s: string): (ns: Option<seq<nat>>)
    ensures ns.Some? ==> |ns.value| == |fields|
  {
    if fields == [] then if s == "Z" then Some([]) else None
    else
      var w := fields[0].width;
      if |s| < 1 + w || s[0] != fields[0].lead then None
      else
        var n, rest := Number(s[1..1 + w], 10), ReadFields(fields[1..], s[1 + w..]);
        if n.None? || rest.None? then None else Some([n.value] + rest.value)
  }

  lemma {:induction false} ReadOfWrite(fields: seq<Field>, ns: seq<nat>)
    requires |fields| == |ns| && forall i :: 0 <= i < |ns| ==> ns[i] < Pow(10, fields[i].width)
    ensures ReadFields(fields, WriteFields(fields, ns)) == Some(ns)
  {
    if fields != [] {
      var digits, rest := Fixed(ns[0], fields[0].width, 10), WriteFields(fields[1..], ns[1..]);
      var s := [fields[0].lead] + digits + rest;
      assert s[1..1 + fields[0].width] == digits && s[1 + fields[0].width..] == rest;
      NumberOfFixed(ns[0], fields[0].width, 10);
      ReadOfWrite(fields[1..], ns[1..]);
      assert [ns[0]] + ns[1..] == ns;
    }
  }

  lemma {:induction false} NoBarInFields(fields: seq<Field>, ns: seq<nat>)
    requires |fields| == |ns| && forall i :: 0 <= i < |fields| ==> fields[i].lead != '|'
    ensures '|' !in WriteFields(fields, ns)
  {
    if fields != [] { NoBarInFields(fields[1..], ns[1..]); }
  }

  /** Four digits for the years that have them, else a sign and six. */
  function YearText(y: int): string {
    if 0 <= y <= 9999 then Fixed(y, 4, 10) else (if y < 0 then "-" else "+") + Fixed(Abs(y), 6, 10)
  }

  function YearValue(s: string): Option<int> {
    if s == "" then None
    else if s[0] == '-' then Negated(Number(s[1..], 10))
    else if s[0] == '+' then Number(s[1..], 10)
    else Number(s, 10)
  }

  lemma YearBack(y: int, tail: string)
    requires Abs(y) < 1_000_000
    ensures YearValue(YearText(y)) == Some(y) && '|' !in YearText(y)
    ensures YearText(y) != "" && |YearText(y)| == YearWidth(YearText(y) + tail)
  {
    Powers();
    var digits := if 0 <= y <= 9999 then Fixed(y, 4, 10) else Fixed(Abs(y), 6, 10);
    assert DigitValue(digits[0]).Some?;
    if 0 <= y <= 9999 {
      NumberOfFixed(y, 4, 10);
    } else {
      NumberOfFixed(Abs(y), 6, 10);
      assert YearText(y)[1..] == digits;
    }
  }

  function YearWidth(s: string): nat {
    if s != "" && (s[0] == '-' || s[0] == '+') then 7 else 4
  }

  lemma PartsOfDay(ms: int)
    requires 0 <= ms < DAY
    ensures 0 <= ms / 3_600_000 < 24 && 0 <= ms / 60_000 % 60 && 0 <= ms / 1000 % 60
    ensures ms == ms / 3_600_000 * 3_600_000 + ms / 60_000 % 60 * 60_000 + ms / 1000 % 60 * 1000 + ms % 1000
  {
    assert ms / 3_600_000 == ms / 1000 / 60 / 60 && ms / 60_000 == ms / 1000 / 60;
  }

  lemma LastOfYear(leap: bool)
    ensures MonthStart(12, leap) == if leap then 366 else 365
  {
  }

  function DayOfYear(day: int): (d: nat)
    ensures d < MonthStart(12, Leap(YearOf(day)))
  {
    YearLength(YearOf(day));
    LastOfYear(Leap(YearOf(day)));
    day - DayFromYear(YearOf(day))
  }

  function MonthAndDay(day: nat, leap: bool): (md: (nat, nat))
    requires day < MonthStart(12, leap)
    ensures 1 <= md.0 <= 12 && 1 <= md.1 <= 31 && MonthStart(md.0 - 1, leap) + md.1 - 1 == day
  {
    var month := MonthFrom(day, leap, 11);
    MonthLength(month, leap);
    (month + 1, day - MonthStart(month, leap) + 1)
  }

  /** Month, day of the month, hour, minute, second and millisecond of a moment. */
  function FieldsOf(t: int): (ns: seq<nat>)
    ensures |ns| == |FIELDS| && 1 <= ns[0] <= 12 && 1 <= ns[1] <= 31
    ensures ns[2] < 24 && ns[3] < 60 && ns[4] < 60 && ns[5] < 1000
  {
    var day, ms := t / DAY, t % DAY;
    var date := MonthAndDay(DayOfYear(day), Leap(YearOf(day)));
    PartsOfDay(ms);
    [date.0, date.1, ms / 3_600_000, ms / 60_000 % 60, ms / 1000 % 60, ms % 1000]
  }

  /** The moment a year and the fields stand for; days past the end of a month run into the next. */
  function TimeOf(y: int, ns: seq<nat>): Option<int>
    requires |ns| == |FIELDS|
  {
    if !(1 <= ns[0] <= 12 && 1 <= ns[1] <= 31 && ns[2] < 24 && ns[3] < 60 && ns[4] < 60) then None
    else
      var day := DayFromYear(y) + MonthStart(ns[0] - 1, Leap(y)) + ns[1] - 1;
      Some(day * DAY + ns[2] * 3_600_000 + ns[3] * 60_000 + ns[4] * 1000 + ns[5])
  }

  lemma TimeBack(t: int)
    ensures TimeOf(YearOf(t / DAY), FieldsOf(t)) == Some(t)
  {
    hide DayFromYear, MonthStart, Leap, YearOf, MonthAndDay;
    PartsOfDay(t % DAY);
  }

  function IsoText(t: int): string {
    if Abs(t) > FURTHEST then "" else YearText(YearOf(t / DAY)) + WriteFields(FIELDS, FieldsOf(t))
  }

  function IsoValue(s: string): Option<int> {
    var w := YearWidth(s);
    if |s| < w || YearValue(s[..w]).None? || ReadFields(FIELDS, s[w..]).None? then None
    else TimeOf(YearValue(s[..w]).value, ReadFields(FIELDS, s[w..]).value)
  }

  lemma YearInRange(t: int)
    requires Abs(t) <= FURTHEST
    ensures Abs(YearOf(t / DAY)) < 1_000_000
  {
    var y := YearOf(t / DAY);
    assert -100_000_000 <= t / DAY <= 100_000_000;
    assert y >= 1_000_000 ==> DayFromYear(y) > 100_000_000;
    assert y <= -1_000_000 ==> DayFromYear(y + 1) < -100_000_000;
  }

  /** Every moment a date can hold is carried, to the millisecond. */
  lemma IsoCarries(t: int)
    requires Abs(t) <= FURTHEST
    ensures Carries(Format(IsoText, IsoValue), t)
  {
    hide YearOf, FieldsOf, TimeOf, YearText, YearValue, YearWidth, ReadFields, WriteFields;
    var y, ns := YearOf(t / DAY), FieldsOf(t);
    var tail := WriteFields(FIELDS, ns);
    YearInRange(t);
    YearBack(y, tail);
    Powers();
    ReadOfWrite(FIELDS, ns);
    NoBarInFields(FIELDS, ns);
    TimeBack(t);
    var s := YearText(y) + tail;
    assert s[..|YearText(y)|] == YearText(y) && s[|YearText(y)|..] == tail;
  }

  // ----- ids -----

  /** Thirty-two digits in groups of eight, four, four, four and twelve. */
  function UuidText(id: int): string {
    if !(0 <= id < Pow(16, 32)) then ""
    else
      var h := Fixed(id, 32, 16);
      h[..8] + "-" + h[8..12] + "-" + h[12..16] + "-" + h[16..20] + "-" + h[20..]
  }

  function UuidValue(s: string): Option<int> {
    if |s| != 36 || s[8] != '-' || s[13] != '-' || s[18] != '-' || s[23] != '-' then None
    else Number(s[..8] + s[9..13] + s[14..18] + s[19..23] + s[24..], 16)
  }

  /** Every id is carried. */
  lemma UuidCarries(id: int)
    requires 0 <= id < Pow(16, 32)
    ensures Carries(Format(UuidText, UuidValue), id)
  {
    hide Pow, Fixed, Number;
    var h, s := Fixed(id, 32, 16), UuidText(id);
    NumberOfFixed(id, 32, 16);
    assert s[..8] == h[..8] && s[9..13] == h[8..12] && s[14..18] == h[12..16] && s[19..23] == h[16..20] && s[24..] == h[20..];
    assert h[..8] + h[8..12] + h[12..16] + h[16..20] + h[20..] == h;
    assert forall i :: 0 <= i < |h| ==> h[i] != '|';
  }

  // ----- cursors as they are -----

  /** The formats the cursors are written in. */
  const WRITTEN := Formats(
    Format(IsoText, IsoValue), Format(WholeText, WholeValue), Format(NumericText, NumericValue), Format(UuidText, UuidValue))

  /** A row as the table holds it, with its creation time in whole milliseconds. */
  predicate Storable(p: Post) {
    Abs(p.createdAt) <= FURTHEST && 0 <= p.id < Pow(16, 32)
  }

  /** Every sort's cursor names every post exactly. */
  lemma CursorsCarryPosts(sort: FeedSort, p: Post)
    requires Storable(p)
    ensures CarriesPost(WRITTEN, sort, p)
  {
    hide Carries, Pow;
    IsoCarries(p.createdAt);
    UuidCarries(p.id);
    WholeCarries(p.score);
    NumericCarries(p.hotScore);
    NumericCarries(p.controversy);
  }

  /** So following the cursors from the first page shows the whole list, in every sort, whatever the table. */
  lemma PagesShowTheList(rows: seq<Post>, q: Request)
    requires DistinctIds(rows) && (forall p :: p in rows ==> Storable(p)) && q.formats == WRITTEN
    ensures CarriesRows(q, rows) && Chase(rows, q, "") == Listing(rows, q)
  {
    forall p | p in rows ensures CarriesPost(q.formats, q.sort, p) {
      CursorsCarryPosts(q.sort, p);
    }
    ChaseShowsAll(rows, q, "");
  }

  lemma {:induction false} PowGrows(b: Base, width: nat)
    ensures Pow(b, width) > width
  {
    if width > 0 { PowGrows(b, width - 1); }
  }

  /** And of one pin more than the first page shows, the oldest is on no page, in any sort. */
  lemma OnePinTooMany(communityId: int, q: Request)
    requires q.scope == Community(communityId) && q.flair.None? && q.hidden == {} && q.blocked == {} && q.formats == WRITTEN
    ensures DistinctIds(ManyPins(PINS_SHOWN + 1, communityId)) && CarriesRows(q, ManyPins(PINS_SHOWN + 1, communityId))
    ensures var rows := ManyPins(PINS_SHOWN + 1, communityId);
      && Pinned(q, rows[0]) && ShowPage(rows, q, "").Ok?
      && rows[0] !in ShowPage(rows, q, "").value.pinned && rows[0] !in Chase(rows, q, "")
  {
    hide Pow, ShowPage, Chase, CarriesPost;
    var rows := ManyPins(PINS_SHOWN + 1, communityId);
    PowGrows(16, 32);
    forall p | p in rows ensures CarriesPost(q.formats, q.sort, p) {
      CursorsCarryPosts(q.sort, p);
    }
    FirstPinIsLost(PINS_SHOWN + 1, communityId, q);
  }
}
