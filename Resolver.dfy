/** The time-expression resolver of the alarm command (`setAlarmStep1` and
    `preprocessTimeStr` in Timed-alarm-clock.js): a phrase of the fixed Chinese
    grammar becomes an instant, or is rejected. Every rule is an ordered rewrite
    or a leftmost regular-expression match, written out here as a function. */
module Resolver {
  import opened Text
  import opened Calendar

  /** What the resolver reads besides the phrase. `now` is the current instant
      in milliseconds since the epoch; `today` is the calendar date of `now` in
      the process's zone; `lenientDate` is the date-time library's non-strict
      reading of a partial date such as `15日` (the text, and whether it starts
      with a year), which the library alone defines. */
  datatype Clock = Clock(now: int, today: Date, lenientDate: (string, bool) -> Option<Date>)

  datatype Reject = EmptyPhrase | Unparseable | PastTime

  datatype Resolution = Resolved(instant: int) | Rejected(reason: Reject)

  const MinuteMs: int := 60000
  const HourMs: int := 3600000
  /** Asia/Shanghai is eight hours ahead of UTC. */
  const ShanghaiOffsetMinutes: int := 480

  // ------------------------------------------------------------ matching

  /** The leftmost match at or after `p`, where `at(s, q)` is the match that
      starts exactly at `q`: how `String.prototype.match` scans. */
  function FirstMatch<T>(s: string, p: nat, at: (string, nat) -> Option<T>): Option<T>
    decreases |s| + 1 - p
  {
    if p > |s| then None
    else if at(s, p).Some? then at(s, p)
    else FirstMatch(s, p + 1, at)
  }

  /** Positions where no match starts are passed over. */
  lemma {:induction false} FirstMatchSkip<T>(s: string, p: nat, q: nat, at: (string, nat) -> Option<T>)
    requires p <= q <= |s| + 1
    requires forall i :: p <= i < q ==> at(s, i).None?
    ensures FirstMatch(s, p, at) == FirstMatch(s, q, at)
    decreases q - p
  {
    if p < q {
      FirstMatchSkip(s, p + 1, q, at);
    }
  }

  /** With no match starting anywhere, there is no match. */
  lemma FirstMatchNone<T>(s: string, at: (string, nat) -> Option<T>)
    requires forall i :: 0 <= i <= |s| ==> at(s, i).None?
    ensures FirstMatch(s, 0, at) == None
  {
    FirstMatchSkip(s, 0, |s| + 1, at);
  }

  /** A match starting at `p` is the first one found from `p`. */
  lemma FirstMatchAt<T>(s: string, p: nat, at: (string, nat) -> Option<T>)
    requires p <= |s| && at(s, p).Some?
    ensures FirstMatch(s, p, at) == at(s, p)
  {
  }

  predicate DigitAt(s: string, i: int) { 0 <= i < |s| && IsDigit(s[i]) }

  predicate CharAt(s: string, i: int, c: char) { 0 <= i < |s| && s[i] == c }

  /** The end of the run of digits that starts at `i`. */
  function DigitRunEnd(s: string, i: nat): (r: nat)
    requires i <= |s|
    decreases |s| - i
    ensures i <= r <= |s| && !DigitAt(s, r)
    ensures forall k :: i <= k < r ==> IsDigit(s[k])
  {
    if i < |s| && IsDigit(s[i]) then DigitRunEnd(s, i + 1) else i
  }

  /** The end of the run of whitespace that starts at `i`. */
  function SpaceRunEnd(s: string, i: nat): (r: nat)
    requires i <= |s|
    decreases |s| - i
    ensures i <= r <= |s| && (r == |s| || !IsSpace(s[r]))
    ensures forall k :: i <= k < r ==> IsSpace(s[k])
  {
    if i < |s| && IsSpace(s[i]) then SpaceRunEnd(s, i + 1) else i
  }

  /** `/(\d+)\s*<unit>/` matched exactly at `p`, as the number it captures. The
      unit starts with a character that is neither a digit nor a space, so giving
      back digits or spaces never helps and only the longest runs can match. */
  function UnitAt(unit: string, s: string, p: nat): Option<nat>
  {
    if DigitAt(s, p) then
      var j := DigitRunEnd(s, p);
      var k := SpaceRunEnd(s, j);
      assert AllDigits(s[p..j]);
      if OccursAt(s, unit, k) then Some(Value(s[p..j])) else None
    else None
  }

  /** `/(\d+)\s*分钟后/` at `p`. */
  function MinutesAt(s: string, p: nat): Option<nat> { UnitAt("分钟后", s, p) }

  /** `/(\d+)\s*小时后/` at `p`. */
  function HoursAt(s: string, p: nat): Option<nat> { UnitAt("小时后", s, p) }

  /** `\d{1,2}` at `q` followed by a character of `follow`, two digits tried
      before one: the position of that following character. */
  function DigitsBefore(s: string, q: nat, follow: set<char>): (r: Option<nat>)
    ensures r.Some? ==> q < r.value <= q + 2 && r.value < |s| && s[r.value] in follow
  {
    if DigitAt(s, q) && DigitAt(s, q + 1) && q + 2 < |s| && s[q + 2] in follow then Some(q + 2)
    else if DigitAt(s, q) && q + 1 < |s| && s[q + 1] in follow then Some(q + 1)
    else None
  }

  /** A trailing `\d{1,2}` at `q`, greedy: the position after the digits. */
  function TrailingDigits(s: string, q: nat): (r: Option<nat>)
    ensures r.Some? ==> q < r.value <= q + 2 && r.value <= |s|
  {
    if DigitAt(s, q) then (if DigitAt(s, q + 1) then Some(q + 2) else Some(q + 1)) else None
  }

  /** A date found in the text: the matched text and the numbers it holds. */
  datatype DateMatch = DateMatch(text: string, year: Option<nat>, month: Option<nat>, day: nat)

  /** `/(\d{4})[-/](\d{1,2})[-/](\d{1,2})/` matched at `p`. */
  function NumericDateAt(s: string, p: nat): (r: Option<DateMatch>)
    ensures r.Some? ==> r.value.year.Some? && r.value.month.Some?
  {
    if p + 4 < |s| && AllDigits(s[p..p + 4]) && s[p + 4] in {'-', '/'} then
      match DigitsBefore(s, p + 5, {'-', '/'})
      case None => None
      case Some(me) =>
        match TrailingDigits(s, me + 1)
        case None => None
        case Some(de) =>
          Some(DateMatch(s[p..de], Some(Value(s[p..p + 4])), Some(Value(s[p + 5..me])), Value(s[me + 1..de])))
    else None
  }

  /** The optional month and the day of `(\d{1,2}月)?(\d{1,2}日)` at `q`, with the
      end of the match; the month group is tried first. */
  datatype MonthDay = MonthDay(month: Option<nat>, day: nat, end: nat)

  /** `\d{1,2}月\d{1,2}日` at `q`. */
  function MonthAndDayAt(s: string, q: nat): (r: Option<MonthDay>)
    ensures r.Some? ==> q < r.value.end <= |s|
  {
    match DigitsBefore(s, q, {'月'})
    case None => None
    case Some(me) =>
      match DigitsBefore(s, me + 1, {'日'})
      case None => None
      case Some(de) => Some(MonthDay(Some(Value(s[q..me])), Value(s[me + 1..de]), de + 1))
  }

  /** `(\d{1,2}月)?\d{1,2}日` at `q`: the month is tried first. */
  function MonthDayAt(s: string, q: nat): (r: Option<MonthDay>)
    ensures r.Some? ==> q < r.value.end <= |s|
  {
    var withMonth := MonthAndDayAt(s, q);
    if withMonth.Some? then withMonth
    else
      match DigitsBefore(s, q, {'日'})
      case None => None
      case Some(de) => Some(MonthDay(None, Value(s[q..de]), de + 1))
  }

  /** The Chinese date pattern at `p` with its optional `\d{4}年` group taken. */
  function YearDateAt(s: string, p: nat): Option<DateMatch>
  {
    if p + 4 < |s| && AllDigits(s[p..p + 4]) && s[p + 4] == '年' then
      match MonthDayAt(s, p + 5)
      case None => None
      case Some(md) => Some(DateMatch(s[p..md.end], Some(Value(s[p..p + 4])), md.month, md.day))
    else None
  }

  /** `/(\d{4}年)?(\d{1,2}月)?(\d{1,2}日)/` matched at `p`; the year group is tried first. */
  function ChineseDateAt(s: string, p: nat): Option<DateMatch>
  {
    var withYear := YearDateAt(s, p);
    if withYear.Some? then withYear else DayDateAt(s, p)
  }

  /** The Chinese date pattern at `p` with its optional year group skipped. */
  function DayDateAt(s: string, p: nat): Option<DateMatch>
  {
    if p > |s| then None
    else
      match MonthDayAt(s, p)
      case None => None
      case Some(md) => Some(DateMatch(s[p..md.end], None, md.month, md.day))
  }

  /** `/(\d{1,2}):(\d{1,2})/` matched at `p`: hour and minute. */
  function ClockAt(s: string, p: nat): (r: Option<(nat, nat)>)
    ensures r.Some? ==> r.value.0 < 100 && r.value.1 < 100
  {
    match DigitsBefore(s, p, {':'})
    case None => None
    case Some(he) =>
      match TrailingDigits(s, he + 1)
      case None => None
      case Some(me) =>
        ValueOfTwoDigits(s[p..he]);
        ValueOfTwoDigits(s[he + 1..me]);
        Some((Value(s[p..he]), Value(s[he + 1..me])))
  }

  /** `/(\d{1,2})/` matched at `p`: an hour. */
  function HourAt(s: string, p: nat): (r: Option<nat>)
    ensures r.Some? ==> r.value < 100
  {
    match TrailingDigits(s, p)
    case None => None
    case Some(e) => ValueOfTwoDigits(s[p..e]); Some(Value(s[p..e]))
  }

  // ------------------------------------------------- relative durations

  /** `一个半小时`, `半小时` and `一刻钟` become minute counts, longest first. */
  function RewriteDurations(s: string): string
  {
    ReplaceAll(ReplaceAll(ReplaceAll(s, "一个半小时", "90分钟"), "半小时", "30分钟"), "一刻钟", "15分钟")
  }

  /** The relative reading: a minute count wins over an hour count; None when
      the phrase names neither. */
  function RelativeInstant(raw: string, now: int): Option<int>
  {
    var p := RewriteDurations(raw);
    match FirstMatch<nat>(p, 0, MinutesAt)
    case Some(n) => Some(now + n * MinuteMs)
    case None =>
      match FirstMatch<nat>(p, 0, HoursAt)
      case Some(n) => Some(now + n * HourMs)
      case None => None
  }

  // --------------------------------------------------- absolute phrases

  /** The shorthand day-and-period words and their spelled-out forms, in the
      order they are replaced. */
  const Shorthands: seq<(string, string)> :=
    [("今晚", "今天晚上"), ("明晚", "明天晚上"), ("后晚", "后天晚上"),
     ("今早", "今天早上"), ("明早", "明天早上"), ("后早", "后天早上")]

  /** A replacement table whose patterns are two characters long. */
  predicate PairTable(table: seq<(string, string)>)
  {
    forall i :: 0 <= i < |table| ==> |table[i].0| == 2
  }

  /** Every pattern of the table replaced everywhere, one pattern after another. */
  function ReplaceEach(s: string, table: seq<(string, string)>): string
    requires PairTable(table)
    decreases |table|
  {
    if table == [] then s else ReplaceEach(ReplaceAll(s, table[0].0, table[0].1), table[1..])
  }

  /** The six shorthands spelled out, in table order. */
  function ExpandShorthand(s: string): string
  {
    ReplaceEach(s, Shorthands)
  }

  /** `号` becomes `日`; the full-width colon and `点` become `:`. */
  function NormalizeMarks(s: string): (r: string)
    ensures |r| == |ReplaceAll(s, "号", "日")|
  {
    ColonsOf(ReplaceAll(s, "号", "日"))
  }

  function ColonsOf(s: string): (r: string)
    ensures |r| == |s|
  {
    seq(|s|, i requires 0 <= i < |s| => if s[i] == '：' || s[i] == '点' then ':' else s[i])
  }

  function DayWord(k: nat): string
    requires k <= 2
  {
    if k == 0 then "今天" else if k == 1 then "明天" else "后天"
  }

  /** The day offset of the first of `后天`, `明天`, `今天` (tried in that order) that the text holds. */
  function DayKeyword(t: string): (r: Option<nat>)
    ensures r.Some? ==> r.value <= 2
  {
    if Contains(t, "后天") then Some(2)
    else if Contains(t, "明天") then Some(1)
    else if Contains(t, "今天") then Some(0)
    else None
  }

  /** What `format('YYYY-MM-DD')` prints for a date the library built; for one
      it deems invalid, the library prints `Invalid date`. */
  function DateText(d: Date): string
  {
    if ValidDate(d) then FormatDate(d) else "Invalid date"
  }

  /** The date part of a `年/月/日` match: a full date is read as written, a month
      and day take the current year, and anything shorter is the library's lenient reading. */
  function ChineseDateText(m: DateMatch, clk: Clock): string
  {
    if m.month.Some? then
      DateText(Date(if m.year.Some? then m.year.value else clk.today.year, m.month.value, m.day))
    else
      match clk.lenientDate(m.text, m.year.Some?)
      case Some(d) => DateText(d)
      case None => "Invalid date"
  }

  /** The date part and the text left for the time of day. */
  datatype DateSplit = DateSplit(datePart: string, timePart: string)

  /** Day keyword, else numeric date, else `年/月/日` date, else today. */
  function ResolveDate(t: string, clk: Clock): DateSplit
    requires ValidDate(clk.today)
  {
    match DayKeyword(t)
    case Some(k) => DateSplit(FormatDate(AddDays(clk.today, k)), Trim(ReplaceFirst(t, DayWord(k), "")))
    case None =>
      match FirstMatch(t, 0, NumericDateAt)
      case Some(m) =>
        FirstMatchIn(t, 0, NumericDateAt);
        DateSplit(DateText(Date(m.year.value, m.month.value, m.day)), Trim(ReplaceFirst(t, m.text, "")))
      case None =>
        match FirstMatch(t, 0, ChineseDateAt)
        case Some(m) => DateSplit(ChineseDateText(m, clk), Trim(ReplaceFirst(t, m.text, "")))
        case None => DateSplit(FormatDate(clk.today), t)
  }

  /** The period markers, all two characters long, removed in one left-to-right pass. */
  predicate IsPeriodMarker(w: string)
  {
    w == "凌晨" || w == "早上" || w == "上午" || w == "下午" || w == "晚上"
  }

  /** The characters that can start a period marker. */
  predicate MarkerStart(c: char)
  {
    c == '凌' || c == '早' || c == '上' || c == '下' || c == '晚'
  }

  function StripPeriods(s: string): string
  {
    if |s| >= 2 && IsPeriodMarker(s[..2]) then StripPeriods(s[2..])
    else if s == [] then []
    else [s[0]] + StripPeriods(s[1..])
  }

  /** Removing markers keeps only characters of the input. */
  lemma {:induction false} StripPeriodsSubset(s: string)
    ensures forall c :: c in StripPeriods(s) ==> c in s
  {
    if |s| >= 2 && IsPeriodMarker(s[..2]) {
      StripPeriodsSubset(s[2..]);
    } else if s != [] {
      StripPeriodsSubset(s[1..]);
    }
  }

  /** Twelve is added to an hour from 1 to 11 when an afternoon or evening marker was seen. */
  function PmAdjust(hour: nat, pm: bool): nat
  {
    if pm && 1 <= hour < 12 then hour + 12 else hour
  }

  /** Whether the time text says afternoon or evening. */
  predicate SaysPm(t: string)
  {
    Contains(t, "下午") || Contains(t, "晚上")
  }

  /** Noon and `半` rewritten, then the clock read. */
  function TimeOfDay(t: string): (r: (nat, nat))
    ensures r.0 < 100 && r.1 < 100
  {
    ReadClock(ReplaceAll(ReplaceAll(t, "中午", "12:00"), "半", "30"))
  }

  /** Period markers detected and removed, then `H:M`, else `H`, else 08:00,
      and the afternoon rule last. */
  function ReadClock(t: string): (r: (nat, nat))
    ensures r.0 < 100 && r.1 < 100
  {
    var pm := SaysPm(t);
    var t2 := Trim(StripPeriods(t));
    var hm :=
      match FirstMatch(t2, 0, ClockAt)
      case Some(hm) => hm
      case None =>
        match FirstMatch(t2, 0, HourAt)
        case Some(h) => (h, 0)
        case None => (8, 0);
    assert hm.0 < 100 && hm.1 < 100 by {
      FirstMatchIn(t2, 0, ClockAt);
      FirstMatchIn(t2, 0, HourAt);
    }
    (PmAdjust(hm.0, pm), hm.1)
  }

  /** Whatever the leftmost match returns is a match found at some position. */
  lemma {:induction false} FirstMatchIn<T>(s: string, p: nat, at: (string, nat) -> Option<T>)
    ensures FirstMatch(s, p, at).Some? ==> exists i :: p <= i <= |s| && at(s, i) == FirstMatch(s, p, at)
    decreases |s| + 1 - p
  {
    if p <= |s| && at(s, p).None? {
      FirstMatchIn(s, p + 1, at);
    }
  }

  /** `preprocessTimeStr`: the phrase as `<date> HH:MM`, hour and minute zero-filled to two digits. */
  function Preprocess(raw: string, clk: Clock): (r: string)
    requires ValidDate(clk.today)
    ensures |r| >= 6 && r[|r| - 6] == ' ' && r[|r| - 3] == ':'
    ensures AllDigits(r[|r| - 5..|r| - 3]) && AllDigits(r[|r| - 2..])
  {
    var split := ResolveDate(NormalizeMarks(ExpandShorthand(raw)), clk);
    var hm := TimeOfDay(split.timePart);
    var r := Stamped(split.datePart, hm.0, hm.1);
    StampedLayout(split.datePart, hm.0, hm.1);
    r
  }

  /** `<date> HH:MM` with hour and minute zero-filled to two digits. */
  function Stamped(datePart: string, hour: nat, minute: nat): string
  {
    datePart + " " + ZeroFill(hour, 2) + ":" + ZeroFill(minute, 2)
  }

  lemma StampedLayout(datePart: string, hour: nat, minute: nat)
    requires hour < 100 && minute < 100
    ensures var r := Stamped(datePart, hour, minute);
      && |r| == |datePart| + 6 && r[..|datePart|] == datePart && r[|r| - 6] == ' ' && r[|r| - 3] == ':'
      && r[|r| - 5..|r| - 3] == ZeroFill(hour, 2) && r[|r| - 2..] == ZeroFill(minute, 2)
      && AllDigits(r[|r| - 5..|r| - 3]) && AllDigits(r[|r| - 2..])
    ensures |ZeroFill(hour, 2)| == 2 && |ZeroFill(minute, 2)| == 2
  {
    var h, m := ZeroFill(hour, 2), ZeroFill(minute, 2);
    assert |h| == 2 && |m| == 2;
    var r := Stamped(datePart, hour, minute);
    assert r == datePart + " " + h + ":" + m;
  }

  // ------------------------------------------------------- validation

  /** A local date and time in the fixed zone. */
  datatype Stamp = Stamp(date: Date, hour: nat, minute: nat)

  /** What the strict `HH:mm` reading accepts: minutes below 60, hours below 24,
      and 24:00, which the library reads as midnight at the end of the day. */
  predicate ClockTime(hour: nat, minute: nat)
  {
    minute < 60 && (hour < 24 || (hour == 24 && minute == 0))
  }

  /** Strict `YYYY-MM-DD HH:mm`: the whole text in exactly that layout, naming a real date and time. */
  function StrictParse(s: string): Option<Stamp>
  {
    if |s| == 16 && AllDigits(s[0..4]) && s[4] == '-' && AllDigits(s[5..7]) && s[7] == '-'
       && AllDigits(s[8..10]) && s[10] == ' ' && AllDigits(s[11..13]) && s[13] == ':'
       && AllDigits(s[14..16])
    then
      var d := Date(Value(s[0..4]), Value(s[5..7]), Value(s[8..10]));
      var h, m := Value(s[11..13]), Value(s[14..16]);
      if ValidDate(d) && ClockTime(h, m) then Some(Stamp(d, h, m)) else None
    else None
  }

  /** The instant, in milliseconds, of a local time in Asia/Shanghai. */
  function InstantOf(st: Stamp): int
  {
    LocalInstant(DayNumber(st.date), st.hour, st.minute)
  }

  /** The instant of a minute of a day counted from 1970-01-01, local time
      eight hours ahead of UTC. */
  function LocalInstant(day: int, hour: nat, minute: nat): int
  {
    ((day * 24 + hour) * 60 + minute - ShanghaiOffsetMinutes) * MinuteMs
  }

  /** A trimmed, non-empty phrase: the relative reading if there is one, else the
      strict reading of the preprocessed text; an instant before now is refused. */
  function ResolvePhrase(raw: string, clk: Clock): (r: Resolution)
    requires ValidDate(clk.today)
    ensures r.Resolved? ==> r.instant >= clk.now
    ensures r.Rejected? ==> r.reason != EmptyPhrase
  {
    var t :=
      match RelativeInstant(raw, clk.now)
      case Some(i) => Some(i)
      case None =>
        match StrictParse(Preprocess(raw, clk))
        case Some(st) => Some(InstantOf(st))
        case None => None;
    match t
    case None => Rejected(Unparseable)
    case Some(i) => if i < clk.now then Rejected(PastTime) else Resolved(i)
  }

  /** `^#定时(闹钟)?` removed from the command text. */
  function StripCommand(text: string): string
  {
    if |text| >= 5 && text[..5] == "#定时闹钟" then text[5..]
    else if |text| >= 3 && text[..3] == "#定时" then text[3..]
    else text
  }

  /** The time step of the alarm command: the text after the command word, trimmed;
      an empty one is refused before anything is parsed. */
  function ResolveAlarmTime(text: string, clk: Clock): (r: Resolution)
    requires ValidDate(clk.today)
    ensures r == Rejected(EmptyPhrase) <==> Trim(StripCommand(text)) == []
    ensures r.Resolved? ==> r.instant >= clk.now
  {
    var raw := Trim(StripCommand(text));
    if raw == [] then Rejected(EmptyPhrase) else ResolvePhrase(raw, clk)
  }

  // ------------------------------------------ properties: relative phrases

  /** The duration rewrites leave alone a prefix holding neither `一` nor `半`. */
  lemma RewriteDurationsSkip(x: string, y: string)
    requires '一' !in x && '半' !in x
    ensures RewriteDurations(x + y) == x + RewriteDurations(y)
  {
    ReplaceAllSkip(x, y, "一个半小时", "90分钟");
    var y1 := ReplaceAll(y, "一个半小时", "90分钟");
    ReplaceAllSkip(x, y1, "半小时", "30分钟");
    var y2 := ReplaceAll(y1, "半小时", "30分钟");
    ReplaceAllSkip(x, y2, "一刻钟", "15分钟");
  }

  /** A digit run `s[i..e]` ended by a character that is neither a digit nor a
      space is read as a count exactly when the unit follows it. */
  lemma UnitAtRun(unit: string, s: string, i: nat, e: nat)
    requires i < e <= |s| && forall k :: i <= k < e ==> IsDigit(s[k])
    requires e == |s| || (!IsDigit(s[e]) && !IsSpace(s[e]))
    ensures AllDigits(s[i..e])
    ensures UnitAt(unit, s, i) == if OccursAt(s, unit, e) then Some(Value(s[i..e])) else None
  {
    assert DigitRunEnd(s, i) == e;
    assert SpaceRunEnd(s, e) == e;
  }

  /** A count is read only where the unit's first character occurs. */
  lemma UnitNeedsUnit(unit: string, s: string, i: nat)
    requires unit != []
    ensures UnitAt(unit, s, i).Some? ==> unit[0] in s
  {
    if DigitAt(s, i) {
      var k := SpaceRunEnd(s, DigitRunEnd(s, i));
      if OccursAt(s, unit, k) {
        assert s[k] == s[k..k + |unit|][0];
      }
    }
  }

  /** At a digit run followed directly by the unit, the run's value is read. */
  lemma UnitAtRunStart(unit: string, a: string, d: string, b: string)
    requires d != [] && AllDigits(d)
    requires unit != [] && !IsDigit(unit[0]) && !IsSpace(unit[0])
    ensures UnitAt(unit, a + d + unit + b, |a|) == Some(Value(d))
  {
    var p := a + d + unit + b;
    var e := |a| + |d|;
    forall k | |a| <= k < e ensures IsDigit(p[k]) {
      assert p[k] == d[k - |a|];
    }
    assert p[e] == unit[0];
    assert p[|a|..e] == d;
    assert p[e..e + |unit|] == unit;
    UnitAtRun(unit, p, |a|, e);
  }

  /** Before a digit run followed by the unit, with no digit in front of it,
      nothing matches; at the run, its value is read. */
  lemma UnitAfterPrefix(unit: string, a: string, d: string, b: string)
    requires NoDigits(a) && d != [] && AllDigits(d)
    requires unit != [] && !IsDigit(unit[0]) && !IsSpace(unit[0])
    ensures forall i :: 0 <= i < |a| ==> UnitAt(unit, a + d + unit + b, i).None?
    ensures UnitAt(unit, a + d + unit + b, |a|) == Some(Value(d))
  {
    var p := a + d + unit + b;
    forall i | 0 <= i < |a| ensures UnitAt(unit, p, i).None? {
      assert p[i] == a[i];
    }
    UnitAtRunStart(unit, a, d, b);
  }

  /** A minute count in the rewritten text decides the relative reading. */
  lemma RelativeByMinutes(raw: string, now: int, n: nat)
    requires FirstMatch<nat>(RewriteDurations(raw), 0, MinutesAt) == Some(n)
    ensures RelativeInstant(raw, now) == Some(now + n * MinuteMs)
  {
  }

  /** The first minute count in a text whose only earlier characters are not digits. */
  lemma MinutesMatch(a: string, d: string, b: string)
    requires NoDigits(a) && d != [] && AllDigits(d)
    ensures FirstMatch<nat>(a + d + "分钟后" + b, 0, MinutesAt) == Some(Value(d))
  {
    var p := a + d + "分钟后" + b;
    UnitAfterPrefix("分钟后", a, d, b);
    FirstMatchSkip<nat>(p, 0, |a|, MinutesAt);
  }

  /** `<n>分钟后` is read as n minutes from now, whatever follows it. */
  lemma MinutesPhrase(a: string, d: string, b: string, now: int)
    requires NoDigits(a) && '一' !in a && '半' !in a
    requires d != [] && AllDigits(d)
    ensures RelativeInstant(a + d + "分钟后" + b, now) == Some(now + Value(d) * MinuteMs)
  {
    var x := a + d + "分钟后";
    assert '一' !in d && '半' !in d;
    RewriteDurationsSkip(x, b);
    MinutesMatch(a, d, RewriteDurations(b));
  }

  /** A text without `一` or `半` is not changed by the duration rewrites. */
  lemma RewriteDurationsAbsent(p: string)
    requires '一' !in p && '半' !in p
    ensures RewriteDurations(p) == p
  {
    ReplaceAllAbsent(p, "一个半小时", "90分钟");
    ReplaceAllAbsent(p, "半小时", "30分钟");
    ReplaceAllAbsent(p, "一刻钟", "15分钟");
  }

  /** A text without `分` holds no minute count. */
  lemma NoMinuteCount(p: string)
    requires '分' !in p
    ensures FirstMatch<nat>(p, 0, MinutesAt) == None
  {
    forall i: nat ensures MinutesAt(p, i).None? {
      UnitNeedsUnit("分钟后", p, i);
    }
    FirstMatchNone<nat>(p, MinutesAt);
  }

  /** With no minute count in the rewritten text, an hour count decides the relative reading. */
  lemma RelativeByHours(raw: string, now: int, n: nat)
    requires FirstMatch<nat>(RewriteDurations(raw), 0, MinutesAt) == None
    requires FirstMatch<nat>(RewriteDurations(raw), 0, HoursAt) == Some(n)
    ensures RelativeInstant(raw, now) == Some(now + n * HourMs)
  {
  }

  /** The characters of an hour phrase: none of `一`, `半`, `分` when the parts around the count hold none. */
  lemma HourPhraseChars(a: string, d: string, b: string)
    requires '一' !in a && '半' !in a && '分' !in a && AllDigits(d)
    requires '一' !in b && '半' !in b && '分' !in b
    ensures var p := a + d + "小时后" + b; '一' !in p && '半' !in p && '分' !in p
  {
    assert '一' !in d && '半' !in d && '分' !in d;
  }

  /** In an hour phrase with no minute count and no duration word, the first
      hour count is the one written, and no minute count is found. */
  lemma HoursPhraseMatches(a: string, d: string, b: string)
    requires NoDigits(a) && '一' !in a && '半' !in a && '分' !in a
    requires d != [] && AllDigits(d)
    requires '一' !in b && '半' !in b && '分' !in b
    ensures FirstMatch<nat>(RewriteDurations(a + d + "小时后" + b), 0, MinutesAt) == None
    ensures FirstMatch<nat>(RewriteDurations(a + d + "小时后" + b), 0, HoursAt) == Some(Value(d))
  {
    HourPhraseUnchanged(a, d, b);
    HourPhraseFirstHours(a, d, b);
  }

  /** A text with an hour count and no duration word or minute unit is left as it is
      and holds no minute count. */
  lemma HourPhraseUnchanged(a: string, d: string, b: string)
    requires '一' !in a && '半' !in a && '分' !in a && AllDigits(d)
    requires '一' !in b && '半' !in b && '分' !in b
    ensures RewriteDurations(a + d + "小时后" + b) == a + d + "小时后" + b
    ensures FirstMatch<nat>(a + d + "小时后" + b, 0, MinutesAt) == None
  {
    HourPhraseChars(a, d, b);
    RewriteDurationsAbsent(a + d + "小时后" + b);
    NoMinuteCount(a + d + "小时后" + b);
  }

  /** The first hour count is the one after the digit-free prefix. */
  lemma HourPhraseFirstHours(a: string, d: string, b: string)
    requires NoDigits(a) && d != [] && AllDigits(d)
    ensures FirstMatch<nat>(a + d + "小时后" + b, 0, HoursAt) == Some(Value(d))
  {
    var p := a + d + "小时后" + b;
    UnitAfterPrefix("小时后", a, d, b);
    assert forall i :: 0 <= i < |a| ==> HoursAt(p, i).None?;
    assert HoursAt(p, |a|) == Some(Value(d));
    FirstMatchSkip<nat>(p, 0, |a|, HoursAt);
    FirstMatchAt<nat>(p, |a|, HoursAt);
  }

  /** `<n>小时后` is read as n hours from now when the text holds no minute count
      and no duration word. */
  lemma HoursPhrase(a: string, d: string, b: string, now: int)
    requires NoDigits(a) && '一' !in a && '半' !in a && '分' !in a
    requires d != [] && AllDigits(d)
    requires '一' !in b && '半' !in b && '分' !in b
    ensures RelativeInstant(a + d + "小时后" + b, now) == Some(now + Value(d) * HourMs)
  {
    HoursPhraseMatches(a, d, b);
    RelativeByHours(a + d + "小时后" + b, now, Value(d));
  }

  /** In `<x>小时后...`, no minute count starts inside the hour count or its unit. */
  lemma NoMinutesInHourCount(x: string, rest: string)
    requires x != [] && AllDigits(x)
    ensures forall i :: 0 <= i < |x| + 3 ==> MinutesAt(x + "小时后" + rest, i).None?
  {
    var p := x + "小时后" + rest;
    forall i | 0 <= i < |x| + 3 ensures MinutesAt(p, i).None? {
      if i < |x| {
        forall k | i <= k < |x| ensures IsDigit(p[k]) {
          assert p[k] == x[k];
        }
        assert p[|x|] == '小';
        UnitAtRun("分钟后", p, i, |x|);
      } else {
        assert p[i] == "小时后"[i - |x|];
      }
    }
  }

  /** The minute count after an hour count is the first one found. */
  lemma MinutesAfterHours(x: string, y: string, rest: string)
    requires x != [] && AllDigits(x) && y != [] && AllDigits(y)
    ensures FirstMatch<nat>(x + "小时后" + y + "分钟后" + rest, 0, MinutesAt) == Some(Value(y))
  {
    var a := x + "小时后";
    var p := a + y + "分钟后" + rest;
    assert p == x + "小时后" + (y + "分钟后" + rest);
    NoMinutesInHourCount(x, y + "分钟后" + rest);
    FirstMatchSkip<nat>(p, 0, |a|, MinutesAt);
    UnitAtRunStart("分钟后", a, y, rest);
  }

  /** An hour count and a minute count hold neither `一` nor `半`. */
  lemma HourMinuteChars(x: string, y: string)
    requires AllDigits(x) && AllDigits(y)
    ensures var p := x + "小时后" + y + "分钟后"; '一' !in p && '半' !in p
  {
    assert '一' !in x && '半' !in x && '一' !in y && '半' !in y;
  }

  /** After the rewrites, the first minute count is the one after the hour count. */
  lemma MinutesOverHoursMatch(x: string, y: string, b: string)
    requires x != [] && AllDigits(x) && y != [] && AllDigits(y)
    ensures FirstMatch<nat>(RewriteDurations(x + "小时后" + y + "分钟后" + b), 0, MinutesAt) == Some(Value(y))
  {
    var pre := x + "小时后" + y + "分钟后";
    HourMinuteChars(x, y);
    RewriteDurationsSkip(pre, b);
    MinutesAfterHours(x, y, RewriteDurations(b));
  }

  /** A minute count wins over an hour count that comes before it. */
  lemma MinutesOverHours(x: string, y: string, b: string, now: int)
    requires x != [] && AllDigits(x) && y != [] && AllDigits(y)
    ensures RelativeInstant(x + "小时后" + y + "分钟后" + b, now) == Some(now + Value(y) * MinuteMs)
  {
    MinutesOverHoursMatch(x, y, b);
    RelativeByMinutes(x + "小时后" + y + "分钟后" + b, now, Value(y));
  }

  /** The rewrites composed, one known step at a time. */
  lemma RewriteDurationsFrom(s: string, s1: string, s2: string, s3: string)
    requires ReplaceAll(s, "一个半小时", "90分钟") == s1
    requires ReplaceAll(s1, "半小时", "30分钟") == s2
    requires ReplaceAll(s2, "一刻钟", "15分钟") == s3
    ensures RewriteDurations(s) == s3
  {
  }

  /** A leading `半小时后` is turned into `30分钟后` by the second rewrite. */
  lemma HalfHourSecondStep(b1: string)
    ensures ReplaceAll("半小时后" + b1, "半小时", "30分钟") == "30分钟后" + ReplaceAll(b1, "半小时", "30分钟")
  {
    assert "半小时后" == "半小时" + "后" && "30分钟后" == "30分钟" + "后";
    ReplaceAllHeadSkip("半小时", "后", b1, "30分钟");
  }

  /** `半小时后` is rewritten to `30分钟后`. */
  lemma HalfHourRewrite(b: string)
    ensures RewriteDurations("半小时后" + b) == "30分钟后" + RewriteDurations(b)
  {
    var b1 := ReplaceAll(b, "一个半小时", "90分钟");
    var b2 := ReplaceAll(b1, "半小时", "30分钟");
    ReplaceAllSkip("半小时后", b, "一个半小时", "90分钟");
    HalfHourSecondStep(b1);
    ReplaceAllSkip("30分钟后", b2, "一刻钟", "15分钟");
    RewriteDurationsFrom("半小时后" + b, "半小时后" + b1, "30分钟后" + b2, "30分钟后" + RewriteDurations(b));
  }

  /** `半小时后` is thirty minutes from now. */
  lemma HalfHourPhrase(b: string, now: int)
    ensures RelativeInstant("半小时后" + b, now) == Some(now + 30 * MinuteMs)
  {
    HalfHourRewrite(b);
    ValueOfLiteral();
    MinutesMatch([], "30", RewriteDurations(b));
    assert [] + "30" + "分钟后" + RewriteDurations(b) == "30分钟后" + RewriteDurations(b);
    RelativeByMinutes("半小时后" + b, now, 30);
  }

  /** The first rewrite turns a leading `一个半小时后` into `90分钟后`. */
  lemma HourAndHalfFirstStep(b: string)
    ensures ReplaceAll("一个半小时后" + b, "一个半小时", "90分钟")
            == "90分钟后" + ReplaceAll(b, "一个半小时", "90分钟")
  {
    var b1 := ReplaceAll(b, "一个半小时", "90分钟");
    assert "一个半小时后" + b == "一个半小时" + ("后" + b);
    ReplaceAllHead("一个半小时", "后" + b, "90分钟");
    ReplaceAllSkip("后", b, "一个半小时", "90分钟");
    assert "90分钟" + ("后" + b1) == "90分钟后" + b1;
  }

  /** `一个半小时后` is rewritten to `90分钟后`, before `半小时` could claim its end. */
  lemma HourAndHalfRewrite(b: string)
    ensures RewriteDurations("一个半小时后" + b) == "90分钟后" + RewriteDurations(b)
  {
    var b1 := ReplaceAll(b, "一个半小时", "90分钟");
    var b2 := ReplaceAll(b1, "半小时", "30分钟");
    HourAndHalfFirstStep(b);
    ReplaceAllSkip("90分钟后", b1, "半小时", "30分钟");
    ReplaceAllSkip("90分钟后", b2, "一刻钟", "15分钟");
    RewriteDurationsFrom("一个半小时后" + b, "90分钟后" + b1, "90分钟后" + b2, "90分钟后" + RewriteDurations(b));
  }

  /** `一个半小时后` is ninety minutes from now. */
  lemma HourAndHalfPhrase(b: string, now: int)
    ensures RelativeInstant("一个半小时后" + b, now) == Some(now + 90 * MinuteMs)
  {
    HourAndHalfRewrite(b);
    ValueOfLiteral();
    MinutesMatch([], "90", RewriteDurations(b));
    assert [] + "90" + "分钟后" + RewriteDurations(b) == "90分钟后" + RewriteDurations(b);
    RelativeByMinutes("一个半小时后" + b, now, 90);
  }

  /** The first rewrite passes over a leading `一刻钟后`: its `一` starts no `一个半小时`. */
  lemma QuarterHourFirstStep(b: string)
    ensures ReplaceAll("一刻钟后" + b, "一个半小时", "90分钟") == "一刻钟后" + ReplaceAll(b, "一个半小时", "90分钟")
  {
    assert "一刻钟后" == ['一'] + "刻钟后";
    ReplaceAllFirstCharSkip('一', "刻钟后", b, "一个半小时", "90分钟");
  }

  /** The third rewrite turns a leading `一刻钟后` into `15分钟后`. */
  lemma QuarterHourThirdStep(b2: string)
    ensures ReplaceAll("一刻钟后" + b2, "一刻钟", "15分钟") == "15分钟后" + ReplaceAll(b2, "一刻钟", "15分钟")
  {
    assert "一刻钟后" == "一刻钟" + "后" && "15分钟后" == "15分钟" + "后";
    ReplaceAllHeadSkip("一刻钟", "后", b2, "15分钟");
  }

  /** `一刻钟后` is rewritten to `15分钟后`. */
  lemma QuarterHourRewrite(b: string)
    ensures RewriteDurations("一刻钟后" + b) == "15分钟后" + RewriteDurations(b)
  {
    var b1 := ReplaceAll(b, "一个半小时", "90分钟");
    var b2 := ReplaceAll(b1, "半小时", "30分钟");
    QuarterHourFirstStep(b);
    ReplaceAllSkip("一刻钟后", b1, "半小时", "30分钟");
    QuarterHourThirdStep(b2);
    RewriteDurationsFrom("一刻钟后" + b, "一刻钟后" + b1, "一刻钟后" + b2, "15分钟后" + RewriteDurations(b));
  }

  /** `一刻钟后` is fifteen minutes from now. */
  lemma QuarterHourPhrase(b: string, now: int)
    ensures RelativeInstant("一刻钟后" + b, now) == Some(now + 15 * MinuteMs)
  {
    QuarterHourRewrite(b);
    ValueOfLiteral();
    MinutesMatch([], "15", RewriteDurations(b));
    assert [] + "15" + "分钟后" + RewriteDurations(b) == "15分钟后" + RewriteDurations(b);
    RelativeByMinutes("一刻钟后" + b, now, 15);
  }

  // --------------------------------------------- properties: shorthands

  /** Replacing with two tables in turn is replacing with the joined table. */
  lemma {:induction false} ReplaceEachSplit(s: string, t1: seq<(string, string)>, t2: seq<(string, string)>)
    requires PairTable(t1) && PairTable(t2)
    ensures PairTable(t1 + t2)
    ensures ReplaceEach(s, t1 + t2) == ReplaceEach(ReplaceEach(s, t1), t2)
    decreases |t1|
  {
    if t1 == [] {
      assert t1 + t2 == t2;
    } else {
      assert (t1 + t2)[1..] == t1[1..] + t2;
      ReplaceEachSplit(ReplaceAll(s, t1[0].0, t1[0].1), t1[1..], t2);
    }
  }

  /** A text in which no pattern of the table occurs and which does not end
      with the first character of one. */
  ghost predicate PassesThrough(x: string, table: seq<(string, string)>)
    requires PairTable(table)
  {
    && (forall i, j :: 0 <= i < |table| ==> !OccursAt(x, table[i].0, j))
    && (forall i :: 0 <= i < |table| ==> x == [] || x[|x| - 1] != table[i].0[0])
  }

  /** Such a prefix is left untouched by the replacements. */
  lemma {:induction false} ReplaceEachPrefix(x: string, y: string, table: seq<(string, string)>)
    requires PairTable(table) && PassesThrough(x, table)
    ensures ReplaceEach(x + y, table) == x + ReplaceEach(y, table)
    decreases |table|
  {
    if table != [] {
      var pat, rep := table[0].0, table[0].1;
      ReplaceAllConcat(x, y, pat, rep);
      ReplaceAllNone(x, pat, rep);
      assert PassesThrough(x, table[1..]) by {
        forall i | 0 <= i < |table[1..]| ensures table[1..][i] == table[i + 1] { }
      }
      ReplaceEachPrefix(x, ReplaceAll(y, pat, rep), table[1..]);
    }
  }

  /** A two-character pattern occurs where its two characters stand side by side. */
  lemma OccursAtTwo(x: string, pat: string, j: int)
    requires |pat| == 2
    ensures OccursAt(x, pat, j) ==> 0 <= j && j + 1 < |x| && x[j] == pat[0] && x[j + 1] == pat[1]
  {
    if OccursAt(x, pat, j) {
      assert x[j..j + 2][0] == x[j] && x[j..j + 2][1] == x[j + 1];
    }
  }

  /** No character of `今明后` is followed by one of `晚早`, nor ends the text. */
  predicate ShorthandFree(x: string)
  {
    && (forall j :: 0 <= j < |x| - 1 && x[j] in "今明后" ==> x[j + 1] !in "晚早")
    && (x == [] || x[|x| - 1] !in "今明后")
  }

  lemma ShorthandsShape()
    ensures PairTable(Shorthands)
    ensures forall i :: 0 <= i < |Shorthands| ==> Shorthands[i].0[0] in "今明后" && Shorthands[i].0[1] in "晚早"
  {
  }

  /** The spelled-out forms hold no shorthand. */
  lemma SpelledOutFree(i: nat)
    requires i < |Shorthands|
    ensures ShorthandFree(Shorthands[i].1)
  {
    var long := Shorthands[i].1;
    assert long[1] !in "今明后" && long[2] !in "今明后" && long[3] !in "今明后";
    assert long[1] !in "晚早";
  }

  /** A shorthand-free text is left untouched by the expansion. */
  lemma ShorthandFreePasses(x: string)
    requires ShorthandFree(x)
    ensures PassesThrough(x, Shorthands)
  {
    ShorthandsShape();
    forall i, j | 0 <= i < |Shorthands| ensures !OccursAt(x, Shorthands[i].0, j) {
      OccursAtTwo(x, Shorthands[i].0, j);
    }
  }

  /** How one table entry spells out its shorthand at the front of a text. */
  lemma SpelledOutAt(before: seq<(string, string)>, short: string, long: string,
                     after: seq<(string, string)>, y: string)
    requires Shorthands == before + [(short, long)] + after
    requires |short| == 2 && PairTable(before) && PairTable(after)
    requires PassesThrough(short, before) && PassesThrough(long, after)
    ensures ExpandShorthand(short + y) == long + ExpandShorthand(y)
  {
    var rest := [(short, long)] + after;
    assert Shorthands == before + rest;
    ReplaceEachSplit(short + y, before, rest);
    ReplaceEachSplit(y, before, rest);
    ReplaceEachPrefix(short, y, before);
    var y1 := ReplaceEach(y, before);
    assert rest[1..] == after;
    ReplaceAllHead(short, y1, long);
    ReplaceEachPrefix(long, ReplaceAll(y1, short, long), after);
  }

  /** A shorthand is left alone by the entries before it in the table. */
  lemma ShortPassesBefore(i: nat)
    requires i < |Shorthands|
    ensures PairTable(Shorthands[..i]) && PassesThrough(Shorthands[i].0, Shorthands[..i])
  {
    ShorthandsShape();
    var short, before := Shorthands[i].0, Shorthands[..i];
    forall k, j | 0 <= k < |before| ensures !OccursAt(short, before[k].0, j) {
      OccursAtTwo(short, before[k].0, j);
    }
  }

  /** A spelled-out form is left alone by the entries after its shorthand. */
  lemma LongPassesAfter(i: nat)
    requires i < |Shorthands|
    ensures PairTable(Shorthands[i + 1..]) && PassesThrough(Shorthands[i].1, Shorthands[i + 1..])
  {
    ShorthandsShape();
    var long, after := Shorthands[i].1, Shorthands[i + 1..];
    forall k, j | 0 <= k < |after| ensures !OccursAt(long, after[k].0, j) {
      OccursAtTwo(long, after[k].0, j);
    }
  }

  /** Each shorthand selects what its spelled-out form selects: expanding
      `今晚...` gives exactly what expanding `今天晚上...` gives, and so on. */
  lemma ShorthandSpelledOut(i: nat, y: string)
    requires i < |Shorthands|
    ensures ExpandShorthand(Shorthands[i].0 + y) == Shorthands[i].1 + ExpandShorthand(y)
    ensures ExpandShorthand(Shorthands[i].0 + y) == ExpandShorthand(Shorthands[i].1 + y)
  {
    var short, long := Shorthands[i].0, Shorthands[i].1;
    var before, after := Shorthands[..i], Shorthands[i + 1..];
    assert Shorthands == before + [(short, long)] + after;
    assert PairTable(Shorthands) && PairTable(before) && PairTable(after) && |short| == 2 by {
      ShorthandsShape();
    }
    ShortPassesBefore(i);
    LongPassesAfter(i);
    SpelledOutAt(before, short, long, after, y);
    assert PassesThrough(long, Shorthands) by {
      SpelledOutFree(i);
      ShorthandFreePasses(long);
    }
    ReplaceEachPrefix(long, y, Shorthands);
  }

  // ------------------------------------------ properties: time of day

  /** One or two digits followed by a non-digit of `follow` are read in full. */
  lemma DigitsBeforeRun(s: string, q: nat, d: string, follow: set<char>)
    requires 1 <= |d| <= 2 && AllDigits(d) && q + |d| < |s| && s[q..q + |d|] == d
    requires s[q + |d|] in follow && !IsDigit(s[q + |d|])
    ensures DigitsBefore(s, q, follow) == Some(q + |d|)
  {
    assert s[q] == d[0];
    if |d| == 2 {
      assert s[q + 1] == d[1];
    }
  }

  /** One or two digits not followed by a third are read in full. */
  lemma TrailingDigitsRun(s: string, q: nat, d: string)
    requires 1 <= |d| <= 2 && AllDigits(d) && q + |d| <= |s| && s[q..q + |d|] == d
    requires |d| == 2 || !DigitAt(s, q + 1)
    ensures TrailingDigits(s, q) == Some(q + |d|)
  {
    assert s[q] == d[0];
    if |d| == 2 {
      assert s[q + 1] == d[1];
    }
  }

  /** A clock time is read only where a colon is followed by a digit. */
  lemma ClockNeedsMinute(s: string, i: nat)
    ensures ClockAt(s, i).Some? ==> exists k :: i < k < |s| - 1 && s[k] == ':' && IsDigit(s[k + 1])
  {
    match DigitsBefore(s, i, {':'})
    case None =>
    case Some(he) =>
      match TrailingDigits(s, he + 1)
      case None =>
      case Some(me) =>
        assert s[he + 1] == s[he + 1..me][0];
  }

  /** An hour or a clock time is read only where a digit stands. */
  lemma ClockNeedsDigit(s: string, i: nat)
    ensures ClockAt(s, i).Some? ==> DigitAt(s, i)
    ensures HourAt(s, i).Some? ==> DigitAt(s, i)
  {
    match DigitsBefore(s, i, {':'})
    case None =>
    case Some(he) => assert s[i] == s[i..he][0];
  }

  /** Digit runs before a colon and after it, holding `h` and `m`, are read as `h:m`. */
  lemma ClockReadValues(s: string, p: nat, he: nat, me: nat, h: nat, m: nat)
    requires DigitsBefore(s, p, {':'}) == Some(he) && TrailingDigits(s, he + 1) == Some(me)
    requires Value(s[p..he]) == h && Value(s[he + 1..me]) == m
    ensures ClockAt(s, p) == Some((h, m))
  {
  }

  /** In `H:M`, the hour runs up to the colon and the minute to the end. */
  lemma ClockTextDigits(hs: string, ms: string)
    requires 1 <= |hs| <= 2 && AllDigits(hs) && 1 <= |ms| <= 2 && AllDigits(ms)
    ensures DigitsBefore(hs + ":" + ms, 0, {':'}) == Some(|hs|)
    ensures TrailingDigits(hs + ":" + ms, |hs| + 1) == Some(|hs| + 1 + |ms|)
    ensures (hs + ":" + ms)[0..|hs|] == hs && (hs + ":" + ms)[|hs| + 1..|hs| + 1 + |ms|] == ms
  {
    var s := hs + ":" + ms;
    assert s[0..|hs|] == hs && s[|hs|] == ':';
    assert s[|hs| + 1..|hs| + 1 + |ms|] == ms && |s| == |hs| + 1 + |ms|;
    DigitsBeforeRun(s, 0, hs, {':'});
    TrailingDigitsRun(s, |hs| + 1, ms);
  }

  /** `H:M` as the whole text is read as that hour and minute where it starts. */
  lemma ClockTextRead(hs: string, ms: string)
    requires 1 <= |hs| <= 2 && AllDigits(hs) && 1 <= |ms| <= 2 && AllDigits(ms)
    ensures ClockAt(hs + ":" + ms, 0) == Some((Value(hs), Value(ms)))
  {
    ClockTextDigits(hs, ms);
    ClockReadValues(hs + ":" + ms, 0, |hs|, |hs| + 1 + |ms|, Value(hs), Value(ms));
  }

  /** `H:M` as the whole text is read as that hour and minute. */
  lemma ClockAtStart(hs: string, ms: string)
    requires 1 <= |hs| <= 2 && AllDigits(hs) && 1 <= |ms| <= 2 && AllDigits(ms)
    ensures FirstMatch(hs + ":" + ms, 0, ClockAt) == Some((Value(hs), Value(ms)))
  {
    ClockTextRead(hs, ms);
    FirstMatchAt(hs + ":" + ms, 0, ClockAt);
  }

  /** Text without a character that starts a period marker is not changed by removing them. */
  lemma {:induction false} StripPeriodsNone(s: string)
    requires forall i :: 0 <= i < |s| ==> !MarkerStart(s[i])
    ensures StripPeriods(s) == s
  {
    if s != [] {
      if |s| >= 2 {
        assert s[..2][0] == s[0];
        assert !IsPeriodMarker(s[..2]);
      }
      StripPeriodsNone(s[1..]);
      assert [s[0]] + s[1..] == s;
    }
  }

  /** A leading period marker is removed. */
  lemma StripLeadingMarker(marker: string, rest: string)
    requires marker == [] || IsPeriodMarker(marker)
    ensures StripPeriods(marker + rest) == StripPeriods(rest)
  {
    if marker == [] {
      assert marker + rest == rest;
    } else {
      assert (marker + rest)[..2] == marker && (marker + rest)[2..] == rest;
    }
  }

  /** The markers that say afternoon or evening. */
  predicate PmMarker(marker: string)
  {
    marker == "下午" || marker == "晚上"
  }

  /** Behind a marker, with no `下` or `晚` in the rest, the text says afternoon
      exactly when the marker does. */
  lemma SaysPmMarker(marker: string, rest: string)
    requires marker == [] || IsPeriodMarker(marker)
    requires '下' !in rest && '晚' !in rest
    ensures SaysPm(marker + rest) <==> PmMarker(marker)
  {
    var t := marker + rest;
    if PmMarker(marker) {
      assert t[0..2] == marker;
      assert OccursAt(t, marker, 0);
    } else {
      assert '下' !in t && '晚' !in t;
      ContainsChar(t, "下午", 0);
      ContainsChar(t, "晚上", 0);
    }
  }

  /** Text made only of digits and colons. */
  predicate DigitsColons(s: string)
  {
    forall i :: 0 <= i < |s| ==> IsDigit(s[i]) || s[i] == ':'
  }

  /** Digits and colons hold no marker character and survive marker removal. */
  lemma DigitsColonsPlain(s: string)
    requires DigitsColons(s)
    ensures '下' !in s && '晚' !in s && StripPeriods(s) == s
  {
    StripPeriodsNone(s);
  }

  /** Digits and colons that start and end with a digit survive marker removal and trimming. */
  lemma DigitsColonsKept(s: string)
    requires DigitsColons(s) && s != [] && IsDigit(s[0]) && IsDigit(s[|s| - 1])
    ensures '下' !in s && '晚' !in s && Trim(StripPeriods(s)) == s
  {
    assert '下' !in s && '晚' !in s && StripPeriods(s) == s by { DigitsColonsPlain(s); }
    assert Trim(s) == s by {
      DigitNotSpace(s[0]);
      DigitNotSpace(s[|s| - 1]);
      TrimKeeps(s);
    }
  }

  /** `H:M` is made of digits and colons, and starts and ends with a digit. */
  lemma ClockDigitsColons(hs: string, ms: string)
    requires hs != [] && AllDigits(hs) && ms != [] && AllDigits(ms)
    ensures DigitsColons(hs + ":" + ms)
    ensures IsDigit((hs + ":" + ms)[0]) && IsDigit((hs + ":" + ms)[|hs + ":" + ms| - 1])
  {
    var rest := hs + ":" + ms;
    forall i | 0 <= i < |rest| ensures IsDigit(rest[i]) || rest[i] == ':' {
      if i < |hs| { assert rest[i] == hs[i]; }
      else if i > |hs| { assert rest[i] == ms[i - |hs| - 1]; }
    }
    assert rest[0] == hs[0] && rest[|rest| - 1] == ms[|ms| - 1];
  }

  /** `H:M` holds no marker character and survives marker removal and trimming. */
  lemma ClockRest(hs: string, ms: string)
    requires 1 <= |hs| <= 2 && AllDigits(hs) && 1 <= |ms| <= 2 && AllDigits(ms)
    ensures '下' !in hs + ":" + ms && '晚' !in hs + ":" + ms
    ensures Trim(StripPeriods(hs + ":" + ms)) == hs + ":" + ms
  {
    ClockDigitsColons(hs, ms);
    DigitsColonsKept(hs + ":" + ms);
  }

  /** An optional period marker, then `H:M`: the hour and minute are read and the
      afternoon rule applied. */
  lemma MarkedClock(marker: string, hs: string, ms: string)
    requires marker == [] || IsPeriodMarker(marker)
    requires 1 <= |hs| <= 2 && AllDigits(hs) && 1 <= |ms| <= 2 && AllDigits(ms)
    ensures ReadClock(marker + hs + ":" + ms) == (PmAdjust(Value(hs), PmMarker(marker)), Value(ms))
  {
    var rest := hs + ":" + ms;
    ClockRest(hs, ms);
    SaysPmMarker(marker, rest);
    StripLeadingMarker(marker, rest);
    ClockAtStart(hs, ms);
    ReadClockFrom(marker + rest, rest, (Value(hs), Value(ms)));
    Assoc(marker + hs, ":", ms);
    Assoc(marker, hs, ":" + ms);
    Assoc(hs, ":", ms);
  }

  /** A time text without `中` or `半` reaches the clock reading unchanged. */
  lemma NoRewrite(t: string)
    requires '中' !in t && '半' !in t
    ensures TimeOfDay(t) == ReadClock(t)
  {
    ReplaceAllAbsent(t, "中午", "12:00");
    ReplaceAllAbsent(t, "半", "30");
    TimeOfDayFrom(t, t);
  }

  /** Digits and colons behind an optional marker hold neither `中` nor `半`. */
  lemma ClockTextPlain(marker: string, hs: string, ms: string)
    requires marker == [] || IsPeriodMarker(marker)
    requires AllDigits(hs) && AllDigits(ms)
    ensures '中' !in marker + hs + ":" + ms && '半' !in marker + hs + ":" + ms
  {
    var t := marker + hs + ":" + ms;
    forall i | 0 <= i < |t| ensures t[i] != '中' && t[i] != '半' {
      if i >= |marker| + |hs| + 1 { assert t[i] == ms[i - |marker| - |hs| - 1]; }
      else if i >= |marker| { assert t[i] == (hs + ":")[i - |marker|]; }
    }
  }

  /** `H:M` after an optional period marker: both are taken, and twelve is added
      to an hour from 1 to 11 exactly when the marker is `下午` or `晚上`. */
  lemma ClockTimeTaken(marker: string, hs: string, ms: string)
    requires marker == [] || IsPeriodMarker(marker)
    requires 1 <= |hs| <= 2 && AllDigits(hs) && 1 <= |ms| <= 2 && AllDigits(ms)
    ensures TimeOfDay(marker + hs + ":" + ms) == (PmAdjust(Value(hs), PmMarker(marker)), Value(ms))
  {
    ClockTextPlain(marker, hs, ms);
    NoRewrite(marker + hs + ":" + ms);
    MarkedClock(marker, hs, ms);
  }

  /** `H` or `H:` is made of digits and colons, with digits everywhere but at the end. */
  lemma HourDigitsColons(hs: string, tail: string)
    requires AllDigits(hs) && (tail == "" || tail == ":")
    ensures DigitsColons(hs + tail)
    ensures forall i :: 0 <= i < |hs + tail| - 1 ==> IsDigit((hs + tail)[i])
  {
    var rest := hs + tail;
    forall i | 0 <= i < |rest| ensures IsDigit(rest[i]) || rest[i] == ':' {
      if i < |hs| { assert rest[i] == hs[i]; }
    }
    forall i | 0 <= i < |rest| - 1 ensures IsDigit(rest[i]) {
      assert rest[i] == hs[i];
    }
  }

  /** Text with digits everywhere but at the end holds no clock time. */
  lemma NoClockTime(s: string)
    requires forall i :: 0 <= i < |s| - 1 ==> IsDigit(s[i])
    ensures FirstMatch(s, 0, ClockAt) == None
  {
    forall i: nat ensures ClockAt(s, i).None? {
      ClockNeedsMinute(s, i);
    }
    FirstMatchNone(s, ClockAt);
  }

  /** `H`, or `H:` (what `H点` becomes), holds no marker character, survives
      marker removal and trimming, and is read as a bare hour. */
  lemma HourRest(hs: string, tail: string)
    requires 1 <= |hs| <= 2 && AllDigits(hs) && (tail == "" || tail == ":")
    ensures '下' !in hs + tail && '晚' !in hs + tail
    ensures Trim(StripPeriods(hs + tail)) == hs + tail
    ensures FirstMatch(hs + tail, 0, ClockAt) == None
    ensures FirstMatch(hs + tail, 0, HourAt) == Some(Value(hs))
  {
    HourRestKept(hs, tail);
    HourDigitsColons(hs, tail);
    NoClockTime(hs + tail);
    HourRestRead(hs, tail);
  }

  /** `H` or `H:` holds no marker character and survives marker removal and trimming. */
  lemma HourRestKept(hs: string, tail: string)
    requires 1 <= |hs| <= 2 && AllDigits(hs) && (tail == "" || tail == ":")
    ensures '下' !in hs + tail && '晚' !in hs + tail
    ensures Trim(StripPeriods(hs + tail)) == hs + tail
  {
    var rest := hs + tail;
    HourDigitsColons(hs, tail);
    DigitsColonsPlain(rest);
    assert rest[0] == hs[0] && rest[|rest| - 1] == (if tail == "" then hs[|hs| - 1] else ':');
    assert Trim(rest) == rest by {
      DigitNotSpace(hs[0]);
      if tail == "" {
        DigitNotSpace(hs[|hs| - 1]);
      }
      TrimKeeps(rest);
    }
  }

  /** `H` or `H:` is read as the bare hour `H` where it starts. */
  lemma HourRestRead(hs: string, tail: string)
    requires 1 <= |hs| <= 2 && AllDigits(hs) && (tail == "" || tail == ":")
    ensures FirstMatch(hs + tail, 0, HourAt) == Some(Value(hs))
  {
    var rest := hs + tail;
    assert HourAt(rest, 0) == Some(Value(hs)) by {
      assert rest[0..|hs|] == hs;
      TrailingDigitsRun(rest, 0, hs);
    }
    FirstMatchAt(rest, 0, HourAt);
  }

  /** Once the two rewrites are known, the time of day is the clock read from their result. */
  lemma TimeOfDayFrom(t: string, t1: string)
    requires ReplaceAll(ReplaceAll(t, "中午", "12:00"), "半", "30") == t1
    ensures TimeOfDay(t) == ReadClock(t1)
  {
  }

  /** An optional period marker, then `H` or `H:`: the hour is read, the minute
      is 0, and the afternoon rule applied. */
  lemma MarkedHour(marker: string, hs: string, tail: string)
    requires marker == [] || IsPeriodMarker(marker)
    requires 1 <= |hs| <= 2 && AllDigits(hs) && (tail == "" || tail == ":")
    ensures ReadClock(marker + hs + tail) == (PmAdjust(Value(hs), PmMarker(marker)), 0)
  {
    var rest := hs + tail;
    HourRest(hs, tail);
    SaysPmMarker(marker, rest);
    StripLeadingMarker(marker, rest);
    ReadClockHourFrom(marker + rest, rest, Value(hs));
    Assoc(marker, hs, tail);
  }

  /** Neither `中` nor `半` stands in a marker followed by an hour and an optional colon. */
  lemma HourTextPlain(marker: string, hs: string, tail: string)
    requires marker == [] || IsPeriodMarker(marker)
    requires AllDigits(hs) && (tail == "" || tail == ":")
    ensures '中' !in marker + hs + tail && '半' !in marker + hs + tail
  {
    var t := marker + hs + tail;
    forall i | 0 <= i < |t| ensures t[i] != '中' && t[i] != '半' {
      if |marker| <= i < |marker| + |hs| { assert t[i] == hs[i - |marker|]; }
    }
  }

  /** `H` or `H点` after an optional period marker: the minute is 0, and twelve is
      added to an hour from 1 to 11 exactly when the marker is `下午` or `晚上`. */
  lemma BareHourTaken(marker: string, hs: string, tail: string)
    requires marker == [] || IsPeriodMarker(marker)
    requires 1 <= |hs| <= 2 && AllDigits(hs) && (tail == "" || tail == ":")
    ensures TimeOfDay(marker + hs + tail) == (PmAdjust(Value(hs), PmMarker(marker)), 0)
  {
    HourTextPlain(marker, hs, tail);
    NoRewrite(marker + hs + tail);
    MarkedHour(marker, hs, tail);
  }

  /** `H点半` (read as `H:半`) after an optional period marker is half past the hour. */
  lemma HalfPast(marker: string, hs: string)
    requires marker == [] || IsPeriodMarker(marker)
    requires 1 <= |hs| <= 2 && AllDigits(hs)
    ensures TimeOfDay(marker + hs + ":半") == (PmAdjust(Value(hs), PmMarker(marker)), 30)
  {
    var x := marker + hs + ":";
    HourTextPlain(marker, hs, ":");
    HalfRewrite(x);
    HalfText(marker + hs);
    TimeOfDayFrom(marker + hs + ":半", x + "30");
    ValueOfLiteral();
    MarkedClock(marker, hs, "30");
  }

  /** A trailing `半` becomes `30`. */
  lemma HalfRewrite(x: string)
    requires '中' !in x && '半' !in x
    ensures ReplaceAll(ReplaceAll(x + "半", "中午", "12:00"), "半", "30") == x + "30"
  {
    assert '中' !in x + "半";
    ReplaceAllAbsent(x + "半", "中午", "12:00");
    ReplaceAllSkip(x, "半", "半", "30");
    ReplaceAllHead("半", [], "30");
    assert "半" + [] == "半" && "30" + [] == "30";
  }

  /** A first character that starts no marker is kept, and removal goes on after it. */
  lemma StripPeriodsStep(x: string, z: string)
    requires x != [] && !MarkerStart(x[0])
    ensures StripPeriods(x + z) == [x[0]] + StripPeriods(x[1..] + z)
  {
    var s := x + z;
    if |s| >= 2 {
      assert s[..2][0] == x[0];
      assert !IsPeriodMarker(s[..2]);
    }
    assert s[0] == x[0] && s[1..] == x[1..] + z;
  }

  /** Text without a character that starts a period marker passes through marker removal. */
  lemma {:induction false} StripPeriodsPrefix(x: string, z: string)
    requires forall i :: 0 <= i < |x| ==> !MarkerStart(x[i])
    ensures StripPeriods(x + z) == x + StripPeriods(z)
  {
    if x != [] {
      StripPeriodsStep(x, z);
      assert forall i :: 0 <= i < |x[1..]| ==> !MarkerStart(x[1..][i]);
      StripPeriodsPrefix(x[1..], z);
      ConsAppend(x, StripPeriods(z));
    } else {
      assert x + z == z;
    }
  }

  /** Once the cleaned text and its first `H:M` are known, the clock read is that
      hour and minute after the afternoon rule. */
  lemma ReadClockFrom(t: string, t2: string, hm: (nat, nat))
    requires Trim(StripPeriods(t)) == t2 && FirstMatch(t2, 0, ClockAt) == Some(hm)
    ensures ReadClock(t) == (PmAdjust(hm.0, SaysPm(t)), hm.1)
  {
  }

  /** Once the cleaned text is known to hold no `H:M` but an hour, the clock read
      is that hour on the hour, after the afternoon rule. */
  lemma ReadClockHourFrom(t: string, t2: string, h: nat)
    requires Trim(StripPeriods(t)) == t2 && FirstMatch(t2, 0, ClockAt) == None
    requires FirstMatch(t2, 0, HourAt) == Some(h)
    ensures ReadClock(t) == (PmAdjust(h, SaysPm(t)), 0)
  {
  }

  /** `12:00` at the start of a text is the first clock time read. */
  lemma NoonClockAt(y: string)
    ensures FirstMatch("12:00" + y, 0, ClockAt) == Some((12, 0))
  {
    var t2 := "12:00" + y;
    assert t2[0..2] == "12" && t2[2] == ':' && t2[3..5] == "00";
    ValueOfLiteral();
    DigitsBeforeRun(t2, 0, "12", {':'});
    TrailingDigitsRun(t2, 3, "00");
  }

  /** A text that starts with `12:00` reads as twelve o'clock, whatever follows. */
  lemma ReadsNoon(z: string)
    ensures ReadClock("12:00" + z) == (12, 0)
  {
    var y := TrimEnd(StripPeriods(z));
    assert Trim(StripPeriods("12:00" + z)) == "12:00" + y by {
      StripPeriodsPrefix("12:00", z);
      TrimPrefix("12:00", StripPeriods(z));
    }
    NoonClockAt(y);
    ReadClockFrom("12:00" + z, "12:00" + y, (12, 0));
  }

  /** `中午` is twelve o'clock, whatever follows it and whatever period is named:
      the afternoon rule leaves twelve alone, and the clock read first is `12:00`. */
  lemma NoonIsTwelve(z: string)
    ensures TimeOfDay("中午" + z) == (12, 0)
  {
    var z1 := ReplaceAll(z, "中午", "12:00");
    assert ReplaceAll(ReplaceAll("中午" + z, "中午", "12:00"), "半", "30")
           == "12:00" + ReplaceAll(z1, "半", "30") by {
      ReplaceAllHead("中午", z, "12:00");
      ReplaceAllSkip("12:00", z1, "半", "30");
    }
    TimeOfDayFrom("中午" + z, "12:00" + ReplaceAll(z1, "半", "30"));
    ReadsNoon(ReplaceAll(z1, "半", "30"));
  }

  /** A time text without digits, `中` or `半` is 08:00, or 20:00 after the
      afternoon rule when it says `下午` or `晚上`. */
  lemma DefaultTime(t: string)
    requires NoDigits(t) && '中' !in t && '半' !in t
    ensures TimeOfDay(t) == (if SaysPm(t) then 20 else 8, 0)
  {
    ReplaceAllAbsent(t, "中午", "12:00");
    ReplaceAllAbsent(t, "半", "30");
    var t2 := Trim(StripPeriods(t));
    TrimSubset(StripPeriods(t));
    StripPeriodsSubset(t);
    forall i | 0 <= i < |t2| ensures !IsDigit(t2[i]) {
      var c := t2[i];
      assert c in t2;
      assert c in t;
    }
    forall i: nat ensures ClockAt(t2, i).None? && HourAt(t2, i).None? {
      ClockNeedsDigit(t2, i);
    }
    FirstMatchNone(t2, ClockAt);
    FirstMatchNone(t2, HourAt);
  }

  // ------------------------------------------------- properties: dates

  /** Without `天` there is no day keyword. */
  lemma NoDayKeyword(t: string)
    requires '天' !in t
    ensures DayKeyword(t) == None
  {
    ContainsChar(t, "后天", 1);
    ContainsChar(t, "明天", 1);
    ContainsChar(t, "今天", 1);
  }

  /** The first day keyword found decides: `后天` before `明天` before `今天`. */
  lemma KeywordFound(t: string, k: nat)
    requires k <= 2 && Contains(t, DayWord(k))
    requires forall j :: k < j <= 2 ==> !Contains(t, DayWord(j))
    ensures DayKeyword(t) == Some(k)
  {
    if k < 2 {
      assert !Contains(t, DayWord(2));
    }
    if k < 1 {
      assert !Contains(t, DayWord(1));
    }
  }

  /** Only the first occurrence of the keyword is removed. */
  lemma KeywordRemoved(a: string, w: string, b: string)
    requires |w| == 2 && w[0] != w[1] && !Contains(a, w)
    ensures Contains(a + w + b, w)
    ensures ReplaceFirst(a + w + b, w, "") == a + b
  {
    var t := a + w + b;
    assert t[|a|..|a| + 2] == w;
    assert OccursAt(t, w, |a|);
    forall j | 0 <= j < |a| ensures !OccursAt(t, w, j) {
      OccursAtTwo(t, w, j);
      OccursAtTwo(a, w, j);
      if j + 1 < |a| {
        assert t[j] == a[j] && t[j + 1] == a[j + 1];
        assert a[j..j + 2] == [a[j], a[j + 1]] && w == [w[0], w[1]];
        assert OccursAt(t, w, j) ==> OccursAt(a, w, j);
      } else {
        assert t[j + 1] == w[0];
      }
    }
    assert t[..|a|] + "" + t[|a| + 2..] == a + b;
  }

  /** A day keyword fixes the date to that many days after today, and only its
      first occurrence is removed from the text; a keyword tried earlier
      (`后天`, then `明天`, then `今天`) wins wherever it stands. */
  lemma KeywordDate(a: string, k: nat, b: string, clk: Clock)
    requires ValidDate(clk.today) && k <= 2
    requires !Contains(a, DayWord(k))
    requires forall j :: k < j <= 2 ==> !Contains(a + DayWord(k) + b, DayWord(j))
    ensures ResolveDate(a + DayWord(k) + b, clk)
            == DateSplit(FormatDate(AddDays(clk.today, k)), Trim(a + b))
  {
    KeywordRemoved(a, DayWord(k), b);
    KeywordFound(a + DayWord(k) + b, k);
  }

  /** Every character of a date printed with a four-digit year is a digit or `-`. */
  lemma DateTextChars(d: Date)
    requires ValidDate(d) && 0 <= d.year <= 9999
    ensures forall i :: 0 <= i < |FormatDate(d)| ==> IsDigit(FormatDate(d)[i]) || FormatDate(d)[i] == '-'
  {
    FormatDateLayout(d);
    var s := FormatDate(d);
    forall i | 0 <= i < |s| ensures IsDigit(s[i]) || s[i] == '-' {
      if i < 4 { assert s[i] == s[0..4][i]; }
      else if 5 <= i < 7 { assert s[i] == s[5..7][i - 5]; }
      else if 8 <= i { assert s[i] == s[8..10][i - 8]; }
    }
  }

  /** `YYYY-MM-DD` at the front of a text is a numeric date match there. */
  lemma NumericDateRun(x: string, r: string, ys: string, ms: string, ds: string)
    requires |ys| == 4 && AllDigits(ys) && |ms| == 2 && AllDigits(ms) && |ds| == 2 && AllDigits(ds)
    requires |x| == 10 && x[0..4] == ys && x[4] == '-' && x[5..7] == ms && x[7] == '-' && x[8..10] == ds
    ensures NumericDateAt(x + r, 0) == Some(DateMatch(x, Some(Value(ys)), Some(Value(ms)), Value(ds)))
  {
    var t := x + r;
    assert t[0..4] == ys && t[4] == '-' && t[5..7] == ms && t[7] == '-' && t[8..10] == ds && t[0..10] == x;
    DigitsBeforeRun(t, 5, ms, {'-', '/'});
    TrailingDigitsRun(t, 8, ds);
  }

  /** A printed date at the front of a text is a numeric date match there. */
  lemma NumericDateAtStart(d: Date, r: string)
    requires ValidDate(d) && 0 <= d.year <= 9999
    ensures NumericDateAt(FormatDate(d) + r, 0) == Some(DateMatch(FormatDate(d), Some(d.year), Some(d.month), d.day))
  {
    FormatDateLayout(d);
    var s := FormatDate(d);
    NumericDateRun(s, r, s[0..4], s[5..7], s[8..10]);
  }

  /** A printed date at the front of a text is the first numeric date matched. */
  lemma NumericDateAtFront(d: Date, r: string)
    requires ValidDate(d) && 0 <= d.year <= 9999
    ensures FirstMatch(FormatDate(d) + r, 0, NumericDateAt)
            == Some(DateMatch(FormatDate(d), Some(d.year), Some(d.month), d.day))
  {
    NumericDateAtStart(d, r);
  }

  /** A printed date at the front of a text, with no `天` after it, is kept as the
      date and the rest is the time text. */
  lemma ExplicitDate(d: Date, r: string, clk: Clock)
    requires ValidDate(clk.today) && ValidDate(d) && 0 <= d.year <= 9999
    requires '天' !in r
    ensures ResolveDate(FormatDate(d) + r, clk) == DateSplit(FormatDate(d), Trim(r))
  {
    var t := FormatDate(d) + r;
    DateTextChars(d);
    assert '天' !in FormatDate(d);
    NoDayKeyword(t);
    NumericDateAtFront(d, r);
    ReplaceFirstAtStart(FormatDate(d), r);
  }

  /** A numeric date `Y-M-D` as text: digits and the two separators only. */
  lemma NumericDateChars(ys: string, s1: char, ms: string, s2: char, ds: string)
    requires AllDigits(ys) && AllDigits(ms) && AllDigits(ds) && s1 in "-/" && s2 in "-/"
    ensures var x := ys + [s1] + ms + [s2] + ds;
      && (forall i :: 0 <= i < |x| ==> IsDigit(x[i]) || x[i] in "-/")
      && '天' !in x && '一' !in x && '半' !in x && '刻' !in x && '分' !in x && '小' !in x
      && '：' !in x && '点' !in x && '号' !in x
  {
    var x := ys + [s1] + ms + [s2] + ds;
    forall i | 0 <= i < |x| ensures IsDigit(x[i]) || x[i] in "-/" {
      if i < |ys| {
        assert x[i] == ys[i];
      } else if |ys| < i < |ys| + 1 + |ms| {
        assert x[i] == ms[i - |ys| - 1];
      } else if |ys| + 1 + |ms| < i {
        assert x[i] == ds[i - |ys| - |ms| - 2];
      }
    }
  }

  /** Where the year, the separators, the month and the day of `Y-M-D` stand
      when more text follows. */
  lemma NumericDateLayout(ys: string, s1: char, ms: string, s2: char, ds: string, r: string)
    requires |ys| == 4 && AllDigits(ys) && s1 in {'-', '/'} && s2 in {'-', '/'}
    requires 1 <= |ds| <= 2 && (|ds| == 2 || r == [] || !IsDigit(r[0]))
    ensures var x := ys + [s1] + ms + [s2] + ds; var t := x + r; var me := 5 + |ms|;
      && 4 < |t| && AllDigits(t[0..4]) && t[0..4] == ys && t[4] in {'-', '/'}
      && me < |t| && t[5..me] == ms && t[me] in {'-', '/'} && !IsDigit(t[me])
      && |x| == me + 1 + |ds| && |x| <= |t| && t[me + 1..|x|] == ds && t[0..|x|] == x
      && (|ds| == 2 || !DigitAt(t, me + 1 + 1))
  {
    var a := ys + [s1];
    var b := a + ms;
    var c := b + [s2];
    var x := c + ds;
    assert (x + r)[0..4] == ys by {
      SliceKeep(x, r, 0, 4);
      SliceKeep(c, ds, 0, 4);
      SliceKeep(b, [s2], 0, 4);
      SliceKeep(a, ms, 0, 4);
      SliceKeep(ys, [s1], 0, 4);
    }
    assert (x + r)[5..5 + |ms|] == ms by {
      SliceKeep(x, r, 5, 5 + |ms|);
      SliceKeep(c, ds, 5, 5 + |ms|);
      SliceKeep(b, [s2], 5, 5 + |ms|);
      SliceLast(a, ms);
    }
    assert (x + r)[5 + |ms| + 1..|x|] == ds by {
      SliceKeep(x, r, 5 + |ms| + 1, |x|);
      SliceLast(c, ds);
    }
    SliceKeep(x, r, 0, |x|);
    if |ds| == 1 && r != [] {
      assert (x + r)[|x|] == r[0];
    }
  }

  /** `YYYY-M-D` or `YYYY/M/D` at the front of a text, with one- or two-digit month
      and day, is a numeric date match of exactly those characters, unless a
      third digit follows a one-digit day. */
  lemma NumericDateAtZero(ys: string, s1: char, ms: string, s2: char, ds: string, r: string)
    requires |ys| == 4 && AllDigits(ys) && 1 <= |ms| <= 2 && AllDigits(ms) && 1 <= |ds| <= 2 && AllDigits(ds)
    requires s1 in "-/" && s2 in "-/"
    requires |ds| == 2 || r == [] || !IsDigit(r[0])
    ensures NumericDateAt(ys + [s1] + ms + [s2] + ds + r, 0)
            == Some(DateMatch(ys + [s1] + ms + [s2] + ds, Some(Value(ys)), Some(Value(ms)), Value(ds)))
  {
    var x := ys + [s1] + ms + [s2] + ds;
    assert s1 in {'-', '/'} && s2 in {'-', '/'};
    NumericDateLayout(ys, s1, ms, s2, ds, r);
    NumericDateRead(x + r, ms, ds, 5 + |ms|, |x|);
  }

  /** A text laid out as `Y-M-D`, the month ending at `me` and the day at `e`, is
      read as that date. */
  lemma NumericDateRead(t: string, ms: string, ds: string, me: nat, e: nat)
    requires 4 < |t| && AllDigits(t[0..4]) && t[4] in {'-', '/'}
    requires 1 <= |ms| <= 2 && AllDigits(ms) && me == 5 + |ms| && me < |t| && t[5..me] == ms
    requires t[me] in {'-', '/'} && !IsDigit(t[me])
    requires 1 <= |ds| <= 2 && AllDigits(ds) && e == me + 1 + |ds| && e <= |t| && t[me + 1..e] == ds
    requires |ds| == 2 || !DigitAt(t, me + 1 + 1)
    ensures NumericDateAt(t, 0) == Some(DateMatch(t[0..e], Some(Value(t[0..4])), Some(Value(ms)), Value(ds)))
  {
    DigitsBeforeRun(t, 5, ms, {'-', '/'});
    TrailingDigitsRun(t, me + 1, ds);
    NumericDateFields(t, me, e);
  }

  /** A numeric date read from where its month and day end. */
  lemma NumericDateFields(t: string, me: nat, de: nat)
    requires 4 < |t| && AllDigits(t[0..4]) && t[4] in {'-', '/'}
    requires DigitsBefore(t, 5, {'-', '/'}) == Some(me) && TrailingDigits(t, me + 1) == Some(de)
    ensures NumericDateAt(t, 0) == Some(DateMatch(t[0..de], Some(Value(t[0..4])), Some(Value(t[5..me])), Value(t[me + 1..de])))
  {
  }

  /** With no day keyword, a numeric date at the front, written with `-` or `/`
      and one- or two-digit month and day, is the date as written (`Invalid date`
      when it does not exist), and the trimmed rest is the time text. */
  lemma NumericDate(ys: string, s1: char, ms: string, s2: char, ds: string, r: string, clk: Clock)
    requires ValidDate(clk.today)
    requires |ys| == 4 && AllDigits(ys) && 1 <= |ms| <= 2 && AllDigits(ms) && 1 <= |ds| <= 2 && AllDigits(ds)
    requires s1 in "-/" && s2 in "-/"
    requires '天' !in r && (|ds| == 2 || r == [] || !IsDigit(r[0]))
    ensures ResolveDate(ys + [s1] + ms + [s2] + ds + r, clk)
            == DateSplit(DateText(Date(Value(ys), Value(ms), Value(ds))), Trim(r))
  {
    var x := ys + [s1] + ms + [s2] + ds;
    var t := x + r;
    NumericDateChars(ys, s1, ms, s2, ds);
    assert '天' !in t;
    NoDayKeyword(t);
    NumericDateAtZero(ys, s1, ms, s2, ds, r);
    FirstMatchAt(t, 0, NumericDateAt);
    ReplaceFirstAtStart(x, r);
  }

  /** A numeric date is matched only where `-` or `/` stands. */
  lemma NumericNeedsSeparator(s: string, p: nat)
    ensures NumericDateAt(s, p).Some? ==> '-' in s || '/' in s
  {
    if p + 4 < |s| {
      assert s[p + 4] in s;
    }
  }

  /** A `年/月/日` date is matched only where `日` stands. */
  lemma ChineseNeedsDay(s: string, p: nat)
    ensures ChineseDateAt(s, p).Some? ==> '日' in s
  {
    MonthDayNeedsDay(s, p + 5);
    MonthDayNeedsDay(s, p);
  }

  lemma MonthDayNeedsDay(s: string, q: nat)
    ensures MonthDayAt(s, q).Some? ==> '日' in s
  {
    match DigitsBefore(s, q, {'日'})
    case None =>
    case Some(de) => assert s[de] in s;
    match DigitsBefore(s, q, {'月'})
    case None =>
    case Some(me) =>
      match DigitsBefore(s, me + 1, {'日'})
      case None =>
      case Some(de) => assert s[de] in s;
  }

  /** `M月D日` at `q` is read as that month and day, the match ending after `日`. */
  lemma MonthDayRun(s: string, q: nat, ms: string, ds: string)
    requires 1 <= |ms| <= 2 && AllDigits(ms) && 1 <= |ds| <= 2 && AllDigits(ds)
    requires q + |ms| + 1 + |ds| < |s| && s[q..q + |ms|] == ms && s[q + |ms|] == '月'
    requires s[q + |ms| + 1..q + |ms| + 1 + |ds|] == ds && s[q + |ms| + 1 + |ds|] == '日'
    ensures MonthDayAt(s, q) == Some(MonthDay(Some(Value(ms)), Value(ds), q + |ms| + 1 + |ds| + 1))
  {
    MonthAndDayDigits(s, q, ms, ds);
    SameValue(s[q..q + |ms|], ms);
    SameValue(s[q + |ms| + 1..q + |ms| + 1 + |ds|], ds);
    MonthDayRead(s, q, q + |ms|, q + |ms| + 1 + |ds|, Value(ms), Value(ds));
  }

  /** Digits before `月` and then before `日` are read as that month and day. */
  lemma MonthDayRead(s: string, q: nat, me: nat, de: nat, m: nat, d: nat)
    requires DigitsBefore(s, q, {'月'}) == Some(me) && DigitsBefore(s, me + 1, {'日'}) == Some(de)
    requires Value(s[q..me]) == m && Value(s[me + 1..de]) == d
    ensures MonthDayAt(s, q) == Some(MonthDay(Some(m), d, de + 1))
  {
    MonthAndDayRead(s, q, me, de, m, d);
    MonthDayOfMonthAndDay(s, q, MonthDay(Some(m), d, de + 1));
  }

  /** In `M月D日` at `q`, the month runs up to `月` and the day up to `日`. */
  lemma MonthAndDayDigits(s: string, q: nat, ms: string, ds: string)
    requires 1 <= |ms| <= 2 && AllDigits(ms) && 1 <= |ds| <= 2 && AllDigits(ds)
    requires q + |ms| + 1 + |ds| < |s| && s[q..q + |ms|] == ms && s[q + |ms|] == '月'
    requires s[q + |ms| + 1..q + |ms| + 1 + |ds|] == ds && s[q + |ms| + 1 + |ds|] == '日'
    ensures DigitsBefore(s, q, {'月'}) == Some(q + |ms|)
    ensures DigitsBefore(s, q + |ms| + 1, {'日'}) == Some(q + |ms| + 1 + |ds|)
  {
    DigitsBeforeRun(s, q, ms, {'月'});
    DigitsBeforeRun(s, q + |ms| + 1, ds, {'日'});
  }


  /** The month and day of `M月D日` after a prefix sit where the matchers read them. */
  lemma MonthDayLayout(s: string, pre: string, ms: string, ds: string, r: string, q: nat)
    requires s == pre + ms + "月" + ds + "日" + r && q == |pre|
    ensures q + |ms| + 1 + |ds| < |s| && s[q..q + |ms|] == ms && s[q + |ms|] == '月'
    ensures s[q + |ms| + 1..q + |ms| + 1 + |ds|] == ds && s[q + |ms| + 1 + |ds|] == '日'
  {
    var a := pre + ms;
    var b := a + "月";
    var c := b + ds;
    var d := c + "日";
    assert s[q..q + |ms|] == ms by {
      SliceLast(pre, ms);
      SliceKeep(a, "月", q, q + |ms|);
      SliceKeep(b, ds, q, q + |ms|);
      SliceKeep(c, "日", q, q + |ms|);
      SliceKeep(d, r, q, q + |ms|);
    }
    assert s[q + |ms| + 1..q + |ms| + 1 + |ds|] == ds by {
      SliceLast(b, ds);
      SliceKeep(c, "日", |b|, |b| + |ds|);
      SliceKeep(d, r, |b|, |b| + |ds|);
    }
  }

  /** A month followed by a day is read from the digits before `月` and `日`. */
  lemma MonthAndDayRead(s: string, q: nat, me: nat, de: nat, m: nat, d: nat)
    requires DigitsBefore(s, q, {'月'}) == Some(me) && DigitsBefore(s, me + 1, {'日'}) == Some(de)
    requires Value(s[q..me]) == m && Value(s[me + 1..de]) == d
    ensures MonthAndDayAt(s, q) == Some(MonthDay(Some(m), d, de + 1))
  {
  }

  /** A month-and-day reading is taken before a day alone is tried. */
  lemma MonthDayOfMonthAndDay(s: string, q: nat, md: MonthDay)
    requires MonthAndDayAt(s, q) == Some(md)
    ensures MonthDayAt(s, q) == Some(md)
  {
  }

  /** Four digits and `年` at the start, then a month and day: a dated match. */
  lemma ChineseDateWithYear(s: string, ys: string, ms: string, ds: string, e: nat)
    requires AllDigits(ys) && AllDigits(ms) && AllDigits(ds)
    requires 4 < |s| && s[0..4] == ys && s[4] == '年'
    requires MonthDayAt(s, 5) == Some(MonthDay(Some(Value(ms)), Value(ds), e))
    ensures YearDateAt(s, 0) == Some(DateMatch(s[0..e], Some(Value(ys)), Some(Value(ms)), Value(ds)))
  {
  }

  /** When the year group matches, the whole pattern matches as it does. */
  lemma ChineseDateOfYearDate(s: string, p: nat, m: DateMatch)
    requires YearDateAt(s, p) == Some(m)
    ensures ChineseDateAt(s, p) == Some(m)
  {
  }

  /** A month and day at the start, read without a year: an undated match. */
  lemma ChineseDateNoYear(s: string, ms: string, ds: string, e: nat)
    requires AllDigits(ms) && AllDigits(ds)
    requires MonthDayAt(s, 0) == Some(MonthDay(Some(Value(ms)), Value(ds), e))
    ensures DayDateAt(s, 0) == Some(DateMatch(s[0..e], None, Some(Value(ms)), Value(ds)))
  {
  }

  /** Without four digits and `年` at the start, the year group does not match there. */
  lemma NoYearAtStart(s: string)
    requires 4 < |s| ==> !AllDigits(s[0..4])
    ensures YearDateAt(s, 0) == None
  {
  }

  /** When the year group does not match, the whole pattern matches as the rest does. */
  lemma ChineseDateOfDayDate(s: string, p: nat, m: DateMatch)
    requires YearDateAt(s, p) == None && DayDateAt(s, p) == Some(m)
    ensures ChineseDateAt(s, p) == Some(m)
  {
  }

  /** `YYYY年M月D日` at the front of a text is a dated match of exactly those characters. */
  lemma YearDateAtZero(ys: string, ms: string, ds: string, r: string)
    requires |ys| == 4 && AllDigits(ys) && 1 <= |ms| <= 2 && AllDigits(ms) && 1 <= |ds| <= 2 && AllDigits(ds)
    ensures YearDateAt(ys + "年" + ms + "月" + ds + "日" + r, 0)
            == Some(DateMatch(ys + "年" + ms + "月" + ds + "日", Some(Value(ys)), Some(Value(ms)), Value(ds)))
  {
    var x := ys + "年" + ms + "月" + ds + "日";
    var t := x + r;
    YearDateLayout(ys, ms, ds, r);
    MonthDayLayout(t, ys + "年", ms, ds, r, 5);
    MonthDayRun(t, 5, ms, ds);
    ChineseDateWithYear(t, ys, ms, ds, 5 + |ms| + 1 + |ds| + 1);
  }

  /** In `YYYY年M月D日` followed by more text, the year and the whole date sit at the front. */
  lemma YearDateLayout(ys: string, ms: string, ds: string, r: string)
    requires |ys| == 4
    ensures 4 < |ys + "年" + ms + "月" + ds + "日" + r|
    ensures (ys + "年" + ms + "月" + ds + "日" + r)[0..4] == ys
    ensures (ys + "年" + ms + "月" + ds + "日" + r)[4] == '年'
    ensures (ys + "年" + ms + "月" + ds + "日" + r)[0..5 + |ms| + 1 + |ds| + 1] == ys + "年" + ms + "月" + ds + "日"
  {
    var a := ys + "年";
    var b := a + ms;
    var c := b + "月";
    var d := c + ds;
    var x := d + "日";
    assert (x + r)[0..4] == ys by {
      SliceKeep(x, r, 0, 4);
      SliceKeep(d, "日", 0, 4);
      SliceKeep(c, ds, 0, 4);
      SliceKeep(b, "月", 0, 4);
      SliceKeep(a, ms, 0, 4);
      SliceKeep(ys, "年", 0, 4);
    }
    assert (x + r)[0..|x|] == x by {
      SliceKeep(x, r, 0, |x|);
    }
  }

  /** A full `YYYY年M月D日` date at the front of a text is the first such date matched. */
  lemma FullChineseDateAtFront(ys: string, ms: string, ds: string, r: string)
    requires |ys| == 4 && AllDigits(ys) && 1 <= |ms| <= 2 && AllDigits(ms) && 1 <= |ds| <= 2 && AllDigits(ds)
    ensures FirstMatch(ys + "年" + ms + "月" + ds + "日" + r, 0, ChineseDateAt)
            == Some(DateMatch(ys + "年" + ms + "月" + ds + "日", Some(Value(ys)), Some(Value(ms)), Value(ds)))
  {
    var t := ys + "年" + ms + "月" + ds + "日" + r;
    YearDateAtZero(ys, ms, ds, r);
    ChineseDateOfYearDate(t, 0, DateMatch(ys + "年" + ms + "月" + ds + "日", Some(Value(ys)), Some(Value(ms)), Value(ds)));
    FirstMatchAt(t, 0, ChineseDateAt);
  }

  /** `MonthDayLayout` with nothing in front. */
  lemma MonthDayLayoutFront(s: string, ms: string, ds: string, r: string, q: nat)
    requires s == ms + "月" + ds + "日" + r && q == 0
    ensures q + |ms| + 1 + |ds| < |s| && s[q..q + |ms|] == ms && s[q + |ms|] == '月'
    ensures s[q + |ms| + 1..q + |ms| + 1 + |ds|] == ds && s[q + |ms| + 1 + |ds|] == '日'
  {
    assert s == [] + ms + "月" + ds + "日" + r;
    MonthDayLayout(s, [], ms, ds, r, q);
  }

  /** A text that starts with `M月` has no four-digit year in front. */
  lemma NoYearLayout(ms: string, ds: string, r: string)
    requires 1 <= |ms| <= 2 && AllDigits(ms)
    ensures 4 < |ms + "月" + ds + "日" + r| ==> !AllDigits((ms + "月" + ds + "日" + r)[0..4])
  {
    var t := ms + "月" + ds + "日" + r;
    if 4 < |t| {
      assert t[0..4][|ms|] == '月';
    }
  }

  /** `M月D日` is the prefix of itself followed by more text. */
  lemma MonthDayPrefix(ms: string, ds: string, r: string)
    ensures (ms + "月" + ds + "日" + r)[0..|ms| + 1 + |ds| + 1] == ms + "月" + ds + "日"
  {
    var x := ms + "月" + ds + "日";
    SliceKeep(x, r, 0, |x|);
  }

  /** `M月D日` at the front of a text, read without a year, is a match of exactly those characters. */
  lemma MonthDayDateAtZero(ms: string, ds: string, r: string)
    requires 1 <= |ms| <= 2 && AllDigits(ms) && 1 <= |ds| <= 2 && AllDigits(ds)
    ensures DayDateAt(ms + "月" + ds + "日" + r, 0)
            == Some(DateMatch(ms + "月" + ds + "日", None, Some(Value(ms)), Value(ds)))
  {
    var t := ms + "月" + ds + "日" + r;
    MonthDayPrefix(ms, ds, r);
    MonthDayLayoutFront(t, ms, ds, r, 0);
    DayDateRead(t, ms, ds, 0);
  }

  /** `M月D日` at the start of a text, read without a year, is a match up to `日`. */
  lemma DayDateRead(s: string, ms: string, ds: string, q: nat)
    requires 1 <= |ms| <= 2 && AllDigits(ms) && 1 <= |ds| <= 2 && AllDigits(ds) && q == 0
    requires q + |ms| + 1 + |ds| < |s| && s[q..q + |ms|] == ms && s[q + |ms|] == '月'
    requires s[q + |ms| + 1..q + |ms| + 1 + |ds|] == ds && s[q + |ms| + 1 + |ds|] == '日'
    ensures DayDateAt(s, 0) == Some(DateMatch(s[0..q + |ms| + 1 + |ds| + 1], None, Some(Value(ms)), Value(ds)))
  {
    MonthDayRun(s, q, ms, ds);
    ChineseDateNoYear(s, ms, ds, q + |ms| + 1 + |ds| + 1);
  }

  /** `M月D日` at the front of a text is the first such date matched, without a year. */
  lemma MonthDayAtFront(ms: string, ds: string, r: string)
    requires 1 <= |ms| <= 2 && AllDigits(ms) && 1 <= |ds| <= 2 && AllDigits(ds)
    ensures FirstMatch(ms + "月" + ds + "日" + r, 0, ChineseDateAt)
            == Some(DateMatch(ms + "月" + ds + "日", None, Some(Value(ms)), Value(ds)))
  {
    var t := ms + "月" + ds + "日" + r;
    MonthDayDateAtZero(ms, ds, r);
    NoYearLayout(ms, ds, r);
    NoYearAtStart(t);
    ChineseDateOfDayDate(t, 0, DateMatch(ms + "月" + ds + "日", None, Some(Value(ms)), Value(ds)));
    FirstMatchAt(t, 0, ChineseDateAt);
  }


  /** With no day keyword and no numeric date, a full `YYYY年M月D日` date at the
      front is the date, as written (`Invalid date` when it does not exist). */
  lemma FullChineseDate(ys: string, ms: string, ds: string, r: string, clk: Clock)
    requires ValidDate(clk.today)
    requires |ys| == 4 && AllDigits(ys) && 1 <= |ms| <= 2 && AllDigits(ms) && 1 <= |ds| <= 2 && AllDigits(ds)
    requires '天' !in r && '-' !in r && '/' !in r
    ensures ResolveDate(ys + "年" + ms + "月" + ds + "日" + r, clk)
            == DateSplit(DateText(Date(Value(ys), Value(ms), Value(ds))), Trim(r))
  {
    var x := ys + "年" + ms + "月" + ds + "日";
    var t := x + r;
    assert '天' !in ys && '-' !in ys && '/' !in ys;
    assert '天' !in ms && '-' !in ms && '/' !in ms;
    assert '天' !in ds && '-' !in ds && '/' !in ds;
    assert '天' !in t && '-' !in t && '/' !in t;
    NoDayKeyword(t);
    forall p: nat ensures NumericDateAt(t, p).None? {
      NumericNeedsSeparator(t, p);
    }
    FirstMatchNone(t, NumericDateAt);
    FullChineseDateAtFront(ys, ms, ds, r);
    ReplaceFirstAtStart(x, r);
  }

  /** With no day keyword and no numeric date, `M月D日` at the front is that day
      of the current year. */
  lemma MonthDayDate(ms: string, ds: string, r: string, clk: Clock)
    requires ValidDate(clk.today)
    requires 1 <= |ms| <= 2 && AllDigits(ms) && 1 <= |ds| <= 2 && AllDigits(ds)
    requires '天' !in r && '-' !in r && '/' !in r
    ensures ResolveDate(ms + "月" + ds + "日" + r, clk)
            == DateSplit(DateText(Date(clk.today.year, Value(ms), Value(ds))), Trim(r))
  {
    var x := ms + "月" + ds + "日";
    var t := x + r;
    assert '天' !in ms && '-' !in ms && '/' !in ms;
    assert '天' !in ds && '-' !in ds && '/' !in ds;
    assert '天' !in t && '-' !in t && '/' !in t;
    NoDayKeyword(t);
    forall p: nat ensures NumericDateAt(t, p).None? {
      NumericNeedsSeparator(t, p);
    }
    FirstMatchNone(t, NumericDateAt);
    MonthDayAtFront(ms, ds, r);
    ReplaceFirstAtStart(x, r);
  }

  /** A text naming no date at all is today's, and is left untrimmed. */
  lemma NoDateMeansToday(t: string, clk: Clock)
    requires ValidDate(clk.today)
    requires '天' !in t && '-' !in t && '/' !in t && '日' !in t
    ensures ResolveDate(t, clk) == DateSplit(FormatDate(clk.today), t)
  {
    NoDayKeyword(t);
    forall p: nat ensures NumericDateAt(t, p).None? && ChineseDateAt(t, p).None? {
      NumericNeedsSeparator(t, p);
      ChineseNeedsDay(t, p);
    }
    FirstMatchNone(t, NumericDateAt);
    FirstMatchNone(t, ChineseDateAt);
  }

  // ---------------------------------------- properties: whole phrases

  /** Without `一`, `半`, `刻`, `分` and `小` no duration word is rewritten and no
      count of minutes or hours is read: the phrase has no relative reading. */
  lemma NoRelativeReading(t: string, now: int)
    requires '一' !in t && '半' !in t && '刻' !in t && '分' !in t && '小' !in t
    ensures RelativeInstant(t, now) == None
  {
    ReplaceAllAbsent(t, "一个半小时", "90分钟");
    ReplaceAllAbsent(t, "半小时", "30分钟");
    ReplaceAllAbsent(t, "一刻钟", "15分钟");
    forall p: nat ensures MinutesAt(t, p).None? && HoursAt(t, p).None? {
      UnitNeedsUnit("分钟后", t, p);
      UnitNeedsUnit("小时后", t, p);
    }
    FirstMatchNone<nat>(t, MinutesAt);
    FirstMatchNone<nat>(t, HoursAt);
  }

  lemma {:induction false} ReplaceEachEmpty(table: seq<(string, string)>)
    requires PairTable(table)
    ensures ReplaceEach([], table) == []
    decreases |table|
  {
    if table != [] {
      ReplaceEachEmpty(table[1..]);
    }
  }

  /** A text with no shorthand in it is its own expansion. */
  lemma ShorthandFreeUnchanged(x: string)
    requires ShorthandFree(x)
    ensures ExpandShorthand(x) == x
  {
    ShorthandsShape();
    ShorthandFreePasses(x);
    ReplaceEachPrefix(x, [], Shorthands);
    ReplaceEachEmpty(Shorthands);
    assert x + [] == x;
  }

  /** A text in the strict layout is read field by field. */
  lemma StrictParseOf(x: string, h: string, m: string)
    requires |x| == 10 && AllDigits(x[0..4]) && x[4] == '-' && AllDigits(x[5..7]) && x[7] == '-' && AllDigits(x[8..10])
    requires |h| == 2 && AllDigits(h) && |m| == 2 && AllDigits(m)
    ensures var d := Date(Value(x[0..4]), Value(x[5..7]), Value(x[8..10]));
      StrictParse(x + " " + h + ":" + m)
      == if ValidDate(d) && ClockTime(Value(h), Value(m)) then Some(Stamp(d, Value(h), Value(m))) else None
  {
    var s := x + " " + h + ":" + m;
    assert s[0..4] == x[0..4] && s[5..7] == x[5..7] && s[8..10] == x[8..10];
    assert s[4] == '-' && s[7] == '-' && s[10] == ' ' && s[13] == ':';
    assert s[11..13] == h && s[14..16] == m;
  }

  /** The strict reading gives back the date, hour and minute a stamp was
      printed from, exactly when they form a clock time (hour 24 only at minute 0). */
  lemma StampRoundTrip(d: Date, hour: nat, minute: nat)
    requires ValidDate(d) && 0 <= d.year <= 9999 && hour < 100 && minute < 100
    ensures StrictParse(Stamped(FormatDate(d), hour, minute))
            == if ClockTime(hour, minute) then Some(Stamp(d, hour, minute)) else None
  {
    var date := FormatDate(d);
    FormatDateLayout(d);
    StampedLayout(date, hour, minute);
    StrictParseOf(date, ZeroFill(hour, 2), ZeroFill(minute, 2));
  }

  /** A date the library deems invalid prints as `Invalid date`, which is not in
      the strict layout: the phrase is refused as unparseable. */
  lemma InvalidDateUnparseable(raw: string, clk: Clock)
    requires ValidDate(clk.today)
    requires RelativeInstant(raw, clk.now) == None
    requires ResolveDate(NormalizeMarks(ExpandShorthand(raw)), clk).datePart == "Invalid date"
    ensures ResolvePhrase(raw, clk) == Rejected(Unparseable)
  {
    var split := ResolveDate(NormalizeMarks(ExpandShorthand(raw)), clk);
    var hm := TimeOfDay(split.timePart);
    StampedLayout(split.datePart, hm.0, hm.1);
    var pre := Preprocess(raw, clk);
    assert pre == Stamped(split.datePart, hm.0, hm.1);
    assert StrictParse(pre) == None;
  }

  /** A relative reading decides the phrase: it is the instant resolved, it is
      never refused as past, and nothing the grammar would read is consulted. */
  lemma RelativeDecides(raw: string, clk: Clock)
    requires ValidDate(clk.today) && RelativeInstant(raw, clk.now).Some?
    ensures RelativeInstant(raw, clk.now).value >= clk.now
    ensures ResolvePhrase(raw, clk) == Resolved(RelativeInstant(raw, clk.now).value)
  {
  }

  /** A minute count wins over a day keyword: `明天<n>分钟后` is now plus n
      minutes, not a time tomorrow. */
  lemma KeywordIgnoredByMinutes(d: string, clk: Clock)
    requires ValidDate(clk.today) && d != [] && AllDigits(d)
    ensures ResolvePhrase("明天" + d + "分钟后", clk) == Resolved(clk.now + Value(d) * MinuteMs)
  {
    MinutesPhrase("明天", d, "", clk.now);
    assert "明天" + d + "分钟后" + "" == "明天" + d + "分钟后";
    RelativeDecides("明天" + d + "分钟后", clk);
  }

  /** The characters of a clock text: digits, period markers and separators. */
  predicate ClockChar(c: char)
  {
    || IsDigit(c) || c == '凌' || c == '晨' || c == '早' || c == '上' || c == '午'
    || c == '下' || c == '晚' || c == ':' || c == '：' || c == '点'
  }

  /** An optional period marker, then `H`, a separator and `M`. */
  lemma ClockTextChars(marker: string, hs: string, sep: char, ms: string)
    requires marker == [] || IsPeriodMarker(marker)
    requires 1 <= |hs| <= 2 && AllDigits(hs) && 1 <= |ms| <= 2 && AllDigits(ms) && sep in ":：点"
    ensures var body := marker + hs + [sep] + ms;
      && (forall i :: 0 <= i < |body| ==> ClockChar(body[i]))
      && !IsSpace(body[0]) && IsDigit(body[|body| - 1])
  {
    var body := marker + hs + [sep] + ms;
    forall i | 0 <= i < |body| ensures ClockChar(body[i]) {
      if i < |marker| {
        assert body[i] == marker[i];
      } else if i < |marker| + |hs| {
        assert body[i] == hs[i - |marker|];
      } else if i == |marker| + |hs| {
        assert body[i] == sep;
      } else {
        assert body[i] == ms[i - |marker| - |hs| - 1];
      }
    }
    assert body[|body| - 1] == ms[|ms| - 1];
  }

  /** Which characters a clock text cannot hold. */
  lemma ClockCharsExclude(body: string)
    requires forall i :: 0 <= i < |body| ==> ClockChar(body[i])
    ensures '一' !in body && '半' !in body && '刻' !in body && '分' !in body && '小' !in body
    ensures '天' !in body && '号' !in body && '今' !in body && '明' !in body && '后' !in body
    ensures '-' !in body && '/' !in body
  {
  }

  /** A day keyword followed by a clock text holds no shorthand. */
  lemma DayClockShorthandFree(k: nat, body: string)
    requires k <= 2 && body != [] && forall i :: 0 <= i < |body| ==> ClockChar(body[i])
    ensures ShorthandFree(DayWord(k) + body)
  {
    var t := DayWord(k) + body;
    forall j | 1 <= j < |t| ensures t[j] !in "今明后" {
      if j > 1 {
        assert t[j] == body[j - 2];
      }
    }
  }

  /** A day keyword, an optional period marker and an hour hold no mark that
      normalisation changes. */
  lemma DayClockPrefixChars(k: nat, marker: string, hs: string)
    requires k <= 2 && (marker == [] || IsPeriodMarker(marker)) && AllDigits(hs)
    ensures var pre := DayWord(k) + marker + hs; '：' !in pre && '点' !in pre && '号' !in pre
  {
    assert '：' !in hs && '点' !in hs && '号' !in hs;
  }

  /** A separator and a minute: the separator becomes `:`. */
  lemma SeparatorColon(sep: char, ms: string)
    requires sep in ":：点" && AllDigits(ms)
    ensures ColonsOf([sep] + ms) == ":" + ms && '号' !in [sep] + ms
  {
    var x := [sep] + ms;
    assert forall i :: 1 <= i < |x| ==> x[i] == ms[i - 1];
  }

  /** Marks normalised in a day keyword followed by a clock text: the
      separator becomes `:` and nothing else changes. */
  lemma DayClockNormalized(k: nat, marker: string, hs: string, sep: char, ms: string)
    requires k <= 2 && (marker == [] || IsPeriodMarker(marker))
    requires 1 <= |hs| <= 2 && AllDigits(hs) && 1 <= |ms| <= 2 && AllDigits(ms) && sep in ":：点"
    ensures NormalizeMarks(DayWord(k) + marker + hs + [sep] + ms) == DayWord(k) + marker + hs + ":" + ms
  {
    var pre := DayWord(k) + marker + hs;
    var tail := [sep] + ms;
    DayClockPrefixChars(k, marker, hs);
    SeparatorColon(sep, ms);
    Assoc(pre, [sep], ms);
    Assoc(pre, ":", ms);
    ReplaceAllAbsent(pre + tail, "号", "日");
    ColonsOfPrefix(pre, tail);
  }

  /** A day keyword followed by a clock text: the date is that many days after
      today and the clock text is the time text. */
  lemma DayClockDate(k: nat, body: string, clk: Clock)
    requires ValidDate(clk.today) && k <= 2
    requires body != [] && !IsSpace(body[0]) && !IsSpace(body[|body| - 1])
    requires forall i :: 0 <= i < |body| ==> ClockChar(body[i])
    ensures ResolveDate(DayWord(k) + body, clk) == DateSplit(FormatDate(AddDays(clk.today, k)), body)
  {
    var w := DayWord(k);
    var t := DayWord(k) + body;
    assert [] + w + body == t;
    forall j | k < j <= 2 ensures !Contains(t, DayWord(j)) {
      forall i ensures !OccursAt(t, DayWord(j), i) {
        OccursAtTwo(t, DayWord(j), i);
        if 1 <= i < |t| - 1 {
          assert t[i + 1] == body[i - 1];
        }
      }
    }
    assert !Contains([], w);
    KeywordDate([], k, body, clk);
    assert [] + body == body;
    TrimKeeps(body);
  }

  lemma PreprocessFrom(raw: string, clk: Clock, norm: string, split: DateSplit, hm: (nat, nat))
    requires ValidDate(clk.today)
    requires NormalizeMarks(ExpandShorthand(raw)) == norm && ResolveDate(norm, clk) == split
    requires TimeOfDay(split.timePart) == hm
    ensures Preprocess(raw, clk) == Stamped(split.datePart, hm.0, hm.1)
  {
  }

  lemma ResolvePhraseFrom(raw: string, clk: Clock, st: Option<Stamp>)
    requires ValidDate(clk.today)
    requires RelativeInstant(raw, clk.now) == None && StrictParse(Preprocess(raw, clk)) == st
    ensures ResolvePhrase(raw, clk)
            == if st.None? then Rejected(Unparseable)
               else if InstantOf(st.value) < clk.now then Rejected(PastTime)
               else Resolved(InstantOf(st.value))
  {
  }

  /** `<day keyword>[marker]H<sep>M` has no relative reading. */
  lemma DayClockNotRelative(k: nat, marker: string, hs: string, sep: char, ms: string, now: int)
    requires k <= 2 && (marker == [] || IsPeriodMarker(marker))
    requires 1 <= |hs| <= 2 && AllDigits(hs) && 1 <= |ms| <= 2 && AllDigits(ms) && sep in ":：点"
    ensures RelativeInstant(DayWord(k) + marker + hs + [sep] + ms, now) == None
  {
    var body := marker + hs + [sep] + ms;
    var raw := DayWord(k) + marker + hs + [sep] + ms;
    assert raw == DayWord(k) + body;
    ClockTextChars(marker, hs, sep, ms);
    ClockCharsExclude(body);
    NoRelativeReading(raw, now);
  }

  /** `<day keyword>[marker]H<sep>M` expanded and normalised: `H:M`. */
  lemma DayClockExpanded(k: nat, marker: string, hs: string, sep: char, ms: string)
    requires k <= 2 && (marker == [] || IsPeriodMarker(marker))
    requires 1 <= |hs| <= 2 && AllDigits(hs) && 1 <= |ms| <= 2 && AllDigits(ms) && sep in ":：点"
    ensures NormalizeMarks(ExpandShorthand(DayWord(k) + marker + hs + [sep] + ms))
            == DayWord(k) + marker + hs + ":" + ms
  {
    var body := marker + hs + [sep] + ms;
    var raw := DayWord(k) + marker + hs + [sep] + ms;
    FrontWord(DayWord(k), marker, hs, [sep], ms);
    ClockTextChars(marker, hs, sep, ms);
    DayClockShorthandFree(k, body);
    ShorthandFreeUnchanged(raw);
    DayClockNormalized(k, marker, hs, sep, ms);
  }

  /** `<day keyword>[marker]H:M` split into the keyword's date and the clock text. */
  lemma DayClockSplit(k: nat, marker: string, hs: string, ms: string, clk: Clock)
    requires ValidDate(clk.today) && k <= 2 && (marker == [] || IsPeriodMarker(marker))
    requires 1 <= |hs| <= 2 && AllDigits(hs) && 1 <= |ms| <= 2 && AllDigits(ms)
    ensures ResolveDate(DayWord(k) + marker + hs + ":" + ms, clk)
            == DateSplit(FormatDate(AddDays(clk.today, k)), marker + hs + ":" + ms)
  {
    FrontWord(DayWord(k), marker, hs, ":", ms);
    ClockTextChars(marker, hs, ':', ms);
    assert [':'] == ":";
    DayClockDate(k, marker + hs + ":" + ms, clk);
  }

  /** `<day keyword>[marker]H<sep>M` preprocessed: the day keyword's date, the
      hour after the afternoon rule, and the minute. */
  lemma DayClockPreprocessed(k: nat, marker: string, hs: string, sep: char, ms: string, clk: Clock)
    requires ValidDate(clk.today) && k <= 2 && (marker == [] || IsPeriodMarker(marker))
    requires 1 <= |hs| <= 2 && AllDigits(hs) && 1 <= |ms| <= 2 && AllDigits(ms) && sep in ":：点"
    ensures Preprocess(DayWord(k) + marker + hs + [sep] + ms, clk)
            == Stamped(FormatDate(AddDays(clk.today, k)), PmAdjust(Value(hs), PmMarker(marker)), Value(ms))
  {
    var raw := DayWord(k) + marker + hs + [sep] + ms;
    var norm := DayWord(k) + marker + hs + ":" + ms;
    var clock := marker + hs + ":" + ms;
    var split := DateSplit(FormatDate(AddDays(clk.today, k)), clock);
    var hm := (PmAdjust(Value(hs), PmMarker(marker)), Value(ms));
    assert NormalizeMarks(ExpandShorthand(raw)) == norm by {
      DayClockExpanded(k, marker, hs, sep, ms);
    }
    assert ResolveDate(norm, clk) == split by {
      DayClockSplit(k, marker, hs, ms, clk);
    }
    ClockTimeTaken(marker, hs, ms);
    PreprocessFrom(raw, clk, norm, split, hm);
  }

  /** A day keyword, an optional period marker and `H:M` (or `H：M`, `H点M`)
      name that local time on today, tomorrow or the day after; the phrase is
      refused as unparseable when the strict reading refuses the time, refused
      as past when the instant is before now, and resolved to the instant otherwise. */
  lemma NamedDayAtClock(k: nat, marker: string, hs: string, sep: char, ms: string, clk: Clock)
    requires ValidDate(clk.today) && 0 <= clk.today.year <= 9997 && k <= 2
    requires marker == [] || IsPeriodMarker(marker)
    requires 1 <= |hs| <= 2 && AllDigits(hs) && 1 <= |ms| <= 2 && AllDigits(ms) && sep in ":：点"
    ensures var hour := PmAdjust(Value(hs), PmMarker(marker));
            var at := LocalInstant(DayNumber(clk.today) + k, hour, Value(ms));
            ResolvePhrase(DayWord(k) + marker + hs + [sep] + ms, clk)
            == if !ClockTime(hour, Value(ms)) then Rejected(Unparseable)
               else if at < clk.now then Rejected(PastTime)
               else Resolved(at)
  {
    var raw := DayWord(k) + marker + hs + [sep] + ms;
    var hour := PmAdjust(Value(hs), PmMarker(marker));
    var d := AddDays(clk.today, k);
    var st := if ClockTime(hour, Value(ms)) then Some(Stamp(d, hour, Value(ms))) else None;
    assert StrictParse(Preprocess(raw, clk)) == st by {
      ValueOfTwoDigits(hs);
      ValueOfTwoDigits(ms);
      DayClockPreprocessed(k, marker, hs, sep, ms, clk);
      StampRoundTrip(d, hour, Value(ms));
    }
    DayClockNotRelative(k, marker, hs, sep, ms, clk.now);
    ResolvePhraseFrom(raw, clk, st);
    if ClockTime(hour, Value(ms)) {
      var at := InstantOf(Stamp(d, hour, Value(ms)));
      assert ResolvePhrase(raw, clk) == if at < clk.now then Rejected(PastTime) else Resolved(at);
      assert DayNumber(d) == DayNumber(clk.today) + k;
    } else {
      assert ResolvePhrase(raw, clk) == Rejected(Unparseable);
    }
  }

  /** Colons normalised after a prefix that holds none: only the rest changes. */
  lemma ColonsOfPrefix(x: string, y: string)
    requires '：' !in x && '点' !in x
    ensures ColonsOf(x + y) == x + ColonsOf(y)
    ensures forall i :: 0 <= i < |y| && ClockChar(y[i]) ==> ClockChar(ColonsOf(y)[i])
  {
    assert forall i :: 0 <= i < |x| ==> (x + y)[i] == x[i];
    assert forall i :: |x| <= i < |x + y| ==> (x + y)[i] == y[i - |x|];
  }

  /** A full `年月日` date as text. */
  lemma ChineseDateChars(ys: string, ms: string, ds: string)
    requires AllDigits(ys) && AllDigits(ms) && AllDigits(ds)
    ensures var x := ys + "年" + ms + "月" + ds + "日";
      && (forall i :: 0 <= i < |x| ==> IsDigit(x[i]) || x[i] in "年月日")
      && '一' !in x && '半' !in x && '刻' !in x && '分' !in x && '小' !in x
      && '：' !in x && '点' !in x && '号' !in x
  {
    var x := ys + "年" + ms + "月" + ds + "日";
    forall i | 0 <= i < |x| ensures IsDigit(x[i]) || x[i] in "年月日" {
      if i < |ys| {
        assert x[i] == ys[i];
      } else if |ys| < i < |ys| + 1 + |ms| {
        assert x[i] == ms[i - |ys| - 1];
      } else if |ys| + 1 + |ms| < i < |x| - 1 {
        assert x[i] == ds[i - |ys| - |ms| - 2];
      }
    }
  }

  /** A date text with no day character, followed by a clock text, holds no shorthand. */
  lemma DateShorthandFree(x: string, r: string)
    requires forall i :: 0 <= i < |x| ==> x[i] !in "今明后"
    requires forall i :: 0 <= i < |r| ==> ClockChar(r[i])
    ensures ShorthandFree(x + r)
  {
    var raw := x + r;
    forall j | 0 <= j < |raw| ensures raw[j] !in "今明后" {
      if j >= |x| {
        assert raw[j] == r[j - |x|];
      } else {
        assert raw[j] == x[j];
      }
    }
  }

  /** A `年月日` date followed by a clock text, normalised: only the clock text's
      separators change. */
  lemma ChineseDateNormalized(ys: string, ms: string, ds: string, r: string)
    requires AllDigits(ys) && AllDigits(ms) && AllDigits(ds)
    requires forall i :: 0 <= i < |r| ==> ClockChar(r[i])
    ensures var x := ys + "年" + ms + "月" + ds + "日";
      && NormalizeMarks(ExpandShorthand(x + r)) == x + ColonsOf(r)
      && '-' !in ColonsOf(r) && '/' !in ColonsOf(r) && '天' !in ColonsOf(r)
  {
    var x := ys + "年" + ms + "月" + ds + "日";
    var raw := x + r;
    ChineseDateChars(ys, ms, ds);
    ClockCharsExclude(r);
    assert ExpandShorthand(raw) == raw by {
      DateShorthandFree(x, r);
      ShorthandFreeUnchanged(raw);
    }
    assert NormalizeMarks(raw) == x + ColonsOf(r) by {
      assert '号' !in raw;
      ReplaceAllAbsent(raw, "号", "日");
      ColonsOfPrefix(x, r);
    }
    ColonsOfPrefix(x, r);
    ClockCharsExclude(ColonsOf(r));
  }

  /** A `年月日` date that does not exist (30 February, month 13, day 0) followed by
      a clock text prints as `Invalid date`, and the phrase is refused as unparseable. */
  lemma ImpossibleChineseDate(ys: string, ms: string, ds: string, r: string, clk: Clock)
    requires ValidDate(clk.today)
    requires |ys| == 4 && AllDigits(ys) && 1 <= |ms| <= 2 && AllDigits(ms) && 1 <= |ds| <= 2 && AllDigits(ds)
    requires !ValidDate(Date(Value(ys), Value(ms), Value(ds)))
    requires forall i :: 0 <= i < |r| ==> ClockChar(r[i])
    ensures ResolvePhrase(ys + "年" + ms + "月" + ds + "日" + r, clk) == Rejected(Unparseable)
  {
    var x := ys + "年" + ms + "月" + ds + "日";
    var raw := x + r;
    ChineseDateChars(ys, ms, ds);
    ClockCharsExclude(r);
    NoRelativeReading(raw, clk.now);
    ChineseDateNormalized(ys, ms, ds, r);
    FullChineseDate(ys, ms, ds, ColonsOf(r), clk);
    InvalidDateUnparseable(raw, clk);
  }
  /** A numeric date, a space and a clock text, normalised: only the clock text's
      separators change. */
  lemma NumericDateNormalized(ys: string, s1: char, ms: string, s2: char, ds: string, body: string)
    requires AllDigits(ys) && AllDigits(ms) && AllDigits(ds) && s1 in "-/" && s2 in "-/"
    requires forall i :: 0 <= i < |body| ==> ClockChar(body[i])
    ensures var x := ys + [s1] + ms + [s2] + ds + " ";
      && NormalizeMarks(ExpandShorthand(x + body)) == x + ColonsOf(body)
      && '天' !in ColonsOf(body)
  {
    var d := ys + [s1] + ms + [s2] + ds;
    var x := d + " ";
    var raw := x + body;
    NumericDateChars(ys, s1, ms, s2, ds);
    ClockCharsExclude(body);
    forall i | 0 <= i < |x| ensures x[i] !in "今明后" {
      if i < |d| {
        assert x[i] == d[i];
      }
    }
    assert ExpandShorthand(raw) == raw by {
      DateShorthandFree(x, body);
      ShorthandFreeUnchanged(raw);
    }
    assert NormalizeMarks(raw) == x + ColonsOf(body) by {
      assert '号' !in raw;
      ReplaceAllAbsent(raw, "号", "日");
      ColonsOfPrefix(x, body);
    }
    ColonsOfPrefix(x, body);
    ClockCharsExclude(ColonsOf(body));
  }

  /** A numeric date that does not exist (`2025-02-30`, month 13, day 0), then a
      space and a clock text, prints as `Invalid date`, and the phrase is refused
      as unparseable. */
  lemma ImpossibleNumericDate(ys: string, s1: char, ms: string, s2: char, ds: string, body: string, clk: Clock)
    requires ValidDate(clk.today)
    requires |ys| == 4 && AllDigits(ys) && 1 <= |ms| <= 2 && AllDigits(ms) && 1 <= |ds| <= 2 && AllDigits(ds)
    requires s1 in "-/" && s2 in "-/"
    requires !ValidDate(Date(Value(ys), Value(ms), Value(ds)))
    requires forall i :: 0 <= i < |body| ==> ClockChar(body[i])
    ensures ResolvePhrase(ys + [s1] + ms + [s2] + ds + " " + body, clk) == Rejected(Unparseable)
  {
    var d := ys + [s1] + ms + [s2] + ds;
    var raw := d + " " + body;
    NumericDateChars(ys, s1, ms, s2, ds);
    ClockCharsExclude(body);
    NoRelativeReading(raw, clk.now);
    NumericDateNormalized(ys, s1, ms, s2, ds, body);
    Assoc(d, " ", ColonsOf(body));
    NumericDate(ys, s1, ms, s2, ds, " " + ColonsOf(body), clk);
    InvalidDateUnparseable(raw, clk);
  }

  // ------------------------------------------------------- solver steps
  // The lemmas below state no property of the program. Each spells out one
  // arithmetic or sequence fact that the solver would otherwise rediscover at
  // a high cost, so that the proofs above stay within their resource budget.

  /** Two-digit literals read as the numbers they spell. */
  lemma ValueOfLiteral()
    ensures Value("30") == 30 && Value("90") == 90 && Value("15") == 15
    ensures Value("12") == 12 && Value("00") == 0
    ensures AllDigits("30") && AllDigits("12") && AllDigits("00")
  {
    assert "30"[..1] == "3" && "90"[..1] == "9" && "15"[..1] == "1";
    assert "12"[..1] == "1" && "00"[..1] == "0";
  }

  /** `:半` after a text is a colon and then `半`. */
  lemma HalfText(a: string)
    ensures a + ":半" == a + ":" + "半"
  {
    Assoc(a, ":", "半");
    assert ":" + "半" == ":半";
  }

  /** A day keyword then a text: the keyword stays in front. */
  lemma FrontWord(w: string, a: string, b: string, c: string, d: string)
    ensures w + a + b + c + d == w + (a + b + c + d)
  {
  }
}
