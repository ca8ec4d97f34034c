/**
 * `POST /api/upcoming/events` (app/api/upcoming/events/route.ts): validate
 * the submitted event, copy its known fields into a snake_case payload,
 * derive a display date when none is given, and insert the payload into the
 * first events table that exists, trying the candidate names in order.
 */
module UpcomingEvents {
  import opened Wrappers
  import opened JsValues
  import Strings
  import EventsTable

  // ---------------------------------------------------------------------
  // camelCase to snake_case keys
  // ---------------------------------------------------------------------

  predicate IsUpper(c: char) { 'A' <= c <= 'Z' }
  predicate IsLower(c: char) { 'a' <= c <= 'z' }

  function ToLower(c: char): (r: char)
    ensures !IsUpper(r)
    ensures IsUpper(c) ==> IsLower(r)
  {
    if IsUpper(c) then (c as int + 32) as char else c
  }

  function ToUpper(c: char): char {
    if IsLower(c) then (c as int - 32) as char else c
  }

  /** `s.replace(/([A-Z])/g, '_$1')`: an underscore before every capital. */
  function MarkCapitals(s: string): (r: string)
    ensures |r| >= |s|
    decreases |s|
  {
    if s == [] then []
    else (if IsUpper(s[0]) then ['_', s[0]] else [s[0]]) + MarkCapitals(s[1..])
  }

  /** `toLowerCase()` on the ASCII letters. */
  function LowerAll(s: string): (r: string)
    ensures |r| == |s|
    ensures forall i :: 0 <= i < |s| ==> r[i] == ToLower(s[i])
    decreases |s|
  {
    if s == [] then [] else [ToLower(s[0])] + LowerAll(s[1..])
  }

  /** `replace(/^_/, '')`: drop one leading underscore. */
  function DropLeadingUnderscore(s: string): (r: string)
    ensures r == s || (s != [] && s[0] == '_' && r == s[1..])
  {
    if s != [] && s[0] == '_' then s[1..] else s
  }

  /** `toSnake`: the three steps in the handler's order. */
  function ToSnake(key: string): (r: string)
    ensures forall i :: 0 <= i < |r| ==> !IsUpper(r[i])
  {
    DropLeadingUnderscore(LowerAll(MarkCapitals(key)))
  }

  /** The inverse reading: an underscore followed by a letter stands for that letter in capitals. */
  function ToCamel(t: string): string
    decreases |t|
  {
    if t == [] then []
    else if t[0] == '_' && |t| >= 2 then [ToUpper(t[1])] + ToCamel(t[2..])
    else [t[0]] + ToCamel(t[1..])
  }

  /** A camelCase identifier: ASCII letters and digits, not starting with a capital. */
  predicate IsCamelIdentifier(s: string) {
    (forall i :: 0 <= i < |s| ==> IsUpper(s[i]) || IsLower(s[i]) || Strings.IsDigit(s[i]))
    && (s == [] || !IsUpper(s[0]))
  }

  /** Lower-casing works character by character, so it distributes over concatenation. */
  lemma LowerAllConcat(a: string, b: string)
    ensures LowerAll(a + b) == LowerAll(a) + LowerAll(b)
  {
    var l, r := LowerAll(a + b), LowerAll(a) + LowerAll(b);
    assert |l| == |r|;
    forall i | 0 <= i < |l| ensures l[i] == r[i] {
      if i < |a| { assert (a + b)[i] == a[i]; } else { assert (a + b)[i] == b[i - |a|]; }
    }
  }

  /** Reading back an underscore and a letter gives the capital. */
  lemma CamelOfMark(x: char, t: string)
    ensures ToCamel(['_', x] + t) == [ToUpper(x)] + ToCamel(t)
  {
    var u := ['_', x] + t;
    assert u[0] == '_' && u[1] == x && u[2..] == t;
  }

  /** Any other character is read back as itself. */
  lemma CamelOfPlain(c: char, t: string)
    requires c != '_'
    ensures ToCamel([c] + t) == [c] + ToCamel(t)
  {
    var u := [c] + t;
    assert u[0] == c && u[1..] == t;
  }

  lemma {:induction false} CamelOfMarked(s: string)
    requires forall i :: 0 <= i < |s| ==> IsUpper(s[i]) || IsLower(s[i]) || Strings.IsDigit(s[i])
    ensures ToCamel(LowerAll(MarkCapitals(s))) == s
    decreases |s|
  {
    if s != [] {
      var c, rest := s[0], s[1..];
      CamelOfMarked(rest);
      var m := MarkCapitals(rest);
      var tail := LowerAll(m);
      if IsUpper(c) {
        assert MarkCapitals(s) == ['_', c] + m;
        LowerAllConcat(['_', c], m);
        assert LowerAll(['_', c]) == ['_', ToLower(c)];
        CamelOfMark(ToLower(c), tail);
        assert ToUpper(ToLower(c)) == c;
      } else {
        assert MarkCapitals(s) == [c] + m;
        LowerAllConcat([c], m);
        assert LowerAll([c]) == [c];
        CamelOfPlain(c, tail);
      }
      assert s == [c] + rest;
    }
  }

  /** Snake-casing a camelCase identifier loses nothing: reading it back gives the key. */
  lemma SnakeRoundTrip(key: string)
    requires IsCamelIdentifier(key)
    ensures ToCamel(ToSnake(key)) == key
  {
    CamelOfMarked(key);
    if key != [] {
      assert MarkCapitals(key)[0] == key[0];
    }
  }

  /** Hence distinct camelCase keys never land on the same snake_case key. */
  lemma SnakeInjective(a: string, b: string)
    requires IsCamelIdentifier(a) && IsCamelIdentifier(b) && a != b
    ensures ToSnake(a) != ToSnake(b)
  {
    SnakeRoundTrip(a);
    SnakeRoundTrip(b);
  }

  /** A key without capitals that does not start with `_` is unchanged. */
  lemma {:induction false} SnakeOfLowerKey(key: string)
    requires forall i :: 0 <= i < |key| ==> !IsUpper(key[i])
    requires key == [] || key[0] != '_'
    ensures ToSnake(key) == key
  {
    MarkNoCapitals(key);
  }

  lemma {:induction false} MarkNoCapitals(s: string)
    requires forall i :: 0 <= i < |s| ==> !IsUpper(s[i])
    ensures MarkCapitals(s) == s
    decreases |s|
  {
    if s != [] {
      MarkNoCapitals(s[1..]);
      assert s == [s[0]] + s[1..];
    }
  }

  lemma {:induction false} MarkCapitalsAppend(a: string, b: string)
    ensures MarkCapitals(a + b) == MarkCapitals(a) + MarkCapitals(b)
    decreases |a|
  {
    if a != [] {
      MarkCapitalsAppend(a[1..], b);
      var head := if IsUpper(a[0]) then ['_', a[0]] else [a[0]];
      assert (a + b)[0] == a[0] && (a + b)[1..] == a[1..] + b;
      assert MarkCapitals(a + b) == head + MarkCapitals(a[1..] + b);
      assert MarkCapitals(a) == head + MarkCapitals(a[1..]);
      assert head + (MarkCapitals(a[1..]) + MarkCapitals(b)) == (head + MarkCapitals(a[1..])) + MarkCapitals(b);
    } else {
      assert a + b == b;
    }
  }

  /** One capital inside a lower-case key becomes `_` and its lower-case letter. */
  lemma SnakeOfOneCapital(a: string, c: char, b: string)
    requires a != [] && a[0] != '_' && IsUpper(c)
    requires forall i :: 0 <= i < |a| ==> !IsUpper(a[i])
    requires forall i :: 0 <= i < |b| ==> !IsUpper(b[i])
    ensures ToSnake(a + [c] + b) == a + ['_', ToLower(c)] + b
  {
    MarkCapitalsAppend(a + [c], b);
    MarkCapitalsAppend(a, [c]);
    MarkNoCapitals(a);
    MarkNoCapitals(b);
    assert [c][1..] == [];
    assert MarkCapitals([c]) == ['_', c];
    var m := a + ['_', c] + b;
    assert MarkCapitals(a + [c] + b) == m;
    var l := LowerAll(m);
    var want := a + ['_', ToLower(c)] + b;
    assert |l| == |want|;
    forall i | 0 <= i < |l| ensures l[i] == want[i] {
      if i < |a| {
        assert m[i] == a[i];
      } else if i == |a| {
        assert m[i] == '_';
      } else if i == |a| + 1 {
        assert m[i] == c;
      } else {
        assert m[i] == b[i - |a| - 2];
      }
    }
    assert l == want;
    assert l[0] == a[0];
  }

  /** `dateEnd` becomes `date_end`. */
  lemma SnakeDateEnd()
    ensures ToSnake("dateEnd") == "date_end"
  {
    var date, nd := "date", "nd";
    assert forall i :: 0 <= i < |date| ==> !IsUpper(date[i]);
    assert forall i :: 0 <= i < |nd| ==> !IsUpper(nd[i]);
    SnakeOfOneCapital(date, 'E', nd);
    assert date + ['E'] + nd == "dateEnd";
    assert date + ['_', ToLower('E')] + nd == "date_end";
  }

  /** `dateDisplay` becomes `date_display`. */
  lemma SnakeDateDisplay()
    ensures ToSnake("dateDisplay") == "date_display"
  {
    var date, isplay := "date", "isplay";
    assert forall i :: 0 <= i < |date| ==> !IsUpper(date[i]);
    assert forall i :: 0 <= i < |isplay| ==> !IsUpper(isplay[i]);
    SnakeOfOneCapital(date, 'D', isplay);
    assert date + ['D'] + isplay == "dateDisplay";
    assert date + ['_', ToLower('D')] + isplay == "date_display";
  }

  // ---------------------------------------------------------------------
  // The insert payload
  // ---------------------------------------------------------------------

  /** `EVENT_FIELDS`: the keys copied from the submitted event, in order. */
  const EventFields: seq<string> :=
    ["org", "title", "description", "type", "location", "date", "dateEnd", "dateDisplay", "link"]

  /** A field is copied when it is neither `undefined` nor `null`. */
  predicate Kept(event: Record, key: string) {
    key in event && event[key] != JNull
  }

  /** The payload once the copying loop has visited `keys`. */
  function Picked(event: Record, keys: seq<string>): Record
    decreases |keys|
  {
    if keys == [] then map[]
    else
      var p := Picked(event, keys[..|keys| - 1]);
      var key := keys[|keys| - 1];
      if Kept(event, key) then p[ToSnake(key) := event[key]] else p
  }

  /** Visiting the `i`-th key copies it when it is kept. */
  lemma PickedStep(event: Record, keys: seq<string>, i: nat)
    requires i < |keys|
    ensures Picked(event, keys[..i + 1]) ==
      if Kept(event, keys[i]) then Picked(event, keys[..i])[ToSnake(keys[i]) := event[keys[i]]]
      else Picked(event, keys[..i])
  {
    assert keys[..i + 1][..i] == keys[..i];
  }

  /** The loop over `EVENT_FIELDS` that assigns into `payload`. */
  method BuildPayload(event: Record) returns (payload: Record)
    ensures payload == Picked(event, EventFields)
  {
    payload := map[];
    var i := 0;
    while i < |EventFields|
      invariant 0 <= i <= |EventFields|
      invariant payload == Picked(event, EventFields[..i])
    {
      var key := EventFields[i];
      PickedStep(event, EventFields, i);
      if key in event && event[key] != JNull {
        payload := payload[ToSnake(key) := event[key]];
      }
      i := i + 1;
    }
    assert EventFields[..|EventFields|] == EventFields;
  }

  /** The snake_case keys of the copied fields among `keys`. */
  function KeptKeys(event: Record, keys: seq<string>): set<string> {
    set i | 0 <= i < |keys| && Kept(event, keys[i]) :: ToSnake(keys[i])
  }

  /** Extending `keys` by one kept key adds its snake_case form, and nothing otherwise. */
  lemma KeptKeysSnoc(event: Record, keys: seq<string>)
    requires keys != []
    ensures KeptKeys(event, keys) ==
      KeptKeys(event, keys[..|keys| - 1]) + (if Kept(event, keys[|keys| - 1]) then {ToSnake(keys[|keys| - 1])} else {})
  {
    var n := |keys| - 1;
    var init := keys[..n];
    forall k | k in KeptKeys(event, keys)
      ensures k in KeptKeys(event, init) || (Kept(event, keys[n]) && k == ToSnake(keys[n]))
    {
      var i :| 0 <= i < |keys| && Kept(event, keys[i]) && ToSnake(keys[i]) == k;
      if i < n { assert init[i] == keys[i]; }
    }
    forall k | k in KeptKeys(event, init) ensures k in KeptKeys(event, keys) {
      var i :| 0 <= i < |init| && Kept(event, init[i]) && ToSnake(init[i]) == k;
      assert keys[i] == init[i];
    }
  }

  /** The payload's keys are exactly the snake-cased keys whose values were copied. */
  lemma {:induction false} PickedKeySet(event: Record, keys: seq<string>)
    ensures Picked(event, keys).Keys == KeptKeys(event, keys)
    decreases |keys|
  {
    if keys != [] {
      PickedKeySet(event, keys[..|keys| - 1]);
      KeptKeysSnoc(event, keys);
    }
  }

  /** When no later key snake-cases like the `i`-th, the copied field holds its own value. */
  lemma {:induction false} PickedValues(event: Record, keys: seq<string>, i: nat)
    requires i < |keys| && Kept(event, keys[i])
    requires forall j :: i < j < |keys| ==> ToSnake(keys[j]) != ToSnake(keys[i])
    ensures ToSnake(keys[i]) in Picked(event, keys)
    ensures Picked(event, keys)[ToSnake(keys[i])] == event[keys[i]]
    decreases |keys|
  {
    var n := |keys| - 1;
    var init := keys[..n];
    var p := Picked(event, init);
    assert Picked(event, keys) == if Kept(event, keys[n]) then p[ToSnake(keys[n]) := event[keys[n]]] else p;
    if i < n {
      assert init[i] == keys[i];
      assert forall j :: i < j < |init| ==> init[j] == keys[j];
      PickedValues(event, init, i);
      assert ToSnake(keys[n]) != ToSnake(keys[i]);
    }
  }

  /** The event fields are distinct camelCase identifiers, so their snake_case keys are distinct. */
  lemma EventFieldsSnakeDistinct()
    ensures forall i, j :: 0 <= i < j < |EventFields| ==> ToSnake(EventFields[i]) != ToSnake(EventFields[j])
  {
    forall i, j | 0 <= i < j < |EventFields| ensures ToSnake(EventFields[i]) != ToSnake(EventFields[j]) {
      var a, b := EventFields[i], EventFields[j];
      assert IsCamelIdentifier(a) && IsCamelIdentifier(b);
      SnakeInjective(a, b);
    }
  }

  /**
   * The payload holds exactly the snake-cased `EVENT_FIELDS` whose values
   * are neither `undefined` nor `null`, with those values; every other key
   * of the submitted event is dropped.
   */
  lemma PayloadKeys(event: Record)
    ensures forall k :: k in Picked(event, EventFields) <==>
      exists f :: f in EventFields && ToSnake(f) == k && Kept(event, f)
    ensures forall f :: f in EventFields && Kept(event, f) ==>
      ToSnake(f) in Picked(event, EventFields) && Picked(event, EventFields)[ToSnake(f)] == event[f]
  {
    EventFieldsSnakeDistinct();
    PickedKeySet(event, EventFields);
    forall k | k in Picked(event, EventFields)
      ensures exists f :: f in EventFields && ToSnake(f) == k && Kept(event, f)
    {
      var i :| 0 <= i < |EventFields| && Kept(event, EventFields[i]) && ToSnake(EventFields[i]) == k;
      assert EventFields[i] in EventFields;
    }
    forall f | f in EventFields && Kept(event, f)
      ensures ToSnake(f) in Picked(event, EventFields)
      ensures Picked(event, EventFields)[ToSnake(f)] == event[f]
    {
      var i :| 0 <= i < |EventFields| && EventFields[i] == f;
      PickedValues(event, EventFields, i);
    }
  }

  // ---------------------------------------------------------------------
  // The display date
  // ---------------------------------------------------------------------

  type Month = m: int | 1 <= m <= 12 witness 1
  type Day = d: int | 1 <= d <= 31 witness 1

  /** The month and day a valid JavaScript `Date` reports (`getMonth() + 1`, `getDate()`). */
  datatype CalendarDate = CalendarDate(year: int, month: Month, day: Day)

  const MonthNames: seq<string> :=
    ["Jan", "Feb", "Mar", "Apr", "May", "Jun", "Jul", "Aug", "Sep", "Oct", "Nov", "Dec"]

  const EnDash: char := '\U{2013}'

  /** `"<Mon> <day>"`, followed by `"–<end day>"` for a range. */
  function DisplayText(month: Month, day: Day, endDay: Option<Day>): string {
    MonthNames[month - 1] + " " + Strings.Decimal(day)
      + (if endDay.Some? then [EnDash] + Strings.Decimal(endDay.value) else "")
  }

  /**
   * `formatDateDisplay(date, dateEnd)`. `dateOf` stands for the JavaScript
   * date arithmetic: `split('-').map(Number)`, `new Date(y, m - 1, d)` and
   * the NaN test, giving `None` for an invalid date. A non-string value
   * makes `split` throw, and the handler's `catch` returns `date` as it came.
   */
  function FormatDateDisplay(date: JsValue, dateEnd: Option<JsValue>, dateOf: string -> Option<CalendarDate>): JsValue {
    if !date.JStr? then date
    else match dateOf(date.s)
      case None => date
      case Some(start) =>
        if !Truthy(dateEnd) then JStr(DisplayText(start.month, start.day, None))
        else if !dateEnd.value.JStr? then date
        else match dateOf(dateEnd.value.s)
          case Some(end) =>
            if end.month == start.month then JStr(DisplayText(start.month, start.day, Some(end.day)))
            else JStr(DisplayText(start.month, start.day, None))
          case None => JStr(DisplayText(start.month, start.day, None))
  }

  /**
   * The four outcomes of `formatDateDisplay`: an invalid start is returned
   * unchanged; a valid start gives "<Mon> <d>"; an end date in the same month
   * (whatever its year) makes it "<Mon> <d>–<e>"; any other end date shows the
   * start alone.
   */
  lemma FormatDateDisplayCases(date: string, dateEnd: Option<JsValue>, dateOf: string -> Option<CalendarDate>)
    ensures dateOf(date).None? ==> FormatDateDisplay(JStr(date), dateEnd, dateOf) == JStr(date)
    ensures dateOf(date).Some? && !Truthy(dateEnd) ==>
      var d := dateOf(date).value;
      FormatDateDisplay(JStr(date), dateEnd, dateOf) == JStr(DisplayText(d.month, d.day, None))
    ensures dateOf(date).Some? && Truthy(dateEnd) && dateEnd.value.JStr? ==>
      var d := dateOf(date).value;
      var e := dateOf(dateEnd.value.s);
      FormatDateDisplay(JStr(date), dateEnd, dateOf) ==
        if e.Some? && e.value.month == d.month then JStr(DisplayText(d.month, d.day, Some(e.value.day)))
        else JStr(DisplayText(d.month, d.day, None))
  {
  }

  /** The month named by a three-letter abbreviation. */
  function MonthNumber(name: string): (m: Option<Month>)
    ensures m.Some? ==> MonthNames[m.value - 1] == name
  {
    MonthFrom(name, 1)
  }

  function MonthFrom(name: string, m: Month): (r: Option<Month>)
    ensures r.Some? ==> m <= r.value && MonthNames[r.value - 1] == name
    ensures name in MonthNames[m - 1..] ==> r.Some?
    decreases 12 - m
  {
    if MonthNames[m - 1] == name then Some(m)
    else if m == 12 then None
    else MonthFrom(name, m + 1)
  }

  /** The month search started at `k` finds month `m` when no month from `k` to before `m` has its name. */
  lemma {:induction false} MonthFromFinds(m: Month, k: Month)
    requires k <= m
    requires forall j :: k - 1 <= j < m - 1 ==> MonthNames[j] != MonthNames[m - 1]
    ensures MonthFrom(MonthNames[m - 1], k) == Some(m)
    decreases m - k
  {
    if k < m {
      MonthFromFinds(m, k + 1);
    }
  }

  lemma MonthNumberOfName(m: Month)
    ensures MonthNumber(MonthNames[m - 1]) == Some(m)
  {
    forall j | 0 <= j < m - 1 ensures MonthNames[j] != MonthNames[m - 1] {
      var a, b := MonthNames[j], MonthNames[m - 1];
      assert a[0] != b[0] || a[1] != b[1] || a[2] != b[2];
    }
    MonthFromFinds(m, 1);
  }

  /** What a display text says, read back: month, day, and the end day of a range. */
  function ReadDisplay(text: string): Option<(int, nat, Option<nat>)> {
    if |text| < 4 || text[3] != ' ' then None
    else match MonthNumber(text[..3])
      case None => None
      case Some(m) =>
        var parts := Strings.Split(text[4..], EnDash);
        if |parts| == 1 && IsNumeral(parts[0]) then Some((m as int, Strings.DecimalValue(parts[0]), None))
        else if |parts| == 2 && IsNumeral(parts[0]) && IsNumeral(parts[1]) then
          Some((m as int, Strings.DecimalValue(parts[0]), Some(Strings.DecimalValue(parts[1]))))
        else None
  }

  predicate IsNumeral(s: string) {
    s != [] && forall i :: 0 <= i < |s| ==> Strings.IsDigit(s[i])
  }

  /** What follows the month and the space in a display text. */
  function DisplayTail(day: Day, endDay: Option<Day>): string {
    Strings.Decimal(day) + (if endDay.Some? then [EnDash] + Strings.Decimal(endDay.value) else "")
  }

  lemma DisplayTextShape(month: Month, day: Day, endDay: Option<Day>)
    ensures var text := DisplayText(month, day, endDay);
      |text| >= 4 && text[..3] == MonthNames[month - 1] && text[3] == ' '
      && text[4..] == DisplayTail(day, endDay)
  {
    var name := MonthNames[month - 1];
    assert |name| == 3;
    var text := DisplayText(month, day, endDay);
    assert text == name + " " + DisplayTail(day, endDay);
  }

  /** The day part splits at the en dash into the day's numeral and, for a range, the end day's. */
  lemma DisplayTailSplits(day: Day, endDay: Option<Day>)
    ensures var parts := Strings.Split(DisplayTail(day, endDay), EnDash);
      |parts| == (if endDay.Some? then 2 else 1)
      && IsNumeral(parts[0]) && Strings.DecimalValue(parts[0]) == day
      && (endDay.Some? ==> IsNumeral(parts[1]) && Strings.DecimalValue(parts[1]) == endDay.value)
  {
    var d := Strings.Decimal(day);
    Strings.DecimalRoundTrip(day);
    assert EnDash !in d;
    match endDay {
      case None =>
        assert DisplayTail(day, endDay) == d;
        Strings.SplitNoSep(d, EnDash);
      case Some(e) =>
        var de := Strings.Decimal(e);
        Strings.DecimalRoundTrip(e);
        assert EnDash !in de;
        assert DisplayTail(day, endDay) == d + [EnDash] + de;
        Strings.SplitAround(d, de, EnDash);
    }
  }

  /** Every display text reads back as the month, day and end day it was made from. */
  lemma DisplayRoundTrip(month: Month, day: Day, endDay: Option<Day>)
    ensures ReadDisplay(DisplayText(month, day, endDay)) ==
      Some((month as int, day as nat, if endDay.Some? then Some(endDay.value as nat) else None))
  {
    DisplayTextShape(month, day, endDay);
    MonthNumberOfName(month);
    DisplayTailSplits(day, endDay);
  }

  /**
   * `if (!payload.date_display && payload.date)`: a display date is derived
   * only when none (or an empty one) was supplied and a date was.
   */
  function WithDateDisplay(payload: Record, dateOf: string -> Option<CalendarDate>): (r: Record)
    ensures r.Keys == payload.Keys + (if Truthy(Get(payload, "date")) then {"date_display"} else {})
    ensures forall k :: k in payload && k != "date_display" ==> r[k] == payload[k]
    ensures Truthy(Get(payload, "date_display")) || !Truthy(Get(payload, "date")) ==> r == payload
    ensures !Truthy(Get(payload, "date_display")) && Truthy(Get(payload, "date")) ==>
      r["date_display"] == FormatDateDisplay(payload["date"], Get(payload, "date_end"), dateOf)
  {
    if !Truthy(Get(payload, "date_display")) && Truthy(Get(payload, "date")) then
      payload["date_display" := FormatDateDisplay(payload["date"], Get(payload, "date_end"), dateOf)]
    else payload
  }

  // ---------------------------------------------------------------------
  // Trying the table names in order
  // ---------------------------------------------------------------------

  /** What one `insert(payload).select('id').single()` call returned. */
  datatype InsertOutcome =
    | Row(id: JsValue)                     // no error: the inserted row's id
    | NoRow                                // neither an error nor a row
    | Failed(error: EventsTable.DbError)

  /** How the loop over the table names ended. */
  datatype TableLoop =
    | Stored(at: nat, id: JsValue)         // inserted into `tables[at]`
    | Threw(at: nat)                       // `tables[at]` gave neither row nor error: reading `error.message` throws
    | GaveUp(tried: nat, lastError: Option<EventsTable.DbError>)

  /** The insert into `tables[j]` failed because that table does not exist. */
  predicate MissingAt(tables: seq<string>, insert: string -> InsertOutcome, j: nat)
    requires j < |tables|
  {
    insert(tables[j]).Failed? && EventsTable.TableMissing(insert(tables[j]).error.code)
  }

  /** The loop reaches `tables[i]`: every table before it was missing. */
  predicate Reaches(tables: seq<string>, insert: string -> InsertOutcome, i: nat) {
    i < |tables| && forall j :: 0 <= j < i ==> MissingAt(tables, insert, j)
  }

  /** The first table from `from` on that is not missing, or `|tables|` when there is none. */
  function FirstPresent(tables: seq<string>, insert: string -> InsertOutcome, from: nat): (k: nat)
    requires from <= |tables|
    ensures from <= k <= |tables|
    ensures forall j :: from <= j < k ==> MissingAt(tables, insert, j)
    ensures k < |tables| ==> !MissingAt(tables, insert, k)
    decreases |tables| - from
  {
    if from == |tables| || !MissingAt(tables, insert, from) then from
    else FirstPresent(tables, insert, from + 1)
  }

  /** At most one table is reached and not missing: the loop's stopping place is unique. */
  lemma StopIsUnique(tables: seq<string>, insert: string -> InsertOutcome, i: nat, k: nat)
    requires Reaches(tables, insert, i) && !MissingAt(tables, insert, i)
    requires Reaches(tables, insert, k) && !MissingAt(tables, insert, k)
    ensures i == k
  {
  }

  /** The table the loop stops at is the first one that is not missing. */
  lemma FirstPresentIsStop(tables: seq<string>, insert: string -> InsertOutcome, i: nat)
    requires Reaches(tables, insert, i) && !MissingAt(tables, insert, i)
    ensures FirstPresent(tables, insert, 0) == i
  {
  }

  /**
   * `lastError` once the loop has given up: the error of the first table
   * that is not missing, or, when every table is missing, the error of the
   * last one; none when there is no table.
   */
  function LastError(tables: seq<string>, insert: string -> InsertOutcome): Option<EventsTable.DbError> {
    var k := FirstPresent(tables, insert, 0);
    var at := if k < |tables| then k else |tables| - 1;
    if at < 0 || !insert(tables[at]).Failed? then None else Some(insert(tables[at]).error)
  }

  /** The last error, read off the source's two ways of leaving the loop after a failure. */
  lemma LastErrorCases(tables: seq<string>, insert: string -> InsertOutcome, i: nat)
    ensures (Reaches(tables, insert, i) && insert(tables[i]).Failed?
             && !EventsTable.TableMissing(insert(tables[i]).error.code)) ==>
      LastError(tables, insert) == Some(insert(tables[i]).error)
    ensures (|tables| > 0 && forall j :: 0 <= j < |tables| ==> MissingAt(tables, insert, j)) ==>
      insert(tables[|tables| - 1]).Failed?
      && LastError(tables, insert) == Some(insert(tables[|tables| - 1]).error)
  {
    if Reaches(tables, insert, i) && insert(tables[i]).Failed? && !EventsTable.TableMissing(insert(tables[i]).error.code) {
      FirstPresentIsStop(tables, insert, i);
    }
    if |tables| > 0 && forall j :: 0 <= j < |tables| ==> MissingAt(tables, insert, j) {
      var k := FirstPresent(tables, insert, 0);
      assert MissingAt(tables, insert, |tables| - 1);
    }
  }

  /**
   * The `for (const table of tableVariants)` loop: stop at the first table
   * that takes the row, and after a failure go on only when the table is
   * missing (`42P01` or `PGRST204`).
   */
  method InsertIntoFirstTable(tables: seq<string>, insert: string -> InsertOutcome) returns (r: TableLoop)
    ensures r.Stored? ==> r.at < |tables| && insert(tables[r.at]) == Row(r.id)
    ensures r.Threw? ==> r.at < |tables| && insert(tables[r.at]) == NoRow
    ensures r.Stored? || r.Threw? ==> forall j :: 0 <= j < r.at ==> MissingAt(tables, insert, j)
    ensures r.GaveUp? ==> r.tried <= |tables| && (r.tried == 0 <==> r.lastError.None?)
    ensures r.GaveUp? && r.tried > 0 ==> insert(tables[r.tried - 1]) == Failed(r.lastError.value)
    ensures r.GaveUp? ==> forall j :: 0 <= j < r.tried - 1 ==> MissingAt(tables, insert, j)
    ensures r.GaveUp? && r.tried < |tables| ==> r.tried > 0 && !EventsTable.TableMissing(r.lastError.value.code)
    ensures r.Stored? <==> exists i: nat :: Reaches(tables, insert, i) && insert(tables[i]).Row?
    ensures r.Threw? <==> exists i: nat :: Reaches(tables, insert, i) && insert(tables[i]) == NoRow
    ensures r.GaveUp? ==> r.lastError == LastError(tables, insert)
  {
    var i := 0;
    var lastError: Option<EventsTable.DbError> := None;
    while i < |tables|
      invariant 0 <= i <= |tables|
      invariant forall j :: 0 <= j < i ==> MissingAt(tables, insert, j)
      invariant i == 0 <==> lastError.None?
      invariant i > 0 ==> insert(tables[i - 1]) == Failed(lastError.value)
    {
      assert Reaches(tables, insert, i);
      match insert(tables[i]) {
        case Row(id) =>
          StopsHere(tables, insert, i);
          return Stored(i, id);
        case NoRow =>
          StopsHere(tables, insert, i);
          return Threw(i);
        case Failed(error) =>
          lastError := Some(error);
          if !EventsTable.TableMissing(error.code) {
            StopsHere(tables, insert, i);
            LastErrorCases(tables, insert, i);
            return GaveUp(i + 1, lastError);
          }
      }
      i := i + 1;
    }
    NoStop(tables, insert);
    LastErrorCases(tables, insert, 0);
    return GaveUp(i, lastError);
  }

  /** When the loop stops at `tables[i]`, no other table is reached with a row or with no answer. */
  lemma StopsHere(tables: seq<string>, insert: string -> InsertOutcome, i: nat)
    requires Reaches(tables, insert, i) && !MissingAt(tables, insert, i)
    ensures forall k: nat :: Reaches(tables, insert, k) && !insert(tables[k]).Failed? ==> k == i
  {
    forall k: nat | Reaches(tables, insert, k) && !insert(tables[k]).Failed? ensures k == i {
      StopIsUnique(tables, insert, i, k);
    }
  }

  /** When every table is missing, none is reached with a row or with no answer. */
  lemma NoStop(tables: seq<string>, insert: string -> InsertOutcome)
    requires forall j :: 0 <= j < |tables| ==> MissingAt(tables, insert, j)
    ensures forall k: nat :: Reaches(tables, insert, k) ==> insert(tables[k]).Failed?
  {
    forall k: nat | Reaches(tables, insert, k) ensures insert(tables[k]).Failed? {
      assert MissingAt(tables, insert, k);
    }
  }

  /**
   * When the loop gave up after a failure whose code says the table is
   * missing, it had tried every name, and every one was missing.
   */
  lemma AllMissingWhenLastMissing(tables: seq<string>, insert: string -> InsertOutcome, tried: nat, last: EventsTable.DbError)
    requires 0 < tried <= |tables| && insert(tables[tried - 1]) == Failed(last)
    requires forall j :: 0 <= j < tried - 1 ==> MissingAt(tables, insert, j)
    requires tried < |tables| ==> !EventsTable.TableMissing(last.code)
    requires EventsTable.TableMissing(last.code)
    ensures tried == |tables|
    ensures forall j :: 0 <= j < |tables| ==> MissingAt(tables, insert, j)
  {
  }

  const MissingTablesHint := "None of the table names exist. Check your Supabase Table Editor for the exact table name and set SUPABASE_EVENTS_TABLE accordingly."
  const PermissionHint := "Permission denied. Check that your SUPABASE_SERVICE_ROLE_KEY is the service_role key (not anon)."

  /** The hint of the failure response: by the last error's code, `42P01` or `42501`; none otherwise. */
  function FailureHint(lastError: Option<EventsTable.DbError>): (hint: Option<string>)
    ensures hint == Some(MissingTablesHint) <==> lastError.Some? && lastError.value.code == Some("42P01")
    ensures hint == Some(PermissionHint) <==> lastError.Some? && lastError.value.code == Some("42501")
    ensures hint.None? <==> lastError.None? || (lastError.value.code != Some("42P01") && lastError.value.code != Some("42501"))
  {
    if lastError.Some? && lastError.value.code == Some("42P01") then Some(MissingTablesHint)
    else if lastError.Some? && lastError.value.code == Some("42501") then Some(PermissionHint)
    else None
  }

  // ---------------------------------------------------------------------
  // The handler
  // ---------------------------------------------------------------------

  const ObjectRequired := "Event object is required."
  const TitleAndDateRequired := "Event title and date are required."

  /** The properties of a value that passed `typeof event === 'object'`: an array has no `title` or `date`. */
  function FieldsOf(v: JsValue): Record {
    if v.JObject? then v.fields else map[]
  }

  /** The two 400 checks on `body.event`. */
  function CheckEvent(event: Option<JsValue>): (r: Result<Record, string>)
    ensures r.Err? && r.error == ObjectRequired <==> !Truthy(event) || !IsObjectType(event.value)
    ensures r.Err? && r.error == TitleAndDateRequired <==>
      Truthy(event) && IsObjectType(event.value)
      && (!Truthy(Get(FieldsOf(event.value), "title")) || !Truthy(Get(FieldsOf(event.value), "date")))
    ensures r.Ok? <==>
      Truthy(event) && IsObjectType(event.value)
      && Truthy(Get(FieldsOf(event.value), "title")) && Truthy(Get(FieldsOf(event.value), "date"))
    ensures r.Ok? ==>
      (event == Some(JObject(r.value)) && Truthy(Get(r.value, "title")) && Truthy(Get(r.value, "date")))
  {
    if !Truthy(event) || !IsObjectType(event.value) then Err(ObjectRequired)
    else
      var fields := FieldsOf(event.value);
      if !Truthy(Get(fields, "title")) || !Truthy(Get(fields, "date")) then Err(TitleAndDateRequired)
      else Ok(fields)
  }

  /** The payload sent to Supabase. */
  function Payload(event: Record, dateOf: string -> Option<CalendarDate>): Record {
    WithDateDisplay(Picked(event, EventFields), dateOf)
  }

  datatype UpcomingResponse =
    | NotConfigured                                  // 503
    | BadRequest(error: string)                      // 400
    | SaveFailed(error: string, tablesAttempted: seq<string>, errorCode: Option<string>,
                 payloadKeys: set<string>, hint: Option<string>)   // 500
    | Unhandled                                      // 500 from the outer `catch`
    | Created(table: string, event: Record)          // `{ success: true, table, event }`

  function StatusCode(r: UpcomingResponse): int {
    match r
    case NotConfigured => 503
    case BadRequest(_) => 400
    case SaveFailed(_, _, _, _, _) => 500
    case Unhandled => 500
    case Created(_, _) => 200
  }

  /** `Failed to save event: ${lastError?.message || 'Unknown error'}`. */
  function SaveFailedMessage(lastError: Option<EventsTable.DbError>): string {
    "Failed to save event: "
      + (if lastError.Some? && lastError.value.message != "" then lastError.value.message else "Unknown error")
  }

  /**
   * The insert half of `POST`, once the event has passed both checks: build
   * the payload, try the table names in order, and answer with the stored
   * row, the framework's 500 when reading the error throws, or the 500 that
   * lists the tables tried, the payload's keys and a hint.
   */
  method SaveEvent(event: Record, tableEnv: Option<string>,
                   insert: string -> InsertOutcome, dateOf: string -> Option<CalendarDate>)
    returns (response: UpcomingResponse)
    ensures response.Created? || response.SaveFailed? || response.Unhandled?
    ensures response.Created? ==>
      var tables := EventsTable.Variants(EventsTable.ConfiguredTable(tableEnv));
      response.table in tables && insert(response.table).Row?
      && response.event == Payload(event, dateOf)["id" := insert(response.table).id]
      && forall j :: 0 <= j < EventsTable.IndexOf(tables, response.table) ==> MissingAt(tables, insert, j)
    ensures response.SaveFailed? ==>
      response.tablesAttempted == EventsTable.Variants(EventsTable.ConfiguredTable(tableEnv))
      && response.payloadKeys == Payload(event, dateOf).Keys
    ensures response.SaveFailed? && response.hint == Some(MissingTablesHint) ==>
      forall j :: 0 <= j < |response.tablesAttempted| ==> MissingAt(response.tablesAttempted, insert, j)
    ensures var tables := EventsTable.Variants(EventsTable.ConfiguredTable(tableEnv));
      response.Created? <==> exists i: nat :: Reaches(tables, insert, i) && insert(tables[i]).Row?
    ensures var tables := EventsTable.Variants(EventsTable.ConfiguredTable(tableEnv));
      response.Unhandled? <==> exists i: nat :: Reaches(tables, insert, i) && insert(tables[i]) == NoRow
    ensures response.SaveFailed? ==>
      var last := LastError(EventsTable.Variants(EventsTable.ConfiguredTable(tableEnv)), insert);
      response.error == SaveFailedMessage(last)
      && response.errorCode == (if last.Some? then last.value.code else None)
      && response.hint == FailureHint(last)
  {
    var configuredTable := EventsTable.ConfiguredTable(tableEnv);
    var picked := BuildPayload(event);
    var payload := WithDateDisplay(picked, dateOf);
    var tables := EventsTable.UniqueStrings(EventsTable.Candidates(configuredTable));
    assert tables == EventsTable.Variants(configuredTable);
    var outcome := InsertIntoFirstTable(tables, insert);
    match outcome {
      case Stored(at, id) =>
        EventsTable.UniqueNoDuplicates(EventsTable.Candidates(configuredTable));
        EventsTable.IndexOfDistinct(tables, at);
        return Created(tables[at], payload["id" := id]);
      case Threw(_) =>
        return Unhandled;
      case GaveUp(tried, lastError) =>
        var code := if lastError.Some? then lastError.value.code else None;
        var hint := FailureHint(lastError);
        if hint == Some(MissingTablesHint) {
          AllMissingWhenLastMissing(tables, insert, tried, lastError.value);
        }
        return SaveFailed(SaveFailedMessage(lastError), tables, code, payload.Keys, hint);
    }
  }

  /**
   * `POST`. `configured` is `isSupabaseConfigured()`, `tableEnv` the
   * `SUPABASE_EVENTS_TABLE` variable, `insert` the outcome of inserting the
   * payload into a named table, `dateOf` the JavaScript date arithmetic.
   */
  method PostUpcoming(configured: bool, body: JsValue, tableEnv: Option<string>,
                      insert: string -> InsertOutcome, dateOf: string -> Option<CalendarDate>)
    returns (response: UpcomingResponse)
    ensures response.NotConfigured? <==> !configured
    ensures configured && body.JNull? ==> response == Unhandled
    ensures configured && !body.JNull? && CheckEvent(Prop(Some(body), "event")).Ok? ==>
      response.Created? || response.SaveFailed? || response.Unhandled?
    ensures configured && !body.JNull? && CheckEvent(Prop(Some(body), "event")).Err? ==>
      response == BadRequest(CheckEvent(Prop(Some(body), "event")).error)
    ensures response.BadRequest? ==> CheckEvent(Prop(Some(body), "event")).Err?
    ensures response.Created? ==>
      var tables := EventsTable.Variants(EventsTable.ConfiguredTable(tableEnv));
      var event := CheckEvent(Prop(Some(body), "event")).value;
      response.table in tables && insert(response.table).Row?
      && response.event == Payload(event, dateOf)["id" := insert(response.table).id]
      && forall j :: 0 <= j < EventsTable.IndexOf(tables, response.table) ==> MissingAt(tables, insert, j)
    ensures response.SaveFailed? ==>
      var event := CheckEvent(Prop(Some(body), "event")).value;
      response.tablesAttempted == EventsTable.Variants(EventsTable.ConfiguredTable(tableEnv))
      && response.payloadKeys == Payload(event, dateOf).Keys
    ensures response.SaveFailed? && response.hint == Some(MissingTablesHint) ==>
      forall j :: 0 <= j < |response.tablesAttempted| ==> MissingAt(response.tablesAttempted, insert, j)
    ensures configured && !body.JNull? && CheckEvent(Prop(Some(body), "event")).Ok? ==>
      var tables := EventsTable.Variants(EventsTable.ConfiguredTable(tableEnv));
      (response.Created? <==> exists i: nat :: Reaches(tables, insert, i) && insert(tables[i]).Row?)
      && (response.Unhandled? <==> exists i: nat :: Reaches(tables, insert, i) && insert(tables[i]) == NoRow)
    ensures response.SaveFailed? ==>
      var last := LastError(EventsTable.Variants(EventsTable.ConfiguredTable(tableEnv)), insert);
      response.error == SaveFailedMessage(last)
      && response.errorCode == (if last.Some? then last.value.code else None)
      && response.hint == FailureHint(last)
  {
    if !configured {
      return NotConfigured;
    }
    if body.JNull? {
      return Unhandled;
    }
    var checked := CheckEvent(Prop(Some(body), "event"));
    if checked.Err? {
      return BadRequest(checked.error);
    }
    response := SaveEvent(checked.value, tableEnv, insert, dateOf);
  }
}
