/** The bike-share page's small rules: looking a statistic row up by one of
    its fields, the hour labels of the peak-hours chart, the signed net-flow
    text of the station table, and the time-of-day band and rate multiplier
    of the trip counter. */
module Divvy {
  import opened Wrappers
  import opened DivvyStats

  // ---------------------------------------------------------------------
  // Looking up a statistic row

  /** A JSON field value; numbers are integers here. */
  datatype Value = Str(s: string) | Num(n: int)

  /** One element of a statistic's list: its fields by name. */
  type Item = map<string, Value>

  /** `item[key] === value`: a missing field is `undefined` and equals no value. */
  predicate Matches(item: Item, key: string, value: Value)
  {
    key in item && item[key] == value
  }

  /** `items[i]` is the first element that matches. */
  predicate FirstMatch(items: seq<Item>, i: int, key: string, value: Value)
  {
    0 <= i < |items| && Matches(items[i], key, value) &&
    forall j :: 0 <= j < i ==> !Matches(items[j], key, value)
  }

  /** `getStatItemByKeyValue(statName, key, value)` over `divvyStats.stats`:
      nothing when the statistic is absent, otherwise the first element of
      its list whose field `key` is `value`, or nothing when none is. */
  method GetStatItemByKeyValue(stats: map<string, seq<Item>>, statName: string, key: string, value: Value)
    returns (r: Option<Item>)
    ensures statName !in stats ==> r == None
    ensures statName in stats ==>
      (r.None? <==> forall i :: 0 <= i < |stats[statName]| ==> !Matches(stats[statName][i], key, value))
    ensures r.Some? ==> statName in stats
    ensures r.Some? ==> exists i :: FirstMatch(stats[statName], i, key, value) && stats[statName][i] == r.value
  {
    if statName !in stats {
      return None;
    }
    var items := stats[statName];
    for i := 0 to |items|
      invariant forall j :: 0 <= j < i ==> !Matches(items[j], key, value)
    {
      if key in items[i] && items[i][key] == value {
        return Some(items[i]);
      }
    }
    return None;
  }

  // ---------------------------------------------------------------------
  // Decimal text

  function Digit(d: nat): char
    requires d < 10
  {
    '0' + d as char
  }

  /** The decimal text of a natural number, as template literals and
      `toString` write it. */
  function NatText(n: nat): (s: string)
    ensures s != [] && forall i :: 0 <= i < |s| ==> '0' <= s[i] <= '9'
    ensures n > 0 ==> s[0] != '0'
  {
    if n < 10 then [Digit(n)] else NatText(n / 10) + [Digit(n % 10)]
  }

  /** The text of an integer: a minus sign before a negative one. */
  function IntText(n: int): string
  {
    if n < 0 then "-" + NatText(-n) else NatText(n)
  }

  /** The number a string of decimal digits denotes. */
  function DigitsValue(s: string): nat
    requires forall i :: 0 <= i < |s| ==> '0' <= s[i] <= '9'
  {
    if s == [] then 0 else DigitsValue(s[..|s| - 1]) * 10 + (s[|s| - 1] - '0') as nat
  }

  /** Reading the decimal text back gives the number. */
  lemma {:induction false} NatTextValue(n: nat)
    ensures DigitsValue(NatText(n)) == n
  {
    if n >= 10 {
      NatTextValue(n / 10);
      var s := NatText(n);
      assert s[..|s| - 1] == NatText(n / 10);
    }
  }

  lemma NatTextInjective(a: nat, b: nat)
    requires NatText(a) == NatText(b)
    ensures a == b
  {
    NatTextValue(a);
    NatTextValue(b);
  }

  /** A signed integer text, read back. */
  function SignedValue(s: string): int
    requires s != []
    requires forall i :: 1 <= i < |s| ==> '0' <= s[i] <= '9'
    requires s[0] == '+' || s[0] == '-' || '0' <= s[0] <= '9'
  {
    if s[0] == '+' then DigitsValue(s[1..])
    else if s[0] == '-' then -(DigitsValue(s[1..]) as int)
    else DigitsValue(s)
  }

  // ---------------------------------------------------------------------
  // Peak-hours labels

  /** The hour on a twelve-hour clock. */
  function ClockHour(hour: int): int
  {
    if hour % 12 == 0 then 12 else hour % 12
  }

  /** The peak-hours chart's label: `12A` for midnight, `12P` for noon, the
      afternoon hours less twelve with `P`, the morning hours with `A`. */
  function HourLabel(hour: int): (text: string)
    ensures 0 <= hour < 24 ==>
      text == NatText(ClockHour(hour)) + [if hour < 12 then 'A' else 'P']
  {
    if hour == 0 then "12A"
    else if hour == 12 then "12P"
    else if hour > 12 then IntText(hour - 12) + "P"
    else IntText(hour) + "A"
  }

  /** Different hours of the day get different labels. */
  lemma HourLabelInjective(a: int, b: int)
    requires 0 <= a < 24 && 0 <= b < 24 && HourLabel(a) == HourLabel(b)
    ensures a == b
  {
    var la := NatText(ClockHour(a));
    var lb := NatText(ClockHour(b));
    assert HourLabel(a)[..|HourLabel(a)| - 1] == la;
    assert HourLabel(b)[..|HourLabel(b)| - 1] == lb;
    NatTextInjective(ClockHour(a), ClockHour(b));
  }

  // ---------------------------------------------------------------------
  // Net flow

  /** The station table's net-flow text: a `+` before a positive flow, the
      plain number otherwise. */
  function FlowText(netFlow: int): (text: string)
    ensures netFlow > 0 ==> text == "+" + IntText(netFlow)
    ensures netFlow <= 0 ==> text == IntText(netFlow)
  {
    if netFlow > 0 then "+" + IntText(netFlow) else IntText(netFlow)
  }

  /** The text starts with a sign exactly for non-zero flows, a plus exactly
      for positive ones, and reads back as the flow. */
  lemma FlowTextValue(netFlow: int)
    ensures FlowText(netFlow)[0] == '+' <==> netFlow > 0
    ensures FlowText(netFlow)[0] == '-' <==> netFlow < 0
    ensures SignedValue(FlowText(netFlow)) == netFlow
  {
    var t := FlowText(netFlow);
    if netFlow > 0 {
      NatTextValue(netFlow);
      assert t[1..] == NatText(netFlow);
    } else if netFlow < 0 {
      NatTextValue(-netFlow);
      assert t[1..] == NatText(-netFlow);
    } else {
      assert t == "0";
    }
  }

  // ---------------------------------------------------------------------
  // The trip counter

  /** `getCurrentTimeOfDay`, given the hour of `new Date().getHours()`. */
  function CurrentTimeOfDay(hour: int): (band: string)
    ensures band in Bands
  {
    if 5 <= hour && hour < 12 then Morning
    else if 12 <= hour && hour < 17 then Afternoon
    else if 17 <= hour && hour < 21 then Evening
    else Night
  }

  /** The page's bands are the statistics script's bands, hour for hour. */
  lemma SameBands(hour: int)
    ensures CurrentTimeOfDay(hour) == CategorizeTimeOfDay(hour)
  {
  }

  /** `getCurrentRateMultiplier`: the band's share of the trips, or 1 when
      that is missing or zero (falsy). */
  function RateMultiplier(rates: map<string, real>, hour: int): (m: real)
    ensures m != 0.0
    ensures CurrentTimeOfDay(hour) in rates && rates[CurrentTimeOfDay(hour)] != 0.0 ==>
      m == rates[CurrentTimeOfDay(hour)]
    ensures CurrentTimeOfDay(hour) !in rates || rates[CurrentTimeOfDay(hour)] == 0.0 ==> m == 1.0
  {
    var band := CurrentTimeOfDay(hour);
    if band in rates && rates[band] != 0.0 then rates[band] else 1.0
  }

  /** The multiplier for an hour is the rate of its band as the statistics
      script labels trips. */
  lemma RateFollowsBand(rates: map<string, real>, hour: int)
    requires CategorizeTimeOfDay(hour) in rates && rates[CategorizeTimeOfDay(hour)] != 0.0
    ensures RateMultiplier(rates, hour) == rates[CategorizeTimeOfDay(hour)]
  {
    SameBands(hour);
  }
}
