/** The transit-card script's extraction of train taps from the card's
    transaction history: the rail taps kept, the line and station read from
    each tap's route text, and the empty result when the history is not
    shaped as expected. */
module CtaTaps {
  import opened Wrappers

  /** A transaction record: its string fields by name. */
  type Transaction = map<string, string>

  const TypeKey := "TransactionType"
  const OperatorKey := "OperatorDesc"
  const RouteKey := "LocationRoute"
  const DateKey := "TransactionDateFormatted"

  const Use := "Use"
  const Transfer := "Transfer"
  const CtaRail := "CTA Rail"
  const Unknown := "Unknown"
  const StationPrefix := "SS-"

  /** One entry of `rail_taps`. */
  datatype RailTap = RailTap(line: string, station: string, date: string, locationRoute: string)

  // ---------------------------------------------------------------------
  // String helpers with Python's meaning

  /** Position of the first `c` in `s`, which must hold one. */
  function IndexOf(s: string, c: char): (i: nat)
    requires c in s
    ensures i < |s| && s[i] == c && forall k :: 0 <= k < i ==> s[k] != c
  {
    if s[0] == c then 0
    else
      assert c in s[1..] by {
        var k :| 0 <= k < |s| && s[k] == c;
        assert s[1..][k - 1] == c;
      }
      var j := IndexOf(s[1..], c);
      assert forall k :: 1 <= k < j + 1 ==> s[k] == s[1..][k - 1];
      j + 1
  }

  /** `s.split(sep, 1)` for a one-character separator: the text before the
      first separator and the rest, or the whole text when there is none. */
  function Split1(s: string, sep: char): (parts: seq<string>)
    ensures sep in s <==> |parts| == 2
    ensures sep !in s ==> parts == [s]
    ensures |parts| == 2 ==> s == parts[0] + [sep] + parts[1] && sep !in parts[0]
  {
    if sep in s then
      var i := IndexOf(s, sep);
      assert s == s[..i] + [sep] + s[i + 1..];
      assert sep !in s[..i] by {
        assert forall k :: 0 <= k < i ==> s[..i][k] == s[k];
      }
      [s[..i], s[i + 1..]]
    else [s]
  }

  /** `s.replace(from, to)` for single characters: every `from` becomes `to`. */
  function ReplaceChar(s: string, from: char, to: char): (r: string)
    ensures |r| == |s|
    ensures forall i :: 0 <= i < |s| ==> r[i] == if s[i] == from then to else s[i]
  {
    if s == [] then [] else [if s[0] == from then to else s[0]] + ReplaceChar(s[1..], from, to)
  }

  /** `pat` occurs in `s` at position `i`. */
  predicate OccursAt(s: string, pat: string, i: int)
  {
    0 <= i && i + |pat| <= |s| && s[i..i + |pat|] == pat
  }

  /** `s.replace(pat, "")`: one left-to-right pass deleting the occurrences
      of `pat` that do not overlap an earlier deleted one. */
  function RemoveAll(s: string, pat: string): (r: string)
    requires pat != []
    ensures |r| <= |s|
    decreases |s|
  {
    if |s| < |pat| then s
    else if s[..|pat|] == pat then RemoveAll(s[|pat|..], pat)
    else [s[0]] + RemoveAll(s[1..], pat)
  }

  /** Text without the pattern is left as it is. */
  lemma {:induction false} RemoveAbsent(s: string, pat: string)
    requires pat != [] && forall i :: !OccursAt(s, pat, i)
    ensures RemoveAll(s, pat) == s
    decreases |s|
  {
    if |s| >= |pat| {
      assert !OccursAt(s, pat, 0);
      assert s[..|pat|] != pat;
      forall i ensures !OccursAt(s[1..], pat, i) {
        assert !OccursAt(s, pat, i + 1);
        assert 0 <= i && i + |pat| <= |s| - 1 ==> s[1..][i..i + |pat|] == s[i + 1..i + 1 + |pat|];
      }
      RemoveAbsent(s[1..], pat);
    }
  }

  /** The single pass can leave the pattern behind: deleting `SS-` from
      `SSSS--` joins `SS` and `-` into a new `SS-`. */
  lemma RemoveOnePass()
    ensures RemoveAll("SSSS--", StationPrefix) == StationPrefix
  {
    assert "SSSS--"[..3] != StationPrefix && "SSSS--"[1..] == "SSS--";
    assert "SSS--"[..3] != StationPrefix && "SSS--"[1..] == "SS--";
    assert "SS--"[..3] == StationPrefix && "SS--"[3..] == "-";
  }

  // ---------------------------------------------------------------------
  // Routes

  /** The line and station of a route text. A route with `_` and no `-`
      (`Orange_Roosevelt`) splits at the first `_`; otherwise a route with
      `-` splits at the first `-`, and the station also loses every `SS-`;
      underscores in the station become spaces; a route with neither is
      line `Unknown` at the whole text. */
  function ParseRoute(route: string): (r: (string, string))
    ensures '_' in route && '-' !in route ==>
      var i := IndexOf(route, '_');
      r == (route[..i], ReplaceChar(route[i + 1..], '_', ' '))
    ensures '-' in route ==>
      var i := IndexOf(route, '-');
      r == (route[..i], RemoveAll(ReplaceChar(route[i + 1..], '_', ' '), StationPrefix))
    ensures '_' !in route && '-' !in route ==> r == (Unknown, route)
  {
    if '_' in route && '-' !in route then
      var parts := Split1(route, '_');
      SplitAtFirst(route, '_', parts);
      if |parts| >= 2 then (parts[0], ReplaceChar(parts[1], '_', ' ')) else (Unknown, route)
    else
      var parts := Split1(route, '-');
      if |parts| >= 2 then
        SplitAtFirst(route, '-', parts);
        (parts[0], RemoveAll(ReplaceChar(parts[1], '_', ' '), StationPrefix))
      else (Unknown, route)
  }

  /** The two parts of a split are the text around the first separator. */
  lemma SplitAtFirst(s: string, sep: char, parts: seq<string>)
    requires sep in s && parts == Split1(s, sep)
    ensures parts == [s[..IndexOf(s, sep)], s[IndexOf(s, sep) + 1..]]
  {
    var i := IndexOf(s, sep);
    var a := parts[0];
    assert s == a + [sep] + parts[1];
    assert s[|a|] == sep;
    assert forall k :: 0 <= k < |a| ==> s[k] == a[k];
  }

  /** The line of a split route is the text before its separator, and the
      route is the line, the separator and the station text before cleaning. */
  lemma RouteLine(route: string)
    requires '_' in route || '-' in route
    ensures var sep := if '-' in route then '-' else '_';
      var line := ParseRoute(route).0;
      sep !in line && |line| < |route| && route[..|line|] == line && route[|line|] == sep
  {
    var sep := if '-' in route then '-' else '_';
    var i := IndexOf(route, sep);
    assert route[..i] == ParseRoute(route).0;
  }

  // ---------------------------------------------------------------------
  // The transactions

  /** A train entry or transfer. */
  predicate IsRailTap(t: Transaction)
  {
    TypeKey in t && (t[TypeKey] == Use || t[TypeKey] == Transfer) &&
    OperatorKey in t && t[OperatorKey] == CtaRail
  }

  /** Reading this transaction raises a `KeyError`: the type is missing; or
      it is a use or transfer without an operator; or it is a rail tap
      without its route or date. */
  predicate Faulty(t: Transaction)
  {
    || TypeKey !in t
    || ((t[TypeKey] == Use || t[TypeKey] == Transfer) && OperatorKey !in t)
    || (IsRailTap(t) && (RouteKey !in t || DateKey !in t))
  }

  /** The entry for a rail tap; `formatDate` is `format_date`. */
  function ToTap(t: Transaction, formatDate: string -> string): RailTap
    requires RouteKey in t && DateKey in t
  {
    var lineStation := ParseRoute(t[RouteKey]);
    RailTap(lineStation.0, lineStation.1, formatDate(t[DateKey]), t[RouteKey])
  }

  /** The loop of `get_rail_tap_history` over `transactions`: the entries
      so far, or nothing once a transaction raised. */
  function Scan(ts: seq<Transaction>, formatDate: string -> string): Option<seq<RailTap>>
  {
    if ts == [] then Some([])
    else
      var last := ts[|ts| - 1];
      match Scan(ts[..|ts| - 1], formatDate)
      case None => None
      case Some(r) =>
        if Faulty(last) then None
        else if IsRailTap(last) then Some(r + [ToTap(last, formatDate)])
        else Some(r)
  }

  /** `get_rail_tap_history(transaction_data)`, given the list at
      `["d"]["result"]["data"]` or nothing when that path is missing: every
      exception is caught and gives the empty list. */
  method GetRailTapHistory(data: Option<seq<Transaction>>, formatDate: string -> string)
    returns (railTaps: seq<RailTap>)
    ensures data.None? ==> railTaps == []
    ensures data.Some? ==> railTaps == Scan(data.value, formatDate).GetOr([])
  {
    if data.None? {
      return [];
    }
    var transactions := data.value;
    railTaps := [];
    for i := 0 to |transactions|
      invariant Scan(transactions[..i], formatDate) == Some(railTaps)
    {
      var t := transactions[i];
      assert transactions[..i + 1][..i] == transactions[..i];
      if TypeKey !in t {
        ScanStaysFailed(transactions, i + 1, formatDate);
        return [];
      }
      if t[TypeKey] == Use || t[TypeKey] == Transfer {
        if OperatorKey !in t {
          ScanStaysFailed(transactions, i + 1, formatDate);
          return [];
        }
        if t[OperatorKey] == CtaRail {
          if RouteKey !in t || DateKey !in t {
            ScanStaysFailed(transactions, i + 1, formatDate);
            return [];
          }
          var locationRoute := t[RouteKey];
          var transactionDate := formatDate(t[DateKey]);
          var lineStation := ParseRoute(locationRoute);
          railTaps := railTaps + [RailTap(lineStation.0, lineStation.1, transactionDate, locationRoute)];
        }
      }
    }
    assert transactions[..|transactions|] == transactions;
  }

  /** Once a transaction has raised, the result stays the failure. */
  lemma {:induction false} ScanStaysFailed(ts: seq<Transaction>, i: nat, formatDate: string -> string)
    requires i <= |ts| && Scan(ts[..i], formatDate) == None
    ensures Scan(ts, formatDate) == None
    decreases |ts| - i
  {
    if i < |ts| {
      assert ts[..i + 1][..i] == ts[..i];
      ScanStaysFailed(ts, i + 1, formatDate);
    } else {
      assert ts[..i] == ts;
    }
  }

  // ---------------------------------------------------------------------
  // Properties of the result

  /** The rail taps among the transactions, in order. */
  function RailTransactions(ts: seq<Transaction>): (kept: seq<Transaction>)
    ensures forall t :: t in kept <==> t in ts && IsRailTap(t)
  {
    if ts == [] then []
    else (if IsRailTap(ts[0]) then [ts[0]] else []) + RailTransactions(ts[1..])
  }

  /** The history fails exactly when some transaction raises. */
  lemma {:induction false} ScanFails(ts: seq<Transaction>, formatDate: string -> string)
    ensures Scan(ts, formatDate).None? <==> exists i :: 0 <= i < |ts| && Faulty(ts[i])
  {
    if ts != [] {
      var init := ts[..|ts| - 1];
      ScanFails(init, formatDate);
      if exists i :: 0 <= i < |init| && Faulty(init[i]) {
        var i :| 0 <= i < |init| && Faulty(init[i]);
        assert ts[i] == init[i];
      }
      if exists i :: 0 <= i < |ts| && Faulty(ts[i]) {
        var i :| 0 <= i < |ts| && Faulty(ts[i]);
        if i < |init| {
          assert init[i] == ts[i];
        }
      }
    }
  }

  /** Without a failure there is one entry per rail tap, in the order of the
      transactions, with the parsed route, the formatted date and the route
      text itself. */
  lemma {:induction false} ScanEntries(ts: seq<Transaction>, formatDate: string -> string)
    requires Scan(ts, formatDate).Some?
    ensures |Scan(ts, formatDate).value| == |RailTransactions(ts)|
    ensures forall k :: 0 <= k < |RailTransactions(ts)| ==>
      && RouteKey in RailTransactions(ts)[k] && DateKey in RailTransactions(ts)[k]
      && Scan(ts, formatDate).value[k] == ToTap(RailTransactions(ts)[k], formatDate)
  {
    if ts != [] {
      var init := ts[..|ts| - 1];
      var last := ts[|ts| - 1];
      ScanEntries(init, formatDate);
      RailTransactionsSnoc(init, last);
      assert ts == init + [last];
    }
  }

  lemma {:induction false} RailTransactionsSnoc(ts: seq<Transaction>, t: Transaction)
    ensures RailTransactions(ts + [t]) == RailTransactions(ts) + if IsRailTap(t) then [t] else []
  {
    if ts == [] {
      assert [] + [t] == [t];
    } else {
      assert (ts + [t])[1..] == ts[1..] + [t];
      RailTransactionsSnoc(ts[1..], t);
    }
  }

  lemma {:induction false} NoRailTransactions(ts: seq<Transaction>)
    requires forall i :: 0 <= i < |ts| ==> !IsRailTap(ts[i])
    ensures RailTransactions(ts) == []
  {
    if ts != [] {
      assert !IsRailTap(ts[0]);
      assert forall i :: 0 <= i < |ts[1..]| ==> ts[1..][i] == ts[i + 1];
      NoRailTransactions(ts[1..]);
    }
  }

  /** A history with only other kinds of transaction gives no entries. */
  lemma NoRailTaps(ts: seq<Transaction>, formatDate: string -> string)
    requires Scan(ts, formatDate).Some? && forall i :: 0 <= i < |ts| ==> !IsRailTap(ts[i])
    ensures Scan(ts, formatDate).value == []
  {
    ScanEntries(ts, formatDate);
    NoRailTransactions(ts);
  }
}
