/** `process_transport_movements`: each transponder ping, a start time and a dwell,
    becomes one row per calendar day it touches, holding the part of the dwell that falls
    on that day. Times are integer microseconds since the epoch (the precision of
    `datetime.max.time()`, 23:59:59.999999); a calendar day is a whole number of days
    since the epoch, rounded down. */
module Dwell {
  import opened Wrappers
  import opened PyValues

  const MicrosPerSecond: int := 1_000_000
  const MicrosPerDay: int := 86_400_000_000

  /** A ping as read from the frame: `start_time` after `to_datetime(errors='coerce')`
      and `dwell` after `to_numeric(errors='coerce')`, both `None` where pandas holds
      NaT or NaN; `dwell` is in microseconds. */
  datatype Ping = Ping(startTime: Option<int>, dwell: Option<int>, sourceLocation: PyValue, vesselId: PyValue)

  /** An emitted row: its calendar day, the ping's location and vessel, the type tag and
      the microseconds of dwell counted for that day. */
  datatype DwellRow = DwellRow(day: int, locationId: PyValue, vesselId: PyValue, kind: string, amount: int)

  /** The calendar day of an instant (`.date()`). */
  function Day(t: int): (d: int)
    ensures d * MicrosPerDay <= t < d * MicrosPerDay + MicrosPerDay
  {
    t / MicrosPerDay
  }

  /** Adding one day to an instant moves its calendar day on by one. */
  lemma DayAdvance(t: int)
    ensures Day(t + MicrosPerDay) == Day(t) + 1
  {
    var d := Day(t);
    assert (d + 1) * MicrosPerDay <= t + MicrosPerDay < (d + 1) * MicrosPerDay + MicrosPerDay;
  }

  /** The dwell the loop records on `day` for an interval from `s` to `e`: the whole
      interval on a single day, up to 23:59:59.999999 on the start day, from midnight on
      the end day and a full day in between. */
  function DayAmount(s: int, e: int, day: int): (a: int)
    ensures s <= e && Day(s) <= day <= Day(e) ==> 0 <= a <= MicrosPerDay
  {
    if day == Day(s) then
      if day == Day(e) then e - s else day * MicrosPerDay + (MicrosPerDay - 1) - s
    else if day == Day(e) then e - day * MicrosPerDay
    else MicrosPerDay
  }

  /** The `i`-th row the loop emits for a ping running from `s` to `e`. */
  function RowAt(p: Ping, s: int, e: int, i: int): DwellRow
  {
    DwellRow(Day(s) + i, p.sourceLocation, p.vesselId, "transport", DayAmount(s, e, Day(s) + i))
  }

  /** The number of calendar days from the start day to the end day, none when the end
      day comes first. */
  function DaySpan(s: int, e: int): (n: nat)
    ensures n > 0 <==> Day(s) <= Day(e)
    ensures Day(s) <= Day(e) ==> n == Day(e) - Day(s) + 1
  {
    if Day(e) < Day(s) then 0 else Day(e) - Day(s) + 1
  }

  /** The rows the loop emits for one ping; a ping without a start time or a dwell
      emits none. */
  function PingRows(p: Ping): (r: seq<DwellRow>)
    ensures p.startTime.None? || p.dwell.None? ==> r == []
  {
    if p.startTime.None? || p.dwell.None? then []
    else
      var s := p.startTime.value;
      var e := s + p.dwell.value;
      seq(DaySpan(s, e), i requires 0 <= i < DaySpan(s, e) => RowAt(p, s, e, i))
  }

  /** The rows for all pings, in ping order. */
  function ExpandAll(pings: seq<Ping>): seq<DwellRow>
  {
    if pings == [] then [] else ExpandAll(pings[..|pings| - 1]) + PingRows(pings[|pings| - 1])
  }

  /** The function as written: a loop over the pings, and for each a loop that walks
      `current_date` forward one day at a time while its calendar day is not past the end
      day, appending one row per step. */
  method ProcessTransportMovements(pings: seq<Ping>) returns (rows: seq<DwellRow>)
    ensures rows == ExpandAll(pings)
  {
    rows := [];
    for k := 0 to |pings|
      invariant rows == ExpandAll(pings[..k])
    {
      var p := pings[k];
      assert pings[..k + 1][..k] == pings[..k];
      if p.startTime.None? || p.dwell.None? {
        continue;
      }
      var s := p.startTime.value;
      var e := s + p.dwell.value;
      var produced: seq<DwellRow> := [];
      var current := s;
      while Day(current) <= Day(e)
        invariant current == s + |produced| * MicrosPerDay
        invariant Day(current) == Day(s) + |produced|
        invariant produced == [] || Day(current) <= Day(e) + 1
        invariant forall i :: 0 <= i < |produced| ==> produced[i] == RowAt(p, s, e, i)
        decreases Day(e) - Day(current)
      {
        var amount;
        if Day(current) == Day(s) {
          if Day(current) == Day(e) {
            amount := e - s;
          } else {
            amount := Day(current) * MicrosPerDay + (MicrosPerDay - 1) - s;
          }
        } else if Day(current) == Day(e) {
          amount := e - Day(current) * MicrosPerDay;
        } else {
          amount := MicrosPerDay;
        }
        produced := produced + [DwellRow(Day(current), p.sourceLocation, p.vesselId, "transport", amount)];
        DayAdvance(current);
        current := current + MicrosPerDay;
      }
      assert produced == PingRows(p);
      rows := rows + produced;
    }
    assert pings[..|pings|] == pings;
  }

  /** A ping with both fields emits one row per calendar day from its start day to its
      end day, on consecutive days from the start day, each copying the ping's location
      and vessel and tagged `transport`. */
  lemma PingRowsShape(p: Ping)
    requires p.startTime.Some? && p.dwell.Some?
    ensures var s := p.startTime.value; var e := s + p.dwell.value;
      && |PingRows(p)| == (if Day(e) < Day(s) then 0 else Day(e) - Day(s) + 1)
      && forall i :: 0 <= i < |PingRows(p)| ==>
        && PingRows(p)[i].day == Day(s) + i
        && PingRows(p)[i].locationId == p.sourceLocation
        && PingRows(p)[i].vesselId == p.vesselId
        && PingRows(p)[i].kind == "transport"
  {
  }

  /** A ping starting on a day and ending on a later or the same day emits a row for its
      first day and one for its last day. */
  lemma PingRowsEnds(p: Ping)
    requires p.startTime.Some? && p.dwell.Some? && p.dwell.value >= 0
    ensures var s := p.startTime.value; var e := s + p.dwell.value;
      && PingRows(p) != []
      && PingRows(p)[0].day == Day(s)
      && PingRows(p)[|PingRows(p)| - 1].day == Day(e)
  {
    var s := p.startTime.value;
    assert Day(s) <= Day(s + p.dwell.value);
  }

  /** A ping that is skipped adds no rows; every other ping adds its rows. */
  lemma ExpandAllCount(pings: seq<Ping>, p: Ping)
    ensures |ExpandAll(pings + [p])| == |ExpandAll(pings)| + |PingRows(p)|
    ensures p.startTime.None? || p.dwell.None? ==> ExpandAll(pings + [p]) == ExpandAll(pings)
  {
    assert (pings + [p])[..|pings|] == pings;
  }

  /** The recorded dwell of a list of rows, in microseconds. */
  function TotalAmount(rows: seq<DwellRow>): int
  {
    if rows == [] then 0 else TotalAmount(rows[..|rows| - 1]) + rows[|rows| - 1].amount
  }

  /** The first `m` rows of a ping that crosses midnight add up to the start day's part
      and `m - 1` full days. */
  lemma {:induction false} CrossingPrefixSum(p: Ping, m: int)
    requires p.startTime.Some? && p.dwell.Some?
    requires var s := p.startTime.value; Day(s) < Day(s + p.dwell.value)
    requires 1 <= m < |PingRows(p)|
    ensures var s := p.startTime.value;
      TotalAmount(PingRows(p)[..m]) == Day(s) * MicrosPerDay + (MicrosPerDay - 1) - s + (m - 1) * MicrosPerDay
  {
    var rows := PingRows(p);
    assert rows[..m][..m - 1] == rows[..m - 1];
    if m > 1 {
      CrossingPrefixSum(p, m - 1);
    } else {
      assert rows[..0] == [];
    }
  }

  /** As written, the rows of a ping add up to its dwell when it stays within one day,
      and to one microsecond less when it crosses midnight: the start day is counted up
      to 23:59:59.999999 rather than up to the next midnight. */
  lemma PingRowsTotal(p: Ping)
    requires p.startTime.Some? && p.dwell.Some?
    ensures var s := p.startTime.value; var e := s + p.dwell.value;
      TotalAmount(PingRows(p)) ==
        if Day(e) < Day(s) then 0
        else if Day(e) == Day(s) then p.dwell.value
        else p.dwell.value - 1
  {
    var s := p.startTime.value;
    var e := s + p.dwell.value;
    var rows := PingRows(p);
    if Day(e) == Day(s) {
      assert rows[..0] == [];
    } else if Day(s) < Day(e) {
      var n := |rows|;
      CrossingPrefixSum(p, n - 1);
      assert rows[..n][..n - 1] == rows[..n - 1];
      assert rows[..n] == rows;
    }
  }

  /** A ping starting at 22:00 with a dwell of two hours ends at midnight: the loop
      records 7199.999999 seconds on the start day and nothing on the next. */
  lemma MidnightExample(p: Ping)
    requires p.startTime == Some(22 * 3600 * MicrosPerSecond)
    requires p.dwell == Some(7200 * MicrosPerSecond)
    ensures |PingRows(p)| == 2
    ensures PingRows(p)[0].amount == 7_199_999_999 && PingRows(p)[1].amount == 0
    ensures TotalAmount(PingRows(p)) == 7_199_999_999
  {
    PingRowsTotal(p);
  }

  /** The dwell on `day` counted up to the next midnight, so that the days of an
      interval add up to the whole interval. */
  function DayAmountExact(s: int, e: int, day: int): int
  {
    if day == Day(s) then
      if day == Day(e) then e - s else (day + 1) * MicrosPerDay - s
    else if day == Day(e) then e - day * MicrosPerDay
    else MicrosPerDay
  }

  /** The rows of one ping with the start day counted up to midnight. */
  function PingRowsExact(p: Ping): (r: seq<DwellRow>)
    ensures |r| == |PingRows(p)|
  {
    if p.startTime.None? || p.dwell.None? then []
    else
      var s := p.startTime.value;
      var e := s + p.dwell.value;
      seq(DaySpan(s, e), i requires 0 <= i < DaySpan(s, e) => RowAtExact(p, s, e, i))
  }

  function RowAtExact(p: Ping, s: int, e: int, i: int): DwellRow
  {
    DwellRow(Day(s) + i, p.sourceLocation, p.vesselId, "transport", DayAmountExact(s, e, Day(s) + i))
  }

  lemma {:induction false} ExactPrefixSum(p: Ping, m: int)
    requires p.startTime.Some? && p.dwell.Some?
    requires var s := p.startTime.value; Day(s) < Day(s + p.dwell.value)
    requires 1 <= m < |PingRowsExact(p)|
    ensures var s := p.startTime.value;
      TotalAmount(PingRowsExact(p)[..m]) == (Day(s) + 1) * MicrosPerDay - s + (m - 1) * MicrosPerDay
  {
    var rows := PingRowsExact(p);
    assert rows[..m][..m - 1] == rows[..m - 1];
    if m > 1 {
      ExactPrefixSum(p, m - 1);
    } else {
      assert rows[..0] == [];
    }
  }

  /** With the start day counted up to midnight, the rows of every ping with a
      non-negative dwell add up to exactly its dwell, and they differ from the rows as
      written only in the start day's amount, by one microsecond. */
  lemma PingRowsExactTotal(p: Ping)
    requires p.startTime.Some? && p.dwell.Some? && p.dwell.value >= 0
    ensures TotalAmount(PingRowsExact(p)) == p.dwell.value
    ensures forall i :: 0 <= i < |PingRows(p)| ==>
      PingRowsExact(p)[i].amount - PingRows(p)[i].amount
        == if i == 0 && |PingRows(p)| > 1 then 1 else 0
  {
    var s := p.startTime.value;
    var e := s + p.dwell.value;
    var rows := PingRowsExact(p);
    assert Day(s) <= Day(e);
    if Day(e) == Day(s) {
      assert rows[..0] == [];
    } else {
      var n := |rows|;
      ExactPrefixSum(p, n - 1);
      assert rows[..n][..n - 1] == rows[..n - 1];
      assert rows[..n] == rows;
    }
  }
}
