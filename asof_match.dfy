/** `preprocess_vessel_cargo_data` up to the clustering call: deliveries and exit pings
    with unparseable times are dropped, both sides are sorted by time, each delivery is
    joined to the exit ping nearest in time within the tolerance (pandas `merge_asof`,
    direction "nearest"), rows with any missing field are dropped and the exit's hour
    is added. Times are whole seconds since the epoch. */
module AsofMatch {
  import opened Wrappers

  const SecondsPerHour: int := 3600
  const SecondsPerDay: int := 86400

  /** A delivery report row: `delivery_date` (`None` when it does not parse) and `qty_tons`. */
  datatype Delivery = Delivery(deliveryDate: Option<int>, qtyTons: Option<string>)

  /** An exit ping row: `exit_date` (`None` when it does not parse) and `vessel_id`. */
  datatype ExitPing = ExitPing(exitDate: Option<int>, vesselId: Option<string>)

  /** A row of the joined frame after `dropna()`, with the added `hour` column. */
  datatype Matched = Matched(deliveryDate: int, qtyTons: string, exitDate: int,
                             vesselId: string, hour: int)

  /** A row reduced to its time and its other cell. */
  type Timed<V> = (int, V)

  predicate SortedByTime<V>(xs: seq<Timed<V>>)
  {
    forall i, j :: 0 <= i < j < |xs| ==> xs[i].0 <= xs[j].0
  }

  /** `dropna(subset=['delivery_date'])`. */
  function DatedDeliveries(ds: seq<Delivery>): (r: seq<Timed<Option<string>>>)
    ensures |r| <= |ds|
    ensures forall x :: x in r <==> exists i :: 0 <= i < |ds| && ds[i] == Delivery(Some(x.0), x.1)
  {
    if ds == [] then []
    else
      var rest := DatedDeliveries(ds[1..]);
      assert forall i :: 1 <= i < |ds| ==> ds[i] == ds[1..][i - 1];
      match ds[0].deliveryDate
      case Some(t) => [(t, ds[0].qtyTons)] + rest
      case None => rest
  }

  /** `dropna(subset=['exit_date'])`. */
  function DatedExits(es: seq<ExitPing>): (r: seq<Timed<Option<string>>>)
    ensures |r| <= |es|
    ensures forall x :: x in r <==> exists i :: 0 <= i < |es| && es[i] == ExitPing(Some(x.0), x.1)
  {
    if es == [] then []
    else
      var rest := DatedExits(es[1..]);
      assert forall i :: 1 <= i < |es| ==> es[i] == es[1..][i - 1];
      match es[0].exitDate
      case Some(t) => [(t, es[0].vesselId)] + rest
      case None => rest
  }

  /** Places `x` after every row of the sorted `ys` whose time is not later. */
  function Insert<V>(ys: seq<Timed<V>>, x: Timed<V>): (r: seq<Timed<V>>)
    requires SortedByTime(ys)
    ensures SortedByTime(r)
    ensures multiset(r) == multiset(ys) + multiset{x}
    ensures forall z :: z in r ==> z in ys || z == x
  {
    if ys == [] || ys[|ys| - 1].0 <= x.0 then
      SortedSnoc(ys, x);
      ys + [x]
    else
      var init := ys[..|ys| - 1];
      var last := ys[|ys| - 1];
      assert ys == init + [last];
      var ins := Insert(init, x);
      InsertedBelow(init, last, x, ins);
      ins + [last]
  }

  /** A row no earlier than the last row of a sorted sequence keeps it sorted. */
  lemma SortedSnoc<V>(ys: seq<Timed<V>>, x: Timed<V>)
    requires SortedByTime(ys) && (ys == [] || ys[|ys| - 1].0 <= x.0)
    ensures SortedByTime(ys + [x])
  {
  }

  /** Inserting a row earlier than `last` into the rows before `last` leaves every row
      no later than `last`. */
  lemma InsertedBelow<V>(init: seq<Timed<V>>, last: Timed<V>, x: Timed<V>, ins: seq<Timed<V>>)
    requires SortedByTime(init + [last]) && x.0 < last.0
    requires SortedByTime(ins) && forall z :: z in ins ==> z in init || z == x
    ensures SortedByTime(ins + [last])
  {
    var ys := init + [last];
    assert ys[|init|] == last;
    forall k | 0 <= k < |ins|
      ensures ins[k].0 <= last.0
    {
      assert ins[k] in ins;
      if ins[k] != x {
        var i :| 0 <= i < |init| && init[i] == ins[k];
        assert ys[i] == init[i];
      }
    }
    SortedSnoc(ins, last);
  }

  /** `sort_values` on the time column. */
  function SortByTime<V>(xs: seq<Timed<V>>): (r: seq<Timed<V>>)
    ensures SortedByTime(r)
    ensures multiset(r) == multiset(xs)
  {
    if xs == [] then []
    else
      var init := xs[..|xs| - 1];
      assert xs == init + [xs[|xs| - 1]];
      Insert(SortByTime(init), xs[|xs| - 1])
  }

  /** The backward candidate: the last row whose time is not after `x`. */
  function Backward<V>(es: seq<Timed<V>>, x: int): (r: Option<nat>)
    ensures r.Some? ==> r.value < |es| && es[r.value].0 <= x
    ensures r.Some? ==> forall k :: r.value < k < |es| ==> es[k].0 > x
    ensures r.None? ==> forall k :: 0 <= k < |es| ==> es[k].0 > x
  {
    if es == [] then None
    else if es[|es| - 1].0 <= x then Some(|es| - 1)
    else Backward(es[..|es| - 1], x)
  }

  /** The forward candidate: the first row whose time is not before `x`. */
  function Forward<V>(es: seq<Timed<V>>, x: int): (r: Option<nat>)
    ensures r.Some? ==> r.value < |es| && es[r.value].0 >= x
    ensures r.Some? ==> forall k :: 0 <= k < r.value ==> es[k].0 < x
    ensures r.None? ==> forall k :: 0 <= k < |es| ==> es[k].0 < x
  {
    if es == [] then None
    else if es[0].0 >= x then Some(0)
    else
      match Forward(es[1..], x)
      case None => None
      case Some(j) => Some(j + 1)
  }

  function Dist(a: int, b: int): nat
  {
    if a <= b then b - a else a - b
  }

  /** `merge_asof(direction='nearest', tolerance=tol)` for one left time `x`: each
      candidate is kept only within the tolerance, and when both remain the nearer one
      wins, the backward one on a tie. */
  function Nearest<V>(es: seq<Timed<V>>, x: int, tol: int): (r: Option<nat>)
    ensures r.Some? ==> r.value < |es| && Dist(x, es[r.value].0) <= tol
  {
    var b := Backward(es, x);
    var f := Forward(es, x);
    var bIn := b.Some? && x - es[b.value].0 <= tol;
    var fIn := f.Some? && es[f.value].0 - x <= tol;
    if bIn && fIn then
      (if x - es[b.value].0 <= es[f.value].0 - x then b else f)
    else if bIn then b
    else if fIn then f
    else None
  }

  /** `exit_date.dt.hour`. */
  function Hour(t: int): (h: int)
    ensures 0 <= h < 24
    ensures h * SecondsPerHour <= t % SecondsPerDay < (h + 1) * SecondsPerHour
  {
    (t % SecondsPerDay) / SecondsPerHour
  }

  /** One delivery after the join, `dropna()` and the `hour` column: it survives only with
      a matched exit and no missing cell. */
  function MatchOne(d: Timed<Option<string>>, es: seq<Timed<Option<string>>>, tol: int): (r: Option<Matched>)
    ensures r.Some? ==> r.value.deliveryDate == d.0 && d.1 == Some(r.value.qtyTons)
    ensures r.Some? ==>
      && Nearest(es, d.0, tol).Some?
      && es[Nearest(es, d.0, tol).value] == (r.value.exitDate, Some(r.value.vesselId))
      && r.value.hour == Hour(r.value.exitDate)
  {
    match Nearest(es, d.0, tol)
    case None => None
    case Some(j) =>
      if d.1.Some? && es[j].1.Some?
      then Some(Matched(d.0, d.1.value, es[j].0, es[j].1.value, Hour(es[j].0)))
      else None
  }

  /** The surviving rows, in the order of the (sorted) deliveries. */
  function MatchRows(ds: seq<Timed<Option<string>>>, es: seq<Timed<Option<string>>>, tol: int): (r: seq<Matched>)
    ensures |r| <= |ds|
  {
    if ds == [] then []
    else
      var rest := MatchRows(ds[1..], es, tol);
      match MatchOne(ds[0], es, tol)
      case Some(m) => [m] + rest
      case None => rest
  }

  /** The preprocessing step up to the clustering call, which is not part of this model.
      A negative threshold makes pandas reject the tolerance, and the handler returns
      `[]`. */
  function PreprocessVesselCargo(deliveries: seq<Delivery>, exits: seq<ExitPing>, thresholdHours: int): (r: seq<Matched>)
  {
    if thresholdHours < 0 then []
    else
      MatchRows(SortByTime(DatedDeliveries(deliveries)), SortByTime(DatedExits(exits)),
                thresholdHours * SecondsPerHour)
  }

  /** With the exits sorted, the chosen exit is at least as near as every other exit. */
  lemma NearestIsNearest<V>(es: seq<Timed<V>>, x: int, tol: int, k: int)
    requires SortedByTime(es) && Nearest(es, x, tol).Some? && 0 <= k < |es|
    ensures Dist(x, es[k].0) >= Dist(x, es[Nearest(es, x, tol).value].0)
  {
    var j := Nearest(es, x, tol).value;
    var b := Backward(es, x);
    var f := Forward(es, x);
    if es[k].0 <= x {
      var bi := b.value;
      assert k <= bi;
      assert es[k].0 <= es[bi].0;
    } else {
      var fi := f.value;
      assert fi <= k;
      assert es[fi].0 <= es[k].0;
    }
  }

  /** On a tie between an earlier and a later exit, the earlier one is chosen. */
  lemma NearestPrefersEarlier<V>(es: seq<Timed<V>>, x: int, tol: int, k: int)
    requires SortedByTime(es) && Nearest(es, x, tol).Some? && 0 <= k < |es|
    requires es[k].0 <= x && x - es[k].0 == Dist(x, es[Nearest(es, x, tol).value].0)
    ensures es[Nearest(es, x, tol).value].0 <= x
  {
    var bi := Backward(es, x).value;
    assert k <= bi && es[k].0 <= es[bi].0;
  }

  /** With the exits sorted, no exit is chosen exactly when none lies within the
      tolerance. */
  lemma NearestNoneIff<V>(es: seq<Timed<V>>, x: int, tol: int)
    requires SortedByTime(es)
    ensures Nearest(es, x, tol).None? <==> forall k :: 0 <= k < |es| ==> Dist(x, es[k].0) > tol
  {
    if Nearest(es, x, tol).None? {
      forall k | 0 <= k < |es|
        ensures Dist(x, es[k].0) > tol
      {
        if es[k].0 <= x {
          var bi := Backward(es, x).value;
          assert k <= bi && es[k].0 <= es[bi].0;
        } else {
          var fi := Forward(es, x).value;
          assert fi <= k && es[fi].0 <= es[k].0;
        }
      }
    }
  }

  /** A delivery is kept exactly when it has a quantity and its nearest exit within the
      tolerance exists and has a vessel: `dropna()` also drops matched rows with a
      missing cell, and an exit whose vessel is missing is not replaced by another. */
  lemma KeptIff(d: Timed<Option<string>>, es: seq<Timed<Option<string>>>, tol: int)
    ensures MatchOne(d, es, tol).Some? <==>
      d.1.Some? && Nearest(es, d.0, tol).Some? && es[Nearest(es, d.0, tol).value].1.Some?
  {
  }

  /** The rows produced are exactly the surviving deliveries. */
  lemma {:induction false} MatchRowsMembers(ds: seq<Timed<Option<string>>>, es: seq<Timed<Option<string>>>, tol: int)
    ensures forall m :: m in MatchRows(ds, es, tol) <==>
      exists i :: 0 <= i < |ds| && MatchOne(ds[i], es, tol) == Some(m)
  {
    if ds != [] {
      MatchRowsMembers(ds[1..], es, tol);
      assert forall i :: 1 <= i < |ds| ==> ds[i] == ds[1..][i - 1];
    }
  }

  /** Dropping undated deliveries keeps every dated one once, in order: the filter
      distributes over concatenation. */
  lemma {:induction false} DatedDeliveriesConcat(a: seq<Delivery>, b: seq<Delivery>)
    ensures DatedDeliveries(a + b) == DatedDeliveries(a) + DatedDeliveries(b)
  {
    if a == [] {
      assert a + b == b;
    } else {
      var ab := a + b;
      assert ab[0] == a[0] && ab[1..] == a[1..] + b;
      DatedDeliveriesConcat(a[1..], b);
    }
  }

  /** Dropping undated exits keeps every dated one once, in order. */
  lemma {:induction false} DatedExitsConcat(a: seq<ExitPing>, b: seq<ExitPing>)
    ensures DatedExits(a + b) == DatedExits(a) + DatedExits(b)
  {
    if a == [] {
      assert a + b == b;
    } else {
      var ab := a + b;
      assert ab[0] == a[0] && ab[1..] == a[1..] + b;
      DatedExitsConcat(a[1..], b);
    }
  }

  /** Each delivery contributes its own row (or none), independently of the others and
      in delivery order: one row per surviving delivery. */
  lemma {:induction false} MatchRowsConcat(a: seq<Timed<Option<string>>>, b: seq<Timed<Option<string>>>, es: seq<Timed<Option<string>>>, tol: int)
    ensures MatchRows(a + b, es, tol) == MatchRows(a, es, tol) + MatchRows(b, es, tol)
  {
    if a == [] {
      assert a + b == b;
    } else {
      var ab := a + b;
      assert ab[0] == a[0] && ab[1..] == a[1..] + b;
      MatchRowsConcat(a[1..], b, es, tol);
    }
  }

  /** A single delivery yields exactly its own match, when it has one, and nothing
      otherwise. */
  lemma MatchRowsSingle(d: Timed<Option<string>>, es: seq<Timed<Option<string>>>, tol: int)
    ensures MatchRows([d], es, tol) == match MatchOne(d, es, tol) case Some(m) => [m] case None => []
  {
    assert [d][1..] == [];
  }

  /** Sorted deliveries give rows sorted by delivery date. */
  lemma {:induction false} MatchRowsSorted(ds: seq<Timed<Option<string>>>, es: seq<Timed<Option<string>>>, tol: int)
    requires SortedByTime(ds)
    ensures forall i, j :: 0 <= i < j < |MatchRows(ds, es, tol)| ==>
      MatchRows(ds, es, tol)[i].deliveryDate <= MatchRows(ds, es, tol)[j].deliveryDate
  {
    if ds != [] {
      MatchRowsSorted(ds[1..], es, tol);
      var rest := MatchRows(ds[1..], es, tol);
      match MatchOne(ds[0], es, tol)
      case None =>
      case Some(m0) =>
        var r := [m0] + rest;
        forall j | 1 <= j < |r|
          ensures m0.deliveryDate <= r[j].deliveryDate
        {
          assert r[j] == rest[j - 1];
          LaterRow(ds, es, tol, rest[j - 1]);
        }
    }
  }

  /** A row joined from the deliveries after the first is no earlier than the first. */
  lemma LaterRow(ds: seq<Timed<Option<string>>>, es: seq<Timed<Option<string>>>, tol: int, m: Matched)
    requires SortedByTime(ds) && ds != [] && m in MatchRows(ds[1..], es, tol)
    ensures ds[0].0 <= m.deliveryDate
  {
    MatchRowsMembers(ds[1..], es, tol);
    var i :| 0 <= i < |ds[1..]| && MatchOne(ds[1..][i], es, tol) == Some(m);
    assert ds[1..][i] == ds[i + 1];
  }

  /** A joined row, on sorted exits: it comes from one of the deliveries, its exit is one
      of the exits, within the tolerance and at least as near as any other. */
  lemma RowIsNearest(ds: seq<Timed<Option<string>>>, es: seq<Timed<Option<string>>>, tol: int, m: Matched)
    requires SortedByTime(es) && m in MatchRows(ds, es, tol)
    ensures (m.deliveryDate, Some(m.qtyTons)) in ds
    ensures (m.exitDate, Some(m.vesselId)) in es
    ensures Dist(m.deliveryDate, m.exitDate) <= tol
    ensures forall k :: 0 <= k < |es| ==> Dist(m.deliveryDate, es[k].0) >= Dist(m.deliveryDate, m.exitDate)
    ensures m.hour == Hour(m.exitDate)
  {
    MatchRowsMembers(ds, es, tol);
    var i :| 0 <= i < |ds| && MatchOne(ds[i], es, tol) == Some(m);
    forall k | 0 <= k < |es|
      ensures Dist(m.deliveryDate, es[k].0) >= Dist(m.deliveryDate, m.exitDate)
    {
      NearestIsNearest(es, m.deliveryDate, tol, k);
    }
  }

  /** Every output row pairs a delivery that had a date and a quantity with an exit ping
      that had a date and a vessel; the two are at most `threshold_hours` apart, no exit
      ping with a date is nearer to the delivery, and `hour` is the exit's hour. */
  lemma PreprocessRow(deliveries: seq<Delivery>, exits: seq<ExitPing>, thresholdHours: int, m: Matched)
    requires m in PreprocessVesselCargo(deliveries, exits, thresholdHours)
    ensures exists i :: 0 <= i < |deliveries| && deliveries[i] == Delivery(Some(m.deliveryDate), Some(m.qtyTons))
    ensures exists j :: 0 <= j < |exits| && exits[j] == ExitPing(Some(m.exitDate), Some(m.vesselId))
    ensures Dist(m.deliveryDate, m.exitDate) <= thresholdHours * SecondsPerHour
    ensures forall p :: p in exits && p.exitDate.Some? ==>
      Dist(m.deliveryDate, p.exitDate.value) >= Dist(m.deliveryDate, m.exitDate)
    ensures m.hour == Hour(m.exitDate)
  {
    var ds := SortByTime(DatedDeliveries(deliveries));
    var es := SortByTime(DatedExits(exits));
    RowIsNearest(ds, es, thresholdHours * SecondsPerHour, m);
    SortKeepsMembers(DatedDeliveries(deliveries), (m.deliveryDate, Some(m.qtyTons)));
    SortKeepsMembers(DatedExits(exits), (m.exitDate, Some(m.vesselId)));
    forall p | p in exits && p.exitDate.Some?
      ensures Dist(m.deliveryDate, p.exitDate.value) >= Dist(m.deliveryDate, m.exitDate)
    {
      NearestAmongAll(exits, es, p, m);
    }
  }

  /** An exit ping with a date is one of the sorted exit rows, so the nearness of the
      chosen exit covers it. */
  lemma NearestAmongAll(exits: seq<ExitPing>, es: seq<Timed<Option<string>>>, p: ExitPing, m: Matched)
    requires es == SortByTime(DatedExits(exits))
    requires p in exits && p.exitDate.Some?
    requires forall k :: 0 <= k < |es| ==> Dist(m.deliveryDate, es[k].0) >= Dist(m.deliveryDate, m.exitDate)
    ensures Dist(m.deliveryDate, p.exitDate.value) >= Dist(m.deliveryDate, m.exitDate)
  {
    var q := (p.exitDate.value, p.vesselId);
    assert q in DatedExits(exits);
    SortKeepsMembers(DatedExits(exits), q);
    var k :| 0 <= k < |es| && es[k] == q;
  }

  /** Sorting neither adds nor drops a row. */
  lemma SortKeepsMembers<V>(xs: seq<Timed<V>>, x: Timed<V>)
    ensures x in SortByTime(xs) <==> x in xs
  {
    assert x in SortByTime(xs) <==> x in multiset(SortByTime(xs));
    assert x in xs <==> x in multiset(xs);
  }

  /** At most one row per delivery with a date, ordered by delivery date; nothing comes
      out when either input is empty (pandas raises `KeyError` on a frame without
      columns, and the handler returns `[]`). */
  lemma PreprocessShape(deliveries: seq<Delivery>, exits: seq<ExitPing>, thresholdHours: int)
    ensures var r := PreprocessVesselCargo(deliveries, exits, thresholdHours);
      && |r| <= |DatedDeliveries(deliveries)| <= |deliveries|
      && (forall i, j :: 0 <= i < j < |r| ==> r[i].deliveryDate <= r[j].deliveryDate)
      && (deliveries == [] || exits == [] ==> r == [])
  {
    if thresholdHours >= 0 {
      var ds := SortByTime(DatedDeliveries(deliveries));
      var es := SortByTime(DatedExits(exits));
      var tol := thresholdHours * SecondsPerHour;
      assert |ds| == |multiset(ds)| == |DatedDeliveries(deliveries)|;
      MatchRowsSorted(ds, es, tol);
      MatchRowsMembers(ds, es, tol);
      if exits == [] {
        assert |es| == |multiset(es)| == 0;
        var r := MatchRows(ds, es, tol);
        if r != [] {
          assert r[0] in r;
        }
      }
    }
  }

  /** Two deliveries can be joined to the same exit ping, so the output is bounded by the
      number of deliveries, not by the smaller of the two inputs. */
  lemma SharedExit(ds: seq<Timed<Option<string>>>, es: seq<Timed<Option<string>>>)
    requires ds == [(0, Some("5")), (60, Some("7"))] && es == [(30, Some("v"))]
    ensures |MatchRows(ds, es, SecondsPerHour)| == 2 > |es|
  {
    assert Nearest(es, 0, SecondsPerHour) == Some(0);
    assert Nearest(es, 60, SecondsPerHour) == Some(0);
    assert ds[1..][1..] == [];
  }

  /** A delivery without a quantity is dropped even when an exit ping lies at the very
      same second: the bare `dropna()` removes more than the unmatched rows. */
  lemma MissingQuantityDropped(t: int, es: seq<Timed<Option<string>>>, tol: int)
    requires |es| == 1 && es[0] == (t, Some("v")) && tol >= 0
    ensures Nearest(es, t, tol) == Some(0)
    ensures MatchOne((t, None), es, tol) == None
  {
  }
}



