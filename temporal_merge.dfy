/** `prepare_temporal_dataframe`: delivery quantities and vessel counts, each dated,
    are outer-joined on the date, forward-filled and ordered by date. Dates are whole
    days (any integer timestamp works); a cell is `None` where pandas holds NaN. */
module TemporalMerge {
  import opened Wrappers
  import opened PyValues
  import opened Quantity

  /** A delivery record: its `date` (`None` when `to_datetime` coerces it to NaT) and
      its raw `qty_tons`. */
  datatype DeliveryQty = DeliveryQty(date: Option<int>, qtyTons: PyValue)

  /** A vessel record: its `date` and its `num_vessels`. */
  datatype VesselCount = VesselCount(date: Option<int>, numVessels: Option<real>)

  /** A row of the merged frame. */
  datatype TemporalRow = TemporalRow(date: int, qtyTons: Option<real>, numVessels: Option<real>)

  predicate StrictlyIncreasing(ks: seq<int>)
  {
    forall i, j :: 0 <= i < j < |ks| ==> ks[i] < ks[j]
  }

  /** `dropna(subset=['date'])` on the delivery frame. */
  function DatedQty(ds: seq<DeliveryQty>): (r: seq<(int, PyValue)>)
    ensures |r| <= |ds|
    ensures forall x :: x in r <==> exists i :: 0 <= i < |ds| && ds[i] == DeliveryQty(Some(x.0), x.1)
  {
    if ds == [] then []
    else
      var rest := DatedQty(ds[1..]);
      assert forall i :: 1 <= i < |ds| ==> ds[i] == ds[1..][i - 1];
      if ds[0].date.Some? then [(ds[0].date.value, ds[0].qtyTons)] + rest else rest
  }

  /** `dropna(subset=['date'])` and `dropna(subset=['num_vessels'])` on the vessel frame. */
  function CountedVessels(vs: seq<VesselCount>): (r: seq<(int, real)>)
    ensures |r| <= |vs|
    ensures forall x :: x in r <==> exists i :: 0 <= i < |vs| && vs[i] == VesselCount(Some(x.0), Some(x.1))
  {
    if vs == [] then []
    else
      var rest := CountedVessels(vs[1..]);
      assert forall i :: 1 <= i < |vs| ==> vs[i] == vs[1..][i - 1];
      if vs[0].date.Some? && vs[0].numVessels.Some?
      then [(vs[0].date.value, vs[0].numVessels.value)] + rest
      else rest
  }

  /** The quantity column after the per-row loop, or the exception that escapes it. */
  function NormalizedQty(dated: seq<(int, PyValue)>): (r: Result<seq<(int, real)>, PyException>)
    ensures r.Success? ==> |r.value| == |dated|
    ensures r.Success? ==> forall i :: 0 <= i < |dated| ==>
      r.value[i].0 == dated[i].0 && TemporalQty(dated[i].1) == Success(r.value[i].1)
    ensures r.Failure? <==> exists i :: 0 <= i < |dated| && TemporalQty(dated[i].1).Failure?
  {
    if dated == [] then Success([])
    else
      var q :- TemporalQty(dated[0].1);
      var rest :- NormalizedQty(dated[1..]);
      assert forall i :: 1 <= i < |dated| ==> dated[i] == dated[1..][i - 1];
      Success([(dated[0].0, q)] + rest)
  }

  /** The per-row loop over `delivery_df.iterrows()`, writing each normalised quantity
      back into its cell; the first cell that raises ends the loop. */
  method NormalizeQtyColumn(qty: array<PyValue>) returns (ok: bool)
    modifies qty
    ensures ok <==> forall i :: 0 <= i < qty.Length ==> TemporalQty(old(qty[i])).Success?
    ensures ok ==> forall i :: 0 <= i < qty.Length ==> qty[i] == PyNum(TemporalQty(old(qty[i])).value)
  {
    var i := 0;
    while i < qty.Length
      invariant 0 <= i <= qty.Length
      invariant forall j :: 0 <= j < i ==>
        TemporalQty(old(qty[j])).Success? && qty[j] == PyNum(TemporalQty(old(qty[j])).value)
      invariant forall j :: i <= j < qty.Length ==> qty[j] == old(qty[j])
    {
      var q := TemporalQty(qty[i]);
      if q.Failure? {
        return false;
      }
      qty[i] := PyNum(q.value);
      i := i + 1;
    }
    return true;
  }

  /** Adds `k` to a strictly increasing list of keys. */
  function InsertKey(ks: seq<int>, k: int): (r: seq<int>)
    requires StrictlyIncreasing(ks)
    ensures StrictlyIncreasing(r)
    ensures forall x :: x in r <==> x in ks || x == k
  {
    if ks == [] then [k]
    else if k < ks[0] then [k] + ks
    else if k == ks[0] then ks
    else
      var rest := InsertKey(ks[1..], k);
      assert forall x :: x in ks[1..] ==> ks[0] < x;
      assert forall i :: 0 <= i < |rest| ==> rest[i] in rest;
      [ks[0]] + rest
  }

  /** The distinct keys of `xs`, in increasing order. */
  function KeysOf(xs: seq<int>): (r: seq<int>)
    ensures StrictlyIncreasing(r)
    ensures forall x :: x in r <==> x in xs
  {
    if xs == [] then []
    else
      assert xs == xs[..|xs| - 1] + [xs[|xs| - 1]];
      InsertKey(KeysOf(xs[..|xs| - 1]), xs[|xs| - 1])
  }

  function Firsts<V>(xs: seq<(int, V)>): (r: seq<int>)
    ensures |r| == |xs| && forall i :: 0 <= i < |xs| ==> r[i] == xs[i].0
  {
    if xs == [] then [] else [xs[0].0] + Firsts(xs[1..])
  }

  /** The cells of the rows with key `k`, in row order. */
  function CellsAt<V>(xs: seq<(int, V)>, k: int): (r: seq<V>)
    ensures |r| <= |xs|
  {
    if xs == [] then []
    else
      var rest := CellsAt(xs[1..], k);
      if xs[0].0 == k then [xs[0].1] + rest else rest
  }

  /** The joined rows of one key, left-major, as pandas emits duplicate keys. */
  function Product(k: int, ls: seq<real>, rs: seq<real>): (r: seq<TemporalRow>)
    ensures |r| == |ls| * |rs|
    ensures forall i :: 0 <= i < |r| ==> r[i].date == k && r[i].qtyTons.Some? && r[i].numVessels.Some?
  {
    if ls == [] then []
    else
      var first := seq(|rs|, j requires 0 <= j < |rs| => TemporalRow(k, Some(ls[0]), Some(rs[j])));
      var rest := Product(k, ls[1..], rs);
      assert |ls| * |rs| == |rs| + (|ls| - 1) * |rs|;
      first + rest
  }

  /** How many rows an outer join emits for a key held by `l` left rows and `r` right
      rows: every pairing when both sides have it, otherwise the rows of the one side. */
  function RowCount(l: nat, r: nat): nat
  {
    if l == 0 then r else if r == 0 then l else l * r
  }

  lemma RowCountPositive(l: nat, r: nat)
    ensures RowCount(l, r) > 0 <==> l > 0 || r > 0
  {
    if l > 0 && r > 0 {
      assert l * r >= r;
    }
  }

  /** The rows an outer join emits for one key: the product of both sides when both have
      the key, otherwise the one side's rows with NaN on the other. */
  function RowsForKey(k: int, ls: seq<real>, rs: seq<real>): (r: seq<TemporalRow>)
    ensures forall i :: 0 <= i < |r| ==> r[i].date == k
    ensures |r| == RowCount(|ls|, |rs|)
  {
    if ls == [] then seq(|rs|, j requires 0 <= j < |rs| => TemporalRow(k, None, Some(rs[j])))
    else if rs == [] then seq(|ls|, i requires 0 <= i < |ls| => TemporalRow(k, Some(ls[i]), None))
    else Product(k, ls, rs)
  }

  function JoinKeys(keys: seq<int>, left: seq<(int, real)>, right: seq<(int, real)>): (r: seq<TemporalRow>)
    ensures forall i :: 0 <= i < |r| ==> r[i].date in keys
  {
    if keys == [] then []
    else
      var rest := JoinKeys(keys[1..], left, right);
      RowsForKey(keys[0], CellsAt(left, keys[0]), CellsAt(right, keys[0])) + rest
  }

  /** The number of rows dated `k`. */
  function CountDate(rows: seq<TemporalRow>, k: int): nat
  {
    if rows == [] then 0 else (if rows[0].date == k then 1 else 0) + CountDate(rows[1..], k)
  }

  /** `pd.merge(delivery_df, vessel_df, on='date', how='outer')`, keys in sorted order. */
  function OuterMerge(left: seq<(int, real)>, right: seq<(int, real)>): seq<TemporalRow>
  {
    JoinKeys(KeysOf(Firsts(left) + Firsts(right)), left, right)
  }

  /** `Series.ffill()`: every missing cell takes the last present value above it; cells
      above the first present value stay missing. */
  function ForwardFill<T>(xs: seq<Option<T>>): (r: seq<Option<T>>)
    ensures |r| == |xs|
  {
    if xs == [] then []
    else
      var init := ForwardFill(xs[..|xs| - 1]);
      var last := xs[|xs| - 1];
      init + [if last.Some? || init == [] then last else init[|init| - 1]]
  }

  function QtyColumn(rows: seq<TemporalRow>): (c: seq<Option<real>>)
    ensures |c| == |rows| && forall i :: 0 <= i < |rows| ==> c[i] == rows[i].qtyTons
  {
    seq(|rows|, i requires 0 <= i < |rows| => rows[i].qtyTons)
  }

  function VesselColumn(rows: seq<TemporalRow>): (c: seq<Option<real>>)
    ensures |c| == |rows| && forall i :: 0 <= i < |rows| ==> c[i] == rows[i].numVessels
  {
    seq(|rows|, i requires 0 <= i < |rows| => rows[i].numVessels)
  }

  /** `DataFrame.ffill()` on the merged frame: each column is filled on its own. */
  function FillColumns(rows: seq<TemporalRow>): (r: seq<TemporalRow>)
    ensures |r| == |rows|
    ensures forall i :: 0 <= i < |rows| ==>
      && r[i].date == rows[i].date
      && r[i].qtyTons == ForwardFill(QtyColumn(rows))[i]
      && r[i].numVessels == ForwardFill(VesselColumn(rows))[i]
  {
    var q := ForwardFill(QtyColumn(rows));
    var v := ForwardFill(VesselColumn(rows));
    seq(|rows|, i requires 0 <= i < |rows| => TemporalRow(rows[i].date, q[i], v[i]))
  }

  /** The frame `prepare_temporal_dataframe` returns. An empty record list gives a frame
      without a `date` column (or without `num_vessels`), on which pandas raises
      `KeyError`; that, like an exception from the quantity loop, yields the empty frame. */
  function TemporalFrame(deliveries: seq<DeliveryQty>, vessels: seq<VesselCount>): seq<TemporalRow>
  {
    if deliveries == [] || vessels == [] then []
    else
      match NormalizedQty(DatedQty(deliveries))
      case Failure(_) => []
      case Success(left) => FillColumns(OuterMerge(left, CountedVessels(vessels)))
  }

  /** The function as written: the quantity cells are normalised in place in an array,
      then the frames are joined and filled. */
  method PrepareTemporalDataframe(deliveries: seq<DeliveryQty>, vessels: seq<VesselCount>)
    returns (frame: seq<TemporalRow>)
    ensures frame == TemporalFrame(deliveries, vessels)
  {
    if deliveries == [] || vessels == [] {
      return [];
    }
    var dated := DatedQty(deliveries);
    var cells := new PyValue[|dated|](i requires 0 <= i < |dated| => dated[i].1);
    ghost var raw := cells[..];
    assert forall i :: 0 <= i < |dated| ==> raw[i] == dated[i].1;
    var ok := NormalizeQtyColumn(cells);
    if !ok {
      return [];
    }
    assert forall i :: 0 <= i < |dated| ==>
      TemporalQty(dated[i].1).Success? && cells[i] == PyNum(TemporalQty(dated[i].1).value);
    var left := seq(|dated|, i requires 0 <= i < |dated| && cells[i].PyNum? reads cells => (dated[i].0, cells[i].x));
    var spec := NormalizedQty(dated);
    assert spec.Success?;
    assert forall i :: 0 <= i < |dated| ==> spec.value[i] == left[i];
    assert spec.value == left;
    frame := FillColumns(OuterMerge(left, CountedVessels(vessels)));
  }

  /** Forward fill keeps every present cell, and a cell is missing afterwards exactly
      when it and every cell above it were missing: nothing is filled from below. */
  lemma FillKeepsAndNeverBackfills<T>(xs: seq<Option<T>>)
    ensures forall i :: 0 <= i < |xs| && xs[i].Some? ==> ForwardFill(xs)[i] == xs[i]
    ensures forall i :: 0 <= i < |xs| ==>
      (ForwardFill(xs)[i].None? <==> forall j :: 0 <= j <= i ==> xs[j].None?)
  {
    forall i | 0 <= i < |xs|
      ensures xs[i].Some? ==> ForwardFill(xs)[i] == xs[i]
      ensures ForwardFill(xs)[i].None? <==> forall j :: 0 <= j <= i ==> xs[j].None?
    {
      FillAt(xs, i);
    }
  }

  /** Filling the rows above the last one is filling the column without it. */
  lemma FillPrefix<T>(xs: seq<Option<T>>)
    requires xs != []
    ensures forall i :: 0 <= i < |xs| - 1 ==> ForwardFill(xs)[i] == ForwardFill(xs[..|xs| - 1])[i]
  {
  }

  lemma {:induction false} FillAt<T>(xs: seq<Option<T>>, i: int)
    requires 0 <= i < |xs|
    ensures xs[i].Some? ==> ForwardFill(xs)[i] == xs[i]
    ensures ForwardFill(xs)[i].None? <==> forall j :: 0 <= j <= i ==> xs[j].None?
  {
    var init := xs[..|xs| - 1];
    FillPrefix(xs);
    if i < |xs| - 1 {
      FillAt(init, i);
      assert forall j :: 0 <= j <= i ==> xs[j] == init[j];
    } else if i > 0 {
      FillAt(init, i - 1);
      assert forall j :: 0 <= j < i ==> xs[j] == init[j];
    }
  }

  /** A filled cell holds the value of the nearest present cell at or above it. */
  lemma {:induction false} FillCarriesLast<T>(xs: seq<Option<T>>, i: int)
    requires 0 <= i < |xs| && ForwardFill(xs)[i].Some?
    ensures exists j ::
      && 0 <= j <= i && xs[j] == ForwardFill(xs)[i]
      && forall k :: j < k <= i ==> xs[k].None?
  {
    var init := xs[..|xs| - 1];
    assert forall m :: 0 <= m < |init| ==> ForwardFill(xs)[m] == ForwardFill(init)[m];
    if i < |xs| - 1 {
      FillCarriesLast(init, i);
      var j :| 0 <= j <= i && init[j] == ForwardFill(init)[i] && forall k :: j < k <= i ==> init[k].None?;
      assert xs[j] == init[j];
      assert forall k :: j < k <= i ==> xs[k] == init[k];
    } else if xs[i].None? {
      FillCarriesLast(init, i - 1);
      var j :| 0 <= j <= i - 1 && init[j] == ForwardFill(init)[i - 1] &&
        forall k :: j < k <= i - 1 ==> init[k].None?;
      assert xs[j] == init[j];
      assert forall k :: j < k < i ==> xs[k] == init[k];
    }
  }

  /** Filling a filled column changes nothing. */
  lemma {:induction false} FillIdempotent<T>(xs: seq<Option<T>>)
    ensures ForwardFill(ForwardFill(xs)) == ForwardFill(xs)
  {
    if xs != [] {
      var f := ForwardFill(xs);
      var init := xs[..|xs| - 1];
      FillIdempotent(init);
      assert f[..|f| - 1] == ForwardFill(init);
    }
  }

  lemma {:induction false} CountDateAppend(a: seq<TemporalRow>, b: seq<TemporalRow>, k: int)
    ensures CountDate(a + b, k) == CountDate(a, k) + CountDate(b, k)
  {
    if a == [] {
      assert a + b == b;
    } else {
      CountDateAppend(a[1..], b, k);
      assert (a + b)[1..] == a[1..] + b;
    }
  }

  lemma {:induction false} CountDateUniform(rows: seq<TemporalRow>, d: int, k: int)
    requires forall i :: 0 <= i < |rows| ==> rows[i].date == d
    ensures CountDate(rows, k) == if d == k then |rows| else 0
  {
    if rows != [] {
      CountDateUniform(rows[1..], d, k);
    }
  }

  predicate SortedByDate(rows: seq<TemporalRow>)
  {
    forall i, j :: 0 <= i < j < |rows| ==> rows[i].date <= rows[j].date
  }

  lemma SortedConcat(a: seq<TemporalRow>, b: seq<TemporalRow>)
    requires SortedByDate(a) && SortedByDate(b)
    requires forall i, j :: 0 <= i < |a| && 0 <= j < |b| ==> a[i].date <= b[j].date
    ensures SortedByDate(a + b)
  {
    var r := a + b;
    forall i, j | 0 <= i < j < |r|
      ensures r[i].date <= r[j].date
    {
      if j < |a| {
        assert r[i] == a[i] && r[j] == a[j];
      } else if i < |a| {
        assert r[i] == a[i] && r[j] == b[j - |a|];
      } else {
        assert r[i] == b[i - |a|] && r[j] == b[j - |a|];
      }
    }
  }

  /** Joining over increasing keys gives rows in non-decreasing date order. */
  lemma {:induction false} JoinKeysSorted(keys: seq<int>, left: seq<(int, real)>, right: seq<(int, real)>)
    requires StrictlyIncreasing(keys)
    ensures SortedByDate(JoinKeys(keys, left, right))
  {
    if keys != [] {
      JoinKeysSorted(keys[1..], left, right);
      var block := RowsForKey(keys[0], CellsAt(left, keys[0]), CellsAt(right, keys[0]));
      var rest := JoinKeys(keys[1..], left, right);
      assert forall x :: x in keys[1..] ==> keys[0] < x;
      assert forall j :: 0 <= j < |rest| ==> keys[0] < rest[j].date;
      SortedConcat(block, rest);
    }
  }

  /** Over distinct keys, the rows dated `k` are exactly those the join emits for `k`. */
  lemma {:induction false} JoinKeysCount(keys: seq<int>, left: seq<(int, real)>, right: seq<(int, real)>, k: int)
    requires StrictlyIncreasing(keys)
    ensures CountDate(JoinKeys(keys, left, right), k)
      == if k in keys then RowCount(|CellsAt(left, k)|, |CellsAt(right, k)|) else 0
  {
    if keys != [] {
      var block := RowsForKey(keys[0], CellsAt(left, keys[0]), CellsAt(right, keys[0]));
      JoinKeysCount(keys[1..], left, right, k);
      CountDateAppend(block, JoinKeys(keys[1..], left, right), k);
      CountDateUniform(block, keys[0], k);
      assert k == keys[0] ==> k !in keys[1..];
    }
  }

  /** The outer join emits its rows sorted by date. */
  lemma OuterMergeSorted(left: seq<(int, real)>, right: seq<(int, real)>)
    ensures SortedByDate(OuterMerge(left, right))
  {
    JoinKeysSorted(KeysOf(Firsts(left) + Firsts(right)), left, right);
  }

  /** A date appears on as many rows as `RowCount` says for the rows of each side that
      carry it: it appears exactly when one side has it, and rows sharing a date are
      never summed into one. */
  lemma OuterMergeCount(left: seq<(int, real)>, right: seq<(int, real)>, k: int)
    ensures CountDate(OuterMerge(left, right), k) == RowCount(|CellsAt(left, k)|, |CellsAt(right, k)|)
    ensures CountDate(OuterMerge(left, right), k) > 0 <==> k in Firsts(left) || k in Firsts(right)
  {
    var keys := KeysOf(Firsts(left) + Firsts(right));
    JoinKeysCount(keys, left, right, k);
    assert k in keys <==> k in Firsts(left) || k in Firsts(right);
    CellsAtEmpty(left, k);
    CellsAtEmpty(right, k);
    RowCountPositive(|CellsAt(left, k)|, |CellsAt(right, k)|);
  }

  /** The rows of `xs` with key `k` number as many as the occurrences of `k`. */
  lemma {:induction false} CellsAtCount<V>(xs: seq<(int, V)>, k: int)
    ensures |CellsAt(xs, k)| == multiset(Firsts(xs))[k]
  {
    if xs != [] {
      CellsAtCount(xs[1..], k);
      assert Firsts(xs) == [xs[0].0] + Firsts(xs[1..]);
    }
  }

  /** Normalising the quantities keeps every row's date. */
  lemma NormalizedKeepsDates(dated: seq<(int, PyValue)>)
    requires NormalizedQty(dated).Success?
    ensures Firsts(NormalizedQty(dated).value) == Firsts(dated)
  {
  }

  /** Some delivery record carries date `k`. */
  predicate DeliveredOn(ds: seq<DeliveryQty>, k: int)
  {
    exists i :: 0 <= i < |ds| && ds[i].date == Some(k)
  }

  /** Some vessel record carries date `k` and a vessel count. */
  predicate CountedOn(vs: seq<VesselCount>, k: int)
  {
    exists i :: 0 <= i < |vs| && vs[i].date == Some(k) && vs[i].numVessels.Some?
  }

  /** The dates of the delivery frame after `dropna`: exactly the parseable ones. */
  lemma {:induction false} DeliveryDates(ds: seq<DeliveryQty>, k: int)
    ensures k in Firsts(DatedQty(ds)) <==> DeliveredOn(ds, k)
  {
    if ds != [] {
      DeliveryDates(ds[1..], k);
      assert forall i :: 1 <= i < |ds| ==> ds[i] == ds[1..][i - 1];
      assert Firsts(DatedQty(ds)) == (if ds[0].date.Some? then [ds[0].date.value] else [])
        + Firsts(DatedQty(ds[1..]));
    }
  }

  /** The dates of the vessel frame after both `dropna` calls. */
  lemma {:induction false} VesselDates(vs: seq<VesselCount>, k: int)
    ensures k in Firsts(CountedVessels(vs)) <==> CountedOn(vs, k)
  {
    if vs != [] {
      VesselDates(vs[1..], k);
      assert forall i :: 1 <= i < |vs| ==> vs[i] == vs[1..][i - 1];
      assert Firsts(CountedVessels(vs)) ==
        (if vs[0].date.Some? && vs[0].numVessels.Some? then [vs[0].date.value] else [])
        + Firsts(CountedVessels(vs[1..]));
    }
  }

  /** The returned frame is empty when a record list is empty or the quantity loop
      raises. */
  lemma TemporalFrameEmpty(deliveries: seq<DeliveryQty>, vessels: seq<VesselCount>)
    ensures deliveries == [] || vessels == [] || NormalizedQty(DatedQty(deliveries)).Failure?
      ==> TemporalFrame(deliveries, vessels) == []
  {
  }

  /** The returned frame is sorted by date. */
  lemma TemporalFrameSorted(deliveries: seq<DeliveryQty>, vessels: seq<VesselCount>)
    ensures SortedByDate(TemporalFrame(deliveries, vessels))
  {
    if deliveries != [] && vessels != [] && NormalizedQty(DatedQty(deliveries)).Success? {
      var left := NormalizedQty(DatedQty(deliveries)).value;
      OuterMergeSorted(left, CountedVessels(vessels));
      FillKeepsDates(OuterMerge(left, CountedVessels(vessels)), 0);
    }
  }

  /** A date appears in the returned frame on as many rows as `RowCount` gives for the
      deliveries and vessel counts of that date, so it appears exactly when a delivery or
      a vessel count carries it. */
  lemma TemporalFrameDates(deliveries: seq<DeliveryQty>, vessels: seq<VesselCount>, k: int)
    requires deliveries != [] && vessels != [] && NormalizedQty(DatedQty(deliveries)).Success?
    ensures CountDate(TemporalFrame(deliveries, vessels), k)
      == RowCount(multiset(Firsts(DatedQty(deliveries)))[k], multiset(Firsts(CountedVessels(vessels)))[k])
    ensures CountDate(TemporalFrame(deliveries, vessels), k) > 0 <==>
      DeliveredOn(deliveries, k) || CountedOn(vessels, k)
  {
    var dated := DatedQty(deliveries);
    var left := NormalizedQty(dated).value;
    NormalizedKeepsDates(dated);
    FilledMergeCount(left, CountedVessels(vessels), k);
    DeliveryDates(deliveries, k);
    VesselDates(vessels, k);
  }

  /** The filled join holds each date on `RowCount` rows of the two sides' occurrences. */
  lemma FilledMergeCount(left: seq<(int, real)>, right: seq<(int, real)>, k: int)
    ensures CountDate(FillColumns(OuterMerge(left, right)), k)
      == RowCount(multiset(Firsts(left))[k], multiset(Firsts(right))[k])
    ensures CountDate(FillColumns(OuterMerge(left, right)), k) > 0 <==>
      k in Firsts(left) || k in Firsts(right)
  {
    OuterMergeCount(left, right, k);
    CellsAtCount(left, k);
    CellsAtCount(right, k);
    FillKeepsDates(OuterMerge(left, right), k);
  }

  /** In the filled frame a cell is missing exactly when that column is missing on its
      row and on every row above it, and present cells are kept. */
  lemma FillColumnsNoBackfill(rows: seq<TemporalRow>)
    ensures forall i :: 0 <= i < |rows| ==>
      (FillColumns(rows)[i].qtyTons.None? <==> forall j :: 0 <= j <= i ==> rows[j].qtyTons.None?)
    ensures forall i :: 0 <= i < |rows| ==>
      (FillColumns(rows)[i].numVessels.None? <==> forall j :: 0 <= j <= i ==> rows[j].numVessels.None?)
    ensures forall i :: 0 <= i < |rows| && rows[i].qtyTons.Some? ==>
      FillColumns(rows)[i].qtyTons == rows[i].qtyTons
    ensures forall i :: 0 <= i < |rows| && rows[i].numVessels.Some? ==>
      FillColumns(rows)[i].numVessels == rows[i].numVessels
  {
    FillKeepsAndNeverBackfills(QtyColumn(rows));
    FillKeepsAndNeverBackfills(VesselColumn(rows));
  }

  /** Two deliveries on one day and one vessel count on that day give two rows for the
      day: the deliveries are not summed per day before the join. */
  lemma SameDayDeliveriesKept(deliveries: seq<DeliveryQty>, vessels: seq<VesselCount>, d: int)
    requires deliveries == [DeliveryQty(Some(d), PyNum(1.0)), DeliveryQty(Some(d), PyNum(2.0))]
    requires vessels == [VesselCount(Some(d), Some(3.0))]
    ensures CountDate(TemporalFrame(deliveries, vessels), d) == 2
  {
    assert DatedQty(deliveries) == [(d, PyNum(1.0)), (d, PyNum(2.0))];
    assert Firsts(DatedQty(deliveries)) == [d, d];
    assert Firsts(CountedVessels(vessels)) == [d];
    TemporalFrameDates(deliveries, vessels, d);
  }

  /** Filling changes no date, so it keeps the order and the count of every date. */
  lemma FillKeepsDates(rows: seq<TemporalRow>, k: int)
    ensures SortedByDate(rows) ==> SortedByDate(FillColumns(rows))
    ensures CountDate(FillColumns(rows), k) == CountDate(rows, k)
  {
    SameDatesSameCount(FillColumns(rows), rows, k);
  }

  lemma {:induction false} SameDatesSameCount(a: seq<TemporalRow>, b: seq<TemporalRow>, k: int)
    requires |a| == |b| && forall i :: 0 <= i < |a| ==> a[i].date == b[i].date
    ensures CountDate(a, k) == CountDate(b, k)
  {
    if a != [] {
      SameDatesSameCount(a[1..], b[1..], k);
    }
  }

  // ---- Which cells the join puts on which row ----

  /** Dropping undated deliveries keeps the order of the rest: it distributes over
      concatenation. */
  lemma {:induction false} DatedQtyConcat(a: seq<DeliveryQty>, b: seq<DeliveryQty>)
    ensures DatedQty(a + b) == DatedQty(a) + DatedQty(b)
  {
    if a != [] {
      var ab := a + b;
      assert ab[0] == a[0] && ab[1..] == a[1..] + b;
      DatedQtyConcat(a[1..], b);
    } else {
      assert a + b == b;
    }
  }

  /** Dropping undated or uncounted vessel rows keeps the order of the rest. */
  lemma {:induction false} CountedVesselsConcat(a: seq<VesselCount>, b: seq<VesselCount>)
    ensures CountedVessels(a + b) == CountedVessels(a) + CountedVessels(b)
  {
    if a != [] {
      var ab := a + b;
      assert ab[0] == a[0] && ab[1..] == a[1..] + b;
      CountedVesselsConcat(a[1..], b);
    } else {
      assert a + b == b;
    }
  }

  /** A side has no cells for a date exactly when it lacks the date. */
  lemma {:induction false} CellsAtEmpty<V>(xs: seq<(int, V)>, k: int)
    ensures CellsAt(xs, k) == [] <==> k !in Firsts(xs)
  {
    if xs != [] {
      CellsAtEmpty(xs[1..], k);
      assert Firsts(xs) == [xs[0].0] + Firsts(xs[1..]);
    }
  }

  lemma CellsAtCons<V>(xs: seq<(int, V)>, k: int)
    requires xs != []
    ensures CellsAt(xs, k) == (if xs[0].0 == k then [xs[0].1] else []) + CellsAt(xs[1..], k)
  {
  }

  /** The cells of a key are taken in row order: collecting them distributes over
      concatenation. */
  lemma {:induction false} CellsAtConcat<V>(a: seq<(int, V)>, b: seq<(int, V)>, k: int)
    ensures CellsAt(a + b, k) == CellsAt(a, k) + CellsAt(b, k)
  {
    if a != [] {
      var ab := a + b;
      assert ab[0] == a[0] && ab[1..] == a[1..] + b;
      CellsAtCons(ab, k);
      CellsAtCons(a, k);
      CellsAtConcat(a[1..], b, k);
    } else {
      assert a + b == b;
    }
  }

  /** The cells collected for `k` are exactly the cells of the rows keyed `k`. */
  lemma {:induction false} CellsAtMembers<V>(xs: seq<(int, V)>, k: int)
    ensures forall n :: 0 <= n < |CellsAt(xs, k)| ==> (k, CellsAt(xs, k)[n]) in xs
    ensures forall n :: 0 <= n < |xs| && xs[n].0 == k ==> xs[n].1 in CellsAt(xs, k)
  {
    if xs != [] {
      CellsAtMembers(xs[1..], k);
      assert xs == [xs[0]] + xs[1..];
      assert forall n :: 1 <= n < |xs| ==> xs[n] == xs[1..][n - 1];
    }
  }

  lemma ProductSplit(k: int, ls: seq<real>, rs: seq<real>)
    requires ls != []
    ensures |Product(k, ls, rs)| == |rs| + |Product(k, ls[1..], rs)|
    ensures forall j :: 0 <= j < |rs| ==> Product(k, ls, rs)[j] == TemporalRow(k, Some(ls[0]), Some(rs[j]))
    ensures forall m :: 0 <= m < |Product(k, ls[1..], rs)| ==>
      Product(k, ls, rs)[|rs| + m] == Product(k, ls[1..], rs)[m]
  {
  }

  /** Row `i * |rs| + j` of a key's product pairs left cell `i` with right cell `j`. */
  lemma {:induction false} ProductAt(k: int, ls: seq<real>, rs: seq<real>, i: nat, j: nat)
    requires i < |ls| && j < |rs|
    ensures i * |rs| + j < |Product(k, ls, rs)|
    ensures Product(k, ls, rs)[i * |rs| + j] == TemporalRow(k, Some(ls[i]), Some(rs[j]))
  {
    ProductSplit(k, ls, rs);
    if i > 0 {
      ProductAt(k, ls[1..], rs, i - 1, j);
      assert i * |rs| + j == |rs| + ((i - 1) * |rs| + j);
      assert ls[1..][i - 1] == ls[i];
    }
  }

  /** Every row of a key's product holds a left cell and a right cell of that key. */
  lemma {:induction false} ProductCells(k: int, ls: seq<real>, rs: seq<real>, row: TemporalRow)
    requires row in Product(k, ls, rs)
    ensures row.qtyTons.Some? && row.qtyTons.value in ls
    ensures row.numVessels.Some? && row.numVessels.value in rs
  {
    var p := Product(k, ls, rs);
    var n :| 0 <= n < |p| && p[n] == row;
    ProductSplit(k, ls, rs);
    if n >= |rs| {
      var q := Product(k, ls[1..], rs);
      assert q[n - |rs|] == row;
      ProductCells(k, ls[1..], rs, row);
      assert forall x :: x in ls[1..] ==> x in ls;
    }
  }

  /** A row emitted for key `k` is dated `k`; its quantity is missing exactly when no
      delivery has the key and is otherwise one of the key's quantities, and likewise
      for the vessel count. */
  lemma RowsForKeyCells(k: int, ls: seq<real>, rs: seq<real>, row: TemporalRow)
    requires row in RowsForKey(k, ls, rs)
    ensures row.date == k
    ensures row.qtyTons.None? <==> ls == []
    ensures row.qtyTons.Some? ==> row.qtyTons.value in ls
    ensures row.numVessels.None? <==> rs == []
    ensures row.numVessels.Some? ==> row.numVessels.value in rs
  {
    var r := RowsForKey(k, ls, rs);
    var n :| 0 <= n < |r| && r[n] == row;
    if ls != [] && rs != [] {
      ProductCells(k, ls, rs, row);
    }
  }

  /** Every joined row is one of the rows emitted for its own date, which is a key. */
  lemma {:induction false} JoinKeysRow(keys: seq<int>, left: seq<(int, real)>, right: seq<(int, real)>, row: TemporalRow)
    requires row in JoinKeys(keys, left, right)
    ensures row.date in keys
    ensures row in RowsForKey(row.date, CellsAt(left, row.date), CellsAt(right, row.date))
  {
    var block := RowsForKey(keys[0], CellsAt(left, keys[0]), CellsAt(right, keys[0]));
    var rest := JoinKeys(keys[1..], left, right);
    assert JoinKeys(keys, left, right) == block + rest;
    if row in block {
      var n :| 0 <= n < |block| && block[n] == row;
    } else {
      JoinKeysRow(keys[1..], left, right, row);
    }
  }

  /** The rows emitted for a key are all in the join. */
  lemma {:induction false} JoinKeysContains(keys: seq<int>, left: seq<(int, real)>, right: seq<(int, real)>, k: int, row: TemporalRow)
    requires k in keys && row in RowsForKey(k, CellsAt(left, k), CellsAt(right, k))
    ensures row in JoinKeys(keys, left, right)
  {
    var block := RowsForKey(keys[0], CellsAt(left, keys[0]), CellsAt(right, keys[0]));
    var rest := JoinKeys(keys[1..], left, right);
    assert JoinKeys(keys, left, right) == block + rest;
    if k != keys[0] {
      JoinKeysContains(keys[1..], left, right, k, row);
    }
  }

  /** What a row of the outer join holds: a present quantity is one the deliveries have
      on that row's date, and the quantity is missing exactly when no delivery has the
      date; the same holds for the vessel count and the vessel rows. */
  lemma OuterMergeCells(left: seq<(int, real)>, right: seq<(int, real)>, row: TemporalRow)
    requires row in OuterMerge(left, right)
    ensures row.qtyTons.Some? ==> (row.date, row.qtyTons.value) in left
    ensures row.qtyTons.None? <==> row.date !in Firsts(left)
    ensures row.numVessels.Some? ==> (row.date, row.numVessels.value) in right
    ensures row.numVessels.None? <==> row.date !in Firsts(right)
  {
    JoinKeysRow(KeysOf(Firsts(left) + Firsts(right)), left, right, row);
    CellsAtMembers(left, row.date);
    CellsAtMembers(right, row.date);
    RowsForKeyCells(row.date, CellsAt(left, row.date), CellsAt(right, row.date), row);
  }

  /** Some row is dated `t` and holds quantity `q`. */
  predicate HasQtyRow(rows: seq<TemporalRow>, t: int, q: real)
  {
    exists n :: 0 <= n < |rows| && rows[n].date == t && rows[n].qtyTons == Some(q)
  }

  /** Some row is dated `t` and holds vessel count `v`. */
  predicate HasVesselRow(rows: seq<TemporalRow>, t: int, v: real)
  {
    exists n :: 0 <= n < |rows| && rows[n].date == t && rows[n].numVessels == Some(v)
  }

  lemma InFirsts<V>(xs: seq<(int, V)>, x: (int, V))
    requires x in xs
    ensures x.0 in Firsts(xs)
  {
    var n :| 0 <= n < |xs| && xs[n] == x;
    assert Firsts(xs)[n] == x.0;
  }

  /** No delivery quantity is lost: each one appears, on its date, in some row of the
      outer join. */
  lemma OuterMergeKeepsQuantities(left: seq<(int, real)>, right: seq<(int, real)>, t: int, q: real)
    requires (t, q) in left
    ensures HasQtyRow(OuterMerge(left, right), t, q)
  {
    var ls := CellsAt(left, t);
    var rs := CellsAt(right, t);
    CellsAtMembers(left, t);
    CellsAtMembers(right, t);
    var i :| 0 <= i < |ls| && ls[i] == q;
    var row := TemporalRow(t, Some(q), if rs == [] then None else Some(rs[0]));
    if rs == [] {
      assert RowsForKey(t, ls, rs)[i] == row;
    } else {
      ProductAt(t, ls, rs, i, 0);
    }
    assert row in RowsForKey(t, ls, rs);
    InFirsts(left, (t, q));
    var keys := KeysOf(Firsts(left) + Firsts(right));
    assert t in keys;
    JoinKeysContains(keys, left, right, t, row);
    var rows := OuterMerge(left, right);
    var n :| 0 <= n < |rows| && rows[n] == row;
  }

  /** No vessel count is lost: each one appears, on its date, in some row of the outer
      join. */
  lemma OuterMergeKeepsVessels(left: seq<(int, real)>, right: seq<(int, real)>, t: int, v: real)
    requires (t, v) in right
    ensures HasVesselRow(OuterMerge(left, right), t, v)
  {
    var ls := CellsAt(left, t);
    var rs := CellsAt(right, t);
    CellsAtMembers(left, t);
    CellsAtMembers(right, t);
    var j :| 0 <= j < |rs| && rs[j] == v;
    var row := TemporalRow(t, if ls == [] then None else Some(ls[0]), Some(v));
    if ls == [] {
      assert RowsForKey(t, ls, rs)[j] == row;
    } else {
      ProductAt(t, ls, rs, 0, j);
    }
    assert row in RowsForKey(t, ls, rs);
    InFirsts(right, (t, v));
    var keys := KeysOf(Firsts(left) + Firsts(right));
    assert t in keys;
    JoinKeysContains(keys, left, right, t, row);
    var rows := OuterMerge(left, right);
    var n :| 0 <= n < |rows| && rows[n] == row;
  }
}
