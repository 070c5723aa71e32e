/** `process_fish_deliveries`: every raw delivery record becomes one normalised record
    for the network graph, in input order, or the whole call raises. */
module FishDeliveries {
  import opened Wrappers
  import opened PyValues
  import opened Quantity
  import Calendar

  /** The dictionary built for each delivery. */
  datatype FishDelivery = FishDelivery(
    deliveryReportName: PyValue,
    dateOfArrival: PyValue,
    cityOfArrival: PyValue,
    fishName: PyValue,
    quantityTons: real,
    harborVessels: seq<PyValue>,
    pingVessels: seq<PyValue>)

  /** The arrival-date fix-up: a truthy value goes through
      `strptime(v, "%Y-%m-%d").strftime("%Y-%m-%d")`, which needs text (`TypeError`
      otherwise) and raises `ValueError` on text that is not such a date; a falsy value
      is kept as it is. */
  function ReformatArrival(v: PyValue): (r: Result<PyValue, PyException>)
    ensures !Truthy(v) ==> r == Success(v)
    ensures r.Success? && Truthy(v) ==> r.value.PyStr?
  {
    if !Truthy(v) then Success(v)
    else
      match v
      case PyStr(s) =>
        (match Calendar.ParseYmd(s)
         case Success(d) => Success(PyStr(Calendar.FormatDate(d)))
         case Failure(_) => Failure(ValueError))
      case _ => Failure(TypeError)
  }

  /** One loop iteration: the quantity first (its `TypeError` comes before anything
      else), then the vessel lists and the copied fields, then the arrival date. */
  function NormalizeRecord(record: Record): (r: Result<FishDelivery, PyException>)
    ensures r.Success? ==> r.value.quantityTons >= 0.0
  {
    var qty :- FishDeliveryQty(record);
    var harbor := EnsureList(Get(record, "harbor_vessels", PyStr("Unknown")));
    var ping := EnsureList(Get(record, "ping_vessels", PyStr("Unknown")));
    var date :- ReformatArrival(Get(record, "date_of_arrival", PyNone));
    Success(FishDelivery(
      Get(record, "deliveryreport_name", PyStr("Unknown")),
      date,
      Get(record, "city_of_arrival", PyStr("Unknown")),
      Get(record, "fish_name", PyStr("Unknown")),
      qty, harbor, ping))
  }

  /** `f` applied to each element in order, stopping at the first failure, whose error
      is the result. */
  function MapUntilFailure<A, B>(f: A -> Result<B, PyException>, xs: seq<A>): Result<seq<B>, PyException>
  {
    if xs == [] then Success([])
    else
      var init :- MapUntilFailure(f, xs[..|xs| - 1]);
      var last :- f(xs[|xs| - 1]);
      Success(init + [last])
  }

  /** The mapping succeeds exactly when every element succeeds, and then holds each
      element's result at its index; otherwise its error is that of the first element
      that fails. */
  lemma {:induction false} MapUntilFailureMeaning<A, B>(f: A -> Result<B, PyException>, xs: seq<A>)
    ensures MapUntilFailure(f, xs).Success? <==> forall i :: 0 <= i < |xs| ==> f(xs[i]).Success?
    ensures MapUntilFailure(f, xs).Success? ==>
      && |MapUntilFailure(f, xs).value| == |xs|
      && forall i :: 0 <= i < |xs| ==> MapUntilFailure(f, xs).value[i] == f(xs[i]).value
    ensures MapUntilFailure(f, xs).Failure? ==> exists k ::
      && 0 <= k < |xs| && f(xs[k]) == Failure(MapUntilFailure(f, xs).error)
      && forall i :: 0 <= i < k ==> f(xs[i]).Success?
  {
    if xs != [] {
      var init := xs[..|xs| - 1];
      MapUntilFailureMeaning(f, init);
      assert forall i :: 0 <= i < |init| ==> xs[i] == init[i];
      if MapUntilFailure(f, init).Failure? {
        var k :| 0 <= k < |init| && f(init[k]) == Failure(MapUntilFailure(f, init).error)
          && forall i :: 0 <= i < k ==> f(init[i]).Success?;
        assert f(xs[k]) == f(init[k]);
      } else if f(xs[|xs| - 1]).Failure? {
        assert f(xs[|xs| - 1]) == Failure(MapUntilFailure(f, xs).error);
      }
    }
  }

  /** The loop of `process_fish_deliveries`: it appends one record per input record, in
      order, and stops at the first record that raises, whose exception escapes. */
  method ProcessFishDeliveries(raw: seq<Record>) returns (r: Result<seq<FishDelivery>, PyException>)
    ensures r == MapUntilFailure(NormalizeRecord, raw)
  {
    var processed: seq<FishDelivery> := [];
    var i := 0;
    while i < |raw|
      invariant 0 <= i <= |raw|
      invariant MapUntilFailure(NormalizeRecord, raw[..i]) == Success(processed)
    {
      assert raw[..i + 1][..i] == raw[..i];
      var rec := NormalizeRecord(raw[i]);
      if rec.Failure? {
        FailureExtends(NormalizeRecord, raw, i + 1);
        return Failure(rec.error);
      }
      processed := processed + [rec.value];
      i := i + 1;
    }
    assert raw[..i] == raw;
    return Success(processed);
  }

  /** Once a prefix fails, every longer prefix fails with the same error. */
  lemma {:induction false} FailureExtends<A, B>(f: A -> Result<B, PyException>, xs: seq<A>, n: nat)
    requires n <= |xs| && MapUntilFailure(f, xs[..n]).Failure?
    ensures MapUntilFailure(f, xs) == MapUntilFailure(f, xs[..n])
    decreases |xs| - n
  {
    if n == |xs| {
      assert xs[..n] == xs;
    } else {
      assert xs[..n + 1][..n] == xs[..n];
      FailureExtends(f, xs, n + 1);
    }
  }

  /** `process_fish_deliveries` yields one record per input record, in order, each the
      normalised form of its input, or the exception of the first record that raises. */
  lemma ProcessedRecords(raw: seq<Record>)
    ensures MapUntilFailure(NormalizeRecord, raw).Success? <==>
      forall i :: 0 <= i < |raw| ==> NormalizeRecord(raw[i]).Success?
    ensures MapUntilFailure(NormalizeRecord, raw).Success? ==>
      && |MapUntilFailure(NormalizeRecord, raw).value| == |raw|
      && forall i :: 0 <= i < |raw| ==>
        MapUntilFailure(NormalizeRecord, raw).value[i] == NormalizeRecord(raw[i]).value
    ensures MapUntilFailure(NormalizeRecord, raw).Failure? ==> exists k ::
      && 0 <= k < |raw| && NormalizeRecord(raw[k]) == Failure(MapUntilFailure(NormalizeRecord, raw).error)
      && forall i :: 0 <= i < k ==> NormalizeRecord(raw[i]).Success?
  {
    MapUntilFailureMeaning(NormalizeRecord, raw);
  }

  /** A truthy text date is accepted exactly when it parses, and is then re-emitted as the
      zero-padded rendering of the same date, which reads back unchanged and is a fixed
      point of the fix-up. */
  lemma ArrivalDateMeaning(s: string)
    requires s != ""
    ensures ReformatArrival(PyStr(s)).Success? <==> Calendar.ParseYmd(s).Success?
    ensures ReformatArrival(PyStr(s)).Failure? ==> ReformatArrival(PyStr(s)).error == ValueError
    ensures ReformatArrival(PyStr(s)).Success? ==>
      var out := ReformatArrival(PyStr(s)).value;
      && out == PyStr(Calendar.FormatDate(Calendar.ParseYmd(s).value))
      && Calendar.ParseYmd(out.s) == Calendar.ParseYmd(s)
      && ReformatArrival(out) == Success(out)
  {
    if Calendar.ParseYmd(s).Success? {
      var d := Calendar.ParseYmd(s).value;
      Calendar.ParseFormatRoundTrip(d);
    }
  }

  /** Only text can be a truthy arrival date: a number or a non-empty list raises
      `TypeError`. */
  lemma ArrivalDateNeedsText(v: PyValue)
    requires Truthy(v) && !v.PyStr?
    ensures ReformatArrival(v) == Failure(TypeError)
  {
  }

  /** A record that raises does so because of its quantity (`TypeError`) or its arrival
      date, and the quantity is looked at first. */
  lemma RecordFailure(record: Record)
    ensures NormalizeRecord(record).Failure? <==>
      FishDeliveryQty(record).Failure?
      || ReformatArrival(Get(record, "date_of_arrival", PyNone)).Failure?
    ensures FishDeliveryQty(record).Failure? ==> NormalizeRecord(record) == Failure(TypeError)
  {
  }

  /** The vessel fields: a list is kept as it is, never wrapped a second time; a missing
      field becomes `["Unknown"]` and any other single value a one-element list. */
  lemma VesselLists(record: Record)
    requires NormalizeRecord(record).Success?
    ensures var out := NormalizeRecord(record).value;
      && ("harbor_vessels" !in record ==> out.harborVessels == [PyStr("Unknown")])
      && ("ping_vessels" !in record ==> out.pingVessels == [PyStr("Unknown")])
      && ("harbor_vessels" in record && record["harbor_vessels"].PyList? ==>
            out.harborVessels == record["harbor_vessels"].items)
      && ("ping_vessels" in record && record["ping_vessels"].PyList? ==>
            out.pingVessels == record["ping_vessels"].items)
      && ("harbor_vessels" in record && !record["harbor_vessels"].PyList? ==>
            out.harborVessels == [record["harbor_vessels"]])
      && ("ping_vessels" in record && !record["ping_vessels"].PyList? ==>
            out.pingVessels == [record["ping_vessels"]])
  {
  }

  /** A record with none of the expected keys still normalises: "Unknown" names, no
      arrival date, quantity 0 and `["Unknown"]` vessel lists. */
  lemma EmptyRecord()
    ensures NormalizeRecord(map[]) == Success(FishDelivery(
      PyStr("Unknown"), PyNone, PyStr("Unknown"), PyStr("Unknown"), 0.0,
      [PyStr("Unknown")], [PyStr("Unknown")]))
  {
    QtyVariants(map[]);
  }
}
