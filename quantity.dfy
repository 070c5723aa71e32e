/** Normalisation of the `qty_tons` field: commas become dots, the text is read as a
    decimal number the way `float()` reads it, and an unreadable or negative quantity
    becomes 0. Two variants exist: the one in `process_fish_deliveries` and the per-row
    loop of `prepare_temporal_dataframe`, which differ in how they treat missing values. */
module Quantity {
  import opened Wrappers
  import opened Digits
  import opened PyValues

  /** `s.replace(",", ".")`. */
  function ReplaceCommas(s: string): (r: string)
    ensures |r| == |s|
  {
    if s == [] then [] else [if s[0] == ',' then '.' else s[0]] + ReplaceCommas(s[1..])
  }

  /** The ASCII characters `str.strip()` and `float()` treat as white space. */
  predicate IsSpace(c: char)
  {
    c == ' ' || c == '\t' || c == '\n' || c == '\r' || c == '\U{B}' || c == '\U{C}'
    || ('\U{1C}' <= c <= '\U{1F}')
  }

  /** `s.lstrip()`. */
  function StripLeft(s: string): (r: string)
    ensures |r| <= |s| && r == s[|s| - |r|..]
    ensures r != [] ==> !IsSpace(r[0])
  {
    if s != [] && IsSpace(s[0]) then StripLeft(s[1..]) else s
  }

  /** `s.rstrip()`. */
  function StripRight(s: string): (r: string)
    ensures |r| <= |s| && r == s[..|r|]
    ensures r != [] ==> !IsSpace(r[|r| - 1])
  {
    if s != [] && IsSpace(s[|s| - 1]) then StripRight(s[..|s| - 1]) else s
  }

  function Strip(s: string): (r: string)
    ensures r != [] ==> !IsSpace(r[0]) && !IsSpace(r[|r| - 1])
  {
    StripRight(StripLeft(s))
  }

  /** The position of the first '.', or `|s|` when there is none. */
  function DotIndex(s: string): (k: nat)
    ensures k <= |s|
    ensures k < |s| ==> s[k] == '.'
  {
    if s == [] || s[0] == '.' then 0 else 1 + DotIndex(s[1..])
  }

  /** Every comma becomes a dot and every other character stays. */
  lemma {:induction false} ReplaceCommasChars(s: string)
    ensures forall i :: 0 <= i < |s| ==>
      ReplaceCommas(s)[i] == (if s[i] == ',' then '.' else s[i])
  {
    if s != [] {
      ReplaceCommasChars(s[1..]);
      assert forall i :: 1 <= i < |s| ==> ReplaceCommas(s)[i] == ReplaceCommas(s[1..])[i - 1];
    }
  }

  /** `lstrip()` removes only white space. */
  lemma {:induction false} StripLeftRemovesSpaces(s: string)
    ensures forall i :: 0 <= i < |s| - |StripLeft(s)| ==> IsSpace(s[i])
  {
    if s != [] && IsSpace(s[0]) {
      StripLeftRemovesSpaces(s[1..]);
    }
  }

  /** `rstrip()` removes only white space. */
  lemma {:induction false} StripRightRemovesSpaces(s: string)
    ensures forall i :: |StripRight(s)| <= i < |s| ==> IsSpace(s[i])
  {
    if s != [] && IsSpace(s[|s| - 1]) {
      StripRightRemovesSpaces(s[..|s| - 1]);
    }
  }

  /** No '.' comes before the one `DotIndex` finds. */
  lemma {:induction false} DotIndexFirst(s: string)
    ensures forall i :: 0 <= i < DotIndex(s) ==> s[i] != '.'
  {
    if s != [] && s[0] != '.' {
      DotIndexFirst(s[1..]);
    }
  }

  /** `DotIndex` finds a '.' at `k` when none comes before it. */
  lemma {:induction false} DotIndexAt(s: string, k: nat)
    requires k <= |s| && (k < |s| ==> s[k] == '.')
    requires forall i :: 0 <= i < k ==> s[i] != '.'
    ensures DotIndex(s) == k
  {
    if k > 0 {
      DotIndexAt(s[1..], k - 1);
    }
  }

  /** The value of the digits `fp` read after a decimal point. */
  function Fraction(fp: string): (x: real)
    requires AllDigits(fp)
    ensures x >= 0.0
  {
    DigitsValue(fp) as real / Pow10(|fp|) as real
  }

  /** The value of `ip.fp` for digit strings `ip` and `fp`. */
  function DecimalValue(ip: string, fp: string): (x: real)
    requires AllDigits(ip) && AllDigits(fp)
    ensures x >= 0.0
  {
    DigitsValue(ip) as real + Fraction(fp)
  }

  /** An unsigned decimal: digits with at most one '.', and at least one digit. */
  function ParseUnsigned(t: string): (r: Option<real>)
    ensures r.Some? ==> r.value >= 0.0
  {
    var k := DotIndex(t);
    var ip := t[..k];
    var fp := if k < |t| then t[k + 1..] else [];
    if AllDigits(ip) && AllDigits(fp) && |ip| + |fp| >= 1
    then Some(DecimalValue(ip, fp))
    else None
  }

  /** `float(s)` on text: surrounding white space is ignored, an optional sign is
      followed by an unsigned decimal. `None` is the `ValueError` it raises otherwise. */
  function ParseFloat(s: string): (r: Option<real>)
    ensures r.Some? ==> Strip(s) != []
    ensures r.Some? && r.value < 0.0 ==> Strip(s)[0] == '-'
  {
    var t := Strip(s);
    if t != [] && (t[0] == '+' || t[0] == '-') then
      match ParseUnsigned(t[1..])
      case None => None
      case Some(x) => Some(if t[0] == '-' then -x else x)
    else
      ParseUnsigned(t)
  }

  /** The quantity rule shared by both variants once a number is at hand: a negative
      quantity becomes 0. */
  function NonNegative(x: real): (q: real)
    ensures q >= 0.0
    ensures x >= 0.0 ==> q == x
    ensures x < 0.0 ==> q == 0.0
  {
    if x < 0.0 then 0.0 else x
  }

  /** The text branch shared by both variants: commas become dots, a `ValueError` from
      `float()` is caught and gives 0, a negative number gives 0. */
  function QtyFromText(s: string): (q: real)
    ensures q >= 0.0
  {
    match ParseFloat(ReplaceCommas(s))
    case None => 0.0
    case Some(x) => NonNegative(x)
  }

  /** `qty_tons` in `process_fish_deliveries`: a missing key reads as "0"; `float(None)`
      and `float([...])` raise `TypeError`, which the handler there does not catch. */
  function FishDeliveryQty(record: Record): (r: Result<real, PyException>)
    ensures r.Success? ==> r.value >= 0.0
    ensures r.Failure? ==> r.error == TypeError
  {
    match Get(record, "qty_tons", PyStr("0"))
    case PyStr(s) => Success(QtyFromText(s))
    case PyNum(x) => Success(NonNegative(x))
    case PyNone => Failure(TypeError)
    case PyList(_) => Failure(TypeError)
  }

  /** `pd.isna` on a cell, as the `if` at the head of the temporal loop sees it. A list
      becomes an array of flags, whose truth value Python takes only for one element. */
  function IsNa(v: PyValue): (r: Result<bool, PyException>)
    ensures r.Failure? ==> v.PyList? && |v.items| != 1
  {
    match v
    case PyNone => Success(true)
    case PyList(items) =>
      if |items| == 1 then Success(items[0] == PyNone) else Failure(ValueError)
    case _ => Success(false)
  }

  /** `qty_tons` in the loop of `prepare_temporal_dataframe`: a missing cell becomes 0.0
      before conversion; a list that is not a lone missing value makes `float()` raise
      `TypeError` (or the `if` raise `ValueError`), which escapes the loop. */
  function TemporalQty(v: PyValue): (r: Result<real, PyException>)
    ensures r.Success? ==> r.value >= 0.0
    ensures r.Failure? <==> v.PyList? && v.items != [PyNone]
  {
    var na :- IsNa(v);
    if na then Success(0.0)
    else
      match v
      case PyStr(s) => Success(QtyFromText(s))
      case PyNum(x) => Success(NonNegative(x))
      case _ => Failure(TypeError)
  }

  /** Text with no white space at either end is left alone by `strip()`. */
  lemma StripTrimmed(t: string)
    requires t != [] ==> !IsSpace(t[0]) && !IsSpace(t[|t| - 1])
    ensures Strip(t) == t
  {
  }

  /** `strip()` keeps a contiguous slice and removes only white space around it. */
  lemma StripBounds(s: string) returns (a: nat, b: nat)
    ensures a <= b <= |s| && Strip(s) == s[a..b]
    ensures forall i :: 0 <= i < a || b <= i < |s| ==> IsSpace(s[i])
  {
    var l := StripLeft(s);
    a := |s| - |l|;
    b := a + |Strip(s)|;
    assert l[..|Strip(s)|] == s[a..b];
    StripLeftRemovesSpaces(s);
    StripRightRemovesSpaces(l);
  }

  /** Text with two decimal points is not a number. */
  lemma TwoDotsUnparseable(t: string, i: nat, j: nat)
    requires i < j < |t| && t[i] == '.' && t[j] == '.'
    ensures ParseUnsigned(t) == None
  {
    var k := DotIndex(t);
    DotIndexFirst(t);
    assert k <= i;
    var fp := t[k + 1..];
    assert fp[j - k - 1] == '.';
  }

  /** Trimmed text that starts with a digit is read without a sign. */
  lemma ParseFloatUnsigned(t: string)
    requires t != [] && IsDigit(t[0]) && !IsSpace(t[|t| - 1])
    ensures ParseFloat(t) == ParseUnsigned(t)
  {
    StripTrimmed(t);
  }

  /** Digits, a point and digits: the value of the two digit strings. */
  lemma ParseUnsignedPoint(ip: string, fp: string)
    requires AllDigits(ip) && AllDigits(fp) && |ip| >= 1
    ensures ParseUnsigned(ip + "." + fp) == Some(DecimalValue(ip, fp))
  {
    var t := ip + "." + fp;
    assert t[|ip|] == '.';
    DotIndexAt(t, |ip|);
    assert t[..|ip|] == ip && t[|ip| + 1..] == fp;
  }

  /** Digits alone: their value. */
  lemma ParseUnsignedDigits(ip: string)
    requires AllDigits(ip) && |ip| >= 1
    ensures ParseUnsigned(ip) == Some(DigitsValue(ip) as real)
  {
    DotIndexAt(ip, |ip|);
    assert ip[..|ip|] == ip;
  }

  /** `float()` reads digits, a point and digits as the decimal they spell. */
  lemma ParseFloatDecimal(ip: string, fp: string)
    requires AllDigits(ip) && AllDigits(fp) && |ip| >= 1
    ensures ParseFloat(ip + "." + fp) == Some(DecimalValue(ip, fp))
  {
    var t := ip + "." + fp;
    assert t[0] == ip[0] && !IsSpace(t[|t| - 1]);
    ParseFloatUnsigned(t);
    ParseUnsignedPoint(ip, fp);
  }

  /** A minus sign in front of trimmed unsigned text negates what `float()` reads. */
  lemma ParseFloatNegative(u: string)
    requires u != [] && IsDigit(u[0]) && !IsSpace(u[|u| - 1])
    ensures ParseFloat("-" + u) == (if ParseUnsigned(u).Some? then Some(-ParseUnsigned(u).value) else None)
  {
    var neg := "-" + u;
    StripTrimmed(neg);
    assert neg[1..] == u;
  }

  /** `float()` reads a digit string as the whole number it spells. */
  lemma ParseFloatWhole(ip: string)
    requires AllDigits(ip) && |ip| >= 1
    ensures ParseFloat(ip) == Some(DigitsValue(ip) as real)
  {
    ParseFloatUnsigned(ip);
    ParseUnsignedDigits(ip);
  }

  /** A decimal comma is read as a decimal point: "ip,fp" gives ip.fp. */
  lemma DecimalComma(ip: string, fp: string)
    requires AllDigits(ip) && AllDigits(fp) && |ip| >= 1
    ensures QtyFromText(ip + "," + fp) == DecimalValue(ip, fp)
  {
    var s := ip + "," + fp;
    ReplaceCommasChars(s);
    assert ReplaceCommas(s) == ip + "." + fp;
    ParseFloatDecimal(ip, fp);
  }

  /** Text with two decimal points outside its surrounding white space is not a
      number, signed or not. */
  lemma TwoDotsNoFloat(r: string, i: nat, j: nat)
    requires i < j < |r| && r[i] == '.' && r[j] == '.'
    ensures ParseFloat(r) == None
  {
    var a, b := StripBounds(r);
    var t := Strip(r);
    assert a <= i && j < b;
    assert t[i - a] == '.' && t[j - a] == '.';
    if t[0] == '+' || t[0] == '-' {
      assert a < i;
      TwoDotsUnparseable(t[1..], i - a - 1, j - a - 1);
    } else {
      TwoDotsUnparseable(t, i - a, j - a);
    }
  }

  /** Text carrying two separators (commas or dots, such as a thousands separator next to
      a decimal point) does not parse once commas become dots, so the quantity is 0. */
  lemma TwoSeparatorsGiveZero(s: string, i: nat, j: nat)
    requires i < j < |s| && s[i] in ",." && s[j] in ",."
    ensures QtyFromText(s) == 0.0
  {
    ReplaceCommasChars(s);
    TwoDotsNoFloat(ReplaceCommas(s), i, j);
  }

  /** Text whose first non-blank character is a minus sign never yields a positive
      quantity. */
  lemma MinusGivesZero(s: string)
    requires var t := Strip(ReplaceCommas(s)); t != [] && t[0] == '-'
    ensures QtyFromText(s) == 0.0
  {
  }

  /** A positive quantity is exactly what `float()` read from the text after the commas
      were replaced; every other outcome is 0. */
  lemma PositiveQtyWasRead(s: string)
    ensures QtyFromText(s) > 0.0 ==> ParseFloat(ReplaceCommas(s)) == Some(QtyFromText(s))
    ensures ParseFloat(ReplaceCommas(s)).None? ==> QtyFromText(s) == 0.0
    ensures (ParseFloat(ReplaceCommas(s)).Some? && ParseFloat(ReplaceCommas(s)).value >= 0.0)
            ==> QtyFromText(s) == ParseFloat(ReplaceCommas(s)).value
  {
  }

  lemma OnePointFive(ip: string, fp: string)
    requires ip == "1" && fp == "5"
    ensures AllDigits(ip) && AllDigits(fp) && DecimalValue(ip, fp) == 1.5
  {
    assert ip[..0] == [] && fp[..0] == [];
    assert DigitsValue(ip) == 1 && DigitsValue(fp) == 5 && Pow10(|fp|) == 10;
  }

  /** "1,5" is read with its comma as a decimal point. */
  lemma DecimalCommaExample(ip: string, fp: string)
    requires ip == "1" && fp == "5"
    ensures QtyFromText(ip + "," + fp) == 1.5
  {
    OnePointFive(ip, fp);
    DecimalComma(ip, fp);
  }

  /** "1,000.5" has a thousands separator as well as a point, so it is stored as 0. */
  lemma ThousandsSeparatorExample(s: string)
    requires s == "1,000.5"
    ensures QtyFromText(s) == 0.0
  {
    TwoSeparatorsGiveZero(s, 1, 5);
  }

  /** "-3" is negative, so it is stored as 0. */
  lemma NegativeExample(s: string)
    requires s == "-3"
    ensures QtyFromText(s) == 0.0
  {
    ReplaceCommasChars(s);
    assert ReplaceCommas(s) == s;
    StripTrimmed(s);
    MinusGivesZero(s);
  }

  /** "0" reads as 0. */
  lemma ZeroText(s: string)
    requires s == "0"
    ensures QtyFromText(s) == 0.0
  {
    ReplaceCommasChars(s);
    assert ReplaceCommas(s) == s;
    assert s[..0] == [];
    ParseFloatWhole(s);
  }

  /** How the two variants differ: `process_fish_deliveries` reads a missing key as "0"
      and raises on `None` or a list, the temporal loop stores 0 for a missing cell;
      on text and numbers they store the same quantity. */
  lemma QtyVariants(record: Record)
    ensures "qty_tons" !in record ==> FishDeliveryQty(record) == Success(0.0)
    ensures FishDeliveryQty(record).Failure? <==>
      "qty_tons" in record && (record["qty_tons"].PyNone? || record["qty_tons"].PyList?)
    ensures "qty_tons" in record && (record["qty_tons"].PyStr? || record["qty_tons"].PyNum?)
      ==> FishDeliveryQty(record) == TemporalQty(record["qty_tons"])
    ensures TemporalQty(PyNone) == Success(0.0)
  {
    if "qty_tons" !in record {
      ZeroText("0");
    }
  }
}
