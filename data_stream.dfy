/** The producer side: joining the upstream `stations[]` and `prices[]` into rows and cleaning
    them (data_stream.py, `fetch_and_save_fuel_data` and `clean_and_display_fuel_data`). */
module DataStream {
  import opened Wrappers
  import opened Seqs
  import Text

  /** A JSON scalar as it arrives for a numeric column: a number, or text that pandas may coerce. */
  datatype Scalar = Num(value: real) | Str(text: string)

  /** The `location` object of a station; a missing key inside it is `None`. */
  datatype Location = Location(latitude: Option<Scalar>, longitude: Option<Scalar>)

  /** One element of `stations[]`; every field is `None` when its key is absent. */
  datatype RawStation = RawStation(
    code: Option<string>,
    name: Option<string>,
    address: Option<string>,
    brand: Option<string>,
    location: Option<Location>)

  /** One element of `prices[]`. */
  datatype RawPrice = RawPrice(
    stationCode: Option<string>,
    fuelType: Option<string>,
    price: Option<Scalar>,
    lastUpdated: Option<string>)

  /** The decoded API response; an absent `stations` or `prices` key is the empty sequence. */
  datatype Feed = Feed(stations: seq<RawStation>, prices: seq<RawPrice>)

  /** The value the station map holds for one code. */
  datatype StationInfo = StationInfo(
    name: Option<string>,
    address: Option<string>,
    brand: Option<string>,
    latitude: Option<Scalar>,
    longitude: Option<Scalar>)

  /** One row of the data frame: the ten columns, `None` standing for a missing value (None or NaN). */
  datatype Row = Row(
    name: Option<string>,
    address: Option<string>,
    suburb: Option<string>,
    postcode: Option<string>,
    brand: Option<string>,
    fuelCode: Option<string>,
    price: Option<Scalar>,
    priceUpdatedDate: Option<string>,
    latitude: Option<Scalar>,
    longitude: Option<Scalar>)

  /** Why a fetch produces no frame: `station["code"]` raised KeyError, or the joined list was
      empty, so the frame has no columns and `dropna(subset=...)` raises KeyError. */
  datatype FetchError = MissingStationCode | NoColumns

  // ---------------------------------------------------------------- station map

  function InfoOf(st: RawStation): StationInfo
  {
    var loc := st.location.GetOr(Location(None, None));
    StationInfo(st.name, st.address, st.brand, loc.latitude, loc.longitude)
  }

  /** Position `i` holds the last station whose code is `c`. */
  ghost predicate LastWithCode(stations: seq<RawStation>, c: string, i: int)
  {
    && 0 <= i < |stations|
    && stations[i].code == Some(c)
    && forall j :: i < j < |stations| ==> stations[j].code != Some(c)
  }

  /** The dict comprehension `{station["code"]: {...} for station in stations}`: a later station
      with the same code replaces an earlier one; a station without a code aborts the build. When
      the map is built, every station's code is one of its keys. */
  function StationMap(stations: seq<RawStation>): (r: Option<map<string, StationInfo>>)
    ensures r.Some? ==> forall i :: 0 <= i < |stations| ==> stations[i].code.Some? && stations[i].code.value in r.value
    decreases |stations|
  {
    if stations == [] then Some(map[])
    else
      var init, last := stations[..|stations| - 1], stations[|stations| - 1];
      assert forall i :: 0 <= i < |init| ==> init[i] == stations[i];
      match StationMap(init)
      case None => None
      case Some(m) =>
        match last.code
        case None => None
        case Some(c) => Some(m[c := InfoOf(last)])
  }

  /** The map is built exactly when every station has a code. */
  lemma {:induction false} StationMapDefined(stations: seq<RawStation>)
    ensures StationMap(stations).Some? <==> forall i :: 0 <= i < |stations| ==> stations[i].code.Some?
    decreases |stations|
  {
    if stations != [] {
      var init := stations[..|stations| - 1];
      StationMapDefined(init);
      assert forall i :: 0 <= i < |init| ==> init[i] == stations[i];
    }
  }

  /** Once built, the map has exactly the stations' codes as keys, and each code maps to the data
      of the last station carrying it. */
  lemma {:induction false} StationMapAt(stations: seq<RawStation>, c: string)
    requires StationMap(stations).Some?
    ensures c in StationMap(stations).value <==> exists i :: 0 <= i < |stations| && stations[i].code == Some(c)
    ensures c in StationMap(stations).value ==>
      exists i :: LastWithCode(stations, c, i) && StationMap(stations).value[c] == InfoOf(stations[i])
    decreases |stations|
  {
    if stations != [] {
      var n := |stations| - 1;
      var init, last := stations[..n], stations[n];
      StationMapAt(init, c);
      var m := StationMap(init).value;
      assert forall i :: 0 <= i < n ==> init[i] == stations[i];
      if last.code == Some(c) {
        assert LastWithCode(stations, c, n);
      } else if c in m {
        var i :| LastWithCode(init, c, i) && m[c] == InfoOf(init[i]);
        forall j | i < j < |stations|
          ensures stations[j].code != Some(c)
        {
          if j < n { assert stations[j] == init[j]; }
        }
        assert LastWithCode(stations, c, i);
      }
    }
  }

  // ---------------------------------------------------------------- address parsing

  /** Suburb and postcode from the last ", " component of the address, split by `rsplit(" ", 2)`:
      the first part is the suburb, the last the postcode. A missing (non-string) address makes
      `split` raise, and both become `None`. Otherwise both are present: the suburb begins and the
      postcode ends the part after the last ", ", and the postcode has no space. */
  function SuburbPostcode(address: Option<string>): (r: (Option<string>, Option<string>))
    ensures r.0.Some? == address.Some? && r.1.Some? == address.Some?
    ensures address.Some? ==>
      && Text.IsPrefix(r.0.value, Text.LastComponent(address.value))
      && Text.IsSuffix(r.1.value, Text.LastComponent(address.value))
      && ' ' !in r.1.value
  {
    match address
    case None => (None, None)
    case Some(a) =>
      var parts := Text.RSplit2(Text.LastComponent(a));
      Text.RSplit2Ends(Text.LastComponent(a));
      (Some(parts[0]), Some(parts[|parts| - 1]))
  }

  /** An NSW-style address "STREET, SUBURB STATE POSTCODE" yields the suburb (which may contain
      spaces, as in "NORTH SYDNEY") and the postcode. */
  lemma SuburbPostcodeWithState(street: string, suburb: string, state: string, postcode: string)
    requires !Text.HasSeparator(suburb + " " + state + " " + postcode)
    requires ' ' !in state && ' ' !in postcode
    ensures SuburbPostcode(Some(street + ", " + (suburb + " " + state + " " + postcode))) == (Some(suburb), Some(postcode))
  {
    var tail := suburb + " " + state + " " + postcode;
    Text.LastComponentAfterSeparator(street, tail);
    Text.RSplit2OfThree(suburb, state, postcode);
    var parts := Text.RSplit2(tail);
    assert parts == [suburb, state, postcode];
  }

  /** An address "STREET, SUBURB POSTCODE" with a one-word suburb yields both. */
  lemma SuburbPostcodeOfTwo(street: string, suburb: string, postcode: string)
    requires ' ' !in suburb && ' ' !in postcode && !Text.HasSeparator(suburb + " " + postcode)
    ensures SuburbPostcode(Some(street + ", " + (suburb + " " + postcode))) == (Some(suburb), Some(postcode))
  {
    var tail := suburb + " " + postcode;
    Text.LastComponentAfterSeparator(street, tail);
    Text.RSplit2OfTwo(suburb, postcode);
    var parts := Text.RSplit2(tail);
    assert parts == [suburb, postcode];
  }

  /** "1 Rd, Town 2000" gives suburb "Town" and postcode "2000". */
  lemma SuburbPostcodeExample()
    ensures SuburbPostcode(Some("1 Rd, Town 2000")) == (Some("Town"), Some("2000"))
  {
    assert "1 Rd, Town 2000" == "1 Rd" + ", " + ("Town" + " " + "2000");
    assert !Text.HasSeparator("Town 2000") by {
      assert forall i :: 0 <= i < |"Town 2000"| ==> "Town 2000"[i] != ',';
    }
    SuburbPostcodeOfTwo("1 Rd", "Town", "2000");
  }

  // ---------------------------------------------------------------- join

  predicate Matches(entry: RawPrice, stationMap: map<string, StationInfo>)
  {
    entry.stationCode.Some? && entry.stationCode.value in stationMap
  }

  /** The row appended for a price entry whose station is known: the station's name, address,
      brand and coordinates, the entry's fuel, price and date, and a suburb and postcode exactly
      when the station has an address. */
  function RowOf(entry: RawPrice, info: StationInfo): (r: Row)
    ensures r.name == info.name && r.address == info.address && r.brand == info.brand
    ensures r.latitude == info.latitude && r.longitude == info.longitude
    ensures r.fuelCode == entry.fuelType && r.price == entry.price && r.priceUpdatedDate == entry.lastUpdated
    ensures r.suburb.Some? == info.address.Some? && r.postcode.Some? == info.address.Some?
    ensures info.address.Some? ==> ' ' !in r.postcode.value
  {
    var (suburb, postcode) := SuburbPostcode(info.address);
    Row(info.name, info.address, suburb, postcode, info.brand,
        entry.fuelType, entry.price, entry.lastUpdated, info.latitude, info.longitude)
  }

  /** What the loop over `prices[]` appends to `combined_data`. */
  function Joined(prices: seq<RawPrice>, stationMap: map<string, StationInfo>): (rows: seq<Row>)
    ensures |rows| <= |prices|
    decreases |prices|
  {
    if prices == [] then []
    else
      var init := Joined(prices[..|prices| - 1], stationMap);
      var entry := prices[|prices| - 1];
      if Matches(entry, stationMap) then init + [RowOf(entry, stationMap[entry.stationCode.value])]
      else init
  }

  /** Step 3 of the fetch: one row per price entry whose station code is in the map, in the
      order of `prices[]`. */
  method JoinPrices(prices: seq<RawPrice>, stationMap: map<string, StationInfo>) returns (combined: seq<Row>)
    ensures combined == Joined(prices, stationMap)
  {
    combined := [];
    for i := 0 to |prices|
      invariant combined == Joined(prices[..i], stationMap)
    {
      var entry := prices[i];
      var stationCode := entry.stationCode;
      if stationCode.Some? && stationCode.value in stationMap {
        var info := stationMap[stationCode.value];
        combined := combined + [RowOf(entry, info)];
      }
      assert prices[..i + 1][..i] == prices[..i];
    }
    assert prices[..|prices|] == prices;
  }

  /** The row a matched entry contributes. */
  function JoinedRow(entry: RawPrice, stationMap: map<string, StationInfo>): Row
    requires Matches(entry, stationMap)
  {
    RowOf(entry, stationMap[entry.stationCode.value])
  }

  lemma JoinedSnoc(prices: seq<RawPrice>, stationMap: map<string, StationInfo>, entry: RawPrice)
    ensures Joined(prices + [entry], stationMap) ==
      Joined(prices, stationMap) + (if Matches(entry, stationMap) then [JoinedRow(entry, stationMap)] else [])
  {
    assert (prices + [entry])[..|prices|] == prices;
  }

  /** The joined rows are exactly the matched entries, in order, each carrying its station's data;
      an entry with an unknown or missing code produces nothing. */
  lemma {:induction false} JoinedSelects(prices: seq<RawPrice>, stationMap: map<string, StationInfo>) returns (idx: seq<nat>)
    ensures IsSelection(idx, |prices|) && |idx| == |Joined(prices, stationMap)|
    ensures forall j :: 0 <= j < |prices| ==> (j in idx <==> Matches(prices[j], stationMap))
    ensures forall i :: 0 <= i < |idx| ==>
      Matches(prices[idx[i]], stationMap) && Joined(prices, stationMap)[i] == JoinedRow(prices[idx[i]], stationMap)
    decreases |prices|
  {
    if prices == [] {
      idx := [];
    } else {
      var init, entry := prices[..|prices| - 1], prices[|prices| - 1];
      assert prices == init + [entry];
      var prev := JoinedSelects(init, stationMap);
      JoinedSnoc(init, stationMap, entry);
      var before := Joined(init, stationMap);
      var rows := Joined(prices, stationMap);
      assert forall i :: 0 <= i < |prev| ==> rows[i] == before[i];
      assert forall i :: 0 <= i < |prev| ==> prices[prev[i]] == init[prev[i]];
      if Matches(entry, stationMap) {
        idx := prev + [|init|];
      } else {
        idx := prev;
      }
      SelectsSnoc(prev, |init|, Matches(entry, stationMap), idx);
      forall j | 0 <= j < |prices| ensures j in idx <==> Matches(prices[j], stationMap) {
        if j < |init| {
          assert prices[j] == init[j];
          assert j in idx <==> j in prev;
        }
      }
    }
  }

  // ---------------------------------------------------------------- cleaning

  /** No missing value in the six columns `dropna` is given. */
  predicate HasRequired(r: Row)
  {
    && r.name.Some? && r.fuelCode.Some? && r.priceUpdatedDate.Some?
    && r.latitude.Some? && r.longitude.Some? && r.price.Some?
  }

  /** `fillna("Unknown")` on Suburb and Postcode. */
  function FillUnknown(r: Row): Row
  {
    r.(suburb := Some(r.suburb.GetOr("Unknown")), postcode := Some(r.postcode.GetOr("Unknown")))
  }

  predicate IsDigit(c: char) { '0' <= c <= '9' }

  predicate AllDigits(s: string) { forall i :: 0 <= i < |s| ==> IsDigit(s[i]) }

  /** The number a string of decimal digits denotes. */
  function DigitsValue(s: string): nat
    requires AllDigits(s)
    decreases |s|
  {
    if s == [] then 0 else DigitsValue(s[..|s| - 1]) * 10 + (s[|s| - 1] as int - '0' as int)
  }

  function Pow10(n: nat): (p: nat)
    ensures p >= 1
  {
    if n == 0 then 1 else 10 * Pow10(n - 1)
  }

  /** Position of the first '.', or -1. */
  function FirstDot(s: string): (d: int)
    ensures -1 <= d < |s|
    ensures d >= 0 ==> s[d] == '.' && forall k :: 0 <= k < d ==> s[k] != '.'
    ensures d < 0 ==> '.' !in s
    decreases |s|
  {
    if s == [] then -1
    else if s[0] == '.' then 0
    else var d := FirstDot(s[1..]); if d < 0 then -1 else d + 1
  }

  /** `n` with the decimal point moved `k` places to the left. */
  function Shifted(n: nat, k: nat): real
  {
    if k == 0 then n as real else Shifted(n, k - 1) / 10.0
  }

  /** Moving the point `k` places is dividing by ten to the `k`. */
  lemma {:induction false} ShiftedQuotient(n: nat, k: nat)
    ensures Shifted(n, k) == n as real / Pow10(k) as real
    decreases k
  {
    if k > 0 {
      ShiftedQuotient(n, k - 1);
      var p := Pow10(k - 1) as real;
      assert Pow10(k) as real == 10.0 * p;
      assert (n as real / p) / 10.0 == n as real / (10.0 * p);
    }
  }

  /** The number `whole.fraction` denotes: the whole digits plus the fraction digits scaled down. */
  function DecimalValue(whole: string, fraction: string): real
    requires AllDigits(whole) && AllDigits(fraction)
  {
    DigitsValue(whole) as real + Shifted(DigitsValue(fraction), |fraction|)
  }

  /** Digits with an optional fractional part, at least one digit in all. */
  function UnsignedDecimal(s: string): Option<real>
  {
    var d := FirstDot(s);
    var whole := if d < 0 then s else s[..d];
    var fraction := if d < 0 then "" else s[d + 1..];
    if AllDigits(whole) && AllDigits(fraction) && |whole| + |fraction| > 0 then
      Some(DecimalValue(whole, fraction))
    else None
  }

  /** The text pandas' `to_numeric` turns into a number: an optionally signed decimal. */
  function ParseDecimal(s: string): Option<real>
  {
    if s != [] && s[0] == '-' then
      match UnsignedDecimal(s[1..])
      case Some(x) => Some(-x)
      case None => None
    else if s != [] && s[0] == '+' then UnsignedDecimal(s[1..])
    else UnsignedDecimal(s)
  }

  /** Text made of decimal digits and at most one '.', with at least one digit. */
  predicate DecimalText(t: string)
  {
    && (forall i :: 0 <= i < |t| ==> IsDigit(t[i]) || t[i] == '.')
    && (forall i, j :: 0 <= i < j < |t| && t[i] == '.' ==> t[j] != '.')
    && (exists i :: 0 <= i < |t| && IsDigit(t[i]))
  }

  /** An unsigned decimal parses exactly when it is decimal text. */
  lemma UnsignedDecimalDefined(t: string)
    ensures UnsignedDecimal(t).Some? <==> DecimalText(t)
  {
    var d := FirstDot(t);
    if d >= 0 {
      DottedDecimalText(t, d);
    } else if UnsignedDecimal(t).Some? {
      assert IsDigit(t[0]);
    }
  }

  /** Text whose first '.' is at `d` is decimal text exactly when the digits around that '.'
      are digits alone and there is at least one of them. */
  lemma DottedDecimalText(t: string, d: int)
    requires 0 <= d < |t| && t[d] == '.' && forall k :: 0 <= k < d ==> t[k] != '.'
    ensures DecimalText(t) <==> AllDigits(t[..d]) && AllDigits(t[d + 1..]) && |t| > 1
  {
    if DecimalText(t) {
      assert forall j :: d < j < |t| ==> t[j] != '.';
      assert AllDigits(t[..d]) && AllDigits(t[d + 1..]);
      var i :| 0 <= i < |t| && IsDigit(t[i]);
      assert i != d;
    }
    if AllDigits(t[..d]) && AllDigits(t[d + 1..]) && |t| > 1 {
      forall k | 0 <= k < |t| && k != d ensures IsDigit(t[k]) {
        if k < d { assert t[k] == t[..d][k]; } else { assert t[k] == t[d + 1..][k - d - 1]; }
      }
      if d > 0 { assert IsDigit(t[0]); } else { assert IsDigit(t[1]); }
    }
  }

  /** Which strings parse: decimal text, optionally after one leading '-' or '+'. Any other
      character, a second '.', a second sign or a sign anywhere but first leaves the value
      missing. */
  lemma ParseDecimalDefined(s: string)
    ensures ParseDecimal(s).Some? <==>
      if |s| > 0 && (s[0] == '-' || s[0] == '+') then DecimalText(s[1..]) else DecimalText(s)
  {
    if |s| > 0 && (s[0] == '-' || s[0] == '+') {
      UnsignedDecimalDefined(s[1..]);
    } else {
      UnsignedDecimalDefined(s);
    }
  }

  /** An unsigned `w.f` denotes the whole digits plus the fraction digits scaled down. */
  lemma UnsignedDecimalValue(w: string, f: string)
    requires AllDigits(w) && AllDigits(f) && |w| + |f| > 0
    ensures FirstDot(w + "." + f) == |w| && (w + "." + f)[..|w|] == w && (w + "." + f)[|w| + 1..] == f
    ensures UnsignedDecimal(w + "." + f) == Some(DecimalValue(w, f))
  {
    var t := w + "." + f;
    assert t[|w|] == '.';
    assert forall k :: 0 <= k < |w| ==> t[k] == w[k];
    assert t[..|w|] == w && t[|w| + 1..] == f;
  }

  /** Unsigned digits alone denote their value. */
  lemma UnsignedWholeValue(w: string)
    requires AllDigits(w) && |w| > 0
    ensures UnsignedDecimal(w) == Some(DecimalValue(w, ""))
  {
    assert FirstDot(w) < 0;
  }

  /** What a decimal `w.f` denotes. */
  lemma ParseDecimalValue(w: string, f: string)
    requires AllDigits(w) && AllDigits(f) && |w| + |f| > 0
    ensures ParseDecimal(w + "." + f) == Some(DecimalValue(w, f))
  {
    UnsignedDecimalValue(w, f);
    DottedUnsigned(w, f);
  }

  /** After a leading '-', `w.f` denotes the negated value. */
  lemma ParseNegativeDecimalValue(w: string, f: string)
    requires AllDigits(w) && AllDigits(f) && |w| + |f| > 0
    ensures ParseDecimal("-" + (w + "." + f)) == Some(-DecimalValue(w, f))
  {
    UnsignedDecimalValue(w, f);
    MinusStripped(w + "." + f, DecimalValue(w, f));
  }

  /** After a leading '+', `w.f` denotes the value itself. */
  lemma ParsePositiveDecimalValue(w: string, f: string)
    requires AllDigits(w) && AllDigits(f) && |w| + |f| > 0
    ensures ParseDecimal("+" + (w + "." + f)) == Some(DecimalValue(w, f))
  {
    UnsignedDecimalValue(w, f);
    PlusStripped(w + "." + f, DecimalValue(w, f));
  }

  /** Digits alone denote their value (a decimal with no fraction digits), negated after a
      leading '-'. */
  lemma ParseWholeValue(w: string)
    requires AllDigits(w) && |w| > 0
    ensures ParseDecimal(w) == Some(DecimalValue(w, ""))
    ensures ParseDecimal("-" + w) == Some(-DecimalValue(w, ""))
  {
    UnsignedWholeValue(w);
    Unsigned(w);
    MinusStripped(w, DecimalValue(w, ""));
  }

  /** Text that does not start with a sign is parsed as an unsigned decimal. */
  lemma Unsigned(t: string)
    requires t == [] || (t[0] != '-' && t[0] != '+')
    ensures ParseDecimal(t) == UnsignedDecimal(t)
  {
  }

  /** A decimal of digits around a '.' starts with no sign. */
  lemma DottedUnsigned(w: string, f: string)
    requires AllDigits(w)
    ensures ParseDecimal(w + "." + f) == UnsignedDecimal(w + "." + f)
  {
    var t := w + "." + f;
    if w != [] { assert t[0] == w[0]; } else { assert t[0] == '.'; }
    Unsigned(t);
  }

  /** `DecimalValue` is the whole digits' value plus the fraction digits' value over ten to the
      number of fraction digits. */
  lemma DecimalValueQuotient(whole: string, fraction: string)
    requires AllDigits(whole) && AllDigits(fraction)
    ensures DecimalValue(whole, fraction) == DigitsValue(whole) as real + DigitsValue(fraction) as real / Pow10(|fraction|) as real
  {
    ShiftedQuotient(DigitsValue(fraction), |fraction|);
  }

  /** A fraction of no digits adds nothing. */
  lemma DecimalValueWhole(w: string)
    requires AllDigits(w)
    ensures DecimalValue(w, "") == DigitsValue(w) as real
  {
    assert DigitsValue("") == 0 && Pow10(0) == 1;
  }

  /** A leading '-' negates what follows it. */
  lemma MinusStripped(t: string, v: real)
    requires UnsignedDecimal(t) == Some(v)
    ensures ParseDecimal("-" + t) == Some(-v)
  {
    assert ("-" + t)[1..] == t;
  }

  /** A leading '+' keeps what follows it. */
  lemma PlusStripped(t: string, v: real)
    requires UnsignedDecimal(t) == Some(v)
    ensures ParseDecimal("+" + t) == Some(v)
  {
    assert ("+" + t)[1..] == t;
  }

  /** `pd.to_numeric(errors='coerce')` on one value: a missing value stays missing, a number stays
      as it is, and text becomes the number it parses to, or missing when it does not parse. */
  function ToNumber(v: Option<Scalar>): (r: Option<Scalar>)
    ensures r.Some? ==> r.value.Num?
    ensures v.None? ==> r.None?
    ensures v.Some? && v.value.Num? ==> r == v
    ensures v.Some? && v.value.Str? ==>
      && (r.Some? <==> ParseDecimal(v.value.text).Some?)
      && (r.Some? ==> r.value.value == ParseDecimal(v.value.text).value)
  {
    match v
    case None => None
    case Some(Num(x)) => Some(Num(x))
    case Some(Str(s)) =>
      match ParseDecimal(s)
      case Some(x) => Some(Num(x))
      case None => None
  }

  function ToNumeric(r: Row): Row
  {
    r.(latitude := ToNumber(r.latitude), longitude := ToNumber(r.longitude), price := ToNumber(r.price))
  }

  /** `Price >= 0`, Latitude `between(-90, 90)` and Longitude `between(-180, 180)`, bounds
      inclusive; a missing (NaN) value fails every comparison. */
  predicate InRange(r: Row)
  {
    && r.price.Some? && r.price.value.Num? && r.price.value.value >= 0.0
    && r.latitude.Some? && r.latitude.value.Num? && -90.0 <= r.latitude.value.value <= 90.0
    && r.longitude.Some? && r.longitude.value.Num? && -180.0 <= r.longitude.value.value <= 180.0
  }

  type Key = (Option<string>, Option<string>, Option<Scalar>, Option<Scalar>)

  /** The `drop_duplicates` subset as the source computes it: before the fuel code is upper-cased. */
  function SourceKey(r: Row): Key
  {
    (r.name, r.fuelCode, r.latitude, r.longitude)
  }

  function TitleOf(s: Option<string>): Option<string>
  {
    match s
    case None => None
    case Some(v) => Some(Text.Title(v))
  }

  function UpperOf(s: Option<string>): Option<string>
  {
    match s
    case None => None
    case Some(v) => Some(Text.Upper(v))
  }

  /** Brand and Suburb are title-cased, FuelCode upper-cased. */
  function Standardize(r: Row): Row
  {
    r.(brand := TitleOf(r.brand), suburb := TitleOf(r.suburb), fuelCode := UpperOf(r.fuelCode))
  }

  /** The cleaning chain, with the de-duplication subset as a parameter `dedupKey`: `dropna` on the
      required columns; `fillna` and `to_numeric`, both column-wise and so one row at a time; the
      range filter; `drop_duplicates(keep="first")`; and the re-casing. */
  function CleanWith(dedupKey: Row -> Key, rows: seq<Row>): (r: seq<Row>)
    ensures |r| <= |rows|
  {
    var present := Filter(HasRequired, rows);
    var numeric := Map(Prepared, present);
    var valid := Filter(InRange, numeric);
    var unique := DropDuplicates(dedupKey, valid);
    Map(Standardize, unique)
  }

  /** `clean_and_display_fuel_data` as written: no more rows than it was given, each of them
      cleaned. */
  function Clean(rows: seq<Row>): (r: seq<Row>)
    ensures |r| <= |rows|
    ensures forall i {:trigger Cleaned(r[i])} :: 0 <= i < |r| ==> Cleaned(r[i])
  {
    CleanWithCleaned(SourceKey, rows);
    CleanWith(SourceKey, rows)
  }

  /** The de-duplication subset with the fuel code compared after upper-casing. */
  function CorrectedKey(r: Row): Key
  {
    (r.name, UpperOf(r.fuelCode), r.latitude, r.longitude)
  }

  /** Cleaning with duplicates judged on the standardized fuel code: every row cleaned, and no
      two rows for the same station name, fuel code and location. */
  function CleanCorrected(rows: seq<Row>): (r: seq<Row>)
    ensures |r| <= |rows|
    ensures forall i {:trigger Cleaned(r[i])} :: 0 <= i < |r| ==> Cleaned(r[i])
    ensures forall i, j :: 0 <= i < j < |r| ==> CorrectedKey(r[i]) != CorrectedKey(r[j])
  {
    CleanWithCleaned(CorrectedKey, rows);
    CleanCorrectedDistinct(rows);
    CleanWith(CorrectedKey, rows)
  }

  /** `fillna("Unknown")` followed by `to_numeric`: a row after both column passes. */
  function Prepared(r: Row): Row { ToNumeric(FillUnknown(r)) }

  // ---------------------------------------------------------------- what cleaning keeps

  /** Row `j` has its required values, its coerced values are in range, and no earlier such row
      has its de-duplication key. */
  ghost predicate Survives(dedupKey: Row -> Key, rows: seq<Row>, j: int)
  {
    FirstKept(HasRequired, Prepared, InRange, dedupKey, rows, j)
  }

  /** Cleaning keeps exactly the surviving rows, in their original order, each filled, coerced and
      re-cased: its output is an order-preserving subsequence of its input up to those changes. */
  lemma CleanWithSelects(dedupKey: Row -> Key, rows: seq<Row>) returns (idx: seq<nat>)
    ensures IsSelection(idx, |rows|) && |idx| == |CleanWith(dedupKey, rows)|
    ensures forall j :: 0 <= j < |rows| ==> (j in idx <==> Survives(dedupKey, rows, j))
    ensures forall i :: 0 <= i < |idx| ==> CleanWith(dedupKey, rows)[i] == Standardize(Prepared(rows[idx[i]]))
  {
    assert CleanWith(dedupKey, rows) == KeptUnique(HasRequired, Prepared, InRange, dedupKey, Standardize, rows);
    idx := KeptUniqueSelects(HasRequired, Prepared, InRange, dedupKey, Standardize, rows);
  }

  /** A row as cleaning leaves it: the required values present, Suburb and Postcode filled, the
      numeric columns numbers within range, and the text columns already re-cased. */
  predicate Cleaned(r: Row)
  {
    && HasRequired(r) && r.suburb.Some? && r.postcode.Some? && InRange(r)
    && r.fuelCode == UpperOf(r.fuelCode) && r.brand == TitleOf(r.brand) && r.suburb == TitleOf(r.suburb)
  }

  /** Filling, coercing and re-casing a row that passes both filters gives a cleaned row. */
  lemma StandardizedCleaned(r: Row)
    requires HasRequired(r) && InRange(Prepared(r))
    ensures Cleaned(Standardize(Prepared(r)))
  {
    var v := Prepared(r);
    Text.UpperIdempotent(v.fuelCode.value);
    if v.brand.Some? { Text.TitleIdempotent(v.brand.value); }
    Text.TitleIdempotent(v.suburb.value);
  }

  /** Every row cleaning outputs is cleaned, whatever the de-duplication subset. */
  lemma CleanWithCleaned(dedupKey: Row -> Key, rows: seq<Row>)
    ensures forall i :: 0 <= i < |CleanWith(dedupKey, rows)| ==> Cleaned(CleanWith(dedupKey, rows)[i])
  {
    var idx := CleanWithSelects(dedupKey, rows);
    forall i | 0 <= i < |idx| ensures Cleaned(CleanWith(dedupKey, rows)[i]) {
      assert idx[i] in idx;
      StandardizedCleaned(rows[idx[i]]);
    }
  }

  /** `fillna("Unknown")`: a surviving row with no suburb comes out with suburb "Unknown" (which
      title-casing keeps), and one with no postcode with postcode "Unknown"; a postcode that was
      present is kept as it was. */
  lemma CleanWithFillsUnknown(dedupKey: Row -> Key, rows: seq<Row>) returns (idx: seq<nat>)
    ensures IsSelection(idx, |rows|) && |idx| == |CleanWith(dedupKey, rows)|
    ensures forall j :: 0 <= j < |rows| ==> (j in idx <==> Survives(dedupKey, rows, j))
    ensures forall i :: 0 <= i < |idx| ==>
      && (rows[idx[i]].suburb.None? ==> CleanWith(dedupKey, rows)[i].suburb == Some("Unknown"))
      && (rows[idx[i]].postcode.None? ==> CleanWith(dedupKey, rows)[i].postcode == Some("Unknown"))
      && (rows[idx[i]].postcode.Some? ==> CleanWith(dedupKey, rows)[i].postcode == rows[idx[i]].postcode)
  {
    idx := CleanWithSelects(dedupKey, rows);
    var out := CleanWith(dedupKey, rows);
    forall i | 0 <= i < |idx|
      ensures && (rows[idx[i]].suburb.None? ==> out[i].suburb == Some("Unknown"))
              && (rows[idx[i]].postcode.None? ==> out[i].postcode == Some("Unknown"))
              && (rows[idx[i]].postcode.Some? ==> out[i].postcode == rows[idx[i]].postcode)
    {
      StandardizedFills(rows[idx[i]]);
    }
  }

  /** One row's Suburb and Postcode after filling, coercion and re-casing. */
  lemma StandardizedFills(r: Row)
    ensures r.suburb.None? ==> Standardize(Prepared(r)).suburb == Some("Unknown")
    ensures Standardize(Prepared(r)).postcode == Some(r.postcode.GetOr("Unknown"))
  {
    Text.TitleUnknown();
  }

  /** Re-casing leaves the corrected de-duplication key unchanged. */
  lemma CorrectedKeyStandardize(r: Row)
    ensures CorrectedKey(Standardize(r)) == CorrectedKey(r)
  {
    if r.fuelCode.Some? { Text.UpperIdempotent(r.fuelCode.value); }
  }

  /** With the corrected subset, no two output rows share station name, fuel code and location. */
  lemma CleanCorrectedDistinct(rows: seq<Row>)
    ensures forall i, j :: 0 <= i < j < |CleanWith(CorrectedKey, rows)| ==>
      CorrectedKey(CleanWith(CorrectedKey, rows)[i]) != CorrectedKey(CleanWith(CorrectedKey, rows)[j])
  {
    var valid := Filter(InRange, Map(Prepared, Filter(HasRequired, rows)));
    var unique := DropDuplicates(CorrectedKey, valid);
    DropDuplicatesDistinct(CorrectedKey, valid);
    forall i | 0 <= i < |unique| ensures CorrectedKey(CleanWith(CorrectedKey, rows)[i]) == CorrectedKey(unique[i]) {
      CorrectedKeyStandardize(unique[i]);
    }
  }

  /** ... and no combination is lost: every row passing both filters has its station name, fuel
      code and location in the output. */
  lemma CleanCorrectedCovers(rows: seq<Row>, j: int)
    requires 0 <= j < |rows| && HasRequired(rows[j]) && InRange(Prepared(rows[j]))
    ensures exists i :: 0 <= i < |CleanCorrected(rows)| && CorrectedKey(CleanCorrected(rows)[i]) == CorrectedKey(Prepared(rows[j]))
  {
    var k := CorrectedKey(Prepared(rows[j]));
    var valid := Kept(HasRequired, Prepared, InRange, rows);
    var unique := DropDuplicates(CorrectedKey, valid);
    KeptKey(HasRequired, Prepared, InRange, CorrectedKey, rows, k);
    assert Passes(HasRequired, Prepared, InRange, rows, j);
    DropDuplicatesDistinct(CorrectedKey, valid);
    assert HasKey(CorrectedKey, unique, k);
    var i :| 0 <= i < |unique| && CorrectedKey(unique[i]) == k;
    CorrectedKeyStandardize(unique[i]);
    assert CorrectedKey(CleanCorrected(rows)[i]) == k;
  }

  /** Applying the corrected cleaning to its own output changes nothing. */
  lemma CleanCorrectedIdempotent(rows: seq<Row>)
    ensures CleanCorrected(CleanCorrected(rows)) == CleanCorrected(rows)
  {
    var out := CleanCorrected(rows);
    CleanWithCleaned(CorrectedKey, rows);
    CleanCorrectedDistinct(rows);
    FilterAllPass(HasRequired, out);
    MapFixed(Prepared, out);
    FilterAllPass(InRange, out);
    DropDuplicatesOfDistinct(CorrectedKey, out);
    MapFixed(Standardize, out);
  }

  // ---------------------------------------------------------------- de-duplicating before re-casing

  /** Two price rows for one station and location whose fuel codes differ only in case. */
  function CaseVariant(code: string): Row
  {
    Row(Some("Metro Petroleum"), Some("1 High St, Bega NSW 2550"), Some("Bega"), Some("2550"),
        Some("Metro"), Some(code), Some(Num(1.899)), Some("2024-05-01 10:00:00"),
        Some(Num(-36.67)), Some(Num(149.84)))
  }

  /** Two rows that both pass the filters and, once filled and coerced, are different
      combinations for the subset as written but the same one once the fuel code is upper-cased. */
  ghost predicate CaseTwins(a: Row, b: Row)
  {
    && HasRequired(a) && InRange(Prepared(a)) && HasRequired(b) && InRange(Prepared(b))
    && SourceKey(Prepared(a)) != SourceKey(Prepared(b))
    && CorrectedKey(Prepared(a)) == CorrectedKey(Prepared(b))
  }

  /** Of two rows that both have their required values and are in range, the second survives
      de-duplication exactly when the keys tell them apart. */
  lemma TwinsKept(dedupKey: Row -> Key, a: Row, b: Row)
    requires HasRequired(a) && InRange(Prepared(a)) && HasRequired(b) && InRange(Prepared(b))
    ensures CleanWith(dedupKey, [a, b]) == KeptUnique(HasRequired, Prepared, InRange, dedupKey, Standardize, [a, b])
    ensures |CleanWith(dedupKey, [a, b])| == if dedupKey(Prepared(a)) != dedupKey(Prepared(b)) then 2 else 1
  {
    KeptUniqueSnoc(HasRequired, Prepared, InRange, dedupKey, Standardize, [], a);
    assert [] + [a] == [a];
    assert FirstKept(HasRequired, Prepared, InRange, dedupKey, [a], 0);
    KeptUniqueSnoc(HasRequired, Prepared, InRange, dedupKey, Standardize, [a], b);
    assert [a] + [b] == [a, b];
    assert Passes(HasRequired, Prepared, InRange, [a, b], 0);
  }

  /** As written, `drop_duplicates` runs before `FuelCode` is upper-cased: both rows survive, and
      they come out with the same subset values. */
  lemma CleanKeepsTwins(a: Row, b: Row)
    requires CaseTwins(a, b)
    ensures |Clean([a, b])| == 2
    ensures SourceKey(Clean([a, b])[0]) == SourceKey(Clean([a, b])[1])
  {
    TwinsKept(SourceKey, a, b);
    var idx := CleanWithSelects(SourceKey, [a, b]);
    assert idx[0] < idx[1] < 2;
    assert Clean([a, b])[0] == Standardize(Prepared(a));
    assert Clean([a, b])[1] == Standardize(Prepared(b));
  }

  /** With the subset compared after upper-casing, only the first of the two survives. */
  lemma CleanCorrectedMergesTwins(a: Row, b: Row)
    requires CaseTwins(a, b)
    ensures |CleanCorrected([a, b])| == 1
  {
    TwinsKept(CorrectedKey, a, b);
  }

  /** "u91" and "U91" for one station and location are such a pair. */
  lemma CaseVariantTwins()
    ensures CaseTwins(CaseVariant("u91"), CaseVariant("U91"))
  {
    assert "u91"[0] != "U91"[0];
    assert Text.Upper("u91") == "U91" && Text.Upper("U91") == "U91";
  }

  /** The as-written cleaning keeps both rows of that pair. */
  lemma CleanKeepsCaseVariants()
    ensures |Clean([CaseVariant("u91"), CaseVariant("U91")])| == 2
    ensures SourceKey(Clean([CaseVariant("u91"), CaseVariant("U91")])[0])
         == SourceKey(Clean([CaseVariant("u91"), CaseVariant("U91")])[1])
  {
    CaseVariantTwins();
    CleanKeepsTwins(CaseVariant("u91"), CaseVariant("U91"));
  }

  /** The corrected cleaning keeps one row of that pair. */
  lemma CleanCorrectedMergesCaseVariants()
    ensures |CleanCorrected([CaseVariant("u91"), CaseVariant("U91")])| == 1
  {
    CaseVariantTwins();
    CleanCorrectedMergesTwins(CaseVariant("u91"), CaseVariant("U91"));
  }

  // ---------------------------------------------------------------- the whole fetch

  /** Steps 2 and 3 of `fetch_and_save_fuel_data` on a decoded response: the station map and the
      join, failing when a station has no code or when the joined frame is empty. */
  function Combined(feed: Feed): (r: Result<seq<Row>, FetchError>)
    ensures r.Success? ==> 0 < |r.value| <= |feed.prices|
  {
    match StationMap(feed.stations)
    case None => Failure(MissingStationCode)
    case Some(m) =>
      var combined := Joined(feed.prices, m);
      if combined == [] then Failure(NoColumns) else Success(combined)
  }

  /** Steps 2 to 4 as written: the joined frame goes through `clean_and_display_fuel_data`, so a
      successful fetch has at most one row per price entry, each of them cleaned. */
  function Normalize(feed: Feed): (r: Result<seq<Row>, FetchError>)
    ensures r.Success? ==> |r.value| <= |feed.prices|
    ensures r.Success? ==> forall i {:trigger Cleaned(r.value[i])} :: 0 <= i < |r.value| ==> Cleaned(r.value[i])
  {
    match Combined(feed)
    case Failure(e) => Failure(e)
    case Success(rows) => Success(Clean(rows))
  }

  /** The same steps with the corrected cleaning: in addition, no two rows share station name,
      fuel code and location. */
  function NormalizeCorrected(feed: Feed): (r: Result<seq<Row>, FetchError>)
    ensures r.Success? ==> |r.value| <= |feed.prices|
    ensures r.Success? ==> forall i {:trigger Cleaned(r.value[i])} :: 0 <= i < |r.value| ==> Cleaned(r.value[i])
    ensures r.Success? ==> forall i, j :: 0 <= i < j < |r.value| ==> CorrectedKey(r.value[i]) != CorrectedKey(r.value[j])
  {
    match Combined(feed)
    case Failure(e) => Failure(e)
    case Success(rows) => Success(CleanCorrected(rows))
  }

  /** The fetch as the source performs it: the map by comprehension, the join by a loop, and the
      cleaning as written. */
  method FetchAndClean(feed: Feed) returns (result: Result<seq<Row>, FetchError>)
    ensures result == Normalize(feed)
  {
    var stationMap := StationMap(feed.stations);
    if stationMap.None? {
      return Failure(MissingStationCode);
    }
    var combined := JoinPrices(feed.prices, stationMap.value);
    if |combined| == 0 {
      return Failure(NoColumns);
    }
    result := Success(Clean(combined));
  }

  /** The fetch fails for a missing station code exactly when some station has none. */
  lemma NormalizeMissingCode(feed: Feed)
    ensures Normalize(feed) == Failure(MissingStationCode) <==>
      exists i :: 0 <= i < |feed.stations| && feed.stations[i].code.None?
  {
    StationMapDefined(feed.stations);
  }

  /** It fails for an empty frame exactly when every station has a code but no price entry names
      a known station. */
  lemma NormalizeNoColumns(feed: Feed)
    ensures Normalize(feed) == Failure(NoColumns) <==>
      && StationMap(feed.stations).Some?
      && forall j :: 0 <= j < |feed.prices| ==> !Matches(feed.prices[j], StationMap(feed.stations).value)
  {
    if StationMap(feed.stations).Some? {
      var m := StationMap(feed.stations).value;
      var idx := JoinedSelects(feed.prices, m);
      if Joined(feed.prices, m) != [] {
        assert idx[0] in idx;
      } else {
        assert idx == [];
      }
    }
  }

  /** A successful fetch is the cleaning as written of the join against the station map. */
  lemma NormalizedValue(feed: Feed)
    requires Normalize(feed).Success?
    ensures StationMap(feed.stations).Some?
    ensures Normalize(feed).value == Clean(Joined(feed.prices, StationMap(feed.stations).value))
  {
  }

  /** A successful fetch keeps, in order, exactly the joined rows that survive cleaning as written:
      the first of each raw station-fuel-location combination with its values present and in
      range. */
  lemma NormalizeSuccess(feed: Feed) returns (idx: seq<nat>)
    requires Normalize(feed).Success?
    ensures StationMap(feed.stations).Some?
    ensures var rows := Joined(feed.prices, StationMap(feed.stations).value);
      && IsSelection(idx, |rows|) && |idx| == |Normalize(feed).value|
      && (forall j :: 0 <= j < |rows| ==> (j in idx <==> Survives(SourceKey, rows, j)))
      && (forall i :: 0 <= i < |idx| ==> Normalize(feed).value[i] == Standardize(Prepared(rows[idx[i]])))
  {
    NormalizedValue(feed);
    idx := CleanedJoinSelects(feed.prices, StationMap(feed.stations).value);
  }

  /** Every row of a successful fetch is the cleaned join of one price entry whose station is
      known. */
  lemma NormalizeProvenance(feed: Feed)
    requires Normalize(feed).Success?
    ensures StationMap(feed.stations).Some?
    ensures forall i :: 0 <= i < |Normalize(feed).value| ==>
      exists j :: (0 <= j < |feed.prices| && Matches(feed.prices[j], StationMap(feed.stations).value)
        && Normalize(feed).value[i] == Standardize(Prepared(JoinedRow(feed.prices[j], StationMap(feed.stations).value))))
  {
    NormalizedValue(feed);
    CleanedJoinProvenance(feed.prices, StationMap(feed.stations).value);
  }

  /** The cleaned join keeps, in order, exactly the joined rows that survive cleaning as written. */
  lemma CleanedJoinSelects(prices: seq<RawPrice>, m: map<string, StationInfo>) returns (idx: seq<nat>)
    ensures var rows := Joined(prices, m);
      && IsSelection(idx, |rows|) && |idx| == |Clean(rows)|
      && (forall j :: 0 <= j < |rows| ==> (j in idx <==> Survives(SourceKey, rows, j)))
      && (forall i :: 0 <= i < |idx| ==> Clean(rows)[i] == Standardize(Prepared(rows[idx[i]])))
  {
    idx := CleanWithSelects(SourceKey, Joined(prices, m));
  }

  /** Each row of the cleaned join is the cleaned join of one price entry whose station is known. */
  lemma CleanedJoinProvenance(prices: seq<RawPrice>, m: map<string, StationInfo>)
    ensures forall i :: 0 <= i < |Clean(Joined(prices, m))| ==>
      exists j :: (0 <= j < |prices| && Matches(prices[j], m)
        && Clean(Joined(prices, m))[i] == Standardize(Prepared(JoinedRow(prices[j], m))))
  {
    var out := Clean(Joined(prices, m));
    var joinIdx := JoinedSelects(prices, m);
    var idx := CleanedJoinSelects(prices, m);
    forall i | 0 <= i < |out|
      ensures exists j :: (0 <= j < |prices| && Matches(prices[j], m)
        && out[i] == Standardize(Prepared(JoinedRow(prices[j], m))))
    {
      var k := idx[i];
      assert joinIdx[k] < |prices|;
      assert out[i] == Standardize(Prepared(JoinedRow(prices[joinIdx[k]], m)));
    }
  }

  /** The corrected fetch fails exactly when the fetch as written does, and on success it covers
      every price entry for a known station whose values are present and in range: some row has
      that entry's station name, standardized fuel code and location. */
  lemma NormalizeCorrectedCovers(feed: Feed)
    ensures NormalizeCorrected(feed).Success? <==> Normalize(feed).Success?
    ensures NormalizeCorrected(feed).Failure? ==> NormalizeCorrected(feed) == Normalize(feed)
    ensures NormalizeCorrected(feed).Success? ==>
      var m := StationMap(feed.stations).value;
      forall j :: (0 <= j < |feed.prices| && Matches(feed.prices[j], m) && HasRequired(JoinedRow(feed.prices[j], m))
        && InRange(Prepared(JoinedRow(feed.prices[j], m)))) ==>
        (exists i :: 0 <= i < |NormalizeCorrected(feed).value|
          && CorrectedKey(NormalizeCorrected(feed).value[i]) == CorrectedKey(Prepared(JoinedRow(feed.prices[j], m))))
  {
    if NormalizeCorrected(feed).Success? {
      var m := StationMap(feed.stations).value;
      var combined := Joined(feed.prices, m);
      var joinIdx := JoinedSelects(feed.prices, m);
      forall j | 0 <= j < |feed.prices| && Matches(feed.prices[j], m)
          && HasRequired(JoinedRow(feed.prices[j], m)) && InRange(Prepared(JoinedRow(feed.prices[j], m)))
        ensures exists i :: (0 <= i < |CleanCorrected(combined)|
          && CorrectedKey(CleanCorrected(combined)[i]) == CorrectedKey(Prepared(JoinedRow(feed.prices[j], m))))
      {
        assert j in joinIdx;
        var k :| 0 <= k < |joinIdx| && joinIdx[k] == j;
        assert combined[k] == JoinedRow(feed.prices[j], m);
        CleanCorrectedCovers(combined, k);
      }
    }
  }

  // ---------------------------------------------------------------- a worked example

  /** A response with one station, "S1", and one E10 price for it. */
  function AcmeFeed(): Feed
  {
    Feed([RawStation(Some("S1"), Some("Acme"), Some("1 Rd, Town 2000"), Some("Acme"),
                     Some(Location(Some(Num(-33.8)), Some(Num(151.2)))))],
         [RawPrice(Some("S1"), Some("E10"), Some(Num(1.55)), Some("2024-01-01"))])
  }

  /** The row that response joins to. */
  function AcmeRow(): Row
  {
    Row(Some("Acme"), Some("1 Rd, Town 2000"), Some("Town"), Some("2000"), Some("Acme"),
        Some("E10"), Some(Num(1.55)), Some("2024-01-01"), Some(Num(-33.8)), Some(Num(151.2)))
  }

  /** The join finds the station, splits suburb "Town" and postcode "2000" off its address, and
      gives one row. */
  lemma AcmeJoined()
    ensures StationMap(AcmeFeed().stations).Some?
    ensures Joined(AcmeFeed().prices, StationMap(AcmeFeed().stations).value) == [AcmeRow()]
  {
    var feed := AcmeFeed();
    assert feed.stations[..0] == [] && feed.prices[..0] == [];
    SuburbPostcodeExample();
  }

  /** The row passes both filters, and filling, coercing and re-casing leave it as is. */
  lemma AcmeRowClean()
    ensures HasRequired(AcmeRow()) && InRange(AcmeRow())
    ensures Prepared(AcmeRow()) == AcmeRow() && Standardize(AcmeRow()) == AcmeRow()
  {
    assert Text.Title("Acme") == "Acme";
    assert Text.Title("Town") == "Town";
    assert Text.Upper("E10") == "E10";
  }

  /** Cleaning keeps that row unchanged, so the fetch yields exactly it. */
  lemma AcmeNormalized()
    ensures Normalize(AcmeFeed()) == Success([AcmeRow()])
  {
    AcmeJoined();
    AcmeRowClean();
    var r := AcmeRow();
    KeptUniqueSnoc(HasRequired, Prepared, InRange, SourceKey, Standardize, [], r);
    assert [] + [r] == [r];
    assert FirstKept(HasRequired, Prepared, InRange, SourceKey, [r], 0);
    assert Clean([r]) == KeptUnique(HasRequired, Prepared, InRange, SourceKey, Standardize, [r]);
  }
}
