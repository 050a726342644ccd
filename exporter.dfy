/** The exporter object: the signature table built at start-up, the gauge registry, and the
    sensor configuration and gauge index that each header line rebuilds in place; data lines
    update the gauges' series, and a line that does not fit asks the logger for a new header. */
module Exporter {
  import opened Text
  import opened Catalog
  import opened SignatureTable
  import opened Resolver
  import opened ResolverLemmas
  import opened Ingest
  import opened Shipped

  /** What `trigger_header_line` writes to the serial port: a newline to open the logger's
      menu, then `h` to have it send the header line. */
  const HeaderRequest: string := "\nh"

  /** `reading[0:15]` against these tells a reboot banner and a header line apart from data. */
  const RebootBanner: string := "Artemis OpenLog"
  const HeaderStart: string := "rtcDate,rtcTime"

  /** What the main loop does with a line. */
  datatype LineKind = Reboot | Header | Data | Ignored

  /** The main loop's dispatch: a line starting with the reboot banner asks for a new header,
      one starting with the header columns is parsed as the header, and any other line is
      ingested as data once a header has been parsed. */
  function Classify(reading: string, hasGaugeIndex: bool): (k: LineKind)
    ensures k == Reboot <==> RebootBanner <= reading
    ensures k == Header <==> !(RebootBanner <= reading) && HeaderStart <= reading
    ensures k == Data <==> !(RebootBanner <= reading) && !(HeaderStart <= reading) && hasGaugeIndex
  {
    StartsWith(reading, RebootBanner);
    StartsWith(reading, HeaderStart);
    if Slice(reading, 0, |RebootBanner|) == RebootBanner then Reboot
    else if Slice(reading, 0, 15) == HeaderStart then Header
    else if hasGaugeIndex then Data
    else Ignored
  }

  /** Comparing the first `|p|` characters with `p` is the prefix test. */
  lemma StartsWith(s: string, p: string)
    ensures Slice(s, 0, |p|) == p <==> p <= s
  {
    if p <= s {
      assert Slice(s, 0, |p|) == s[..|p|];
    }
  }

  /** The inner `for i in range(0, len(signature))` loop: whether `signature[i:len(subsig)]`
      equals `subsig` for some `i`. Only `i = 0` can succeed, so this is exactly whether the
      sub-sensor's columns head a non-empty signature. */
  method SubsensorMatches(signature: seq<string>, subsig: seq<string>) returns (found: bool)
    ensures found <==> Heads(subsig, signature)
  {
    HeadsIsFirstSlice(signature, subsig);
    found := false;
    var i := 0;
    while i < |signature|
      invariant 0 <= i <= |signature|
      invariant i > 0 ==> Slice(signature, 0, |subsig|) != subsig
    {
      var candidate := Slice(signature, i, |subsig|);
      if subsig == candidate {
        found := true;
        return;
      }
      i := i + 1;
    }
  }

  /** The source's candidate at `i = 0` equals the sub-sensor's columns exactly when they
      head the signature. */
  lemma HeadsIsFirstSlice(signature: seq<string>, subsig: seq<string>)
    ensures |signature| > 0 ==> (Slice(signature, 0, |subsig|) == subsig <==> Heads(subsig, signature))
  {
    if subsig <= signature {
      assert Slice(signature, 0, |subsig|) == signature[..|subsig|];
    }
  }

  class QwiicExporter {
    /** The sensor catalog, in declared order. */
    const sensors: seq<Sensor>
    /** `self.signatures`: every column signature, comma joined, to the sensor it names. */
    const signatures: map<string, string>
    /** The gauges created so far, by metric name, with the description each was created with. */
    var registry: map<string, string>
    /** The value of every series set so far. */
    var values: map<Series, Reading>
    var sensorconfig: seq<Instance>
    var gaugeindex: seq<GaugeEntry>
    /** Whether a header line has been parsed, so that `gaugeindex` exists. */
    var hasGaugeIndex: bool
    /** Everything written to the serial port. */
    var written: string

    /** The table is the one the catalog gives, and the catalog is one the resolver can use. */
    predicate Valid()
    {
      WellFormed(sensors) && signatures == LookupTable(sensors)
    }

    /** The parser's part of the state. */
    function State(): Resolution
      reads this
    {
      Resolution(sensorconfig, gaugeindex, registry)
    }

    /** Builds the signature table of the shipped catalog; no header has been seen yet. */
    constructor ()
      ensures Valid() && sensors == Sensors
      ensures registry == map[] && values == map[] && !hasGaugeIndex && written == ""
    {
      ShippedWellFormed();
      sensors := Sensors;
      signatures := LookupTable(Sensors);
      registry := map[];
      values := map[];
      sensorconfig := [];
      gaugeindex := [];
      hasGaugeIndex := false;
      written := "";
    }

    /** The search for the longest prefix of the remaining columns whose key is in the table,
        trying every length from all columns down to none. */
    method LongestMatch(headerlist: seq<string>) returns (found: bool, n: nat)
      ensures found ==> n <= |headerlist| && PrefixKey(headerlist, n) in signatures
      ensures forall j :: 0 <= j <= |headerlist| && (!found || n < j) ==>
        PrefixKey(headerlist, j) !in signatures
    {
      found, n := false, 0;
      var i := |headerlist| + 1;
      while i > 0
        invariant 0 <= i <= |headerlist| + 1
        invariant forall j :: i <= j <= |headerlist| ==> PrefixKey(headerlist, j) !in signatures
      {
        i := i - 1;
        var signature := headerlist[..i];
        if Join(signature, ',') in signatures {
          found, n := true, i;
          return;
        }
      }
    }

    /** Records one more gauge-index entry for each metric of an enabled sub-sensor, creating
        the gauge of every metric name not yet registered. */
    method CreateGauges(sensorname: string, subsensorname: string, metrics: seq<Metric>)
      modifies this
      ensures registry == Register(old(registry), metrics)
      ensures gaugeindex == old(gaugeindex) + EntriesFor(sensorname, |sensorconfig|, subsensorname, metrics)
      ensures sensorconfig == old(sensorconfig) && values == old(values)
      ensures hasGaugeIndex == old(hasGaugeIndex) && written == old(written)
    {
      var k := 0;
      while k < |metrics|
        invariant 0 <= k <= |metrics|
        invariant registry == Register(old(registry), metrics[..k])
        invariant gaugeindex == old(gaugeindex) + EntriesFor(sensorname, |sensorconfig|, subsensorname, metrics[..k])
        invariant sensorconfig == old(sensorconfig) && values == old(values)
        invariant hasGaugeIndex == old(hasGaugeIndex) && written == old(written)
      {
        var metric := metrics[k];
        RegisterPrefix(old(registry), metrics, k);
        EntriesForPrefix(sensorname, |sensorconfig|, subsensorname, metrics, k);
        if metric.name !in registry {
          registry := registry[metric.name := metric.description];
        }
        gaugeindex := gaugeindex + [GaugeEntry(sensorname, |sensorconfig|, subsensorname, metric.name, metric.multiplier)];
        k := k + 1;
      }
      assert metrics[..k] == metrics;
    }

    /** Enables one sub-sensor on the last configured instance: its name joins the
        instance's list and its metrics get their gauges and gauge-index entries. */
    method EnableSubsensor(sensorname: string, subsensorname: string, metrics: seq<Metric>)
      requires |sensorconfig| > 0
      modifies this
      ensures State() == Enable(old(State()), sensorname, SubSensor(subsensorname, metrics))
      ensures values == old(values) && hasGaugeIndex == old(hasGaugeIndex) && written == old(written)
    {
      var last := sensorconfig[|sensorconfig| - 1];
      sensorconfig := sensorconfig[..|sensorconfig| - 1] + [Instance(last.sensor, last.subsensors + [subsensorname])];
      CreateGauges(sensorname, subsensorname, metrics);
    }

    /** Walks the sub-sensors of the matched sensor in declared order, enabling on the last
        configured instance each one whose columns head the rest of the matched signature. */
    method EnableSubsensors(sensorname: string, signature: seq<string>)
      requires Valid() && FindSensor(sensors, sensorname).Some? && |sensorconfig| > 0
      modifies this
      ensures State() == Walk(old(State()), FindSensor(sensors, sensorname).value, 0, signature).0
      ensures values == old(values) && hasGaugeIndex == old(hasGaugeIndex) && written == old(written)
    {
      var s := FindSensor(sensors, sensorname).value;
      ghost var i :| 0 <= i < |sensors| && sensors[i] == s;
      assert s.name == sensorname;
      ghost var target := Walk(State(), s, 0, signature).0;
      var rest := signature;
      var p := 0;
      while p < |s.subsensors|
        invariant 0 <= p <= |s.subsensors| && |sensorconfig| == |old(sensorconfig)|
        invariant Walk(State(), s, p, rest).0 == target
        invariant values == old(values) && hasGaugeIndex == old(hasGaugeIndex) && written == old(written)
      {
        ghost var sub := s.subsensors[p];
        ghost var before := State();
        WalkUnfold(before, s, p, rest);
        var subsensorname := s.subsensors[p].name;
        GetSubsensorSignatureOf(sensors, i, p);
        var subsig := GetSubsensorSignature(sensors, sensorname, subsensorname);
        assert subsig == Raw(sub);
        var matched := SubsensorMatches(rest, subsig);
        if matched {
          assert Walk(Enable(before, s.name, sub), s, p + 1, rest[|subsig|..]).0 == target;
          rest := rest[|subsig|..];
          var metrics := FindSubSensor(s, subsensorname).value.metrics;
          assert SubSensor(subsensorname, metrics) == sub;
          EnableSubsensor(sensorname, subsensorname, metrics);
          assert State() == Enable(before, s.name, sub);
        } else {
          assert Walk(before, s, p + 1, rest).0 == target;
        }
        p := p + 1;
      }
    }

    /** `parse_sensor_config`: rebuilds the sensor configuration and the gauge index from a
        header line, keeping the registry's gauges. The result is the resolver's, so each
        configured instance is a detected sensor with its enabled sub-sensors in declared
        order, each gauge-index entry feeds the column at its position, and the series differ
        (see `ResolverLemmas.ResolveSpec`). */
    method ParseSensorConfig(headerline: string)
      requires Valid()
      modifies this
      ensures State() == Resolve(sensors, HeaderTokens(headerline), Resolution([], [], old(registry))).0
      ensures hasGaugeIndex && values == old(values) && written == old(written)
    {
      sensorconfig := [];
      gaugeindex := [];
      hasGaugeIndex := true;
      var headerlist := HeaderTokens(headerline);
      ghost var tokens := headerlist;
      ghost var init := State();
      EmptyIsNoKey(sensors);
      while |headerlist| > 0
        invariant Steps(sensors, State(), Decompose(signatures, headerlist).chunks)
               == Steps(sensors, init, Decompose(signatures, tokens).chunks)
        invariant hasGaugeIndex && values == old(values) && written == old(written)
        decreases |headerlist|
      {
        ghost var before := State();
        var found, n := LongestMatch(headerlist);
        LongestKeyPrefixIs(signatures, headerlist, |headerlist|, if found then Some(n) else None);
        if !found {
          DecomposeStops(signatures, headerlist);
          return;
        }
        var signature := headerlist[..n];
        ResolveTurn(sensors, before, headerlist, n);
        KeyFindsSensor(sensors, Join(signature, ','));
        var sensorname := signatures[Join(signature, ',')];
        headerlist := headerlist[n..];
        sensorconfig := sensorconfig + [Instance(sensorname, [])];
        EnableSubsensors(sensorname, signature);
        assert State() == Step(sensors, before, signature);
      }
    }

    /** `trigger_header_line`: asks the logger for a new header line. */
    method TriggerHeaderLine()
      modifies this
      ensures written == old(written) + HeaderRequest
      ensures State() == old(State()) && values == old(values) && hasGaugeIndex == old(hasGaugeIndex)
    {
      written := written + HeaderRequest;
    }

    /** `ingest_data`: a data line with one reading per gauge-index entry sets each entry's
        series to its reading; a line with any other number of readings asks for a new header
        line and changes no value. */
    method IngestData(data: string)
      requires hasGaugeIndex
      modifies this
      ensures |Readings(data)| == |gaugeindex| ==>
        values == Route(old(values), gaugeindex, Readings(data)) && written == old(written)
      ensures |Readings(data)| != |gaugeindex| ==>
        values == old(values) && written == old(written) + HeaderRequest
      ensures State() == old(State()) && hasGaugeIndex
    {
      var readings := Drop(Split(Strip(data, ','), ','), 2);
      if |gaugeindex| != |readings| {
        TriggerHeaderLine();
        return;
      }
      var k := 0;
      while k < |readings|
        invariant 0 <= k <= |readings| == |gaugeindex|
        invariant values == Route(old(values), gaugeindex[..k], readings[..k])
        invariant State() == old(State()) && written == old(written) && hasGaugeIndex
      {
        var gauge := gaugeindex[k];
        values := values[SeriesOf(gauge) := Reading(readings[k], gauge.multiplier)];
        assert gaugeindex[..k + 1][..k] == gaugeindex[..k];
        assert readings[..k + 1][..k] == readings[..k];
        k := k + 1;
      }
      assert gaugeindex[..k] == gaugeindex && readings[..k] == readings;
    }

    /** One pass of the main loop on a line read from the serial port and decoded, with its
        surrounding commas stripped: dispatch by `Classify`. */
    method HandleLine(line: string)
      requires Valid()
      modifies this
      ensures var reading := Strip(line, ',');
        match Classify(reading, old(hasGaugeIndex))
        case Reboot =>
          written == old(written) + HeaderRequest && State() == old(State()) &&
          values == old(values) && hasGaugeIndex == old(hasGaugeIndex)
        case Header =>
          State() == Resolve(sensors, HeaderTokens(reading), Resolution([], [], old(registry))).0 &&
          hasGaugeIndex && values == old(values) && written == old(written)
        case Data =>
          State() == old(State()) && hasGaugeIndex &&
          (|Readings(reading)| == |gaugeindex| ==>
            values == Route(old(values), gaugeindex, Readings(reading)) && written == old(written)) &&
          (|Readings(reading)| != |gaugeindex| ==>
            values == old(values) && written == old(written) + HeaderRequest)
        case Ignored =>
          State() == old(State()) && values == old(values) &&
          hasGaugeIndex == old(hasGaugeIndex) && written == old(written)
    {
      var reading := Strip(line, ',');
      var kind := Classify(reading, hasGaugeIndex);
      match kind
      case Reboot =>
        TriggerHeaderLine();
      case Header =>
        ParseSensorConfig(reading);
      case Data =>
        IngestData(reading);
      case Ignored =>
    }
  }
}
