/** What `parse_sensor_config` guarantees about the configuration, the gauge index and the
    registry it builds, stated over the resolver functions and proved for every well-formed
    catalog. */
module ResolverLemmas {
  import opened Text
  import opened Combinations
  import opened Catalog
  import opened SignatureTable
  import opened Resolver

  // ---------------------------------------------------------------- the registry

  /** Some metric of the list has that name. */
  predicate Named(ms: seq<Metric>, k: string)
  {
    exists j :: 0 <= j < |ms| && ms[j].name == k
  }

  /** Concatenated metric lists register like one after the other. */
  lemma {:induction false} RegisterAppend(registry: map<string, string>, a: seq<Metric>, b: seq<Metric>)
    ensures Register(registry, a + b) == Register(Register(registry, a), b)
    decreases |b|
  {
    if |b| == 0 {
      assert a + b == a;
    } else {
      RegisterAppend(registry, a, b[..|b| - 1]);
      assert (a + b)[..|a + b| - 1] == a + b[..|b| - 1];
      assert (a + b)[|a + b| - 1] == b[|b| - 1];
    }
  }

  /** Get-or-create: the registry afterwards has the names it had, with the gauges it had,
      plus the names of the metrics; a new name gets the description of its first metric. */
  lemma {:induction false} RegisterSpec(registry: map<string, string>, ms: seq<Metric>)
    ensures forall k :: k in Register(registry, ms) <==> k in registry || Named(ms, k)
    ensures forall k :: k in registry ==> Register(registry, ms)[k] == registry[k]
    ensures forall j :: (0 <= j < |ms| && ms[j].name !in registry &&
      (forall i :: 0 <= i < j ==> ms[i].name != ms[j].name)) ==>
      ms[j].name in Register(registry, ms) &&
      Register(registry, ms)[ms[j].name] == ms[j].description
  {
    RegisterDomain(registry, ms);
    RegisterFirst(registry, ms);
  }

  /** The names of a list are those of all but its last metric and the last one's. */
  lemma NamedSnoc(ms: seq<Metric>)
    requires |ms| > 0
    ensures forall k :: Named(ms, k) <==> Named(ms[..|ms| - 1], k) || k == ms[|ms| - 1].name
  {
    var init := ms[..|ms| - 1];
    assert forall i :: 0 <= i < |init| ==> init[i] == ms[i];
  }

  /** Registering keeps every gauge and adds exactly the metrics' names. */
  lemma {:induction false} RegisterDomain(registry: map<string, string>, ms: seq<Metric>)
    ensures forall k :: k in Register(registry, ms) <==> k in registry || Named(ms, k)
    ensures forall k :: k in registry ==> Register(registry, ms)[k] == registry[k]
    decreases |ms|
  {
    if |ms| > 0 {
      RegisterDomain(registry, ms[..|ms| - 1]);
      NamedSnoc(ms);
    }
  }

  /** The first metric of a name the registry lacks creates that name's gauge. */
  lemma {:induction false} RegisterFirst(registry: map<string, string>, ms: seq<Metric>)
    ensures forall j :: (0 <= j < |ms| && ms[j].name !in registry &&
      (forall i :: 0 <= i < j ==> ms[i].name != ms[j].name)) ==>
      ms[j].name in Register(registry, ms) &&
      Register(registry, ms)[ms[j].name] == ms[j].description
    decreases |ms|
  {
    if |ms| > 0 {
      var init := ms[..|ms| - 1];
      RegisterFirst(registry, init);
      RegisterDomain(registry, init);
      forall j | 0 <= j < |ms| && ms[j].name !in registry &&
        (forall i :: 0 <= i < j ==> ms[i].name != ms[j].name)
        ensures ms[j].name in Register(registry, ms)
        ensures Register(registry, ms)[ms[j].name] == ms[j].description
      {
        if j < |ms| - 1 {
          assert ms[j] == init[j];
          assert Named(init, ms[j].name);
        } else {
          assert forall i :: 0 <= i < |init| ==> init[i].name != ms[j].name;
          assert !Named(init, ms[j].name);
        }
      }
    }
  }

  // ---------------------------------------------------------------- enabling a selection

  /** The names of sub-sensors, in order. */
  function SubNames(subs: seq<SubSensor>): (r: seq<string>)
    ensures |r| == |subs|
    ensures forall p :: 0 <= p < |subs| ==> r[p] == subs[p].name
  {
    if |subs| == 0 then [] else [subs[0].name] + SubNames(subs[1..])
  }

  /** The metric records of the selected sub-sensors, in order. */
  function SelMetrics(s: Sensor, c: seq<nat>): seq<Metric>
    requires forall k :: 0 <= k < |c| ==> c[k] < |s.subsensors|
  {
    if |c| == 0 then [] else s.subsensors[c[0]].metrics + SelMetrics(s, c[1..])
  }

  /** The gauge-index entries the selected sub-sensors contribute to instance `t`. */
  function SelEntries(s: Sensor, c: seq<nat>, t: nat): seq<GaugeEntry>
    requires forall k :: 0 <= k < |c| ==> c[k] < |s.subsensors|
  {
    if |c| == 0 then []
    else EntriesFor(s.name, t, s.subsensors[c[0]].name, s.subsensors[c[0]].metrics) + SelEntries(s, c[1..], t)
  }

  /** Enabling a selection appends the selected names to the last instance, appends their
      entries (all for the last instance's position) to the index, and get-or-creates their
      gauges; nothing else changes. */
  lemma {:induction false} EnableAllSpec(st: Resolution, s: Sensor, c: seq<nat>)
    requires |st.config| > 0
    requires forall k :: 0 <= k < |c| ==> c[k] < |s.subsensors|
    ensures EnableAll(st, s, c).config == st.config[..|st.config| - 1] +
      [Instance(st.config[|st.config| - 1].sensor,
                st.config[|st.config| - 1].subsensors + Pick(SubNames(s.subsensors), c))]
    ensures EnableAll(st, s, c).index == st.index + SelEntries(s, c, |st.config|)
    ensures EnableAll(st, s, c).registry == Register(st.registry, SelMetrics(s, c))
    decreases |c|
  {
    var t := |st.config|;
    var last := st.config[t - 1];
    var names := SubNames(s.subsensors);
    if |c| == 0 {
      assert st.config == st.config[..t - 1] + [last];
      assert last.subsensors + [] == last.subsensors;
      assert st.index + [] == st.index;
    } else {
      var sub := s.subsensors[c[0]];
      var st1 := Enable(st, s.name, sub);
      EnableAllSpec(st1, s, c[1..]);
      assert EnableAll(st, s, c) == EnableAll(st1, s, c[1..]);
      ConfigStep(st, sub.name, Pick(names, c[1..]));
      assert Pick(names, c) == [sub.name] + Pick(names, c[1..]);
      assert (st.index + EntriesFor(s.name, t, sub.name, sub.metrics)) + SelEntries(s, c[1..], t)
          == st.index + SelEntries(s, c, t);
      RegisterAppend(st.registry, sub.metrics, SelMetrics(s, c[1..]));
    }
  }

  /** Appending one name to the last instance and then more is appending them all. */
  lemma ConfigStep(st: Resolution, name: string, more: seq<string>)
    requires |st.config| > 0
    ensures var t := |st.config|; var last := st.config[t - 1];
      var c1 := st.config[..t - 1] + [Instance(last.sensor, last.subsensors + [name])];
      c1[..t - 1] + [Instance(c1[t - 1].sensor, c1[t - 1].subsensors + more)]
      == st.config[..t - 1] + [Instance(last.sensor, last.subsensors + ([name] + more))]
  {
    var t := |st.config|;
    var last := st.config[t - 1];
    var c1 := st.config[..t - 1] + [Instance(last.sensor, last.subsensors + [name])];
    assert c1[..t - 1] == st.config[..t - 1];
    assert last.subsensors + [name] + more == last.subsensors + ([name] + more);
  }

  /** Entry `i` of a selection's entries is for the metric whose raw name is column `i` of
      the selection, with that metric's name and multiplier, and for a selected sub-sensor of
      instance `t` of the sensor. */
  lemma {:induction false} SelAligned(s: Sensor, c: seq<nat>, t: nat)
    requires forall k :: 0 <= k < |c| ==> c[k] < |s.subsensors|
    ensures |SelEntries(s, c, t)| == |SelMetrics(s, c)| == |Columns(s, c)|
    ensures forall i :: 0 <= i < |SelMetrics(s, c)| ==>
      Columns(s, c)[i] == SelMetrics(s, c)[i].raw &&
      SelEntries(s, c, t)[i].metric == SelMetrics(s, c)[i].name &&
      SelEntries(s, c, t)[i].multiplier == SelMetrics(s, c)[i].multiplier &&
      SelEntries(s, c, t)[i].sensor == s.name && SelEntries(s, c, t)[i].sensorindex == t &&
      SelEntries(s, c, t)[i].subsensor in Pick(SubNames(s.subsensors), c)
    decreases |c|
  {
    if |c| == 0 {
      assert Columns(s, c) == [];
    } else {
      var sub := s.subsensors[c[0]];
      SelAligned(s, c[1..], t);
      ColumnsCons(s, c);
      var names := SubNames(s.subsensors);
      assert Pick(names, c) == [sub.name] + Pick(names, c[1..]);
      var h := EntriesFor(s.name, t, sub.name, sub.metrics);
      var ms := SelMetrics(s, c);
      var es := SelEntries(s, c, t);
      var cs := Columns(s, c);
      assert ms == sub.metrics + SelMetrics(s, c[1..]);
      assert es == h + SelEntries(s, c[1..], t);
      forall i | 0 <= i < |ms|
        ensures cs[i] == ms[i].raw && es[i].metric == ms[i].name &&
          es[i].multiplier == ms[i].multiplier && es[i].sensor == s.name &&
          es[i].sensorindex == t && es[i].subsensor in Pick(names, c)
      {
        if i < |sub.metrics| {
          assert cs[i] == Raw(sub)[i];
          assert es[i] == h[i];
        } else {
          var i' := i - |sub.metrics|;
          assert cs[i] == Columns(s, c[1..])[i'];
          assert ms[i] == SelMetrics(s, c[1..])[i'];
          assert es[i] == SelEntries(s, c[1..], t)[i'];
        }
      }
    }
  }

  // ---------------------------------------------------------------- finding a metric back

  /** The metric record of that name in a sub-sensor. */
  function FindMetric(ms: seq<Metric>, name: string): (r: Option<Metric>)
    ensures r.Some? ==> r.value in ms && r.value.name == name
    ensures r.None? ==> forall k :: 0 <= k < |ms| ==> ms[k].name != name
  {
    if |ms| == 0 then None
    else if ms[0].name == name then Some(ms[0])
    else
      var r := FindMetric(ms[1..], name);
      assert forall k :: 1 <= k < |ms| ==> ms[k] == ms[1..][k - 1];
      r
  }

  /** The catalog metric a gauge-index entry stands for, found back by its sensor,
      sub-sensor and metric names. */
  function EntryMetric(catalog: seq<Sensor>, e: GaugeEntry): Option<Metric>
  {
    match FindSensor(catalog, e.sensor)
    case None => None
    case Some(s) =>
      match FindSubSensor(s, e.subsensor)
      case None => None
      case Some(sub) => FindMetric(sub.metrics, e.metric)
  }

  /** In a well-formed catalog the names of a sensor, one of its sub-sensors and one of its
      metrics find that very metric back. */
  lemma EntryFindsMetric(catalog: seq<Sensor>, j: nat, p: nat, k: nat, e: GaugeEntry)
    requires WellFormed(catalog) && j < |catalog| && p < |catalog[j].subsensors|
    requires k < |catalog[j].subsensors[p].metrics|
    requires e.sensor == catalog[j].name && e.subsensor == catalog[j].subsensors[p].name
    requires e.metric == catalog[j].subsensors[p].metrics[k].name
    ensures EntryMetric(catalog, e) == Some(catalog[j].subsensors[p].metrics[k])
  {
    GetSubsensorSignatureOf(catalog, j, p);
    var ms := catalog[j].subsensors[p].metrics;
    assert SensorWellFormed(catalog[j]);
    assert SubSensorWellFormed(catalog[j].subsensors[p]);
    var m := FindMetric(ms, ms[k].name).value;
    var k' :| 0 <= k' < |ms| && ms[k'] == m;
    assert ms[k'].name == ms[k].name;
  }

  /** Every entry of a selection of a catalog sensor finds its own metric back. */
  lemma {:induction false} SelFeeds(catalog: seq<Sensor>, j: nat, c: seq<nat>, t: nat)
    requires WellFormed(catalog) && j < |catalog|
    requires forall k :: 0 <= k < |c| ==> c[k] < |catalog[j].subsensors|
    ensures |SelEntries(catalog[j], c, t)| == |SelMetrics(catalog[j], c)|
    ensures forall i :: 0 <= i < |SelEntries(catalog[j], c, t)| ==>
      EntryMetric(catalog, SelEntries(catalog[j], c, t)[i]) == Some(SelMetrics(catalog[j], c)[i])
    decreases |c|
  {
    var s := catalog[j];
    if |c| > 0 {
      SelFeeds(catalog, j, c[1..], t);
      var sub := s.subsensors[c[0]];
      var h := EntriesFor(s.name, t, sub.name, sub.metrics);
      var es := SelEntries(s, c, t);
      var ms := SelMetrics(s, c);
      assert ms == sub.metrics + SelMetrics(s, c[1..]);
      assert es == h + SelEntries(s, c[1..], t);
      forall i | 0 <= i < |es| ensures EntryMetric(catalog, es[i]) == Some(ms[i]) {
        if i < |h| {
          assert es[i] == h[i];
          EntryFindsMetric(catalog, j, c[0], i, es[i]);
        } else {
          assert es[i] == SelEntries(s, c[1..], t)[i - |h|];
          assert ms[i] == SelMetrics(s, c[1..])[i - |h|];
        }
      }
    }
  }

  // ---------------------------------------------------------------- distinct series

  /** The labelled series a gauge-index entry sets: the gauge's metric name and the label
      values `sensor`, `sensorindex`, `subsensor`. */
  datatype Series = Series(metric: string, sensor: string, sensorindex: nat, subsensor: string)

  function SeriesOf(e: GaugeEntry): Series
  {
    Series(e.metric, e.sensor, e.sensorindex, e.subsensor)
  }

  /** Every entry of a selection is for instance `t` of the sensor and one of the selected
      sub-sensors. */
  lemma {:induction false} SelSubsensors(s: Sensor, c: seq<nat>, t: nat)
    requires forall k :: 0 <= k < |c| ==> c[k] < |s.subsensors|
    ensures forall i :: 0 <= i < |SelEntries(s, c, t)| ==>
      SelEntries(s, c, t)[i].sensor == s.name && SelEntries(s, c, t)[i].sensorindex == t &&
      SelEntries(s, c, t)[i].subsensor in Pick(SubNames(s.subsensors), c)
    decreases |c|
  {
    if |c| > 0 {
      SelSubsensors(s, c[1..], t);
      var sub := s.subsensors[c[0]];
      var names := SubNames(s.subsensors);
      assert Pick(names, c) == [sub.name] + Pick(names, c[1..]);
      var h := EntriesFor(s.name, t, sub.name, sub.metrics);
      var es := SelEntries(s, c, t);
      assert es == h + SelEntries(s, c[1..], t);
      forall i | 0 <= i < |es|
        ensures es[i].sensor == s.name && es[i].sensorindex == t && es[i].subsensor in Pick(names, c)
      {
        if i >= |h| {
          assert es[i] == SelEntries(s, c[1..], t)[i - |h|];
        }
      }
    }
  }

  /** A sub-sensor's name is not among the names of sub-sensors selected after it. */
  lemma NameNotLater(s: Sensor, p: nat, c: seq<nat>)
    requires SensorWellFormed(s) && p < |s.subsensors|
    requires Selection(c, p + 1, |s.subsensors|)
    ensures s.subsensors[p].name !in Pick(SubNames(s.subsensors), c)
  {
    var names := Pick(SubNames(s.subsensors), c);
    forall k | 0 <= k < |names| ensures names[k] != s.subsensors[p].name {
      assert names[k] == s.subsensors[c[k]].name && p < c[k];
    }
  }

  /** Two entries of a selection never set the same series: entries of one sub-sensor have
      distinct metric names, entries of two sub-sensors distinct sub-sensor names. */
  lemma {:induction false} SelDistinct(s: Sensor, c: seq<nat>, t: nat)
    requires SensorWellFormed(s) && Selection(c, 0, |s.subsensors|)
    ensures forall a, b :: 0 <= a < b < |SelEntries(s, c, t)| ==>
      SeriesOf(SelEntries(s, c, t)[a]) != SeriesOf(SelEntries(s, c, t)[b])
    decreases |c|
  {
    if |c| > 0 {
      var sub := s.subsensors[c[0]];
      assert Selection(c[1..], 0, |s.subsensors|);
      SelDistinct(s, c[1..], t);
      var h := EntriesFor(s.name, t, sub.name, sub.metrics);
      var rest := SelEntries(s, c[1..], t);
      HeadDistinct(s, c[0], t, h);
      HeadRestDistinct(s, c, t, h, rest);
      DistinctConcat(h, rest);
    }
  }

  /** The entries of one sub-sensor set distinct series. */
  lemma HeadDistinct(s: Sensor, p: nat, t: nat, h: seq<GaugeEntry>)
    requires SensorWellFormed(s) && p < |s.subsensors|
    requires h == EntriesFor(s.name, t, s.subsensors[p].name, s.subsensors[p].metrics)
    ensures forall a, b :: 0 <= a < b < |h| ==> SeriesOf(h[a]) != SeriesOf(h[b])
  {
    assert SubSensorWellFormed(s.subsensors[p]);
  }

  /** The first selected sub-sensor's entries and the rest's set different series. */
  lemma HeadRestDistinct(s: Sensor, c: seq<nat>, t: nat, h: seq<GaugeEntry>, rest: seq<GaugeEntry>)
    requires SensorWellFormed(s) && Selection(c, 0, |s.subsensors|) && |c| > 0
    requires h == EntriesFor(s.name, t, s.subsensors[c[0]].name, s.subsensors[c[0]].metrics)
    requires rest == SelEntries(s, c[1..], t)
    ensures forall a, b :: 0 <= a < |h| && 0 <= b < |rest| ==> SeriesOf(h[a]) != SeriesOf(rest[b])
  {
    var sub := s.subsensors[c[0]];
    assert Selection(c[1..], c[0] + 1, |s.subsensors|) by {
      forall k | 0 <= k < |c[1..]| ensures c[0] + 1 <= c[1..][k] {
        assert c[0] < c[k + 1];
      }
    }
    NameNotLater(s, c[0], c[1..]);
    SelSubsensors(s, c[1..], t);
  }

  /** Two lists of pairwise distinct series, disjoint from each other, concatenate to one. */
  lemma DistinctConcat(h: seq<GaugeEntry>, rest: seq<GaugeEntry>)
    requires forall a, b :: 0 <= a < b < |h| ==> SeriesOf(h[a]) != SeriesOf(h[b])
    requires forall a, b :: 0 <= a < b < |rest| ==> SeriesOf(rest[a]) != SeriesOf(rest[b])
    requires forall a, b :: 0 <= a < |h| && 0 <= b < |rest| ==> SeriesOf(h[a]) != SeriesOf(rest[b])
    ensures forall a, b :: 0 <= a < b < |h + rest| ==> SeriesOf((h + rest)[a]) != SeriesOf((h + rest)[b])
  {
    var es := h + rest;
    forall a, b | 0 <= a < b < |es| ensures SeriesOf(es[a]) != SeriesOf(es[b]) {
      if b < |h| {
        assert es[a] == h[a] && es[b] == h[b];
      } else if a < |h| {
        assert es[a] == h[a] && es[b] == rest[b - |h|];
      } else {
        assert es[a] == rest[a - |h|] && es[b] == rest[b - |h|];
      }
    }
  }

  // ---------------------------------------------------------------- declared order

  /** `xs` is `ys` with some elements left out. */
  predicate Subsequence(xs: seq<string>, ys: seq<string>)
    decreases |ys|
  {
    if |xs| == 0 then true
    else if |ys| == 0 then false
    else if xs[0] == ys[0] then Subsequence(xs[1..], ys[1..])
    else Subsequence(xs, ys[1..])
  }

  /** The names of a selection appear in declared order. */
  lemma {:induction false} SelectionInOrder(s: Sensor, p: nat, c: seq<nat>)
    requires SensorWellFormed(s) && p <= |s.subsensors|
    requires Selection(c, p, |s.subsensors|)
    ensures Subsequence(Pick(SubNames(s.subsensors), c), SubNames(s.subsensors)[p..])
    decreases |s.subsensors| - p
  {
    var names := SubNames(s.subsensors);
    if p < |s.subsensors| {
      assert names[p..][1..] == names[p + 1..];
      if |c| > 0 && c[0] == p {
        SelectionTail(c, p, |s.subsensors|);
        SelectionInOrder(s, p + 1, c[1..]);
        assert Pick(names, c)[1..] == Pick(names, c[1..]);
      } else {
        if |c| > 0 {
          SelectionRaise(c, p, |s.subsensors|);
        }
        SelectionInOrder(s, p + 1, c);
        if |c| > 0 {
          assert Pick(names, c)[0] == s.subsensors[c[0]].name;
          assert names[p..][0] == s.subsensors[p].name;
        }
      }
    } else {
      assert c == [];
    }
  }

  // ---------------------------------------------------------------- the resolver's result

  /** An entry stands for the catalog metric whose raw column is `col`, and carries that
      metric's multiplier. */
  predicate Feeds(catalog: seq<Sensor>, e: GaugeEntry, col: string)
  {
    EntryMetric(catalog, e).Some? && EntryMetric(catalog, e).value.raw == col &&
    EntryMetric(catalog, e).value.multiplier == e.multiplier
  }

  /** An entry's `sensorindex` is the 1-based position of an instance of its sensor that
      lists its sub-sensor. */
  predicate InstanceOf(config: seq<Instance>, e: GaugeEntry)
  {
    1 <= e.sensorindex <= |config| && config[e.sensorindex - 1].sensor == e.sensor &&
    e.subsensor in config[e.sensorindex - 1].subsensors
  }

  /** A detected instance is of a catalog sensor and lists some of its sub-sensors, in
      declared order. */
  predicate Detected(catalog: seq<Sensor>, inst: Instance)
  {
    FindSensor(catalog, inst.sensor).Some? && |inst.subsensors| > 0 &&
    Subsequence(inst.subsensors, SubNames(FindSensor(catalog, inst.sensor).value.subsensors))
  }

  /** `st` is a resolution of the header columns `cols`: one index entry per column, in
      column order, standing for that column's metric; each entry points at its instance;
      each entry's metric has a gauge; no two entries set the same series; and every
      instance is a detected catalog sensor. */
  predicate Describes(catalog: seq<Sensor>, st: Resolution, cols: seq<string>)
  {
    |st.index| == |cols| &&
    (forall i :: 0 <= i < |cols| ==> Feeds(catalog, st.index[i], cols[i])) &&
    (forall i :: 0 <= i < |st.index| ==> InstanceOf(st.config, st.index[i])) &&
    (forall i :: 0 <= i < |st.index| ==> st.index[i].metric in st.registry) &&
    (forall a, b :: 0 <= a < b < |st.index| ==> SeriesOf(st.index[a]) != SeriesOf(st.index[b])) &&
    (forall k :: 0 <= k < |st.config| ==> Detected(catalog, st.config[k]))
  }

  /** A matched chunk is the column list of the producing selection of its key, which
      selects at least one sub-sensor. */
  lemma ChunkIsColumns(catalog: seq<Sensor>, chunk: seq<string>, s: Sensor, c: seq<nat>)
    requires WellFormed(catalog) && Tokens(chunk, ',') && Join(chunk, ',') in LookupTable(catalog)
    requires s == Producer(catalog, Join(chunk, ',')) && c == ProducingSelection(s, Join(chunk, ','))
    ensures chunk == Columns(s, c) && |c| >= 1 && SensorWellFormed(s)
    ensures LookupTable(catalog)[Join(chunk, ',')] == s.name
    ensures FindSensor(catalog, s.name) == Some(s)
  {
    KeyResolves(catalog, Join(chunk, ','));
    SubsetsExact(|s.subsensors|);
    JoinInjective(chunk, Columns(s, c), ',');
  }

  /** A step on a chunk opens an instance of the chunk's producer and walks its sub-sensors. */
  lemma StepUnfold(catalog: seq<Sensor>, st: Resolution, chunk: seq<string>, s: Sensor)
    requires WellFormed(catalog) && Join(chunk, ',') in LookupTable(catalog)
    requires LookupTable(catalog)[Join(chunk, ',')] == s.name
    requires FindSensor(catalog, s.name) == Some(s)
    ensures Step(catalog, st, chunk) ==
      Walk(Resolution(st.config + [Instance(s.name, [])], st.index, st.registry), s, 0, chunk).0
  {
  }

  /** What one step does to a state: it adds exactly one instance, of the producer of the
      chunk's key with the producing selection's sub-sensors; it appends the selection's
      entries for that instance; it get-or-creates the selection's gauges. */
  lemma StepSpec(catalog: seq<Sensor>, st: Resolution, chunk: seq<string>, s: Sensor, c: seq<nat>)
    requires WellFormed(catalog) && Tokens(chunk, ',') && Join(chunk, ',') in LookupTable(catalog)
    requires s == Producer(catalog, Join(chunk, ',')) && c == ProducingSelection(s, Join(chunk, ','))
    ensures chunk == Columns(s, c) && |c| >= 1
    ensures Step(catalog, st, chunk) == Resolution(
        st.config + [Instance(s.name, Pick(SubNames(s.subsensors), c))],
        st.index + SelEntries(s, c, |st.config| + 1),
        Register(st.registry, SelMetrics(s, c)))
  {
    ChunkIsColumns(catalog, chunk, s, c);
    StepUnfold(catalog, st, chunk, s);
    var started := Resolution(st.config + [Instance(s.name, [])], st.index, st.registry);
    WalkConsumesSelection(started, s, 0, c);
    EnableAllNew(st, s, c);
  }

  /** Enabling a selection on a freshly opened instance gives that instance exactly the
      selected sub-sensors. */
  lemma EnableAllNew(st: Resolution, s: Sensor, c: seq<nat>)
    requires forall k :: 0 <= k < |c| ==> c[k] < |s.subsensors|
    ensures EnableAll(Resolution(st.config + [Instance(s.name, [])], st.index, st.registry), s, c) ==
      Resolution(st.config + [Instance(s.name, Pick(SubNames(s.subsensors), c))],
                 st.index + SelEntries(s, c, |st.config| + 1),
                 Register(st.registry, SelMetrics(s, c)))
  {
    var started := Resolution(st.config + [Instance(s.name, [])], st.index, st.registry);
    EnableAllSpec(started, s, c);
    assert started.config[..|started.config| - 1] == st.config;
    assert [] + Pick(SubNames(s.subsensors), c) == Pick(SubNames(s.subsensors), c);
  }

  /** A step changes nothing resolved before it: it adds one instance, earlier instances and
      entries stay, and every gauge that existed keeps its description. */
  lemma StepKeeps(catalog: seq<Sensor>, st: Resolution, chunk: seq<string>)
    requires WellFormed(catalog) && Tokens(chunk, ',') && Join(chunk, ',') in LookupTable(catalog)
    ensures |Step(catalog, st, chunk).config| == |st.config| + 1
    ensures Step(catalog, st, chunk).config[..|st.config|] == st.config
    ensures |Step(catalog, st, chunk).index| >= |st.index|
    ensures Step(catalog, st, chunk).index[..|st.index|] == st.index
    ensures forall k :: k in st.registry ==>
      k in Step(catalog, st, chunk).registry && Step(catalog, st, chunk).registry[k] == st.registry[k]
  {
    var key := Join(chunk, ',');
    KeyResolves(catalog, key);
    var s := Producer(catalog, key);
    var c := ProducingSelection(s, key);
    StepSpec(catalog, st, chunk, s, c);
    RegisterSpec(st.registry, SelMetrics(s, c));
  }

  /** A step keeps the resolution invariant, extended by the step's columns. */
  lemma StepDescribes(catalog: seq<Sensor>, st: Resolution, cols: seq<string>, chunk: seq<string>)
    requires WellFormed(catalog) && Tokens(chunk, ',') && Join(chunk, ',') in LookupTable(catalog)
    requires Describes(catalog, st, cols)
    ensures Describes(catalog, Step(catalog, st, chunk), cols + chunk)
  {
    var key := Join(chunk, ',');
    KeyResolves(catalog, key);
    var s := Producer(catalog, key);
    var c := ProducingSelection(s, key);
    StepSpec(catalog, st, chunk, s, c);
    var t := |st.config| + 1;
    var r := Step(catalog, st, chunk);
    var names := SubNames(s.subsensors);
    var es := SelEntries(s, c, t);
    var ms := SelMetrics(s, c);
    KeyResolves(catalog, key);
    var j :| 0 <= j < |catalog| && catalog[j] == s;
    FindSensorByName(catalog, j);
    assert SensorWellFormed(s);
    SelAligned(s, c, t);
    SelFeeds(catalog, j, c, t);
    SelDistinct(s, c, t);
    RegisterSpec(st.registry, ms);
    SelectionInOrder(s, 0, c);
    assert names[0..] == names;
    assert r.config[t - 1] == Instance(s.name, Pick(names, c));
    assert Detected(catalog, r.config[t - 1]);
    forall i | 0 <= i < |es| ensures Feeds(catalog, es[i], chunk[i]) && InstanceOf(r.config, es[i]) &&
      es[i].metric in r.registry
    {
      assert Named(ms, es[i].metric);
    }
    NewEntries(catalog, st, cols, chunk, r, es);
  }

  /** Appending entries that describe the new columns, point at the one new instance and
      have gauges keeps the resolution invariant. */
  lemma NewEntries(catalog: seq<Sensor>, st: Resolution, cols: seq<string>, chunk: seq<string>,
                   r: Resolution, es: seq<GaugeEntry>)
    requires Describes(catalog, st, cols)
    requires |r.config| == |st.config| + 1 && r.config[..|st.config|] == st.config
    requires Detected(catalog, r.config[|st.config|])
    requires r.index == st.index + es && |es| == |chunk|
    requires forall k :: k in st.registry ==> k in r.registry
    requires forall i :: 0 <= i < |es| ==> (Feeds(catalog, es[i], chunk[i]) &&
      InstanceOf(r.config, es[i]) && es[i].metric in r.registry && es[i].sensorindex == |r.config|)
    requires forall a, b :: 0 <= a < b < |es| ==> SeriesOf(es[a]) != SeriesOf(es[b])
    ensures Describes(catalog, r, cols + chunk)
  {
    AppendFeeds(catalog, st.index, es, cols, chunk);
    AppendPoints(st, r, es);
    AppendDistinct(st, r, es);
    AppendDetected(catalog, st.config, r.config);
  }

  /** Entries that feed their columns, followed by entries that feed theirs, feed the
      concatenated columns. */
  lemma AppendFeeds(catalog: seq<Sensor>, index: seq<GaugeEntry>, es: seq<GaugeEntry>,
                    cols: seq<string>, chunk: seq<string>)
    requires |index| == |cols| && |es| == |chunk|
    requires forall i :: 0 <= i < |cols| ==> Feeds(catalog, index[i], cols[i])
    requires forall i :: 0 <= i < |es| ==> Feeds(catalog, es[i], chunk[i])
    ensures forall i :: 0 <= i < |cols + chunk| ==> Feeds(catalog, (index + es)[i], (cols + chunk)[i])
  {
    forall i | 0 <= i < |cols + chunk| ensures Feeds(catalog, (index + es)[i], (cols + chunk)[i]) {
      if i < |cols| {
        assert (index + es)[i] == index[i] && (cols + chunk)[i] == cols[i];
      } else {
        assert (index + es)[i] == es[i - |cols|] && (cols + chunk)[i] == chunk[i - |cols|];
      }
    }
  }

  /** Earlier entries keep pointing at their instances and gauges when instances and gauges
      are only added, and the new entries point at instances and gauges of the new state. */
  lemma AppendPoints(st: Resolution, r: Resolution, es: seq<GaugeEntry>)
    requires r.index == st.index + es
    requires |st.config| <= |r.config| && r.config[..|st.config|] == st.config
    requires forall i :: 0 <= i < |st.index| ==>
      InstanceOf(st.config, st.index[i]) && st.index[i].metric in st.registry
    requires forall k :: k in st.registry ==> k in r.registry
    requires forall i :: 0 <= i < |es| ==> InstanceOf(r.config, es[i]) && es[i].metric in r.registry
    ensures forall i :: 0 <= i < |r.index| ==> InstanceOf(r.config, r.index[i]) && r.index[i].metric in r.registry
  {
    forall i | 0 <= i < |r.index| ensures InstanceOf(r.config, r.index[i]) && r.index[i].metric in r.registry {
      if i < |st.index| {
        var e := st.index[i];
        assert r.index[i] == e;
        assert InstanceOf(st.config, e);
        assert r.config[e.sensorindex - 1] == st.config[e.sensorindex - 1];
      } else {
        assert r.index[i] == es[i - |st.index|];
      }
    }
  }

  /** Entries of one new instance, setting distinct series among themselves, set series
      distinct from those of the earlier entries, which all point at earlier instances. */
  lemma AppendDistinct(st: Resolution, r: Resolution, es: seq<GaugeEntry>)
    requires r.index == st.index + es && |r.config| == |st.config| + 1
    requires forall i :: 0 <= i < |st.index| ==> InstanceOf(st.config, st.index[i])
    requires forall a, b :: 0 <= a < b < |st.index| ==> SeriesOf(st.index[a]) != SeriesOf(st.index[b])
    requires forall i :: 0 <= i < |es| ==> es[i].sensorindex == |r.config|
    requires forall a, b :: 0 <= a < b < |es| ==> SeriesOf(es[a]) != SeriesOf(es[b])
    ensures forall a, b :: 0 <= a < b < |r.index| ==> SeriesOf(r.index[a]) != SeriesOf(r.index[b])
  {
    var n := |st.index|;
    forall a, b | 0 <= a < b < |r.index| ensures SeriesOf(r.index[a]) != SeriesOf(r.index[b]) {
      if b < n {
        assert r.index[a] == st.index[a] && r.index[b] == st.index[b];
      } else if a < n {
        assert r.index[a] == st.index[a] && InstanceOf(st.config, st.index[a]);
        assert r.index[b] == es[b - n];
      } else {
        assert r.index[a] == es[a - n] && r.index[b] == es[b - n];
      }
    }
  }

  /** Adding a detected instance after detected instances keeps every instance detected. */
  lemma AppendDetected(catalog: seq<Sensor>, config: seq<Instance>, config': seq<Instance>)
    requires |config'| == |config| + 1 && config'[..|config|] == config
    requires forall k :: 0 <= k < |config| ==> Detected(catalog, config[k])
    requires Detected(catalog, config'[|config|])
    ensures forall k :: 0 <= k < |config'| ==> Detected(catalog, config'[k])
  {
    forall k | 0 <= k < |config'| ensures Detected(catalog, config'[k]) {
      if k < |config| {
        assert config'[k] == config[k];
      }
    }
  }

  /** Steps change nothing resolved before them: earlier instances and entries stay, and
      every existing gauge keeps its description. */
  lemma {:induction false} StepsKeep(catalog: seq<Sensor>, st: Resolution, chunks: seq<seq<string>>)
    requires WellFormed(catalog)
    requires forall i :: 0 <= i < |chunks| ==> Tokens(chunks[i], ',') && Join(chunks[i], ',') in LookupTable(catalog)
    ensures |Steps(catalog, st, chunks).config| == |st.config| + |chunks|
    ensures Steps(catalog, st, chunks).config[..|st.config|] == st.config
    ensures |Steps(catalog, st, chunks).index| >= |st.index|
    ensures Steps(catalog, st, chunks).index[..|st.index|] == st.index
    ensures forall k :: k in st.registry ==>
      k in Steps(catalog, st, chunks).registry && Steps(catalog, st, chunks).registry[k] == st.registry[k]
    decreases |chunks|
  {
    if |chunks| > 0 {
      StepKeeps(catalog, st, chunks[0]);
      var st2 := Step(catalog, st, chunks[0]);
      StepsKeep(catalog, st2, chunks[1..]);
      var r := Steps(catalog, st2, chunks[1..]);
      assert Steps(catalog, st, chunks) == r;
      PrefixOfPrefix(r.config, |st2.config|, |st.config|);
      PrefixOfPrefix(r.index, |st2.index|, |st.index|);
    }
  }

  /** A prefix of a prefix is a prefix. */
  lemma PrefixOfPrefix<T>(xs: seq<T>, m: nat, n: nat)
    requires n <= m <= |xs|
    ensures xs[..n] == xs[..m][..n]
  {
  }

  /** Steps keep the resolution invariant, extended by the chunks' columns in order. */
  lemma {:induction false} StepsDescribe(catalog: seq<Sensor>, st: Resolution, cols: seq<string>, chunks: seq<seq<string>>)
    requires WellFormed(catalog) && Describes(catalog, st, cols)
    requires forall i :: 0 <= i < |chunks| ==> Tokens(chunks[i], ',') && Join(chunks[i], ',') in LookupTable(catalog)
    ensures Describes(catalog, Steps(catalog, st, chunks), cols + Flatten(chunks))
    decreases |chunks|
  {
    if |chunks| == 0 {
      assert cols + Flatten(chunks) == cols;
    } else {
      StepDescribes(catalog, st, cols, chunks[0]);
      StepsDescribe(catalog, Step(catalog, st, chunks[0]), cols + chunks[0], chunks[1..]);
      AppendFlattenCons(cols, chunks);
    }
  }

  /** The chunks of a decomposition of header tokens are tokens themselves. */
  lemma ChunksAreTokens(table: map<string, string>, tokens: seq<string>)
    requires "" !in table && Tokens(tokens, ',')
    ensures forall i :: 0 <= i < |Decompose(table, tokens).chunks| ==> Tokens(Decompose(table, tokens).chunks[i], ',')
  {
    var cs := Decompose(table, tokens).chunks;
    var f := Flatten(cs);
    assert f <= tokens;
    forall i | 0 <= i < |cs| ensures Tokens(cs[i], ',') {
      FlattenMember(cs, i);
      forall x | 0 <= x < |cs[i]| ensures |cs[i][x]| > 0 && ',' !in cs[i][x] {
        assert cs[i][x] in f;
        var m :| 0 <= m < |f| && f[m] == cs[i][x];
        assert tokens[m] == f[m];
      }
    }
  }

  /** The elements of one list of a list of lists are elements of its concatenation. */
  lemma {:induction false} FlattenMember(xss: seq<seq<string>>, i: nat)
    requires i < |xss|
    ensures forall x :: x in xss[i] ==> x in Flatten(xss)
    decreases i
  {
    assert Flatten(xss) == xss[0] + Flatten(xss[1..]);
    if i > 0 {
      FlattenMember(xss[1..], i - 1);
    }
  }

  /** The catalog's decomposition of a header is the greedy one. */
  lemma DecomposedGreedy(catalog: seq<Sensor>, tokens: seq<string>)
    requires WellFormed(catalog)
    ensures Greedy(LookupTable(catalog), tokens, Decomposed(catalog, tokens).chunks)
  {
    EmptyIsNoKey(catalog);
    DecomposeGreedy(LookupTable(catalog), tokens);
  }

  /** What `parse_sensor_config` builds from a header: when it resolves the whole header, one
      gauge-index entry per header column, in column order, each standing for the catalog
      metric of its column; otherwise the same for the columns before the first one no key
      starts at, and no more. The columns are cut greedily, each chunk the longest key prefix
      of what is left. Instances, series and gauges are as the invariant says, and every
      gauge registered before keeps its description. */
  lemma ResolveSpec(catalog: seq<Sensor>, tokens: seq<string>, registry: map<string, string>)
    requires WellFormed(catalog) && Tokens(tokens, ',')
    ensures var (r, ok) := Resolve(catalog, tokens, Resolution([], [], registry));
      var d := Decomposed(catalog, tokens);
      Describes(catalog, r, Flatten(d.chunks)) &&
      Flatten(d.chunks) <= tokens &&
      Greedy(LookupTable(catalog), tokens, d.chunks) &&
      (ok <==> |r.index| == |tokens|) &&
      |r.config| == |d.chunks| &&
      (forall k :: k in registry ==> k in r.registry && r.registry[k] == registry[k])
  {
    EmptyIsNoKey(catalog);
    var d := Decompose(LookupTable(catalog), tokens);
    ChunksAreTokens(LookupTable(catalog), tokens);
    StepsDescribe(catalog, Resolution([], [], registry), [], d.chunks);
    StepsKeep(catalog, Resolution([], [], registry), d.chunks);
    assert [] + Flatten(d.chunks) == Flatten(d.chunks);
    assert |Flatten(d.chunks)| == |tokens| ==> Flatten(d.chunks) == tokens;
    DecomposedGreedy(catalog, tokens);
  }

  /** A header of one column, the only column of sub-sensor `p` of sensor `j`, whose key names
      that sensor, resolves completely to one instance of the sensor with just that
      sub-sensor and one gauge-index entry for its metric at instance position 1. */
  lemma SingleColumnHeader(catalog: seq<Sensor>, j: nat, p: nat, registry: map<string, string>)
    requires WellFormed(catalog) && j < |catalog| && p < |catalog[j].subsensors|
    requires |catalog[j].subsensors[p].metrics| == 1
    requires catalog[j].subsensors[p].metrics[0].raw in LookupTable(catalog)
    requires LookupTable(catalog)[catalog[j].subsensors[p].metrics[0].raw] == catalog[j].name
    ensures var s := catalog[j]; var sub := s.subsensors[p]; var m := sub.metrics[0];
      Resolve(catalog, [m.raw], Resolution([], [], registry)) ==
        (Resolution([Instance(s.name, [sub.name])],
                    [GaugeEntry(s.name, 1, sub.name, m.name, m.multiplier)],
                    GetOrCreate(registry, m)), true)
  {
    var s := catalog[j];
    var sub := s.subsensors[p];
    var m := sub.metrics[0];
    SingleColumnDecomposed(catalog, m.raw);
    var st := Resolution([], [], registry);
    SingleColumnStep(catalog, j, p, st);
    var r := Step(catalog, st, [m.raw]);
    var e := GaugeEntry(s.name, 1, sub.name, m.name, m.multiplier);
    assert [] + [Instance(s.name, [sub.name])] == [Instance(s.name, [sub.name])];
    assert [] + [e] == [e];
    assert r == Resolution([Instance(s.name, [sub.name])], [e], GetOrCreate(registry, m));
    assert Steps(catalog, st, [[m.raw]]) == r by {
      assert [[m.raw]][1..] == [];
    }
    assert Resolve(catalog, [m.raw], st) == (r, true);
  }

  /** A one-column header whose column is a key is one chunk, and complete. */
  lemma SingleColumnDecomposed(catalog: seq<Sensor>, k: string)
    requires WellFormed(catalog) && k in LookupTable(catalog)
    ensures Decomposed(catalog, [k]) == Decomposition([[k]], true)
  {
    var tokens := [k];
    EmptyIsNoKey(catalog);
    var table := LookupTable(catalog);
    assert tokens[..1] == tokens;
    assert LongestKeyPrefix(table, tokens, 1) == Some(1);
    assert tokens[1..] == [];
  }

  /** A step on the only column of a single-column sub-sensor, whose key names its sensor,
      opens an instance of the sensor with that sub-sensor and adds its one entry. */
  lemma SingleColumnStep(catalog: seq<Sensor>, j: nat, p: nat, st: Resolution)
    requires WellFormed(catalog) && j < |catalog| && p < |catalog[j].subsensors|
    requires |catalog[j].subsensors[p].metrics| == 1
    requires catalog[j].subsensors[p].metrics[0].raw in LookupTable(catalog)
    requires LookupTable(catalog)[catalog[j].subsensors[p].metrics[0].raw] == catalog[j].name
    ensures var s := catalog[j]; var sub := s.subsensors[p]; var m := sub.metrics[0];
      Step(catalog, st, [m.raw]) ==
        Resolution(st.config + [Instance(s.name, [sub.name])],
                   st.index + [GaugeEntry(s.name, |st.config| + 1, sub.name, m.name, m.multiplier)],
                   GetOrCreate(st.registry, m))
  {
    var s := catalog[j];
    var sub := s.subsensors[p];
    var m := sub.metrics[0];
    var tokens := [m.raw];
    FindSensorByName(catalog, j);
    StepUnfold(catalog, st, tokens, s);
    var started := Resolution(st.config + [Instance(s.name, [])], st.index, st.registry);
    assert SensorWellFormed(s);
    SingleSubColumns(s, p);
    WalkConsumesSelection(started, s, 0, [p]);
    var r := Enable(started, s.name, sub);
    assert EnableAll(started, s, [p]) == r;
    assert Step(catalog, st, tokens) == r;
    EnableSingle(st, s.name, sub);
  }

  /** Enabling a single-metric sub-sensor on a freshly opened instance. */
  lemma EnableSingle(st: Resolution, name: string, sub: SubSensor)
    requires |sub.metrics| == 1
    ensures var m := sub.metrics[0];
      Enable(Resolution(st.config + [Instance(name, [])], st.index, st.registry), name, sub) ==
        Resolution(st.config + [Instance(name, [sub.name])],
                   st.index + [GaugeEntry(name, |st.config| + 1, sub.name, m.name, m.multiplier)],
                   GetOrCreate(st.registry, m))
  {
    var started := Resolution(st.config + [Instance(name, [])], st.index, st.registry);
    assert started.config[..|started.config| - 1] == st.config;
    assert started.config[|started.config| - 1] == Instance(name, []);
    assert [] + [sub.name] == [sub.name];
    var m := sub.metrics[0];
    var e := GaugeEntry(name, |st.config| + 1, sub.name, m.name, m.multiplier);
    assert EntriesFor(name, |st.config| + 1, sub.name, sub.metrics) == [e];
    assert sub.metrics[..0] == [];
    assert Register(st.registry, sub.metrics) == GetOrCreate(Register(st.registry, []), m);
  }

  /** The columns of a single-metric sub-sensor on its own are its one raw name. */
  lemma SingleSubColumns(s: Sensor, p: nat)
    requires p < |s.subsensors| && |s.subsensors[p].metrics| == 1
    ensures Columns(s, [p]) == [s.subsensors[p].metrics[0].raw]
  {
    var sub := s.subsensors[p];
    assert Raw(sub) == [sub.metrics[0].raw];
    assert Pick(RawLists(s.subsensors), [p]) == [Raw(sub)];
    assert [Raw(sub)][1..] == [];
    assert Flatten([Raw(sub)]) == Raw(sub) + Flatten([Raw(sub)][1..]);
  }
}
