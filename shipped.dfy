/** Facts about the catalog the exporter ships with, and what it makes of a header line
    that enables only the logger's output frequency. */
module Shipped {
  import opened Text
  import opened Catalog
  import opened SignatureTable
  import opened Resolver
  import opened ResolverLemmas

  /** The shipped catalog meets every condition the resolver relies on. */
  lemma ShippedWellFormed()
    ensures WellFormed(Sensors)
  {
    Bme280WellFormed();
    Ccs811WellFormed();
    Icm20948WellFormed();
    Ms8607WellFormed();
    OpenLogArtemisWellFormed();
    Vcnl4040WellFormed();
    assert forall i :: 0 <= i < |Sensors| ==> SensorWellFormed(Sensors[i]);
  }

  lemma Bme280SubsWellFormed()
    ensures forall p :: 0 <= p < |Bme280.subsensors| ==> SubSensorWellFormed(Bme280.subsensors[p])
  {
    SubsWellFormed(Bme280.subsensors);
  }

  lemma Bme280WellFormed()
    ensures SensorWellFormed(Bme280)
  {
    Bme280SubsWellFormed();
    DistinctSubs(Bme280, ["Pressure", "Humidity", "Altitude", "Temperature"], ["pressure_Pa", "humidity_%", "altitude_m", "temp_degC"]);
  }

  lemma Ccs811SubsWellFormed()
    ensures forall p :: 0 <= p < |Ccs811.subsensors| ==> SubSensorWellFormed(Ccs811.subsensors[p])
  {
    SubsWellFormed(Ccs811.subsensors);
  }

  lemma Ccs811WellFormed()
    ensures SensorWellFormed(Ccs811)
  {
    Ccs811SubsWellFormed();
    DistinctSubs(Ccs811, ["TVOC", "CO2"], ["tvoc_ppb", "co2_ppm"]);
  }

  lemma Icm20948WellFormed()
    ensures SensorWellFormed(Icm20948)
  {
    Icm20948SubsWellFormed();
    DistinctSubs(Icm20948, ["Accelerometer", "Gyro", "Magnetometer", "Temperature"], ["aX", "gX", "mX", "imu_degC"]);
  }

  lemma Icm20948SubsWellFormed()
    ensures forall p :: 0 <= p < |Icm20948.subsensors| ==> SubSensorWellFormed(Icm20948.subsensors[p])
  {
    ImuTriple(0);
    ImuTriple(1);
    ImuTriple(2);
    SingleWellFormed(Icm20948.subsensors[3]);
  }

  /** The three-axis sub-sensors of the IMU. */
  lemma ImuTriple(p: nat)
    requires p < 3
    ensures SubSensorWellFormed(Icm20948.subsensors[p])
  {
    TripleWellFormed(Icm20948.subsensors[p]);
  }

  lemma Ms8607SubsWellFormed()
    ensures forall p :: 0 <= p < |Ms8607.subsensors| ==> SubSensorWellFormed(Ms8607.subsensors[p])
  {
    SubsWellFormed(Ms8607.subsensors);
  }

  lemma Ms8607WellFormed()
    ensures SensorWellFormed(Ms8607)
  {
    Ms8607SubsWellFormed();
    DistinctSubs(Ms8607, ["Humidity", "Pressure", "Temperature"], ["humidity_%", "hPa", "degC"]);
  }

  lemma OpenLogArtemisSubsWellFormed()
    ensures forall p :: 0 <= p < |OpenLogArtemis.subsensors| ==> SubSensorWellFormed(OpenLogArtemis.subsensors[p])
  {
    SubsWellFormed(OpenLogArtemis.subsensors);
  }

  lemma OpenLogArtemisWellFormed()
    ensures SensorWellFormed(OpenLogArtemis)
  {
    OpenLogArtemisSubsWellFormed();
    DistinctSubs(OpenLogArtemis, ["Frequency", "Counter"], ["output_Hz", "count"]);
  }

  lemma Vcnl4040SubsWellFormed()
    ensures forall p :: 0 <= p < |Vcnl4040.subsensors| ==> SubSensorWellFormed(Vcnl4040.subsensors[p])
  {
    SubsWellFormed(Vcnl4040.subsensors);
  }

  lemma Vcnl4040WellFormed()
    ensures SensorWellFormed(Vcnl4040)
  {
    Vcnl4040SubsWellFormed();
    DistinctSubs(Vcnl4040, ["Proximity", "Ambient Light"], ["prox(no unit)", "ambient_lux"]);
  }

  /** Sub-sensors whose names and first raw columns differ pairwise, given as the lists of
      both, make a well-formed sensor once each sub-sensor is well formed. */
  lemma DistinctSubs(s: Sensor, names: seq<string>, firsts: seq<string>)
    requires |names| == |firsts| == |s.subsensors|
    requires forall p :: 0 <= p < |s.subsensors| ==>
      (SubSensorWellFormed(s.subsensors[p]) &&
       s.subsensors[p].name == names[p] && s.subsensors[p].metrics[0].raw == firsts[p])
    requires forall p, q :: 0 <= p < q < |names| ==> names[p] != names[q] && firsts[p] != firsts[q]
    ensures SensorWellFormed(s)
  {
  }

  /** Sub-sensors with one metric each are well formed when their raw name is a token. */
  lemma SubsWellFormed(subs: seq<SubSensor>)
    requires forall p :: 0 <= p < |subs| ==>
      (|subs[p].metrics| == 1 && |subs[p].metrics[0].raw| > 0 && ',' !in subs[p].metrics[0].raw)
    ensures forall p :: 0 <= p < |subs| ==> SubSensorWellFormed(subs[p])
  {
    forall p | 0 <= p < |subs| ensures SubSensorWellFormed(subs[p]) {
      SingleWellFormed(subs[p]);
    }
  }

  lemma SingleWellFormed(sub: SubSensor)
    requires |sub.metrics| == 1 && |sub.metrics[0].raw| > 0 && ',' !in sub.metrics[0].raw
    ensures SubSensorWellFormed(sub)
  {
    assert Raw(sub) == [sub.metrics[0].raw];
  }

  lemma TripleWellFormed(sub: SubSensor)
    requires |sub.metrics| == 3
    requires forall k :: 0 <= k < 3 ==> |sub.metrics[k].raw| > 0 && ',' !in sub.metrics[k].raw
    requires sub.metrics[0].name != sub.metrics[1].name && sub.metrics[0].name != sub.metrics[2].name
    requires sub.metrics[1].name != sub.metrics[2].name
    ensures SubSensorWellFormed(sub)
  {
  }

  // ---------------------------------------------------------------- the lookup table

  /** `humidity_%` is a key of both the BME280 and the MS8607. */
  lemma HumidityOfBoth()
    ensures "humidity_%" in SensorKeys(Bme280) && "humidity_%" in SensorKeys(Ms8607)
  {
    SingleKey(Bme280, 1, "humidity_%");
    SingleKey(Ms8607, 0, "humidity_%");
  }

  /** The MS8607 comes after the BME280 in the catalog, so the table maps `humidity_%` to it. */
  lemma HumidityGoesToMs8607()
    ensures "humidity_%" in LookupTable(Sensors)
    ensures LookupTable(Sensors)["humidity_%"] == "MS8607 PHT sensor"
  {
    OpenLogArtemisWellFormed();
    Vcnl4040WellFormed();
    assert Sensors[3] == Ms8607 && Sensors[4] == OpenLogArtemis && Sensors[5] == Vcnl4040;
    SoleColumnOfFourth(Sensors, 0, "humidity_%");
  }

  /** `output_Hz` is a key, and it names the OpenLog Artemis. */
  lemma OutputHzGoesToOpenLog()
    ensures "output_Hz" in LookupTable(Sensors)
    ensures LookupTable(Sensors)["output_Hz"] == "OpenLog Artemis"
  {
    Vcnl4040WellFormed();
    assert Sensors[4] == OpenLogArtemis && Sensors[5] == Vcnl4040;
    SoleColumnOfFifth(Sensors, "output_Hz");
  }

  /** In a catalog of six sensors, the sole column `k` of sub-sensor `p` of the fourth names
      the fourth when no sub-sensor of the last two has `k` as its sole column. */
  lemma SoleColumnOfFourth(catalog: seq<Sensor>, p: nat, k: string)
    requires |catalog| == 6 && ',' !in k
    requires SensorWellFormed(catalog[4]) && SensorWellFormed(catalog[5])
    requires p < |catalog[3].subsensors| && |catalog[3].subsensors[p].metrics| == 1
    requires catalog[3].subsensors[p].metrics[0].raw == k
    requires forall q :: 0 <= q < |catalog[4].subsensors| ==>
      |catalog[4].subsensors[q].metrics| == 1 && catalog[4].subsensors[q].metrics[0].raw != k
    requires forall q :: 0 <= q < |catalog[5].subsensors| ==>
      |catalog[5].subsensors[q].metrics| == 1 && catalog[5].subsensors[q].metrics[0].raw != k
    ensures k in LookupTable(catalog) && LookupTable(catalog)[k] == catalog[3].name
  {
    SingleKey(catalog[3], p, k);
    NotSoleColumn(catalog[4], k);
    NotSoleColumn(catalog[5], k);
    FourthOfSix(catalog, k);
  }

  /** In a catalog of six sensors, the sole column `k` of the first sub-sensor of the fifth
      names the fifth when no sub-sensor of the last has `k` as its sole column. */
  lemma SoleColumnOfFifth(catalog: seq<Sensor>, k: string)
    requires |catalog| == 6 && ',' !in k && SensorWellFormed(catalog[5])
    requires |catalog[4].subsensors| > 0 && |catalog[4].subsensors[0].metrics| == 1
    requires catalog[4].subsensors[0].metrics[0].raw == k
    requires forall q :: 0 <= q < |catalog[5].subsensors| ==>
      |catalog[5].subsensors[q].metrics| == 1 && catalog[5].subsensors[q].metrics[0].raw != k
    ensures k in LookupTable(catalog) && LookupTable(catalog)[k] == catalog[4].name
  {
    SingleKey(catalog[4], 0, k);
    NotSoleColumn(catalog[5], k);
    FifthOfSix(catalog, k);
  }

  /** In a catalog of six sensors, a key of the fourth that the last two do not produce
      names the fourth. */
  lemma FourthOfSix(catalog: seq<Sensor>, k: string)
    requires |catalog| == 6 && k in SensorKeys(catalog[3])
    requires k !in SensorKeys(catalog[4]) && k !in SensorKeys(catalog[5])
    ensures k in LookupTable(catalog) && LookupTable(catalog)[k] == catalog[3].name
  {
    forall j' | 3 < j' < |catalog| ensures k !in SensorKeys(catalog[j']) {
      assert j' == 4 || j' == 5;
    }
    LastProducerIs(catalog, k, 3);
  }

  /** In a catalog of six sensors, a key of the fifth that the last does not produce names
      the fifth. */
  lemma FifthOfSix(catalog: seq<Sensor>, k: string)
    requires |catalog| == 6 && k in SensorKeys(catalog[4]) && k !in SensorKeys(catalog[5])
    ensures k in LookupTable(catalog) && LookupTable(catalog)[k] == catalog[4].name
  {
    forall j' | 4 < j' < |catalog| ensures k !in SensorKeys(catalog[j']) {
      assert j' == 5;
    }
    LastProducerIs(catalog, k, 4);
  }

  /** A comma-free name that no sub-sensor of a sensor of single-column sub-sensors has as its
      column is none of the sensor's keys. */
  lemma NotSoleColumn(s: Sensor, k: string)
    requires SensorWellFormed(s) && ',' !in k
    requires forall q :: 0 <= q < |s.subsensors| ==>
      |s.subsensors[q].metrics| == 1 && s.subsensors[q].metrics[0].raw != k
    ensures k !in SensorKeys(s)
  {
    SoleColumns(s, k);
    NotKeyOf(s, k);
  }

  /** A sub-sensor with the single column `k` makes `k` a key of its sensor. */
  lemma SingleKey(s: Sensor, p: nat, k: string)
    requires p < |s.subsensors| && |s.subsensors[p].metrics| == 1 && s.subsensors[p].metrics[0].raw == k
    ensures k in SensorKeys(s)
  {
    SingleSelectionKey(s, p);
    assert Raw(s.subsensors[p]) == [k];
  }

  /** Single-metric sub-sensors have `[k]` as columns only when `k` is their raw name. */
  lemma SoleColumns(s: Sensor, k: string)
    requires forall p :: 0 <= p < |s.subsensors| ==>
      (|s.subsensors[p].metrics| == 1 && s.subsensors[p].metrics[0].raw != k)
    ensures forall p :: 0 <= p < |s.subsensors| ==> Raw(s.subsensors[p]) != [k]
  {
  }

  // ---------------------------------------------------------------- a header with one column

  /** The header line with only the output frequency enabled has that one column left after
      the date, the time and the empty element after the trailing comma are dropped. */
  lemma OutputHzHeaderTokens()
    ensures HeaderTokens("rtcDate,rtcTime,output_Hz,") == ["output_Hz"]
  {
    OutputHzLine();
    OneColumnHeader("rtcDate", "rtcTime", "output_Hz");
  }

  /** That header line is the date, time and frequency column names, each followed by a comma. */
  lemma OutputHzLine()
    ensures ',' !in "rtcDate" && ',' !in "rtcTime" && ',' !in "output_Hz" && Kept("output_Hz")
    ensures "rtcDate" + [','] + "rtcTime" + [','] + "output_Hz" + [','] == "rtcDate,rtcTime,output_Hz,"
  {
  }

  /** A header line of a date, a time and one kept column, with a trailing comma. */
  lemma OneColumnHeader(date: string, time: string, col: string)
    requires ',' !in date && ',' !in time && ',' !in col && Kept(col)
    ensures HeaderTokens(date + [','] + time + [','] + col + [',']) == [col]
  {
    HeaderTokensDropThenFilter(date, time, col + [',']);
    assert date + [','] + time + [','] + col + [','] == date + [','] + time + [','] + (col + [',']);
    SplitField(col, "");
    assert col + [','] + "" == col + [','];
    assert Split("", ',') == [""];
    assert KeepColumns([col, ""]) == [col] by {
      assert [col, ""][1..] == [""];
      assert [""][1..] == [];
    }
  }

  /** Parsing that header line configures one OpenLog Artemis with only its Frequency
      sub-sensor and one gauge-index entry, for the output frequency of instance 1; the whole
      header is resolved and the gauge is created unless one of its name exists. */
  lemma OnlyOutputHz(registry: map<string, string>)
    ensures WellFormed(Sensors)
    ensures Resolve(Sensors, HeaderTokens("rtcDate,rtcTime,output_Hz,"), Resolution([], [], registry)) ==
      (Resolution([Instance("OpenLog Artemis", ["Frequency"])],
                  [GaugeEntry("OpenLog Artemis", 1, "Frequency", "qwiic_output_hertz", 1.0)],
                  GetOrCreate(registry, Metric("output_Hz", "qwiic_output_hertz",
                    "The actual frequency of output from OpenLog Artemis in hertz", 1.0))), true)
  {
    OutputHzHeaderTokens();
    OutputHzResolved(registry);
    OpenLogFrequency();
  }

  /** The one column `output_Hz` resolves to the Frequency sub-sensor of the OpenLog Artemis. */
  lemma OutputHzResolved(registry: map<string, string>)
    ensures WellFormed(Sensors) && OpenLogArtemis == Sensors[4]
    ensures |OpenLogArtemis.subsensors| > 0 && |OpenLogArtemis.subsensors[0].metrics| == 1
    ensures var sub := OpenLogArtemis.subsensors[0]; var m := sub.metrics[0];
      Resolve(Sensors, ["output_Hz"], Resolution([], [], registry)) ==
        (Resolution([Instance(OpenLogArtemis.name, [sub.name])],
                    [GaugeEntry(OpenLogArtemis.name, 1, sub.name, m.name, m.multiplier)],
                    GetOrCreate(registry, m)), true)
  {
    ShippedWellFormed();
    OutputHzGoesToOpenLog();
    OpenLogFrequency();
    assert Sensors[4] == OpenLogArtemis;
    SingleColumnHeader(Sensors, 4, 0, registry);
  }

  /** The first sub-sensor of the OpenLog Artemis has the single column `output_Hz`. */
  lemma OpenLogFrequency()
    ensures |OpenLogArtemis.subsensors| > 0 && |OpenLogArtemis.subsensors[0].metrics| == 1
    ensures OpenLogArtemis.subsensors[0].metrics[0].raw == "output_Hz"
  {
  }
}
