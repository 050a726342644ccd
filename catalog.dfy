/** The static sensor catalog of the exporter: sensors in declaration order, each with its
    sub-sensors in declaration order, each sub-sensor with its metric records. */
module Catalog {
  import opened Text

  datatype Option<T> = None | Some(value: T)

  /** One `(raw column, metric name, description, multiplier)` record. The multiplier is
      kept as an exact decimal. */
  datatype Metric = Metric(raw: string, name: string, description: string, multiplier: real)

  datatype SubSensor = SubSensor(name: string, metrics: seq<Metric>)

  datatype Sensor = Sensor(name: string, subsensors: seq<SubSensor>)

  /** The catalog the exporter ships with, in its declared order. */
  const Sensors: seq<Sensor> := [Bme280, Ccs811, Icm20948, Ms8607, OpenLogArtemis, Vcnl4040]

  const Bme280: Sensor := Sensor("BME280 atmospheric sensor", [
    SubSensor("Pressure", [Metric("pressure_Pa", "qwiic_pressure_pascals", "The ambient pressure in pascals", 1.0)]),
    SubSensor("Humidity", [Metric("humidity_%", "qwiic_humidity_percent", "The relative humidity in percent", 1.0)]),
    SubSensor("Altitude", [Metric("altitude_m", "qwiic_altitude_meters", "The altitude in meters", 1.0)]),
    SubSensor("Temperature", [Metric("temp_degC", "qwiic_temperature_degrees", "The temperature in degrees celcius", 1.0)])
  ])

  const Ccs811: Sensor := Sensor("CCS811 air quality sensor", [
    SubSensor("TVOC", [Metric("tvoc_ppb", "qwiic_tvoc_ppb", "TVOC (Total Volatile Organic Compounds) parts per billion", 1.0)]),
    SubSensor("CO2", [Metric("co2_ppm", "qwiic_co2_ppm", "CO² parts per million", 1.0)])
  ])

  /** Accelerometer readings are in milli-g and magnetometer readings in micro-tesla,
      hence their multipliers. */
  const Icm20948: Sensor := Sensor("ICM-20948 IMU", [
    SubSensor("Accelerometer", [
      Metric("aX", "qwiic_accelerometer_x_gs", "Accelration on the X axis in gs", 0.001),
      Metric("aY", "qwiic_accelerometer_y_gs", "Accelration on the Y axis in gs", 0.001),
      Metric("aZ", "qwiic_accelerometer_z_gs", "Accelration on the Z axis in gs", 0.001)
    ]),
    SubSensor("Gyro", [
      Metric("gX", "qwiic_gyroscope_x_degrees", "Gyroscope X axis degrees per second", 1.0),
      Metric("gY", "qwiic_gyroscope_y_degrees", "Gyroscope Y axis degrees per second", 1.0),
      Metric("gZ", "qwiic_gyroscope_z_degrees", "Gyroscope Z axis degrees per second", 1.0)
    ]),
    SubSensor("Magnetometer", [
      Metric("mX", "qwiic_magnetometer_x_teslas", "Magnetometer X axis teslas", 0.000001),
      Metric("mY", "qwiic_magnetometer_y_teslas", "Magnetometer Y axis teslas", 0.000001),
      Metric("mZ", "qwiic_magnetometer_z_teslas", "Magnetometer Z axis teslas", 0.000001)
    ]),
    SubSensor("Temperature", [Metric("imu_degC", "qwiic_temperature_degrees", "Temperature in degrees celcius", 1.0)])
  ])

  /** Pressure is read in hectopascals, hence the multiplier 100. */
  const Ms8607: Sensor := Sensor("MS8607 PHT sensor", [
    SubSensor("Humidity", [Metric("humidity_%", "qwiic_humidity_percent", "The relative humidity in percent", 1.0)]),
    SubSensor("Pressure", [Metric("hPa", "qwiic_pressure_pascals", "The pressure in pascals", 100.0)]),
    SubSensor("Temperature", [Metric("degC", "qwiic_temperature_degrees", "The temperature in degrees celcius", 1.0)])
  ])

  const OpenLogArtemis: Sensor := Sensor("OpenLog Artemis", [
    SubSensor("Frequency", [Metric("output_Hz", "qwiic_output_hertz", "The actual frequency of output from OpenLog Artemis in hertz", 1.0)]),
    SubSensor("Counter", [Metric("count", "qwiic_measurements_total", "The number of measurements made by OpenLog Artemis in hertz", 1.0)])
  ])

  const Vcnl4040: Sensor := Sensor("VCNL4040 proximity sensor", [
    SubSensor("Proximity", [Metric("prox(no unit)", "qwiic_proximity", "The output of the proximity sensor (higher value=object closer)", 1.0)]),
    SubSensor("Ambient Light", [Metric("ambient_lux", "qwiic_light_lux", "The ambient light in Lux", 1.0)])
  ])

  /** `[metric[0] for metric in metrics]`: the raw column names of a sub-sensor, in order. */
  function Raw(sub: SubSensor): (r: seq<string>)
    ensures |r| == |sub.metrics|
    ensures forall k :: 0 <= k < |r| ==> r[k] == sub.metrics[k].raw
  {
    RawNames(sub.metrics)
  }

  function RawNames(metrics: seq<Metric>): (r: seq<string>)
    ensures |r| == |metrics|
    ensures forall k :: 0 <= k < |r| ==> r[k] == metrics[k].raw
  {
    if |metrics| == 0 then [] else [metrics[0].raw] + RawNames(metrics[1..])
  }

  /** The raw column lists of all sub-sensors of a sensor, in declared order. */
  function RawLists(subs: seq<SubSensor>): (r: seq<seq<string>>)
    ensures |r| == |subs|
    ensures forall p :: 0 <= p < |r| ==> r[p] == Raw(subs[p])
  {
    if |subs| == 0 then [] else [Raw(subs[0])] + RawLists(subs[1..])
  }

  /** A sub-sensor has at least one column, its raw names are non-empty and comma-free, and
      its metric names differ. */
  predicate SubSensorWellFormed(sub: SubSensor)
  {
    |sub.metrics| > 0 && Tokens(Raw(sub), ',') &&
    (forall a, b :: 0 <= a < b < |sub.metrics| ==> sub.metrics[a].name != sub.metrics[b].name)
  }

  /** Sub-sensors are well formed, their names differ, and no two of them start with the
      same raw column. */
  predicate SensorWellFormed(s: Sensor)
  {
    (forall p :: 0 <= p < |s.subsensors| ==> SubSensorWellFormed(s.subsensors[p])) &&
    (forall p, q :: 0 <= p < q < |s.subsensors| ==>
       s.subsensors[p].name != s.subsensors[q].name &&
       s.subsensors[p].metrics[0].raw != s.subsensors[q].metrics[0].raw)
  }

  /** The conditions the resolution engine relies on: sensor names are distinct (they are
      dictionary keys) and every sensor is well formed. */
  predicate WellFormed(catalog: seq<Sensor>)
  {
    (forall i, j :: 0 <= i < j < |catalog| ==> catalog[i].name != catalog[j].name) &&
    (forall i :: 0 <= i < |catalog| ==> SensorWellFormed(catalog[i]))
  }

  /** `self.sensors[name]`: the sensor with that name, if any. */
  function FindSensor(catalog: seq<Sensor>, name: string): (r: Option<Sensor>)
    ensures r.Some? <==> exists i :: 0 <= i < |catalog| && catalog[i].name == name
    ensures r.Some? ==> r.value in catalog && r.value.name == name
  {
    if |catalog| == 0 then None
    else if catalog[0].name == name then Some(catalog[0])
    else
      var r := FindSensor(catalog[1..], name);
      assert forall i :: 1 <= i < |catalog| ==> catalog[i] == catalog[1..][i - 1];
      r
  }

  /** With distinct names, looking a sensor up by its name finds that very sensor. */
  lemma FindSensorByName(catalog: seq<Sensor>, i: nat)
    requires WellFormed(catalog) && i < |catalog|
    ensures FindSensor(catalog, catalog[i].name) == Some(catalog[i])
  {
    var r := FindSensor(catalog, catalog[i].name);
    var j :| 0 <= j < |catalog| && catalog[j] == r.value;
    assert catalog[j].name == catalog[i].name;
  }

  /** `self.sensors[sensor][name]`: the sub-sensor with that name, if any. */
  function FindSubSensor(s: Sensor, name: string): (r: Option<SubSensor>)
    ensures r.Some? <==> exists p :: 0 <= p < |s.subsensors| && s.subsensors[p].name == name
    ensures r.Some? ==> r.value in s.subsensors && r.value.name == name
  {
    FindSubIn(s.subsensors, name)
  }

  function FindSubIn(subs: seq<SubSensor>, name: string): (r: Option<SubSensor>)
    ensures r.Some? <==> exists p :: 0 <= p < |subs| && subs[p].name == name
    ensures r.Some? ==> r.value in subs && r.value.name == name
  {
    if |subs| == 0 then None
    else if subs[0].name == name then Some(subs[0])
    else
      var r := FindSubIn(subs[1..], name);
      assert forall p :: 1 <= p < |subs| ==> subs[p] == subs[1..][p - 1];
      r
  }

  /** `get_subsensor_signature`: the raw column names of a sub-sensor looked up by sensor
      and sub-sensor name. A missing name is a KeyError in the source; its one caller passes
      names taken from the catalog. */
  function GetSubsensorSignature(catalog: seq<Sensor>, sensorname: string, subname: string): seq<string>
    requires FindSensor(catalog, sensorname).Some?
    requires FindSubSensor(FindSensor(catalog, sensorname).value, subname).Some?
  {
    Raw(FindSubSensor(FindSensor(catalog, sensorname).value, subname).value)
  }

  /** With distinct names, looking a sub-sensor up by its sensor's and its own name gives
      the columns of that very sub-sensor. */
  lemma GetSubsensorSignatureOf(catalog: seq<Sensor>, i: nat, p: nat)
    requires WellFormed(catalog) && i < |catalog| && p < |catalog[i].subsensors|
    ensures FindSensor(catalog, catalog[i].name) == Some(catalog[i])
    ensures FindSubSensor(catalog[i], catalog[i].subsensors[p].name) == Some(catalog[i].subsensors[p])
    ensures GetSubsensorSignature(catalog, catalog[i].name, catalog[i].subsensors[p].name)
            == Raw(catalog[i].subsensors[p])
  {
    FindSensorByName(catalog, i);
    var s := catalog[i];
    var sub := FindSubSensor(s, s.subsensors[p].name).value;
    var q :| 0 <= q < |s.subsensors| && s.subsensors[q] == sub;
    assert SensorWellFormed(s);
    assert s.subsensors[q].name == s.subsensors[p].name;
  }
}
