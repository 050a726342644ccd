/** The signature lookup table: every column signature any combination of a sensor's
    sub-sensors can produce, mapped to the sensor's name (`get_subsensor_signatures` and
    `get_sensor_signature_lookup_table`). */
module SignatureTable {
  import opened Text
  import opened Combinations
  import opened Catalog

  /** The comma-joined raw columns of each sub-sensor, in declared order: the
      `subsensor_signatures` list built first by `get_subsensor_signatures`. */
  function SignatureStrings(s: Sensor): (r: seq<string>)
    ensures |r| == |s.subsensors|
    ensures forall p :: 0 <= p < |r| ==> r[p] == Join(Raw(s.subsensors[p]), ',')
  {
    JoinEach(RawLists(s.subsensors), ',')
  }

  /** `[Pick(xs, c) for c in cs]`. */
  function PickEach<T>(xs: seq<T>, cs: seq<seq<nat>>): (r: seq<seq<T>>)
    requires forall i, k :: 0 <= i < |cs| && 0 <= k < |cs[i]| ==> cs[i][k] < |xs|
    ensures |r| == |cs|
    ensures forall i :: 0 <= i < |cs| ==> r[i] == Pick(xs, cs[i])
  {
    if |cs| == 0 then [] else [Pick(xs, cs[0])] + PickEach(xs, cs[1..])
  }

  /** `get_subsensor_signatures`: for every non-empty selection of sub-sensors, largest
      selections first and in `itertools.combinations` order within one size, the list of
      the selected sub-sensors' signatures. */
  function SubsensorSignatures(s: Sensor): (r: seq<seq<string>>)
    ensures |r| == |Subsets(|s.subsensors|)|
    ensures forall i :: 0 <= i < |r| ==> r[i] == Pick(SignatureStrings(s), Subsets(|s.subsensors|)[i])
  {
    PickEach(SignatureStrings(s), Subsets(|s.subsensors|))
  }

  /** The table keys one sensor contributes: `",".join(signature)` for each of its signatures. */
  function SensorKeys(s: Sensor): seq<string>
  {
    JoinEach(SubsensorSignatures(s), ',')
  }

  /** For `k` sub-sensors, `get_subsensor_signatures` gives `2^k - 1` signature lists; sizes
      never grow along the list; within one size the selected positions are in
      lexicographic order; each list is an order-preserving selection without repetition
      of the sub-sensor signatures, and every such selection is listed exactly once. */
  lemma SubsensorSignaturesSpec(s: Sensor)
    ensures |SubsensorSignatures(s)| == Pow2(|s.subsensors|) - 1
    ensures forall i, j :: 0 <= i < j < |SubsensorSignatures(s)| ==>
      |SubsensorSignatures(s)[i]| >= |SubsensorSignatures(s)[j]|
    ensures forall i, j :: (0 <= i < j < |SubsensorSignatures(s)| &&
      |SubsensorSignatures(s)[i]| == |SubsensorSignatures(s)[j]|) ==>
      LexLess(Subsets(|s.subsensors|)[i], Subsets(|s.subsensors|)[j])
    ensures forall c :: c in Subsets(|s.subsensors|) <==> |c| >= 1 && Selection(c, 0, |s.subsensors|)
    ensures forall i, j :: 0 <= i < j < |Subsets(|s.subsensors|)| ==>
      Subsets(|s.subsensors|)[i] != Subsets(|s.subsensors|)[j]
  {
    SubsetsCount(|s.subsensors|);
    SubsetsOrdered(|s.subsensors|);
    SubsetsExact(|s.subsensors|);
  }

  /** One sensor's keys, each mapped to the sensor's name, inserted in order into `m`. */
  function InsertAll(m: map<string, string>, keys: seq<string>, name: string): (r: map<string, string>)
    ensures forall k :: k in r <==> k in m || k in keys
    ensures forall k :: k in r ==> r[k] == if k in keys then name else m[k]
    decreases |keys|
  {
    if |keys| == 0 then m
    else
      var r := InsertAll(m[keys[0] := name], keys[1..], name);
      assert forall k :: k in keys <==> k == keys[0] || k in keys[1..];
      r
  }

  /** `get_sensor_signature_lookup_table`: the keys of each sensor in catalog order, each
      mapped to the sensor's name; a later sensor overwrites an earlier one's entry. */
  function LookupTable(catalog: seq<Sensor>): map<string, string>
  {
    if |catalog| == 0 then map[]
    else
      var last := catalog[|catalog| - 1];
      InsertAll(LookupTable(catalog[..|catalog| - 1]), SensorKeys(last), last.name)
  }

  /** The position of the last sensor in the catalog that produces key `k`, or -1. */
  function LastProducer(catalog: seq<Sensor>, k: string): (j: int)
    ensures -1 <= j < |catalog|
    ensures j >= 0 ==> k in SensorKeys(catalog[j])
    ensures forall j' :: j < j' < |catalog| ==> k !in SensorKeys(catalog[j'])
  {
    if |catalog| == 0 then -1
    else if k in SensorKeys(catalog[|catalog| - 1]) then |catalog| - 1
    else
      var j := LastProducer(catalog[..|catalog| - 1], k);
      InitAgrees(catalog);
      j
  }

  /** All but the last sensor of a catalog are at the same positions in it. */
  lemma InitAgrees(catalog: seq<Sensor>)
    requires |catalog| > 0
    ensures forall j :: 0 <= j < |catalog| - 1 ==> catalog[..|catalog| - 1][j] == catalog[j]
  {
  }

  /** A string is a key exactly when some sensor produces it, and it maps to the name of the
      last sensor in catalog order that produces it. */
  lemma {:induction false} LookupTableLastWins(catalog: seq<Sensor>, k: string)
    ensures k in LookupTable(catalog) <==> LastProducer(catalog, k) >= 0
    ensures k in LookupTable(catalog) ==>
      LookupTable(catalog)[k] == catalog[LastProducer(catalog, k)].name
  {
    if |catalog| > 0 {
      var init := catalog[..|catalog| - 1];
      LookupTableLastWins(init, k);
      assert forall j :: 0 <= j < |init| ==> init[j] == catalog[j];
    }
  }

  /** A key produced by a sensor and by none after it maps to that sensor. */
  lemma LastProducerIs(catalog: seq<Sensor>, k: string, j: nat)
    requires j < |catalog| && k in SensorKeys(catalog[j])
    requires forall j' :: j < j' < |catalog| ==> k !in SensorKeys(catalog[j'])
    ensures k in LookupTable(catalog) && LookupTable(catalog)[k] == catalog[j].name
  {
    LookupTableLastWins(catalog, k);
  }

  /** Every signature of every sensor is a key. */
  lemma EveryCombinationIsKey(catalog: seq<Sensor>, j: nat, i: nat)
    requires j < |catalog| && i < |SensorKeys(catalog[j])|
    ensures SensorKeys(catalog[j])[i] in LookupTable(catalog)
  {
    LookupTableLastWins(catalog, SensorKeys(catalog[j])[i]);
    assert SensorKeys(catalog[j])[i] in SensorKeys(catalog[j]);
  }

  /** The raw columns a selection of sub-sensors puts in a header, in order. */
  function Columns(s: Sensor, c: seq<nat>): seq<string>
    requires forall k :: 0 <= k < |c| ==> c[k] < |s.subsensors|
  {
    Flatten(Pick(RawLists(s.subsensors), c))
  }

  /** The columns of a non-empty selection are the first selected sub-sensor's columns
      followed by those of the rest. */
  lemma ColumnsCons(s: Sensor, c: seq<nat>)
    requires |c| > 0
    requires forall k :: 0 <= k < |c| ==> c[k] < |s.subsensors|
    ensures Columns(s, c) == Raw(s.subsensors[c[0]]) + Columns(s, c[1..])
  {
    var xs := RawLists(s.subsensors);
    assert Pick(xs, c) == [xs[c[0]]] + Pick(xs, c[1..]);
    assert (Pick(xs, c))[1..] == Pick(xs, c[1..]);
  }

  /** The key of a selection is the comma join of its columns, and those columns are
      non-empty comma-free tokens. */
  lemma KeyIsJoinedColumns(s: Sensor, c: seq<nat>)
    requires SensorWellFormed(s)
    requires forall k :: 0 <= k < |c| ==> c[k] < |s.subsensors|
    ensures Join(Pick(SignatureStrings(s), c), ',') == Join(Columns(s, c), ',')
    ensures Tokens(Columns(s, c), ',')
  {
    var xss := Pick(RawLists(s.subsensors), c);
    var sigs := Pick(SignatureStrings(s), c);
    var joined := JoinEach(xss, ',');
    forall i | 0 <= i < |xss| ensures |xss[i]| > 0 && Tokens(xss[i], ',') && sigs[i] == joined[i] {
      assert xss[i] == Raw(s.subsensors[c[i]]);
      assert SubSensorWellFormed(s.subsensors[c[i]]);
    }
    assert sigs == joined;
    JoinOfJoins(xss, ',');
    FlattenTokens(xss);
  }

  /** A selection of a well-formed sensor's sub-sensors is told by its columns: each
      selected sub-sensor is the only one that starts with its first column. */
  lemma {:induction false} ColumnsInjective(s: Sensor, c: seq<nat>, d: seq<nat>)
    requires SensorWellFormed(s)
    requires forall k :: 0 <= k < |c| ==> c[k] < |s.subsensors|
    requires forall k :: 0 <= k < |d| ==> d[k] < |s.subsensors|
    ensures Columns(s, c) == Columns(s, d) ==> c == d
    decreases |c|
  {
    ColumnsHead(s, c);
    ColumnsHead(s, d);
    if |c| > 0 && |d| > 0 && Columns(s, c) == Columns(s, d) {
      var p, q := c[0], d[0];
      assert s.subsensors[p].metrics[0].raw == s.subsensors[q].metrics[0].raw;
      assert p == q;
      assert Columns(s, c[1..]) == Columns(s, d[1..]);
      ColumnsInjective(s, c[1..], d[1..]);
      assert c == [p] + c[1..] && d == [q] + d[1..];
    }
  }

  /** The columns of a selection are empty exactly when it is; otherwise they start with the
      first selected sub-sensor's first column, and after that sub-sensor's columns come those
      of the rest of the selection. */
  lemma ColumnsHead(s: Sensor, c: seq<nat>)
    requires SensorWellFormed(s)
    requires forall k :: 0 <= k < |c| ==> c[k] < |s.subsensors|
    ensures |c| == 0 <==> Columns(s, c) == []
    ensures |c| > 0 ==> (Columns(s, c)[0] == s.subsensors[c[0]].metrics[0].raw &&
      |Raw(s.subsensors[c[0]])| <= |Columns(s, c)| &&
      Columns(s, c)[|Raw(s.subsensors[c[0]])|..] == Columns(s, c[1..]))
  {
    if |c| > 0 {
      ColumnsCons(s, c);
      var sub := s.subsensors[c[0]];
      assert SubSensorWellFormed(sub);
      assert Raw(sub)[0] == sub.metrics[0].raw;
    } else {
      assert Pick(RawLists(s.subsensors), c) == [];
    }
  }

  /** No two combinations of a well-formed sensor give the same key, so within one sensor
      no assignment of `get_sensor_signature_lookup_table` overwrites another. */
  lemma SensorKeysDistinct(s: Sensor, i: nat, j: nat)
    requires SensorWellFormed(s) && i < j < |SensorKeys(s)|
    ensures SensorKeys(s)[i] != SensorKeys(s)[j]
  {
    var cs := Subsets(|s.subsensors|);
    SubsetsExact(|s.subsensors|);
    var c := cs[i];
    var d := cs[j];
    assert c in cs && d in cs;
    assert SensorKeys(s)[i] == Join(SubsensorSignatures(s)[i], ',');
    assert SensorKeys(s)[j] == Join(SubsensorSignatures(s)[j], ',');
    KeyIsJoinedColumns(s, c);
    KeyIsJoinedColumns(s, d);
    ColumnsInjective(s, c, d);
    if SensorKeys(s)[i] == SensorKeys(s)[j] {
      JoinInjective(Columns(s, c), Columns(s, d), ',');
    }
  }

  lemma {:induction false} FlattenTokens(xss: seq<seq<string>>)
    requires forall i :: 0 <= i < |xss| ==> Tokens(xss[i], ',')
    ensures Tokens(Flatten(xss), ',')
  {
    if |xss| > 0 {
      FlattenTokens(xss[1..]);
      var f := Flatten(xss);
      assert f == xss[0] + Flatten(xss[1..]);
      forall i | 0 <= i < |f| ensures |f[i]| > 0 && ',' !in f[i] {
        if i >= |xss[0]| {
          assert f[i] == Flatten(xss[1..])[i - |xss[0]|];
        }
      }
    }
  }

  /** The position of `k` in `keys`. */
  function IndexOf(keys: seq<string>, k: string): (i: nat)
    requires k in keys
    ensures i < |keys| && keys[i] == k
  {
    if keys[0] == k then 0 else 1 + IndexOf(keys[1..], k)
  }

  /** The sensor a key maps to, found back in a well-formed catalog. */
  function Producer(catalog: seq<Sensor>, k: string): (s: Sensor)
    requires k in LookupTable(catalog)
    ensures s in catalog && k in SensorKeys(s)
  {
    LookupTableLastWins(catalog, k);
    catalog[LastProducer(catalog, k)]
  }

  /** The selection of the producing sensor's sub-sensors whose signature is `k`. */
  function ProducingSelection(s: Sensor, k: string): (c: seq<nat>)
    requires k in SensorKeys(s)
    ensures c in Subsets(|s.subsensors|) && Selection(c, 0, |s.subsensors|)
  {
    Subsets(|s.subsensors|)[IndexOf(SensorKeys(s), k)]
  }

  /** What the resolver relies on: a key maps to the name of a catalog sensor that is found
      back by that name, and the key is the comma join of the columns of one of that
      sensor's sub-sensor selections. */
  lemma KeyResolves(catalog: seq<Sensor>, k: string)
    requires WellFormed(catalog) && k in LookupTable(catalog)
    ensures Producer(catalog, k) in catalog
    ensures LookupTable(catalog)[k] == Producer(catalog, k).name
    ensures FindSensor(catalog, LookupTable(catalog)[k]) == Some(Producer(catalog, k))
    ensures k in SensorKeys(Producer(catalog, k))
    ensures k == Join(Columns(Producer(catalog, k), ProducingSelection(Producer(catalog, k), k)), ',')
    ensures Tokens(Columns(Producer(catalog, k), ProducingSelection(Producer(catalog, k), k)), ',')
  {
    LookupTableLastWins(catalog, k);
    var j := LastProducer(catalog, k);
    var s := catalog[j];
    FindSensorByName(catalog, j);
    var i := IndexOf(SensorKeys(s), k);
    var c := Subsets(|s.subsensors|)[i];
    assert SensorKeys(s)[i] == Join(SubsensorSignatures(s)[i], ',');
    assert SensorWellFormed(s);
    KeyIsJoinedColumns(s, c);
  }

  /** A key names a sensor of the catalog. */
  lemma KeyFindsSensor(catalog: seq<Sensor>, k: string)
    requires WellFormed(catalog) && k in LookupTable(catalog)
    ensures FindSensor(catalog, LookupTable(catalog)[k]).Some?
  {
    KeyResolves(catalog, k);
  }

  /** Every key is a non-empty string. */
  lemma KeyNonEmpty(catalog: seq<Sensor>, k: string)
    requires WellFormed(catalog) && k in LookupTable(catalog)
    ensures |k| > 0
  {
    KeyResolves(catalog, k);
    var s := Producer(catalog, k);
    var c := ProducingSelection(s, k);
    var xss := Pick(RawLists(s.subsensors), c);
    assert SensorWellFormed(s) && |c| >= 1;
    assert xss[0] == Raw(s.subsensors[c[0]]);
    assert SubSensorWellFormed(s.subsensors[c[0]]);
    FlattenNonEmpty(xss);
    JoinEmpty(Columns(s, c), ',');
  }

  /** No key is empty, so the resolver's zero-length prefix never matches. */
  lemma EmptyIsNoKey(catalog: seq<Sensor>)
    requires WellFormed(catalog)
    ensures "" !in LookupTable(catalog)
  {
    if "" in LookupTable(catalog) {
      KeyNonEmpty(catalog, "");
    }
  }

  /** Each sub-sensor on its own is a selection, so the join of its columns is one of the
      sensor's keys. */
  lemma SingleSelectionKey(s: Sensor, p: nat)
    requires p < |s.subsensors|
    ensures Join(Raw(s.subsensors[p]), ',') in SensorKeys(s)
  {
    var c := [p];
    assert Selection(c, 0, |s.subsensors|);
    SubsetsListed(|s.subsensors|, c);
    var i :| 0 <= i < |Subsets(|s.subsensors|)| && Subsets(|s.subsensors|)[i] == c;
    assert Pick(SignatureStrings(s), c) == [SignatureStrings(s)[p]];
    assert SensorKeys(s)[i] == Join(SubsensorSignatures(s)[i], ',');
  }

  /** A key of a well-formed sensor that holds no comma is a single column: the only raw
      name of one of its sub-sensors. */
  lemma CommaFreeKey(s: Sensor, k: string)
    requires SensorWellFormed(s) && k in SensorKeys(s) && ',' !in k
    ensures exists p :: 0 <= p < |s.subsensors| && Raw(s.subsensors[p]) == [k]
  {
    var i := IndexOf(SensorKeys(s), k);
    var c := Subsets(|s.subsensors|)[i];
    SubsetIsSelection(|s.subsensors|, i);
    assert SensorKeys(s)[i] == Join(SubsensorSignatures(s)[i], ',');
    KeyIsJoinedColumns(s, c);
    var cols := Columns(s, c);
    assert k == Join(cols, ',');
    ColumnsCons(s, c);
    assert SubSensorWellFormed(s.subsensors[c[0]]);
    var head := Raw(s.subsensors[c[0]]);
    assert |cols| >= 1;
    JoinHasSep(cols, ',');
    assert head == cols;
  }

  /** A join of two or more pieces holds the separator. */
  lemma JoinHasSep(parts: seq<string>, sep: char)
    ensures |parts| > 1 ==> sep in Join(parts, sep)
  {
    if |parts| > 1 {
      assert Join(parts, sep)[|parts[0]|] == sep;
    }
  }

  /** A comma-free string that is no sub-sensor's sole raw name is none of the sensor's keys. */
  lemma NotKeyOf(s: Sensor, k: string)
    requires SensorWellFormed(s) && ',' !in k
    requires forall p :: 0 <= p < |s.subsensors| ==> Raw(s.subsensors[p]) != [k]
    ensures k !in SensorKeys(s)
  {
    if k in SensorKeys(s) {
      CommaFreeKey(s, k);
    }
  }
}
