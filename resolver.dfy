/** The header resolver of `parse_sensor_config`, as functions of the catalog, the header
    tokens and the parser's state: the greedy longest-prefix decomposition of the header into
    sensor instances, the walk over each matched sensor's sub-sensors, the gauge index and
    the get-or-create gauge registry. */
module Resolver {
  import opened Text
  import opened Combinations
  import opened Catalog
  import opened SignatureTable

  /** One `sensorconfig` entry: a detected sensor and the names of its enabled sub-sensors. */
  datatype Instance = Instance(sensor: string, subsensors: seq<string>)

  /** One `gaugeindex` entry: the sensor, the 1-based position of its instance in
      `sensorconfig`, the sub-sensor and metric a data column feeds, and the multiplier
      applied to it. The gauge object is the registry's entry under `metric`. */
  datatype GaugeEntry = GaugeEntry(sensor: string, sensorindex: nat, subsensor: string, metric: string, multiplier: real)

  /** What the parser builds: `sensorconfig`, `gaugeindex`, and the gauge registry as a map
      from metric name to the description its gauge was created with. */
  datatype Resolution = Resolution(config: seq<Instance>, index: seq<GaugeEntry>, registry: map<string, string>)

  // ---------------------------------------------------------------- header tokens

  /** A header element the resolver keeps: neither `""` nor `"\r\n"`. */
  predicate Kept(x: string)
  {
    x != "" && x != "\r\n"
  }

  /** `[x for x in xs if x not in ["", "\r\n"]]`. */
  function KeepColumns(xs: seq<string>): (r: seq<string>)
    ensures |r| <= |xs|
  {
    if |xs| == 0 then []
    else
      var rest := KeepColumns(xs[1..]);
      if Kept(xs[0]) then [xs[0]] + rest else rest
  }

  /** The filter keeps exactly the elements that are neither `""` nor `"\r\n"`. */
  lemma {:induction false} KeepColumnsMembers(xs: seq<string>)
    ensures forall x :: x in KeepColumns(xs) <==> x in xs && Kept(x)
    decreases |xs|
  {
    if |xs| > 0 {
      KeepColumnsMembers(xs[1..]);
      assert forall x :: x in xs <==> x == xs[0] || x in xs[1..];
    }
  }

  /** The filter keeps a single element exactly when it is kept. */
  lemma KeepColumnsOne(x: string)
    ensures KeepColumns([x]) == if Kept(x) then [x] else []
  {
    assert [x][1..] == [];
  }

  /** The filter distributes over concatenation: what is kept of `xs` comes first, in its
      order and with its repetitions, then what is kept of `ys`. With KeepColumnsOne this
      determines the filter on every list. */
  lemma {:induction false} KeepColumnsAppend(xs: seq<string>, ys: seq<string>)
    ensures KeepColumns(xs + ys) == KeepColumns(xs) + KeepColumns(ys)
    decreases |xs|
  {
    if |xs| == 0 {
      assert xs + ys == ys;
    } else {
      KeepColumnsAppend(xs[1..], ys);
      assert xs + ys == [xs[0]] + (xs[1..] + ys);
      assert xs == [xs[0]] + xs[1..];
      KeepColumnsCons(xs[0], xs[1..] + ys);
      KeepColumnsCons(xs[0], xs[1..]);
    }
  }

  /** The filter looks at the first element, then at the rest. */
  lemma KeepColumnsCons(x: string, xs: seq<string>)
    ensures KeepColumns([x] + xs) == (if Kept(x) then [x] else []) + KeepColumns(xs)
  {
    assert ([x] + xs)[1..] == xs;
  }

  /** The header columns left to resolve: the comma split of the line without its first two
      elements (date and time), then without empty and `"\r\n"` elements. */
  function HeaderTokens(headerline: string): (r: seq<string>)
    ensures Tokens(r, ',')
    ensures r == KeepColumns(Drop(Split(headerline, ','), 2))
  {
    var pieces := Drop(Split(headerline, ','), 2);
    var r := KeepColumns(pieces);
    KeepColumnsMembers(pieces);
    assert forall i :: 0 <= i < |r| ==> r[i] in pieces;
    r
  }

  /** The header columns are exactly the fields after date and time that are kept. */
  lemma HeaderTokensMembers(headerline: string)
    ensures forall x :: x in HeaderTokens(headerline) <==> x in Drop(Split(headerline, ','), 2) && Kept(x)
  {
    KeepColumnsMembers(Drop(Split(headerline, ','), 2));
  }

  /** A separator-free first field splits off as the first piece. */
  lemma SplitField(field: string, rest: string)
    requires ',' !in field
    ensures Split(field + [','] + rest, ',') == [field] + Split(rest, ',')
  {
    var u := [','] + rest;
    assert field + [','] + rest == field + u;
    SplitFreePrefix(field, u, ',');
    assert u[0] == ',' && u[1..] == rest;
    assert Split(u, ',') == [""] + Split(rest, ',');
    assert field + "" == field;
  }

  /** The first two fields are dropped whatever they hold, even when empty; only the fields
      after them are filtered. */
  lemma HeaderTokensDropThenFilter(date: string, time: string, rest: string)
    requires ',' !in date && ',' !in time
    ensures HeaderTokens(date + [','] + time + [','] + rest) == KeepColumns(Split(rest, ','))
  {
    var tail := time + [','] + rest;
    assert date + [','] + time + [','] + rest == date + [','] + tail;
    SplitField(date, tail);
    SplitField(time, rest);
    assert Split(date + [','] + tail, ',') == [date, time] + Split(rest, ',');
  }

  // ---------------------------------------------------------------- longest prefix

  /** The key the first `j` header columns form. */
  function PrefixKey(tokens: seq<string>, j: nat): string
    requires j <= |tokens|
  {
    Join(tokens[..j], ',')
  }

  /** The search `for i in reversed(range(0, len(headerlist) + 1))`, started at length `i`:
      the longest prefix of at most `i` columns whose key is in the table, if any. */
  function LongestKeyPrefix(table: map<string, string>, tokens: seq<string>, i: nat): (r: Option<nat>)
    requires i <= |tokens|
    ensures r.Some? ==> r.value <= i && PrefixKey(tokens, r.value) in table
    ensures forall j :: 0 <= j <= i && (r.None? || r.value < j) ==> PrefixKey(tokens, j) !in table
    decreases i
  {
    if PrefixKey(tokens, i) in table then Some(i)
    else if i == 0 then None
    else LongestKeyPrefix(table, tokens, i - 1)
  }

  /** The search's answer is the only one with its two properties: a longest matching prefix
      is that prefix, and no matching prefix means none. */
  lemma LongestKeyPrefixIs(table: map<string, string>, tokens: seq<string>, i: nat, r: Option<nat>)
    requires i <= |tokens|
    requires r.Some? ==> r.value <= i && PrefixKey(tokens, r.value) in table
    requires forall j :: 0 <= j <= i && (r.None? || r.value < j) ==> PrefixKey(tokens, j) !in table
    ensures LongestKeyPrefix(table, tokens, i) == r
  {
    var f := LongestKeyPrefix(table, tokens, i);
    if f.Some? {
      assert r.Some? && !(r.value < f.value);
    }
    if r.Some? {
      assert f.Some? && !(f.value < r.value);
    }
  }

  /** The greedy longest-prefix decomposition of the header columns: the matched chunks in
      order, and whether they make up the whole header. */
  datatype Decomposition = Decomposition(chunks: seq<seq<string>>, complete: bool)

  /** Each chunk is the longest prefix of the columns left before it whose key is in the
      table: the choice the downward search of `parse_sensor_config` makes at every turn. */
  predicate Greedy(table: map<string, string>, tokens: seq<string>, chunks: seq<seq<string>>)
    decreases |chunks|
  {
    |chunks| == 0 ||
    (|chunks[0]| <= |tokens| && chunks[0] == tokens[..|chunks[0]|] &&
     LongestKeyPrefix(table, tokens, |tokens|) == Some(|chunks[0]|) &&
     Greedy(table, tokens[|chunks[0]|..], chunks[1..]))
  }

  /** The `while headerlist` loop's choice of chunks against a table with no empty key:
      each chunk is the longest prefix of what is left that is a key, so it is never empty
      and the loop ends; the chunks spell a prefix of the header, all of it exactly when the
      decomposition is complete, and otherwise no prefix of what is left is a key. */
  function Decompose(table: map<string, string>, tokens: seq<string>): (r: Decomposition)
    requires "" !in table
    ensures forall i :: 0 <= i < |r.chunks| ==> |r.chunks[i]| > 0 && Join(r.chunks[i], ',') in table
    ensures Flatten(r.chunks) <= tokens
    ensures r.complete <==> Flatten(r.chunks) == tokens
    ensures !r.complete ==>
      LongestKeyPrefix(table, tokens[|Flatten(r.chunks)|..], |tokens| - |Flatten(r.chunks)|).None?
    decreases |tokens|
  {
    if |tokens| == 0 then Decomposition([], true)
    else match LongestKeyPrefix(table, tokens, |tokens|)
      case None =>
        assert tokens[0..] == tokens;
        Decomposition([], false)
      case Some(n) =>
        assert PrefixKey(tokens, 0) == "";
        var rest := Decompose(table, tokens[n..]);
        ChunkThenRest(tokens, n, rest.chunks);
        Decomposition([tokens[..n]] + rest.chunks, rest.complete)
  }

  /** Each chunk `Decompose` cuts is the longest key prefix of the columns left before it. */
  lemma {:induction false} DecomposeGreedy(table: map<string, string>, tokens: seq<string>)
    requires "" !in table
    ensures Greedy(table, tokens, Decompose(table, tokens).chunks)
    decreases |tokens|
  {
    var chunks := Decompose(table, tokens).chunks;
    if |chunks| > 0 {
      var n :| LongestKeyPrefix(table, tokens, |tokens|) == Some(n);
      DecomposeTakes(table, tokens, n);
      DecomposeGreedy(table, tokens[n..]);
      assert chunks[0] == tokens[..n] && chunks[1..] == Decompose(table, tokens[n..]).chunks;
    }
  }

  /** A header none of whose prefixes is a key decomposes into no chunk. */
  lemma DecomposeStops(table: map<string, string>, tokens: seq<string>)
    requires "" !in table && LongestKeyPrefix(table, tokens, |tokens|).None?
    ensures Decompose(table, tokens).chunks == []
  {
  }

  /** A header whose longest key prefix has `n` columns decomposes into those columns, then
      the decomposition of the rest. */
  lemma DecomposeTakes(table: map<string, string>, tokens: seq<string>, n: nat)
    requires "" !in table && LongestKeyPrefix(table, tokens, |tokens|) == Some(n)
    ensures 0 < n <= |tokens|
    ensures Decompose(table, tokens).chunks == [tokens[..n]] + Decompose(table, tokens[n..]).chunks
  {
    assert PrefixKey(tokens, 0) == "";
  }

  /** The greedy decomposition is the only one: chunks that are each the longest key prefix
      of what is left, and that stop either at the end of the header or where no prefix of
      what is left is a key, are the chunks `Decompose` gives. */
  lemma {:induction false} DecomposeUnique(table: map<string, string>, tokens: seq<string>, d: Decomposition)
    requires "" !in table
    requires Greedy(table, tokens, d.chunks)
    requires |Flatten(d.chunks)| <= |tokens|
    requires d.complete <==> Flatten(d.chunks) == tokens
    requires !d.complete ==>
      LongestKeyPrefix(table, tokens[|Flatten(d.chunks)|..], |tokens| - |Flatten(d.chunks)|).None?
    ensures Decompose(table, tokens) == d
    decreases |tokens|
  {
    if |d.chunks| == 0 {
      assert tokens[0..] == tokens;
    } else {
      var n := |d.chunks[0]|;
      assert PrefixKey(tokens, 0) == "";
      var rest := Decomposition(d.chunks[1..], d.complete);
      FlattenCons(d.chunks);
      assert tokens == tokens[..n] + tokens[n..];
      assert tokens[|Flatten(d.chunks)|..] == tokens[n..][|Flatten(rest.chunks)|..];
      DecomposeUnique(table, tokens[n..], rest);
      assert d.chunks == [tokens[..n]] + rest.chunks;
    }
  }

  /** Putting the first `n` columns in front of chunks that spell a prefix of the columns
      after them spells a prefix of all columns, all of them exactly when the chunks spelled
      all columns after the first `n`, and leaves over what the chunks left over. */
  lemma ChunkThenRest(tokens: seq<string>, n: nat, chunks: seq<seq<string>>)
    requires n <= |tokens| && Flatten(chunks) <= tokens[n..]
    ensures var f := Flatten([tokens[..n]] + chunks);
      f == tokens[..n] + Flatten(chunks) && f <= tokens &&
      (f == tokens <==> Flatten(chunks) == tokens[n..]) &&
      tokens[|f|..] == tokens[n..][|Flatten(chunks)|..]
  {
    var cs := [tokens[..n]] + chunks;
    assert cs[1..] == chunks;
    assert tokens == tokens[..n] + tokens[n..];
  }

  // ---------------------------------------------------------------- the sub-sensor walk

  /** Whether a sub-sensor's columns head the rest of the matched signature: the one case in
      which the source's inner `i` loop finds `signature[i:len(subsig)] == subsig`. */
  predicate Heads(subsig: seq<string>, signature: seq<string>)
  {
    |signature| > 0 && subsig <= signature
  }

  /** Get-or-create the gauge of `m`: a name already registered keeps its gauge. */
  function GetOrCreate(registry: map<string, string>, m: Metric): map<string, string>
  {
    if m.name in registry then registry else registry[m.name := m.description]
  }

  /** The registry after get-or-creating the gauges of `metrics`, in order. */
  function Register(registry: map<string, string>, metrics: seq<Metric>): map<string, string>
    decreases |metrics|
  {
    if |metrics| == 0 then registry
    else GetOrCreate(Register(registry, metrics[..|metrics| - 1]), metrics[|metrics| - 1])
  }

  /** The gauge-index entries of one enabled sub-sensor, one per metric. */
  function EntriesFor(sensorname: string, ordinal: nat, subname: string, metrics: seq<Metric>): (r: seq<GaugeEntry>)
    ensures |r| == |metrics|
    ensures forall k :: 0 <= k < |r| ==>
      r[k] == GaugeEntry(sensorname, ordinal, subname, metrics[k].name, metrics[k].multiplier)
  {
    if |metrics| == 0 then []
    else [GaugeEntry(sensorname, ordinal, subname, metrics[0].name, metrics[0].multiplier)]
         + EntriesFor(sensorname, ordinal, subname, metrics[1..])
  }

  /** Registering one more metric of a list is get-or-creating its gauge. */
  lemma RegisterPrefix(registry: map<string, string>, ms: seq<Metric>, k: nat)
    requires k < |ms|
    ensures Register(registry, ms[..k + 1]) == GetOrCreate(Register(registry, ms[..k]), ms[k])
  {
    assert ms[..k + 1][..k] == ms[..k];
  }

  /** One more metric of a list adds its entry at the end. */
  lemma EntriesForPrefix(sensorname: string, ordinal: nat, subname: string, ms: seq<Metric>, k: nat)
    requires k < |ms|
    ensures EntriesFor(sensorname, ordinal, subname, ms[..k + 1]) ==
      EntriesFor(sensorname, ordinal, subname, ms[..k]) +
      [GaugeEntry(sensorname, ordinal, subname, ms[k].name, ms[k].multiplier)]
  {
  }

  /** Enabling a sub-sensor of the last detected instance: its name joins the instance's
      list, each of its metrics gets a gauge (unless one of that name exists) and an index
      entry carrying the instance's 1-based position. */
  function Enable(st: Resolution, sensorname: string, sub: SubSensor): (r: Resolution)
    requires |st.config| > 0
    ensures |r.config| == |st.config|
  {
    var last := st.config[|st.config| - 1];
    Resolution(st.config[..|st.config| - 1] + [Instance(last.sensor, last.subsensors + [sub.name])],
               st.index + EntriesFor(sensorname, |st.config|, sub.name, sub.metrics),
               Register(st.registry, sub.metrics))
  }

  /** The walk over the sub-sensors of `s` from position `p` on: a sub-sensor whose columns
      head the rest of the signature is enabled and its columns are removed. Gives the new
      state and the columns left over. */
  function Walk(st: Resolution, s: Sensor, p: nat, signature: seq<string>): (Resolution, seq<string>)
    requires |st.config| > 0 && p <= |s.subsensors|
    decreases |s.subsensors| - p
  {
    if p == |s.subsensors| then (st, signature)
    else
      var sub := s.subsensors[p];
      if Heads(Raw(sub), signature) then Walk(Enable(st, s.name, sub), s, p + 1, signature[|Raw(sub)|..])
      else Walk(st, s, p + 1, signature)
  }

  /** One turn of the walk: the sub-sensor at `p` is enabled and its columns removed when
      they head the signature, and passed over otherwise. */
  lemma WalkUnfold(st: Resolution, s: Sensor, p: nat, signature: seq<string>)
    requires |st.config| > 0 && p < |s.subsensors|
    ensures var sub := s.subsensors[p];
      Walk(st, s, p, signature) ==
        if Heads(Raw(sub), signature) then Walk(Enable(st, s.name, sub), s, p + 1, signature[|Raw(sub)|..])
        else Walk(st, s, p + 1, signature)
  {
  }

  /** Enabling the selected sub-sensors one after the other. */
  function EnableAll(st: Resolution, s: Sensor, c: seq<nat>): (r: Resolution)
    requires |st.config| > 0
    requires forall k :: 0 <= k < |c| ==> c[k] < |s.subsensors|
    ensures |r.config| == |st.config|
    decreases |c|
  {
    if |c| == 0 then st else EnableAll(Enable(st, s.name, s.subsensors[c[0]]), s, c[1..])
  }

  /** No sub-sensor's columns head the columns of a selection of sub-sensors that all come
      after it: the columns would start with the other sub-sensor's distinct first column. */
  lemma NotHeadsLater(s: Sensor, p: nat, c: seq<nat>)
    requires SensorWellFormed(s) && p < |s.subsensors|
    requires Selection(c, p + 1, |s.subsensors|)
    ensures !Heads(Raw(s.subsensors[p]), Columns(s, c))
  {
    if |c| > 0 {
      ColumnsCons(s, c);
      var q := c[0];
      assert SubSensorWellFormed(s.subsensors[q]) && SubSensorWellFormed(s.subsensors[p]);
      assert Columns(s, c)[0] == s.subsensors[q].metrics[0].raw;
      assert s.subsensors[p].metrics[0].raw != s.subsensors[q].metrics[0].raw;
      assert Raw(s.subsensors[p])[0] == s.subsensors[p].metrics[0].raw;
    } else {
      assert Columns(s, c) == [];
    }
  }

  /** Walking the sub-sensors of a well-formed sensor over the columns of a selection of
      them enables exactly the selected sub-sensors, in declared order, and leaves no column
      over: the matched chunk is always fully consumed. */
  lemma {:induction false} WalkConsumesSelection(st: Resolution, s: Sensor, p: nat, c: seq<nat>)
    requires SensorWellFormed(s) && |st.config| > 0 && p <= |s.subsensors|
    requires Selection(c, p, |s.subsensors|)
    ensures Walk(st, s, p, Columns(s, c)) == (EnableAll(st, s, c), [])
    decreases |s.subsensors| - p, 1
  {
    if p == |s.subsensors| {
      WalkEnd(st, s, p, c);
    } else if |c| > 0 && c[0] == p {
      WalkTakesSelected(st, s, p, c);
    } else {
      WalkPassesUnselected(st, s, p, c);
    }
  }

  /** The walk consumes a selection that starts with the sub-sensor at `p`. */
  lemma {:induction false} WalkTakesSelected(st: Resolution, s: Sensor, p: nat, c: seq<nat>)
    requires SensorWellFormed(s) && |st.config| > 0 && p < |s.subsensors|
    requires |c| > 0 && c[0] == p && Selection(c, p, |s.subsensors|)
    ensures Walk(st, s, p, Columns(s, c)) == (EnableAll(st, s, c), [])
    decreases |s.subsensors| - p, 0
  {
    SelectionTail(c, p, |s.subsensors|);
    WalkTakes(st, s, p, c);
    WalkConsumesSelection(Enable(st, s.name, s.subsensors[p]), s, p + 1, c[1..]);
  }

  /** The walk consumes a selection from `p` that does not pick the sub-sensor at `p`. */
  lemma {:induction false} WalkPassesUnselected(st: Resolution, s: Sensor, p: nat, c: seq<nat>)
    requires SensorWellFormed(s) && |st.config| > 0 && p < |s.subsensors|
    requires Selection(c, p, |s.subsensors|) && !(|c| > 0 && c[0] == p)
    ensures Walk(st, s, p, Columns(s, c)) == (EnableAll(st, s, c), [])
    decreases |s.subsensors| - p, 0
  {
    SelectionPasses(c, p, |s.subsensors|);
    WalkSkips(st, s, p, c);
    WalkConsumesSelection(st, s, p + 1, c);
  }

  /** Past the last sub-sensor the selection is empty and the walk has nothing left to do. */
  lemma WalkEnd(st: Resolution, s: Sensor, p: nat, c: seq<nat>)
    requires SensorWellFormed(s) && |st.config| > 0
    requires p == |s.subsensors| && Selection(c, p, |s.subsensors|)
    ensures Walk(st, s, p, Columns(s, c)) == (EnableAll(st, s, c), [])
  {
    if |c| > 0 {
      SelectionTail(c, p, |s.subsensors|);
    }
    assert Columns(s, c) == [];
  }

  /** The walk enables the sub-sensor at `p` when it is the first selected one, and goes on
      over the columns of the rest of the selection. */
  lemma WalkTakes(st: Resolution, s: Sensor, p: nat, c: seq<nat>)
    requires SensorWellFormed(s) && |st.config| > 0 && p < |s.subsensors|
    requires |c| > 0 && c[0] == p && Selection(c, p, |s.subsensors|)
    ensures Walk(st, s, p, Columns(s, c)) ==
      Walk(Enable(st, s.name, s.subsensors[p]), s, p + 1, Columns(s, c[1..]))
    ensures EnableAll(st, s, c) == EnableAll(Enable(st, s.name, s.subsensors[p]), s, c[1..])
  {
    FirstHeads(s, c);
  }

  /** A selection from `p` that does not pick `p` is a selection from `p + 1`. */
  lemma SelectionPasses(c: seq<nat>, p: nat, n: nat)
    requires Selection(c, p, n) && !(|c| > 0 && c[0] == p)
    ensures Selection(c, p + 1, n)
  {
    if |c| > 0 {
      SelectionRaise(c, p, n);
    }
  }

  /** The walk passes over the sub-sensor at `p` when the selection only picks after it. */
  lemma WalkSkips(st: Resolution, s: Sensor, p: nat, c: seq<nat>)
    requires SensorWellFormed(s) && |st.config| > 0 && p < |s.subsensors|
    requires Selection(c, p + 1, |s.subsensors|)
    ensures Walk(st, s, p, Columns(s, c)) == Walk(st, s, p + 1, Columns(s, c))
  {
    NotHeadsLater(s, p, c);
  }

  /** The columns of the first selected sub-sensor head the columns of the selection, and
      what follows them are the columns of the rest of the selection. */
  lemma FirstHeads(s: Sensor, c: seq<nat>)
    requires SensorWellFormed(s) && |c| > 0
    requires forall k :: 0 <= k < |c| ==> c[k] < |s.subsensors|
    ensures Heads(Raw(s.subsensors[c[0]]), Columns(s, c))
    ensures Columns(s, c)[|Raw(s.subsensors[c[0]])|..] == Columns(s, c[1..])
  {
    ColumnsCons(s, c);
    assert SubSensorWellFormed(s.subsensors[c[0]]);
  }

  // ---------------------------------------------------------------- the resolver

  /** One resolver step on the matched columns `chunk`: record a new instance of the sensor
      the chunk's key names, then walk that sensor's sub-sensors over the chunk. */
  function Step(catalog: seq<Sensor>, st: Resolution, chunk: seq<string>): Resolution
    requires WellFormed(catalog) && Join(chunk, ',') in LookupTable(catalog)
  {
    KeyResolves(catalog, Join(chunk, ','));
    var name := LookupTable(catalog)[Join(chunk, ',')];
    var s := FindSensor(catalog, name).value;
    Walk(Resolution(st.config + [Instance(name, [])], st.index, st.registry), s, 0, chunk).0
  }

  /** Steps on the chunks, one after the other. */
  function Steps(catalog: seq<Sensor>, st: Resolution, chunks: seq<seq<string>>): Resolution
    requires WellFormed(catalog)
    requires forall i :: 0 <= i < |chunks| ==> Join(chunks[i], ',') in LookupTable(catalog)
    decreases |chunks|
  {
    if |chunks| == 0 then st else Steps(catalog, Step(catalog, st, chunks[0]), chunks[1..])
  }

  /** Steps on a non-empty list of chunks: a step on the first, then on the rest. */
  lemma StepsCons(catalog: seq<Sensor>, st: Resolution, chunks: seq<seq<string>>)
    requires WellFormed(catalog) && |chunks| > 0
    requires forall i :: 0 <= i < |chunks| ==> Join(chunks[i], ',') in LookupTable(catalog)
    ensures Steps(catalog, st, chunks) == Steps(catalog, Step(catalog, st, chunks[0]), chunks[1..])
  {
  }

  /** One turn of `parse_sensor_config`'s loop: the steps on the decomposition of the header
      are a step on its longest key prefix, then the steps on the decomposition of the rest. */
  lemma ResolveTurn(catalog: seq<Sensor>, st: Resolution, tokens: seq<string>, n: nat)
    requires WellFormed(catalog)
    requires LongestKeyPrefix(LookupTable(catalog), tokens, |tokens|) == Some(n)
    ensures n <= |tokens| && Join(tokens[..n], ',') in LookupTable(catalog)
    ensures "" !in LookupTable(catalog) &&
      Steps(catalog, st, Decompose(LookupTable(catalog), tokens).chunks) ==
      Steps(catalog, Step(catalog, st, tokens[..n]), Decompose(LookupTable(catalog), tokens[n..]).chunks)
  {
    EmptyIsNoKey(catalog);
    DecomposeTakes(LookupTable(catalog), tokens, n);
    StepsCons(catalog, st, Decompose(LookupTable(catalog), tokens).chunks);
  }

  /** `parse_sensor_config`'s loop from state `st`: the steps on the decomposition of the
      header, and whether the loop got through the whole header (it bails out otherwise,
      keeping what it resolved before). */
  function Resolve(catalog: seq<Sensor>, tokens: seq<string>, st: Resolution): (Resolution, bool)
    requires WellFormed(catalog)
  {
    var d := Decomposed(catalog, tokens);
    (Steps(catalog, st, d.chunks), d.complete)
  }

  /** The decomposition of the header against the catalog's lookup table. */
  function Decomposed(catalog: seq<Sensor>, tokens: seq<string>): Decomposition
    requires WellFormed(catalog)
  {
    EmptyIsNoKey(catalog);
    Decompose(LookupTable(catalog), tokens)
  }
}
