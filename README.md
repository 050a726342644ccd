# qwiic_exporter: the sensor and column resolution engine, in Dafny

The Qwiic exporter reads lines from a SparkFun OpenLog Artemis data logger over a serial
port and publishes the readings as Prometheus gauges. This project models its core, the
`QwiicExporter` class in `qwiic_exporter/qwiic_exporter.py`, and proves properties of it.
The core has these parts:

- **The sensor catalog.** Six sensors, in declared order. Each has named sub-sensors in
  declared order, and each sub-sensor has `(raw column, metric name, description,
  multiplier)` records. It is `Catalog.Sensors`, built from the `Sensor`, `SubSensor` and
  `Metric` datatypes.
- **The signature table.** Every non-empty, order-preserving selection of a sensor's
  sub-sensors has a comma-joined column signature. The table maps each signature to the
  sensor's name, and a later sensor overwrites an earlier one. It is modelled as pure
  functions: module `Combinations` for the `itertools.combinations` enumeration, and module
  `SignatureTable` for the table.
- **The header resolver** (`parse_sensor_config`). It first splits the header line into
  columns. Then it repeatedly takes the longest prefix of the remaining columns that is a
  table key, records a new instance of that sensor, and walks the sensor's sub-sensors in
  declared order. Each sub-sensor whose columns head what is left of the match is enabled.
  Enabling appends the sub-sensor's name to the instance and adds one gauge-index entry per
  metric, with the instance's 1-based position. It also creates the metric's gauge unless a
  gauge of that name already exists. Module `Resolver` states the resolver as functions,
  and module `ResolverLemmas` proves what it builds. `Exporter.QwiicExporter` holds the same
  loops as methods over the object's fields, proved equal to those functions.
- **The reading ingestor** (`ingest_data`). A data line with one reading per gauge-index
  entry sets, for each `i`, the series of entry `i` to reading `i`. A line with any other
  number of readings changes nothing and asks the logger for a new header. Modules `Ingest`
  and `Exporter` model it.
- **The line dispatch of the main loop** (`disco`): reboot banner, header line, or data
  line. It is `Exporter.Classify` and `Exporter.QwiicExporter.HandleLine`.

The resolver is proved for every catalog that meets `Catalog.WellFormed`:

- sensor names differ;
- within a sensor, sub-sensor names differ and no two sub-sensors start with the same raw
  column;
- raw names are non-empty and hold no comma;
- the metric names within a sub-sensor differ.

`Shipped.ShippedWellFormed` proves that the shipped catalog meets it.

The central results are:

- `ResolverLemmas.ResolveSpec`. The header is cut greedily, each chunk the longest prefix
  of the columns left that is a key, and `Resolver.DecomposeUnique` shows that this cut is
  the only one with that property. Each resolved column gets one gauge-index entry, in column
  order, standing for that column's catalog metric and multiplier. The header is fully
  resolved exactly when the index has one entry per header column. Every instance is a
  catalog sensor with some of its sub-sensors, in declared order. No two entries set the
  same labelled series, and gauges that existed before keep their descriptions.
- `Ingest.DataFollowsHeader`. After such a header, a data line with matching length sets
  the series of column `i` to reading `i`, scaled by column `i`'s own multiplier.

## Model

| member | source | states |
|---|---|---|
| Text.Split | qwiic_exporter/qwiic_exporter.py:297 | `str.split` gives at least one piece and no piece holds the separator |
| Text.SplitCount | qwiic_exporter/qwiic_exporter.py:297 | a split has exactly one piece more than the string has separators |
| Text.SepPositions | qwiic_exporter/qwiic_exporter.py:297 | every listed position of the separator count holds a separator |
| Text.SepPositionsIncreasing | qwiic_exporter/qwiic_exporter.py:297 | the listed positions strictly increase, so each separator is counted once, in order |
| Text.SepPositionsComplete | qwiic_exporter/qwiic_exporter.py:297 | every separator of the string is listed |
| Text.Join | qwiic_exporter/qwiic_exporter.py:234 | `",".join`: its properties are the round trips and injectivity in the rows below |
| Text.JoinSplit | qwiic_exporter/qwiic_exporter.py:297 | joining the pieces of a split with the separator gives back the string |
| Text.SplitJoin | qwiic_exporter/qwiic_exporter.py:308 | splitting a join of separator-free pieces gives back the pieces |
| Text.JoinInjective | qwiic_exporter/qwiic_exporter.py:308 | on non-empty comma-free tokens the join is injective, so a key determines its column list |
| Text.JoinAppend | qwiic_exporter/qwiic_exporter.py:234 | the join of two non-empty lists is their joins with one separator between |
| Text.JoinOfJoins | qwiic_exporter/qwiic_exporter.py:234 | joining the sub-sensor signatures of a selection equals joining all their raw columns |
| Text.Strip | qwiic_exporter/qwiic_exporter.py:375 | `strip(",")` leaves the middle of the line, which neither starts nor ends with a comma, and only commas were removed on either side |
| Text.Slice | qwiic_exporter/qwiic_exporter.py:330 | Python slicing `xs[a:b]` clamps both bounds to the list; its length and elements |
| Text.Drop | qwiic_exporter/qwiic_exporter.py:299 | `xs[2:]` is empty for short lists and the suffix otherwise |
| Combinations.Combs | qwiic_exporter/qwiic_exporter.py:266 | each yielded combination has `r` positions, strictly increasing, within range |
| Combinations.CombsCount | qwiic_exporter/qwiic_exporter.py:266 | `itertools.combinations` of `m` items and size `r` yields `C(m, r)` lists |
| Combinations.CombsOrdered | qwiic_exporter/qwiic_exporter.py:266 | combinations come out in strictly increasing lexicographic order |
| Combinations.CombsComplete | qwiic_exporter/qwiic_exporter.py:266 | every strictly increasing selection of `r` positions is yielded |
| Combinations.BySize | qwiic_exporter/qwiic_exporter.py:265-267 | the nested loops yield only non-empty selections no larger than the starting size |
| Combinations.SubsetsCount | qwiic_exporter/qwiic_exporter.py:265-267 | for `k` sub-sensors the loops yield `2^k - 1` selections |
| Combinations.SubsetsOrdered | qwiic_exporter/qwiic_exporter.py:265-267 | sizes never grow along the list, and within one size the order is lexicographic |
| Combinations.SubsetsExact | qwiic_exporter/qwiic_exporter.py:265-267 | the yielded lists are exactly the non-empty order-preserving selections, none twice |
| Combinations.Subsets | qwiic_exporter/qwiic_exporter.py:265-267 | the two loops, sizes from the number of sub-sensors down to 1; characterised by SubsetsCount, SubsetsOrdered and SubsetsExact |
| Combinations.SubsetsListed | qwiic_exporter/qwiic_exporter.py:265-267 | every non-empty selection is yielded |
| Combinations.SubsetIsSelection | qwiic_exporter/qwiic_exporter.py:265-267 | every yielded list is a non-empty selection |
| Combinations.Pick | qwiic_exporter/qwiic_exporter.py:267 | a combination of the signature list holds the signatures at the selected positions |
| Catalog.Raw | qwiic_exporter/qwiic_exporter.py:260 | a sub-sensor's signature lists its metrics' raw names in declared order |
| Catalog.FindSensor | qwiic_exporter/qwiic_exporter.py:327 | `self.sensors[name]` finds a sensor exactly when one has that name, and the one found has it |
| Catalog.FindSensorByName | qwiic_exporter/qwiic_exporter.py:327 | with distinct names, looking up a catalog sensor's name finds that very sensor |
| Catalog.FindSubSensor | qwiic_exporter/qwiic_exporter.py:337 | `self.sensors[sensor][name]` finds a sub-sensor exactly when one has that name |
| Catalog.GetSubsensorSignature | qwiic_exporter/qwiic_exporter.py:274-288 | the raw names of a sub-sensor looked up by sensor and sub-sensor name; GetSubsensorSignatureOf states what it gives |
| Catalog.GetSubsensorSignatureOf | qwiic_exporter/qwiic_exporter.py:274-288 | `get_subsensor_signature` of a catalog sensor and sub-sensor gives that sub-sensor's raw columns |
| SignatureTable.SignatureStrings | qwiic_exporter/qwiic_exporter.py:259-262 | one signature per sub-sensor, in declared order, each the comma join of its raw columns |
| SignatureTable.SubsensorSignatures | qwiic_exporter/qwiic_exporter.py:265-267 | the result lists, for each selection in enumeration order, the selected signatures |
| SignatureTable.SubsensorSignaturesSpec | qwiic_exporter/qwiic_exporter.py:238-272 | `2^k - 1` lists, sizes non-increasing, lexicographic within a size, exactly the non-empty order-preserving selections, none twice |
| SignatureTable.SensorKeys | qwiic_exporter/qwiic_exporter.py:233-234 | the comma join of each signature list of a sensor; SensorKeysDistinct and KeyIsJoinedColumns state what they are |
| SignatureTable.InsertAll | qwiic_exporter/qwiic_exporter.py:233-234 | inserting a sensor's keys adds exactly those keys, mapped to its name, and keeps the other entries |
| SignatureTable.LastProducer | qwiic_exporter/qwiic_exporter.py:231-234 | the position found produces the key and no later sensor does |
| SignatureTable.LookupTable | qwiic_exporter/qwiic_exporter.py:221-236 | the dictionary built sensor by sensor; LookupTableLastWins characterises it completely |
| SignatureTable.LookupTableLastWins | qwiic_exporter/qwiic_exporter.py:221-236 | a string is a key exactly when some sensor produces it, and it maps to the last producer in catalog order |
| SignatureTable.LastProducerIs | qwiic_exporter/qwiic_exporter.py:231-234 | a key produced by a sensor and by none after it maps to that sensor |
| SignatureTable.EveryCombinationIsKey | qwiic_exporter/qwiic_exporter.py:231-234 | every combination of every sensor is in the table |
| SignatureTable.KeyIsJoinedColumns | qwiic_exporter/qwiic_exporter.py:260 | a selection's key is the comma join of its raw columns, which are non-empty comma-free tokens |
| SignatureTable.ColumnsHead | qwiic_exporter/qwiic_exporter.py:265-267 | a selection's columns are empty exactly when it is, and otherwise start with its first sub-sensor's columns |
| SignatureTable.ColumnsInjective | qwiic_exporter/qwiic_exporter.py:265-267 | two selections with the same columns are the same selection |
| SignatureTable.SensorKeysDistinct | qwiic_exporter/qwiic_exporter.py:231-234 | the joined keys of one well-formed sensor are pairwise distinct, so no combination of a sensor overwrites another |
| SignatureTable.KeyFindsSensor | qwiic_exporter/qwiic_exporter.py:309-310 | the name a key maps to is a catalog sensor's |
| SignatureTable.KeyResolves | qwiic_exporter/qwiic_exporter.py:309-310 | a key maps to the name of a catalog sensor found back by that name, and it is the join of one of that sensor's selections |
| SignatureTable.KeyNonEmpty | qwiic_exporter/qwiic_exporter.py:306-309 | no key of a well-formed catalog is the empty string |
| SignatureTable.EmptyIsNoKey | qwiic_exporter/qwiic_exporter.py:306-309 | the zero-length prefix, joined, is never a key |
| SignatureTable.SingleSelectionKey | qwiic_exporter/qwiic_exporter.py:266 | each sub-sensor on its own is a combination, so its signature is a key of its sensor |
| SignatureTable.CommaFreeKey | qwiic_exporter/qwiic_exporter.py:265-267 | a key without a comma is the sole raw column of one of the sensor's sub-sensors |
| SignatureTable.NotKeyOf | qwiic_exporter/qwiic_exporter.py:265-267 | a comma-free name that is no sub-sensor's sole column is not a key of the sensor |
| Resolver.KeepColumns | qwiic_exporter/qwiic_exporter.py:300 | the filter never lengthens the list |
| Resolver.KeepColumnsMembers | qwiic_exporter/qwiic_exporter.py:300 | the filter keeps exactly the elements other than `""` and `"\r\n"` |
| Resolver.KeepColumnsOne | qwiic_exporter/qwiic_exporter.py:300 | one element is kept exactly when it is neither `""` nor `"\r\n"` |
| Resolver.KeepColumnsCons | qwiic_exporter/qwiic_exporter.py:300 | the filter decides on the first element, then filters the rest |
| Resolver.KeepColumnsAppend | qwiic_exporter/qwiic_exporter.py:300 | the filter of a concatenation is the concatenation of the filters; with KeepColumnsOne this fixes the order and repetitions of what is kept |
| Resolver.HeaderTokens | qwiic_exporter/qwiic_exporter.py:297-300 | the header columns are the filter of the split elements after the first two, all non-empty and comma-free |
| Resolver.HeaderTokensMembers | qwiic_exporter/qwiic_exporter.py:297-300 | a string is a header column exactly when it is a split element after the first two and neither `""` nor `"\r\n"` |
| Resolver.HeaderTokensDropThenFilter | qwiic_exporter/qwiic_exporter.py:297-300 | the first two fields are dropped whatever they hold, and only the fields after them are filtered |
| Resolver.LongestKeyPrefix | qwiic_exporter/qwiic_exporter.py:305-312 | the search finds a matching prefix with no longer matching prefix, or reports that no prefix matches |
| Resolver.LongestKeyPrefixIs | qwiic_exporter/qwiic_exporter.py:305-312 | those two properties determine the search's answer |
| Resolver.Decompose | qwiic_exporter/qwiic_exporter.py:302-321 | chunks are non-empty keys spelling a prefix of the header, all of it exactly when complete, and on bail-out no prefix of the rest is a key |
| Resolver.DecomposeGreedy | qwiic_exporter/qwiic_exporter.py:303-321 | each chunk is the longest key prefix of the columns left before it |
| Resolver.DecomposeUnique | qwiic_exporter/qwiic_exporter.py:303-321 | greedy chunks that stop at the end of the header or where no prefix is a key are exactly the chunks `Decompose` gives |
| Resolver.DecomposeStops | qwiic_exporter/qwiic_exporter.py:314-319 | when no prefix is a key the loop bails out with no chunk |
| Resolver.DecomposeTakes | qwiic_exporter/qwiic_exporter.py:306-321 | the longest key prefix is non-empty and is the first chunk, followed by the chunks of the rest |
| Resolver.GetOrCreate | qwiic_exporter/qwiic_exporter.py:342-348 | a gauge is created only for a name not yet registered; RegisterSpec states the effect |
| Resolver.Register | qwiic_exporter/qwiic_exporter.py:338-348 | get-or-create over a sub-sensor's metrics in order; RegisterSpec and RegisterAppend characterise it |
| Resolver.EntriesFor | qwiic_exporter/qwiic_exporter.py:350-359 | one gauge-index entry per metric, carrying sensor, instance ordinal, sub-sensor, metric name and multiplier |
| Resolver.Heads | qwiic_exporter/qwiic_exporter.py:329-331 | the inner `i` loop's match; SubsensorMatches and HeadsIsFirstSlice tie it to the loop |
| Resolver.Enable | qwiic_exporter/qwiic_exporter.py:336-359 | enabling keeps the number of instances; EnableAllSpec states the whole new state |
| Resolver.Walk | qwiic_exporter/qwiic_exporter.py:327-364 | the walk over the sub-sensors; WalkConsumesSelection states what it does on a matched chunk |
| Resolver.WalkUnfold | qwiic_exporter/qwiic_exporter.py:327-336 | one turn of the walk enables a sub-sensor whose columns head the rest and removes them, and passes over any other |
| Resolver.NotHeadsLater | qwiic_exporter/qwiic_exporter.py:327-331 | no sub-sensor's columns head the columns of sub-sensors selected after it |
| Resolver.WalkConsumesSelection | qwiic_exporter/qwiic_exporter.py:327-364 | walking a sensor's sub-sensors over the chunk of a selection enables exactly the selected ones, in order, and consumes the whole chunk |
| Resolver.WalkTakes | qwiic_exporter/qwiic_exporter.py:329-336 | the first selected sub-sensor heads the chunk, is enabled, and its columns are removed |
| Resolver.WalkSkips | qwiic_exporter/qwiic_exporter.py:327-331 | a sub-sensor before the first selected one is passed over |
| Resolver.Step | qwiic_exporter/qwiic_exporter.py:321-364 | one loop iteration on a chunk; StepSpec, StepKeeps and StepDescribes state its effect |
| Resolver.StepsCons | qwiic_exporter/qwiic_exporter.py:303-364 | the iterations are one on the first chunk, then the rest |
| Resolver.Steps | qwiic_exporter/qwiic_exporter.py:303-364 | the iterations on all chunks in order; StepsKeep and StepsDescribe state their effect |
| Resolver.ResolveTurn | qwiic_exporter/qwiic_exporter.py:303-364 | one turn of the loop is a step on the longest key prefix followed by the steps on the rest of the header |
| Resolver.Decomposed | qwiic_exporter/qwiic_exporter.py:302-321 | the decomposition against the catalog's table; DecomposedGreedy and ResolveSpec state its properties |
| Resolver.Resolve | qwiic_exporter/qwiic_exporter.py:290-364 | the whole loop from a state; ResolveSpec states what it builds |
| ResolverLemmas.RegisterAppend | qwiic_exporter/qwiic_exporter.py:338-348 | get-or-creating two metric lists in turn is get-or-creating their concatenation |
| ResolverLemmas.RegisterSpec | qwiic_exporter/qwiic_exporter.py:338-348 | the registry keeps every gauge and its description, gains exactly the metrics' names, and a new name gets its first metric's description |
| ResolverLemmas.EnableAllSpec | qwiic_exporter/qwiic_exporter.py:326-359 | enabling a selection appends the selected names to the last instance, appends their entries at its position, and get-or-creates their gauges |
| ResolverLemmas.SelAligned | qwiic_exporter/qwiic_exporter.py:350-359 | entry `i` of a selection is for the metric whose raw name is column `i`, with its name, multiplier, sensor, instance ordinal and a selected sub-sensor |
| ResolverLemmas.SelFeeds | qwiic_exporter/qwiic_exporter.py:350-359 | each entry of a catalog sensor's selection finds its own catalog metric back by its names |
| ResolverLemmas.SelDistinct | qwiic_exporter/qwiic_exporter.py:350-359 | no two entries of one instance set the same labelled series |
| ResolverLemmas.SelectionInOrder | qwiic_exporter/qwiic_exporter.py:327-336 | enabled sub-sensor names are recorded in declared order |
| ResolverLemmas.StepSpec | qwiic_exporter/qwiic_exporter.py:321-364 | one loop iteration adds exactly one instance with the producing selection's sub-sensors, its entries at the new ordinal, and its gauges |
| ResolverLemmas.StepKeeps | qwiic_exporter/qwiic_exporter.py:321-364 | an iteration keeps earlier instances, entries and gauges |
| ResolverLemmas.StepDescribes | qwiic_exporter/qwiic_exporter.py:321-364 | an iteration keeps the resolution invariant, extended by the chunk's columns |
| ResolverLemmas.StepsKeep | qwiic_exporter/qwiic_exporter.py:303-364 | iterations add one instance each and keep everything resolved before |
| ResolverLemmas.StepsDescribe | qwiic_exporter/qwiic_exporter.py:303-364 | iterations keep the invariant, extended by the chunks' columns in order |
| ResolverLemmas.ChunksAreTokens | qwiic_exporter/qwiic_exporter.py:307 | the matched chunks of header tokens are comma-free non-empty tokens |
| ResolverLemmas.DecomposedGreedy | qwiic_exporter/qwiic_exporter.py:303-321 | the catalog's decomposition of a header is the greedy one |
| ResolverLemmas.ResolveSpec | qwiic_exporter/qwiic_exporter.py:290-364 | the parse cuts the header greedily, describes the resolved columns, is complete exactly when the index has one entry per header column, has one instance per chunk, and keeps earlier gauges |
| ResolverLemmas.SingleColumnHeader | qwiic_exporter/qwiic_exporter.py:290-364 | a one-column header naming a single-column sub-sensor resolves to one instance with that sub-sensor and one entry at ordinal 1 |
| ResolverLemmas.SingleColumnStep | qwiic_exporter/qwiic_exporter.py:321-364 | the iteration on such a column opens the instance, enables the sub-sensor and adds its one entry |
| Ingest.Readings | qwiic_exporter/qwiic_exporter.py:375 | the fields after date and time of the comma-stripped line; ReadingsOfLine states what they are |
| Ingest.Route | qwiic_exporter/qwiic_exporter.py:387-391 | the zip loop of value settings; RouteSets, RouteKeeps and RouteDistinct characterise it |
| Ingest.RouteSets | qwiic_exporter/qwiic_exporter.py:387-391 | each entry's series holds its reading and multiplier unless a later entry sets the same series |
| Ingest.RouteKeeps | qwiic_exporter/qwiic_exporter.py:387-391 | series that no entry names keep their values |
| Ingest.RouteDistinct | qwiic_exporter/qwiic_exporter.py:387-391 | with pairwise distinct series every entry's series holds exactly its own reading |
| Ingest.DataFollowsHeader | qwiic_exporter/qwiic_exporter.py:372-391 | after a resolved header, column `i`'s reading lands in entry `i`'s series with the multiplier of the catalog metric whose raw name is column `i` |
| Ingest.StripTrailingComma | qwiic_exporter/qwiic_exporter.py:375 | stripping commas off a line with one trailing comma gives back the line without it |
| Ingest.ReadingsOfLine | qwiic_exporter/qwiic_exporter.py:375 | a data line of date, time and fields with a trailing comma yields exactly the fields as readings |
| Shipped.ShippedWellFormed | qwiic_exporter/qwiic_exporter.py:26-196 | the shipped catalog meets every condition the resolver relies on |
| Shipped.HumidityOfBoth | qwiic_exporter/qwiic_exporter.py:38-40 | `humidity_%` is a key of both the BME280 and the MS8607 |
| Shipped.HumidityGoesToMs8607 | qwiic_exporter/qwiic_exporter.py:144-146 | the later MS8607 wins the collision, so `humidity_%` maps to `MS8607 PHT sensor` |
| Shipped.OutputHzGoesToOpenLog | qwiic_exporter/qwiic_exporter.py:165-168 | `output_Hz` is a key and maps to `OpenLog Artemis` |
| Shipped.OutputHzHeaderTokens | qwiic_exporter/qwiic_exporter.py:297-300 | the header line `rtcDate,rtcTime,output_Hz,` leaves the single column `output_Hz` |
| Shipped.OneColumnHeader | qwiic_exporter/qwiic_exporter.py:297-300 | a date, a time and one kept column with a trailing comma leave that column alone |
| Shipped.OnlyOutputHz | qwiic_exporter/test_qwiic_exporter.py:166-167 | that header configures one OpenLog Artemis with only Frequency and one entry for its output frequency at ordinal 1, fully resolved |
| Exporter.Classify | qwiic_exporter/qwiic_exporter.py:413-429 | a line is a reboot exactly when it starts with the banner, a header exactly when not that and it starts with `rtcDate,rtcTime`, and data exactly when neither and a gauge index exists |
| Exporter.StartsWith | qwiic_exporter/qwiic_exporter.py:414 | comparing the first `len(p)` characters with `p` is the prefix test |
| Exporter.SubsensorMatches | qwiic_exporter/qwiic_exporter.py:329-331 | the inner `i` loop finds a match exactly when the sub-sensor's columns head the signature |
| Exporter.HeadsIsFirstSlice | qwiic_exporter/qwiic_exporter.py:330-331 | on a non-empty signature the `i = 0` candidate equals the sub-sensor's columns exactly when they head it |
| Exporter.QwiicExporter.constructor | qwiic_exporter/qwiic_exporter.py:200-205 | the object holds the lookup table of the shipped catalog and no gauges, values or header yet |
| Exporter.QwiicExporter.LongestMatch | qwiic_exporter/qwiic_exporter.py:305-312 | the loop from the longest prefix down finds a prefix whose key is in the table with no longer one, or none at all |
| Exporter.QwiicExporter.CreateGauges | qwiic_exporter/qwiic_exporter.py:338-359 | the loop get-or-creates each metric's gauge and appends one entry per metric at the current ordinal |
| Exporter.QwiicExporter.EnableSubsensor | qwiic_exporter/qwiic_exporter.py:336-359 | the sub-sensor's name joins the last instance, and its gauges and entries are added |
| Exporter.QwiicExporter.EnableSubsensors | qwiic_exporter/qwiic_exporter.py:327-364 | the loop over sub-sensors leaves the state the walk over the matched signature gives |
| Exporter.QwiicExporter.ParseSensorConfig | qwiic_exporter/qwiic_exporter.py:290-364 | the configuration, gauge index and registry afterwards are those of the resolver on the header's columns from an empty configuration and the old registry |
| Exporter.QwiicExporter.TriggerHeaderLine | qwiic_exporter/qwiic_exporter.py:366-370 | a header request is written and nothing else changes |
| Exporter.QwiicExporter.IngestData | qwiic_exporter/qwiic_exporter.py:372-392 | with one reading per entry the values are routed and nothing is written; otherwise no value changes and a header request is written |
| Exporter.QwiicExporter.HandleLine | qwiic_exporter/qwiic_exporter.py:404-429 | a reboot line requests a header, a header line is parsed, a data line is ingested once a header exists, and any other line changes nothing |

Where the source and a plain reading of its intent differ, the model follows the code:

- `parse_sensor_config` empties `sensorconfig` and `gaugeindex` before it resolves. A header
  that stops matching part-way therefore leaves the instances and entries resolved before
  the failure, not the previous configuration. Gauges it created stay registered.
  `ResolveSpec` and `ParseSensorConfig` state exactly this.
- The prefix search tries the zero-length prefix too. If any key were the empty string (a
  sub-sensor with no metrics would give one), that prefix would match, `headerlist` would
  never shrink and the loop would not end. No key of a well-formed catalog is empty
  (`EmptyIsNoKey`), which is why `Decompose` requires `"" !in table`; so every iteration
  consumes at least one column.
- The filter drops every `""` and `"\r\n"` element after the first two, not only trailing
  ones.
- The gauge index has one entry per header column only when the whole header resolves.
- A reading that is not a number makes `float(reading)` raise `ValueError` part-way through
  the `zip` loop of `ingest_data`. The series set before that reading keep their new values.
  The model keeps readings as tokens (see Left out), so it does not capture this partial
  update.

## Left out

- Serial I/O. Opening the port, `readline`, ASCII decoding with its `UnicodeDecodeError`
  skip, and the whitespace `strip()` before the comma strip are not modelled.
  `HandleLine` takes the decoded, whitespace-stripped line. The writes and the one-second
  sleep of `trigger_header_line` are modelled as appending `"\nh"` to the `written` field.
- prometheus_client. A gauge is its registry entry, metric name to description. A series
  value is a map entry keyed by metric and labels. Label values are kept as they are, so
  `sensorindex` is a `nat` rather than its string form.
- `float(reading) * multiplier`: a value is kept as its raw token and its multiplier.
  Floating-point parsing and arithmetic are left out, and so are the exact float results
  the tests compare against. Multipliers are exact decimals (`real`).
- `write_textfile_collector_file` after each ingest, the `qwiic_build` info metric created in
  `__init__`, and logging. They have no effect on the modelled state.
- `Exporter.QwiicExporter.constructor`: the registry starts empty, without the build-info
  entry the source registers first. No catalog metric has that entry's name.
- `initialise_serial`, `get_parser`, `main` and `init`: process start-up and argument
  parsing.
- The number of keys in the shipped table (46 signatures, 45 keys after the one collision)
  is not proved. Computing the table of the concrete catalog is beyond what the verifier
  does within its limits. The collision itself and where it goes are proved. So are the
  per-sensor count `2^k - 1` and that a sensor's combinations are pairwise distinct, both
  as position lists (`SubsetsExact`) and as joined keys (`SensorKeysDistinct`).
- The full-lineup, partial-lineup and duplicate-sensor header scenarios of the tests are not
  replayed on their concrete strings, and their expected configurations are not derived.
  Only the single `output_Hz` header is (`OnlyOutputHz`). `ResolveSpec`, `StepSpec` and
  `SelectionInOrder` state what the resolver builds for any header. Which prefixes of those
  concrete headers are keys of the shipped table is not computed, so the exact instances
  they produce are not proved.
