/** The data side of the exporter: how `ingest_data` splits a data line into readings and
    routes reading `i` to the series of gauge-index entry `i`. Values are kept as the raw
    token and the multiplier the source scales it by. */
module Ingest {
  import opened Text
  import opened Catalog
  import opened Resolver
  import opened ResolverLemmas

  /** The value a series is set to: `float(token) * multiplier` in the source. */
  datatype Reading = Reading(token: string, multiplier: real)

  /** The readings of a data line: commas stripped from both ends, split on commas, and the
      first two fields (date and time) dropped. */
  function Readings(data: string): seq<string>
  {
    Drop(Split(Strip(data, ','), ','), 2)
  }

  /** The series values after setting, for each `i` in order, the series of `index[i]` to
      reading `i` scaled by that entry's multiplier. */
  function Route(values: map<Series, Reading>, index: seq<GaugeEntry>, readings: seq<string>): map<Series, Reading>
    requires |index| == |readings|
    decreases |index|
  {
    if |index| == 0 then values
    else
      var n := |index| - 1;
      Route(values, index[..n], readings[..n])[SeriesOf(index[n]) := Reading(readings[n], index[n].multiplier)]
  }

  /** Routing sets the series of every entry to its own reading when no later entry sets the
      same series. */
  lemma {:induction false} RouteSets(values: map<Series, Reading>, index: seq<GaugeEntry>, readings: seq<string>)
    requires |index| == |readings|
    ensures forall i :: (0 <= i < |index| &&
      (forall j :: i < j < |index| ==> SeriesOf(index[j]) != SeriesOf(index[i]))) ==>
      SeriesOf(index[i]) in Route(values, index, readings) &&
      Route(values, index, readings)[SeriesOf(index[i])] == Reading(readings[i], index[i].multiplier)
    decreases |index|
  {
    if |index| > 0 {
      var n := |index| - 1;
      var prev := Route(values, index[..n], readings[..n]);
      RouteSets(values, index[..n], readings[..n]);
      forall i | 0 <= i < n && (forall j :: i < j < |index| ==> SeriesOf(index[j]) != SeriesOf(index[i]))
        ensures SeriesOf(index[i]) in prev && prev[SeriesOf(index[i])] == Reading(readings[i], index[i].multiplier)
      {
        assert index[..n][i] == index[i] && readings[..n][i] == readings[i];
        assert forall j :: i < j < n ==> index[..n][j] == index[j];
      }
    }
  }

  /** Routing leaves every series that no entry names as it was. */
  lemma {:induction false} RouteKeeps(values: map<Series, Reading>, index: seq<GaugeEntry>, readings: seq<string>)
    requires |index| == |readings|
    ensures forall k :: (forall i :: 0 <= i < |index| ==> SeriesOf(index[i]) != k) ==>
      (k in Route(values, index, readings) <==> k in values) &&
      (k in values ==> Route(values, index, readings)[k] == values[k])
    decreases |index|
  {
    if |index| > 0 {
      var n := |index| - 1;
      RouteKeeps(values, index[..n], readings[..n]);
      assert forall i :: 0 <= i < n ==> index[..n][i] == index[i];
    }
  }

  /** With pairwise distinct series, as the resolver produces, every entry's series holds
      exactly its own reading. */
  lemma RouteDistinct(values: map<Series, Reading>, index: seq<GaugeEntry>, readings: seq<string>)
    requires |index| == |readings|
    requires forall a, b :: 0 <= a < b < |index| ==> SeriesOf(index[a]) != SeriesOf(index[b])
    ensures forall i :: 0 <= i < |index| ==>
      SeriesOf(index[i]) in Route(values, index, readings) &&
      Route(values, index, readings)[SeriesOf(index[i])] == Reading(readings[i], index[i].multiplier)
  {
    RouteSets(values, index, readings);
  }

  /** After a header resolved against the catalog, a data line with one reading per header
      column sets, for each column `i`, the series of gauge-index entry `i` to reading `i`,
      scaled by the multiplier of the catalog metric whose raw name is header column `i`. */
  lemma DataFollowsHeader(catalog: seq<Sensor>, st: Resolution, cols: seq<string>,
                          values: map<Series, Reading>, readings: seq<string>)
    requires Describes(catalog, st, cols) && |readings| == |cols|
    ensures forall i :: 0 <= i < |cols| ==>
      EntryMetric(catalog, st.index[i]).Some? &&
      EntryMetric(catalog, st.index[i]).value.raw == cols[i] &&
      SeriesOf(st.index[i]) in Route(values, st.index, readings) &&
      Route(values, st.index, readings)[SeriesOf(st.index[i])] ==
        Reading(readings[i], EntryMetric(catalog, st.index[i]).value.multiplier)
  {
    RouteDistinct(values, st.index, readings);
    assert forall i :: 0 <= i < |cols| ==> Feeds(catalog, st.index[i], cols[i]);
  }

  // ---------------------------------------------------------------- the shape of a data line

  /** The first character of a join of non-empty pieces is that of the first piece, and its
      last character that of the last piece. */
  lemma {:induction false} JoinEnds(parts: seq<string>)
    requires |parts| > 0 && Tokens(parts, ',')
    ensures |Join(parts, ',')| > 0
    ensures Join(parts, ',')[0] == parts[0][0]
    ensures Join(parts, ',')[|Join(parts, ',')| - 1] == parts[|parts| - 1][|parts[|parts| - 1]| - 1]
    decreases |parts|
  {
    if |parts| > 1 {
      JoinEnds(parts[1..]);
      var j := Join(parts, ',');
      var rest := Join(parts[1..], ',');
      assert j == parts[0] + [','] + rest;
      assert j[|j| - 1] == rest[|rest| - 1];
    }
  }

  /** Stripping commas off a line that does not start or end with one, followed by one
      trailing comma, gives back the line. */
  lemma StripTrailingComma(body: string)
    requires |body| > 0 && body[0] != ',' && body[|body| - 1] != ','
    ensures Strip(body + [','], ',') == body
  {
    var s := body + [','];
    assert Leading(s, ',') == 0;
    assert s[..|s| - 1] == body;
    assert Trailing(body, ',') == 0;
    assert Trailing(s, ',') == 1;
  }

  /** A data line of comma-free, non-empty fields, written date first and time second with
      a trailing comma, yields exactly its value fields as readings. */
  lemma ReadingsOfLine(date: string, time: string, fields: seq<string>)
    requires Tokens([date, time] + fields, ',')
    ensures Readings(Join([date, time] + fields, ',') + [',']) == fields
  {
    var parts := [date, time] + fields;
    var body := Join(parts, ',');
    JoinEnds(parts);
    StripTrailingComma(body);
    SplitJoin(parts, ',');
    assert parts[2..] == fields;
  }
}
