/** The few Python string and list operations the exporter relies on, on `seq<char>`:
    `str.split` and `str.join` with a one-character separator, `str.strip(chars)`
    with a one-character argument, and list slicing `xs[a:b]` with non-negative bounds. */
module Text {

  /** Python `s.split(sep)`: the pieces between separators, always at least one. */
  function Split(s: string, sep: char): (r: seq<string>)
    ensures |r| >= 1
    ensures forall i :: 0 <= i < |r| ==> sep !in r[i]
    decreases |s|
  {
    if |s| == 0 then [""]
    else
      var rest := Split(s[1..], sep);
      if s[0] == sep then [""] + rest
      else [[s[0]] + rest[0]] + rest[1..]
  }

  /** The positions of `sep` in `s`: the independent count Split is measured against. */
  function SepPositions(s: string, sep: char): (r: seq<nat>)
    ensures forall k :: 0 <= k < |r| ==> r[k] < |s| && s[r[k]] == sep
    decreases |s|
  {
    if |s| == 0 then []
    else
      var rest := Shift(SepPositions(s[1..], sep));
      if s[0] == sep then [0] + rest else rest
  }

  /** The positions are strictly increasing, so each is listed once and in order. */
  lemma {:induction false} SepPositionsIncreasing(s: string, sep: char)
    ensures forall k, l :: 0 <= k < l < |SepPositions(s, sep)| ==>
      SepPositions(s, sep)[k] < SepPositions(s, sep)[l]
    decreases |s|
  {
    if |s| > 0 {
      SepPositionsIncreasing(s[1..], sep);
    }
  }

  /** Every separator of `s` is listed. */
  lemma {:induction false} SepPositionsComplete(s: string, sep: char)
    ensures forall i :: 0 <= i < |s| && s[i] == sep ==> i in SepPositions(s, sep)
    decreases |s|
  {
    if |s| > 0 {
      SepPositionsComplete(s[1..], sep);
      var inner := SepPositions(s[1..], sep);
      var rest := Shift(inner);
      var r := SepPositions(s, sep);
      var front := if s[0] == sep then 1 else 0;
      assert r == if s[0] == sep then [0] + rest else rest;
      forall i | 0 <= i < |s| && s[i] == sep ensures i in r {
        if i > 0 {
          assert s[1..][i - 1] == s[i];
          var k :| 0 <= k < |inner| && inner[k] == i - 1;
          assert r[k + front] == rest[k] == i;
        } else {
          assert r[0] == 0;
        }
      }
    }
  }

  function Shift(xs: seq<nat>): (r: seq<nat>)
    ensures |r| == |xs|
    ensures forall k :: 0 <= k < |xs| ==> r[k] == xs[k] + 1
  {
    if |xs| == 0 then [] else [xs[0] + 1] + Shift(xs[1..])
  }

  /** A split has one piece more than the string has separators. */
  lemma {:induction false} SplitCount(s: string, sep: char)
    ensures |Split(s, sep)| == 1 + |SepPositions(s, sep)|
    decreases |s|
  {
    if |s| > 0 {
      SplitCount(s[1..], sep);
    }
  }

  /** Python `sep.join(parts)`. */
  function Join(parts: seq<string>, sep: char): string
  {
    if |parts| == 0 then ""
    else if |parts| == 1 then parts[0]
    else parts[0] + [sep] + Join(parts[1..], sep)
  }

  /** Every piece is free of the separator. */
  predicate SepFree(parts: seq<string>, sep: char)
  {
    forall i :: 0 <= i < |parts| ==> sep !in parts[i]
  }

  /** Every piece is free of the separator and non-empty, as the tokens of a filtered split are. */
  predicate Tokens(parts: seq<string>, sep: char)
  {
    forall i :: 0 <= i < |parts| ==> |parts[i]| > 0 && sep !in parts[i]
  }

  /** Joining the pieces of a split gives back the string. */
  lemma {:induction false} JoinSplit(s: string, sep: char)
    ensures Join(Split(s, sep), sep) == s
    decreases |s|
  {
    if |s| > 0 {
      var rest := Split(s[1..], sep);
      JoinSplit(s[1..], sep);
      if s[0] == sep {
        assert Split(s, sep) == [""] + rest;
        assert s == [sep] + s[1..];
      } else {
        var r := Split(s, sep);
        assert r == [[s[0]] + rest[0]] + rest[1..];
        if |rest| == 1 {
          assert s == [s[0]] + s[1..];
        } else {
          assert r[1..] == rest[1..];
          assert Join(rest, sep) == rest[0] + [sep] + Join(rest[1..], sep);
          assert s == [s[0]] + s[1..];
        }
      }
    }
  }

  /** A separator-free prefix fuses with the first piece of the rest. */
  lemma {:induction false} SplitFreePrefix(p: string, t: string, sep: char)
    requires sep !in p
    ensures Split(p + t, sep) == [p + Split(t, sep)[0]] + Split(t, sep)[1..]
    decreases |p|
  {
    if |p| > 0 {
      SplitFreePrefix(p[1..], t, sep);
      var u := p + t;
      assert u[0] == p[0] && u[0] != sep;
      assert u[1..] == p[1..] + t;
      var rest := Split(u[1..], sep);
      assert Split(u, sep) == [[p[0]] + rest[0]] + rest[1..];
      assert rest[0] == p[1..] + Split(t, sep)[0];
      assert rest[1..] == Split(t, sep)[1..];
      assert [p[0]] + (p[1..] + Split(t, sep)[0]) == p + Split(t, sep)[0];
    } else {
      assert p + t == t;
      assert p + Split(t, sep)[0] == Split(t, sep)[0];
      assert Split(t, sep) == [Split(t, sep)[0]] + Split(t, sep)[1..];
    }
  }

  /** Splitting the join of separator-free pieces gives back the pieces. */
  lemma {:induction false} SplitJoin(parts: seq<string>, sep: char)
    requires |parts| >= 1 && SepFree(parts, sep)
    ensures Split(Join(parts, sep), sep) == parts
  {
    if |parts| == 1 {
      SplitFree(parts[0], sep);
    } else {
      var tail := Join(parts[1..], sep);
      SplitJoin(parts[1..], sep);
      SplitFreePrefix(parts[0], [sep] + tail, sep);
      SplitAfterSep(tail, sep);
      assert parts[0] + "" == parts[0];
      assert parts[0] + [sep] + tail == parts[0] + ([sep] + tail);
      assert parts == [parts[0]] + parts[1..];
    }
  }

  /** A separator-free string splits into itself. */
  lemma SplitFree(p: string, sep: char)
    requires sep !in p
    ensures Split(p, sep) == [p]
  {
    SplitFreePrefix(p, "", sep);
    assert p + "" == p;
    assert Split("", sep) == [""];
  }

  /** A string that starts with the separator splits into an empty piece and the pieces of
      the rest. */
  lemma SplitAfterSep(t: string, sep: char)
    ensures Split([sep] + t, sep) == [""] + Split(t, sep)
  {
    var st := [sep] + t;
    assert st[0] == sep && st[1..] == t;
  }

  lemma {:induction false} JoinEmpty(parts: seq<string>, sep: char)
    requires Tokens(parts, sep)
    ensures Join(parts, sep) == "" <==> parts == []
  {
    if |parts| > 1 {
      assert |Join(parts, sep)| >= |parts[0]|;
    }
  }

  /** Joining is injective on lists of separator-free non-empty tokens. */
  lemma JoinInjective(a: seq<string>, b: seq<string>, sep: char)
    requires Tokens(a, sep) && Tokens(b, sep)
    requires Join(a, sep) == Join(b, sep)
    ensures a == b
  {
    JoinEmpty(a, sep);
    JoinEmpty(b, sep);
    if a != [] && b != [] {
      SplitJoin(a, sep);
      SplitJoin(b, sep);
    }
  }

  /** Joining a concatenation of two non-empty lists puts one separator between their joins. */
  lemma {:induction false} JoinAppend(a: seq<string>, b: seq<string>, sep: char)
    requires |a| > 0 && |b| > 0
    ensures Join(a + b, sep) == Join(a, sep) + [sep] + Join(b, sep)
    decreases |a|
  {
    if |a| > 1 {
      JoinAppend(a[1..], b, sep);
      assert (a + b)[1..] == a[1..] + b;
    } else {
      assert (a + b)[1..] == b;
    }
  }

  /** The concatenation of a list of lists. */
  function Flatten<T>(xss: seq<seq<T>>): (r: seq<T>)
  {
    if |xss| == 0 then [] else xss[0] + Flatten(xss[1..])
  }

  lemma {:induction false} FlattenAppend<T>(xss: seq<seq<T>>, yss: seq<seq<T>>)
    ensures Flatten(xss + yss) == Flatten(xss) + Flatten(yss)
    decreases |xss|
  {
    if |xss| > 0 {
      FlattenAppend(xss[1..], yss);
      assert (xss + yss)[1..] == xss[1..] + yss;
    } else {
      assert xss + yss == yss;
    }
  }

  /** Appending the first list and then the concatenation of the rest appends the
      concatenation of all. */
  lemma AppendFlattenCons<T>(xs: seq<T>, xss: seq<seq<T>>)
    requires |xss| > 0
    ensures xs + xss[0] + Flatten(xss[1..]) == xs + Flatten(xss)
  {
    FlattenCons(xss);
    Associative(xs, xss[0], Flatten(xss[1..]));
  }

  /** The concatenation of lists is the first list followed by the concatenation of the rest. */
  lemma FlattenCons<T>(xss: seq<seq<T>>)
    requires |xss| > 0
    ensures Flatten(xss) == xss[0] + Flatten(xss[1..])
  {
  }

  /** Concatenation is associative. */
  lemma Associative<T>(a: seq<T>, b: seq<T>, c: seq<T>)
    ensures a + b + c == a + (b + c)
  {
  }

  /** The joins of each list, one per list. */
  function JoinEach(xss: seq<seq<string>>, sep: char): (r: seq<string>)
    ensures |r| == |xss|
    ensures forall i :: 0 <= i < |xss| ==> r[i] == Join(xss[i], sep)
  {
    if |xss| == 0 then [] else [Join(xss[0], sep)] + JoinEach(xss[1..], sep)
  }

  /** Joining the joins of non-empty lists is joining their concatenation. */
  lemma {:induction false} JoinOfJoins(xss: seq<seq<string>>, sep: char)
    requires forall i :: 0 <= i < |xss| ==> |xss[i]| > 0
    ensures Join(JoinEach(xss, sep), sep) == Join(Flatten(xss), sep)
    decreases |xss|
  {
    if |xss| > 1 {
      JoinOfJoins(xss[1..], sep);
      FlattenNonEmpty(xss[1..]);
      JoinAppend(xss[0], Flatten(xss[1..]), sep);
      assert JoinEach(xss, sep)[1..] == JoinEach(xss[1..], sep);
    } else if |xss| == 1 {
      assert Flatten(xss) == xss[0] + Flatten(xss[1..]);
      assert Flatten(xss[1..]) == [];
      assert Flatten(xss) == xss[0];
    }
  }

  lemma FlattenNonEmpty<T>(xss: seq<seq<T>>)
    requires |xss| > 0 && |xss[0]| > 0
    ensures |Flatten(xss)| > 0
  {
  }

  /** The number of leading `c` in `s`. */
  function Leading(s: string, c: char): (n: nat)
    ensures n <= |s|
    ensures forall i :: 0 <= i < n ==> s[i] == c
    ensures n < |s| ==> s[n] != c
    decreases |s|
  {
    if |s| > 0 && s[0] == c then 1 + Leading(s[1..], c) else 0
  }

  /** The number of trailing `c` in `s`. */
  function Trailing(s: string, c: char): (n: nat)
    ensures n <= |s|
    ensures forall i :: |s| - n <= i < |s| ==> s[i] == c
    ensures n < |s| ==> s[|s| - n - 1] != c
    decreases |s|
  {
    if |s| > 0 && s[|s| - 1] == c then 1 + Trailing(s[..|s| - 1], c) else 0
  }

  /** Python `s.strip(c)`: drops every leading and every trailing `c`; what is left is the
      middle of `s`, neither starting nor ending with `c`. */
  function Strip(s: string, c: char): (r: string)
    ensures |r| > 0 ==> r[0] != c && r[|r| - 1] != c
    ensures Leading(s, c) + |r| <= |s| && r == s[Leading(s, c)..Leading(s, c) + |r|]
    ensures forall i :: 0 <= i < Leading(s, c) ==> s[i] == c
    ensures forall i :: Leading(s, c) + |r| <= i < |s| ==> s[i] == c
  {
    var lo := Leading(s, c);
    var t := s[lo..];
    var n := Trailing(t, c);
    var hi := lo + |t| - n;
    assert hi > lo ==> s[lo] == t[0] && s[hi - 1] == t[|t| - n - 1];
    assert forall i :: hi <= i < |s| ==> s[i] == t[i - lo];
    s[lo..hi]
  }

  /** Python `xs[a:b]` for non-negative `a` and `b`: both bounds are clamped to the list. */
  function Slice<T>(xs: seq<T>, a: nat, b: nat): (r: seq<T>)
    ensures |r| == if a < b && a < |xs| then (if b <= |xs| then b else |xs|) - a else 0
    ensures forall k :: 0 <= k < |r| ==> r[k] == xs[a + k]
  {
    var hi := if b <= |xs| then b else |xs|;
    if a < hi then xs[a..hi] else []
  }

  /** Python `xs[n:]`. */
  function Drop<T>(xs: seq<T>, n: nat): (r: seq<T>)
    ensures |xs| <= n ==> r == []
    ensures n < |xs| ==> r == xs[n..]
  {
    Slice(xs, n, |xs|)
  }
}
