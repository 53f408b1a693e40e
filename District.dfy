/**
  The line-by-line reader of the district file: a batch header such as `"1": {` opens a batch, a
  city line such as `"A": ["B", "C"],` adds the city's neighbours to the current batch, and braces,
  blank and malformed lines are skipped. The file itself is not opened here; the model reads a
  sequence of lines.
*/
module DistrictParse {
  import opened Wrappers
  import Text

  /** A batch: each city with its neighbour list. */
  type Batch = map<string, seq<string>>

  /** Every batch, keyed by its name. */
  type Data = map<string, Batch>

  /** What the reader carries from line to line: the batches so far and the current batch's key. */
  datatype ParseState = ParseState(data: Data, mainKey: string)

  const Start := ParseState(map[], "")

  /** The value part of a city line: brackets, a trailing comma and outer quotes stripped, then split at commas. */
  function Neighbours(part: string): (r: seq<string>)
    ensures StrippedValue(part) == [] ==> r == []
    ensures StrippedValue(part) != [] ==> |r| == Text.CountChar(StrippedValue(part), ',') + 1
    ensures forall i :: 0 <= i < |r| ==> ',' !in r[i]
  {
    var v := StrippedValue(part);
    if v == [] then [] else UnquoteAll(Text.Split(v, ','))
  }

  /** Each piece with whitespace and then quotes trimmed off. */
  function UnquoteAll(pieces: seq<string>): (r: seq<string>)
    requires forall i :: 0 <= i < |pieces| ==> ',' !in pieces[i]
    ensures |r| == |pieces|
    ensures forall i :: 0 <= i < |r| ==> ',' !in r[i]
  {
    seq(|pieces|, i requires 0 <= i < |pieces| => Unquote(pieces[i]))
  }

  function StrippedValue(part: string): string {
    Text.TrimMatches(Text.TrimMatches(Text.TrimMatches(Text.TrimMatches(Text.Trim(part), ','), '['), ']'), '"')
  }

  /** A name with surrounding whitespace and then surrounding quotes removed; unquoting only removes characters. */
  function Unquote(s: string): (r: string)
    ensures forall x :: x in r ==> x in s
  {
    Text.TrimInside(s);
    Text.TrimMatchesInside(Text.Trim(s), '"');
    Text.TrimMatches(Text.Trim(s), '"')
  }

  /** Adds a city line to a batch: a repeated city gets the new neighbours appended, a new city is inserted. */
  function AddCity(batch: Batch, city: string, values: seq<string>): (r: Batch)
    ensures r.Keys == batch.Keys + {city}
    ensures city in batch ==> r[city] == batch[city] + values
    ensures city !in batch ==> r[city] == values
    ensures forall c :: c in batch && c != city ==> r[c] == batch[c]
  {
    if city in batch then batch[city := batch[city] + values] else batch[city := values]
  }

  /** A line holding `": {"` holds a colon. */
  lemma ColonInHeader(line: string)
    requires Text.Contains(line, ": {")
    ensures ':' in line
  {
    var i :| 0 <= i <= |line| - 3 && Text.MatchesAt(line, ": {", i);
    assert line[i] == line[i..i + 3][0];
  }

  /**
    The effect of one line. `None` is the panic of the source: a city line while the current key
    names no batch (a city line before the first header).
  */
  function ParseLine(st: ParseState, raw: string): (r: Option<ParseState>)
    ensures r.Some? ==> st.data.Keys <= r.value.data.Keys
    ensures r.Some? && st.mainKey in st.data ==> r.value.mainKey in r.value.data
  {
    var line := Text.Trim(raw);
    if line == [] || Text.StartsWith(line, '{') then Some(st)
    else if Text.Contains(line, ": {") then
      ColonInHeader(line);
      var key := Unquote(Text.SplitOnce(line, ':').value.0);
      Some(ParseState(st.data[key := map[]], key))
    else if Text.StartsWith(line, '}') then Some(st)
    else
      var parts := Text.Split(line, ':');
      if |parts| != 2 then Some(st)
      else if st.mainKey !in st.data then None
      else
        var batch := AddCity(st.data[st.mainKey], Unquote(parts[0]), Neighbours(parts[1]));
        Some(ParseState(st.data[st.mainKey := batch], st.mainKey))
  }

  /** The lines read in order from `st`; `None` if one of them panics. */
  function ParseFrom(st: ParseState, lines: seq<string>): (r: Option<ParseState>)
    ensures r.Some? ==> st.data.Keys <= r.value.data.Keys
    decreases |lines|
  {
    if lines == [] then Some(st)
    else match ParseLine(st, lines[0])
      case None => None
      case Some(next) => ParseFrom(next, lines[1..])
  }

  /** The whole file: an empty map and an empty current key to start with. */
  function ParseLines(lines: seq<string>): Option<ParseState> {
    ParseFrom(Start, lines)
  }

  /** Reading `a` and then `b` is reading `a + b`. */
  lemma {:induction false} ParseFromAppend(st: ParseState, a: seq<string>, b: seq<string>)
    ensures ParseFrom(st, a + b) ==
      match ParseFrom(st, a)
      case None => None
      case Some(mid) => ParseFrom(mid, b)
    decreases |a|
  {
    if a == [] {
      assert a + b == b;
    } else {
      assert (a + b)[0] == a[0] && (a + b)[1..] == a[1..] + b;
      match ParseLine(st, a[0])
      case None =>
      case Some(next) => ParseFromAppend(next, a[1..], b);
    }
  }

  /** Blank lines and lines opening with `{` change nothing. */
  lemma SkippedLine(st: ParseState, raw: string)
    requires Text.Trim(raw) == [] || Text.StartsWith(Text.Trim(raw), '{')
    ensures ParseLine(st, raw) == Some(st)
  {
  }

  /** A line opening with `}` changes nothing, unless it is also a header. */
  lemma ClosingLine(st: ParseState, raw: string)
    requires Text.StartsWith(Text.Trim(raw), '}') && !Text.Contains(Text.Trim(raw), ": {")
    ensures ParseLine(st, raw) == Some(st)
  {
  }

  /**
    A header line, split at its first colon into `before` and `after`, starts a fresh empty batch
    named by the unquoted `before` (replacing any batch of that name) and makes it current.
  */
  lemma HeaderLine(st: ParseState, raw: string, before: string, after: string)
    requires Text.Trim(raw) == before + [':'] + after && ':' !in before
    requires Text.Contains(Text.Trim(raw), ": {") && !Text.StartsWith(Text.Trim(raw), '{')
    ensures ParseLine(st, raw) == Some(ParseState(st.data[Unquote(before) := map[]], Unquote(before)))
  {
    SplitOnceAt(Text.Trim(raw), before, after);
  }

  /** The first separator of a string is where `split_once` splits it. */
  lemma {:induction false} SplitOnceAt(s: string, before: string, after: string)
    requires s == before + [':'] + after && ':' !in before
    ensures Text.SplitOnce(s, ':') == Some((before, after))
  {
    if before != [] {
      assert s[0] == before[0] && s[0] != ':';
      assert s[1..] == before[1..] + [':'] + after;
      SplitOnceAt(s[1..], before[1..], after);
      assert [s[0]] + before[1..] == before;
    }
  }

  /** A line that is not a header, a brace or blank, and does not hold exactly one colon, changes nothing. */
  lemma MalformedLine(st: ParseState, raw: string)
    requires Text.Trim(raw) != [] && !Text.StartsWith(Text.Trim(raw), '{') && !Text.StartsWith(Text.Trim(raw), '}')
    requires !Text.Contains(Text.Trim(raw), ": {")
    requires Text.CountChar(Text.Trim(raw), ':') != 1
    ensures ParseLine(st, raw) == Some(st)
  {
  }

  /**
    A city line `name: value` with one colon adds the unquoted name and its neighbour list to the
    current batch; every other batch, and the current key, stay as they were.
  */
  lemma CityLine(st: ParseState, raw: string, name: string, value: string)
    requires Text.Trim(raw) == name + [':'] + value && ':' !in name && ':' !in value
    requires !Text.StartsWith(Text.Trim(raw), '{') && !Text.StartsWith(Text.Trim(raw), '}')
    requires !Text.Contains(Text.Trim(raw), ": {")
    requires st.mainKey in st.data
    ensures ParseLine(st, raw) ==
      Some(ParseState(st.data[st.mainKey := AddCity(st.data[st.mainKey], Unquote(name), Neighbours(value))], st.mainKey))
  {
    SplitAtColon(Text.Trim(raw), name, value);
  }

  /** A string with exactly one colon splits into the text before it and the text after it. */
  lemma SplitAtColon(line: string, name: string, value: string)
    requires line == name + [':'] + value && ':' !in name && ':' !in value
    ensures Text.Split(line, ':') == [name, value]
  {
    assert line == name + ([':'] + value);
    Text.SplitPrefix(name, value, ':');
    Text.SplitFree(value, ':');
  }

  /** A city line before any batch header is where the source panics. */
  lemma OrphanCityLine(raw: string, name: string, value: string)
    requires Text.Trim(raw) == name + [':'] + value && ':' !in name && ':' !in value
    requires !Text.StartsWith(Text.Trim(raw), '{') && !Text.StartsWith(Text.Trim(raw), '}')
    requires !Text.Contains(Text.Trim(raw), ": {")
    ensures ParseLine(Start, raw).None?
  {
    SplitAtColon(Text.Trim(raw), name, value);
  }

  /**
    `parse_file` over the file's lines: trims each line, skips blank and brace lines, opens a batch
    on a header, and adds each well-formed city line to the current batch.
  */
  method ParseFile(lines: seq<string>) returns (data: Data)
    requires ParseLines(lines).Some?
    ensures data == ParseLines(lines).value.data
  {
    data := map[];
    var mainKey := "";
    for i := 0 to |lines|
      invariant ParseFrom(ParseState(data, mainKey), lines[i..]) == ParseLines(lines)
    {
      ghost var st := ParseState(data, mainKey);
      assert lines[i..][0] == lines[i] && lines[i..][1..] == lines[i + 1..];
      var line := Text.Trim(lines[i]);
      if line == [] || Text.StartsWith(line, '{') {
        continue;
      }
      if Text.Contains(line, ": {") {
        ColonInHeader(line);
        var (key, _) := Text.SplitOnce(line, ':').value;
        mainKey := Unquote(key);
        data := data[mainKey := map[]];
        continue;
      }
      if Text.StartsWith(line, '}') {
        continue;
      }
      var parts := Text.Split(line, ':');
      if |parts| != 2 {
        continue;
      }
      var key := Unquote(parts[0]);
      var values := Neighbours(parts[1]);
      var mm := data[mainKey];
      if key in mm {
        mm := mm[key := mm[key] + values];
      } else {
        mm := mm[key := values];
      }
      data := data[mainKey := mm];
    }
  }
}

/**
  The province count of `count_provinces`: within a batch, each city is merged with every province
  that already holds it or one of its neighbours, and the number of provinces left is the batch's
  count. The batches are taken in ascending key order and their counts joined by commas.
*/
module Provinces {
  import Text
  import DistrictParse

  type Batch = DistrictParse.Batch

  /** The provinces built so far, each keyed by one of its cities and holding its cities in merge order (with repeats). */
  type Provinces = map<string, seq<string>>

  /** The provinces as sets of cities. */
  type View = map<string, set<string>>

  function Elems(s: seq<string>): (e: set<string>)
    ensures forall x :: x in e <==> x in s
  {
    set x | x in s
  }

  function ViewOf(list: Provinces): (v: View)
    ensures v.Keys == list.Keys
    ensures forall k :: k in v ==> v[k] == Elems(list[k])
  {
    map k | k in list :: Elems(list[k])
  }

  /** A province is touched by a city line when it holds the city or one of its neighbours. */
  predicate Touches(cities: set<string>, key: string, vals: seq<string>) {
    key in cities || exists v :: v in vals && v in cities
  }

  function TouchedKeys(v: View, key: string, vals: seq<string>): (t: set<string>)
    ensures t <= v.Keys
  {
    set k | k in v && Touches(v[k], key, vals)
  }

  /** All cities of the provinces named by `ks`. */
  function UnionOf(v: View, ks: set<string>): set<string> {
    set k, c | k in ks && k in v && c in v[k] :: c
  }

  /** Every city of every province. */
  function Cities(v: View): set<string> {
    UnionOf(v, v.Keys)
  }

  /**
    One step of `count_provinces` on the set view: a city that already owns a province extends it;
    otherwise the city, its neighbours and every touched province become one province under the
    city's name, or a new province when nothing is touched.
  */
  function MergeView(v: View, key: string, vals: seq<string>): View {
    if key in v && key in v[key] then v[key := v[key] + Elems(vals)]
    else
      var t := TouchedKeys(v, key, vals);
      if t == {} then v[key := Elems(vals) + {key}]
      else (map k | k in v && k !in t :: v[k])[key := {key} + Elems(vals) + UnionOf(v, t)]
  }

  /** The view of the list with the provinces named in `gone` removed and `key` set to `s`. */
  lemma RemovedView(list: Provinces, rest: Provinces, gone: set<string>, key: string, s: seq<string>)
    requires forall k :: k in rest <==> k in list && k !in gone && k != key
    requires forall k :: k in rest ==> rest[k] == list[k]
    ensures ViewOf(rest[key := s]) == (map k | k in ViewOf(list) && k !in gone :: ViewOf(list)[k])[key := Elems(s)]
  {
    var v := ViewOf(list);
    var m := (map k | k in v && k !in gone :: v[k])[key := Elems(s)];
    var w := ViewOf(rest[key := s]);
    assert w.Keys == m.Keys;
    forall k | k in w
      ensures w[k] == m[k]
    {
    }
  }

  /** The list left after removing the touched provinces, with the merged province inserted, has the merged view. */
  lemma MergedView(list: Provinces, rest: Provinces, key: string, vals: seq<string>, s: seq<string>)
    requires !(key in list && key in list[key])
    requires TouchedKeys(ViewOf(list), key, vals) != {}
    requires forall k :: k in rest <==> k in list && k !in TouchedKeys(ViewOf(list), key, vals)
    requires forall k :: k in rest ==> rest[k] == list[k]
    requires Elems(s) == {key} + Elems(vals) + UnionOf(ViewOf(list), TouchedKeys(ViewOf(list), key, vals))
    ensures ViewOf(rest[key := s]) == MergeView(ViewOf(list), key, vals)
  {
    RemovedView(list, rest - {key}, TouchedKeys(ViewOf(list), key, vals), key, s);
    assert rest[key := s] == (rest - {key})[key := s];
  }

  lemma UnionStep(v: View, ks: set<string>, k: string)
    requires k in v
    ensures UnionOf(v, ks + {k}) == UnionOf(v, ks) + v[k]
  {
  }

  lemma ViewOfUpdate(list: Provinces, key: string, s: seq<string>)
    ensures ViewOf(list[key := s]) == ViewOf(list)[key := Elems(s)]
  {
  }

  /**
    The body of the loop over a batch's cities in `count_provinces`: looks the city up, collects
    the touched provinces and merges them.
  */
  method MergeCity(list: Provinces, key: string, vals: seq<string>) returns (r: Provinces)
    ensures ViewOf(r) == MergeView(ViewOf(list), key, vals)
  {
    if key in list && key in list[key] {
      r := list[key := list[key] + vals];
      ViewOfUpdate(list, key, list[key] + vals);
      assert Elems(list[key] + vals) == Elems(list[key]) + Elems(vals);
      return;
    }
    var found := TouchedProvinces(list, key, vals);
    if |list| == 0 || |found| == 0 {
      r := list[key := vals + [key]];
      ViewOfUpdate(list, key, vals + [key]);
      assert TouchedKeys(ViewOf(list), key, vals) == {};
      assert Elems(vals + [key]) == Elems(vals) + {key};
      return;
    }
    r := MergeFound(list, found, key, vals);
  }

  /**
    The inner loop of `count_provinces`: the keys of the provinces holding the city or one of its
    neighbours, each once, in the arbitrary order in which the provinces are visited.
  */
  method TouchedProvinces(list: Provinces, key: string, vals: seq<string>) returns (found: seq<string>)
    ensures forall i, j :: 0 <= i < j < |found| ==> found[i] != found[j]
    ensures Elems(found) == TouchedKeys(ViewOf(list), key, vals)
  {
    found := [];
    var rest := list.Keys;
    while rest != {}
      invariant rest <= list.Keys
      invariant forall i :: 0 <= i < |found| ==> found[i] in list && found[i] !in rest
      invariant forall i, j :: 0 <= i < j < |found| ==> found[i] != found[j]
      invariant Elems(found) == set k | k in list && k !in rest && Touches(Elems(list[k]), key, vals)
      decreases |rest|
    {
      var k :| k in rest;
      var listValues := list[k];
      ghost var before := found;
      if key in listValues {
        found := found + [k];
      } else {
        var j := 0;
        while j < |vals|
          invariant 0 <= j <= |vals|
          invariant found == before
          invariant forall t :: 0 <= t < j ==> vals[t] !in listValues
        {
          if vals[j] in listValues {
            found := found + [k];
            break;
          }
          j := j + 1;
        }
      }
      assert found == before + [k] <==> Touches(Elems(listValues), key, vals);
      assert found == before || found == before + [k];
      rest := rest - {k};
    }
  }

  /** Removes every found province and inserts their union with the city and its neighbours under the city's name. */
  method MergeFound(list: Provinces, found: seq<string>, key: string, vals: seq<string>) returns (r: Provinces)
    requires forall i, j :: 0 <= i < j < |found| ==> found[i] != found[j]
    requires Elems(found) == TouchedKeys(ViewOf(list), key, vals) && found != []
    requires !(key in list && key in list[key])
    ensures ViewOf(r) == MergeView(ViewOf(list), key, vals)
  {
    var tmp := [key] + vals;
    r := list;
    ghost var v := ViewOf(list);
    for i := 0 to |found|
      invariant forall k :: k in r <==> k in list && k !in found[..i]
      invariant forall k :: k in r ==> r[k] == list[k]
      invariant |tmp| >= 1 && tmp[0] == key
      invariant Elems(tmp) == {key} + Elems(vals) + UnionOf(v, Elems(found[..i]))
    {
      assert found[i] !in found[..i];
      var t := r[found[i]];
      r := r - {found[i]};
      tmp := tmp + t;
      assert found[..i + 1] == found[..i] + [found[i]];
      UnionStep(v, Elems(found[..i]), found[i]);
      assert Elems(found[..i + 1]) == Elems(found[..i]) + {found[i]};
    }
    assert found[..|found|] == found;
    assert found[0] in Elems(found);
    MergedView(list, r, key, vals, tmp);
    r := r[tmp[0] := tmp];
  }

  /** Every province holds the city it is keyed by. */
  ghost predicate Owned(v: View) {
    forall k :: k in v ==> k in v[k]
  }

  /** No city lies in two provinces. */
  ghost predicate Disjoint(v: View) {
    forall a, b, c :: a in v && b in v && c in v[a] && c in v[b] ==> a == b
  }

  /** Some province holds every city of `cs`. */
  ghost predicate Inside(v: View, cs: set<string>) {
    exists p :: p in v && cs <= v[p]
  }

  /** Every province of `v` lies within a province of `w`. */
  ghost predicate Coarser(v: View, w: View) {
    forall p :: p in v ==> Inside(w, v[p])
  }

  lemma InsideCoarser(v: View, w: View, cs: set<string>)
    requires Inside(v, cs) && Coarser(v, w)
    ensures Inside(w, cs)
  {
    var p :| p in v && cs <= v[p];
    var q :| q in w && v[p] <= w[q];
  }

  /** Adding a province under a fresh key adds its cities and keeps every old province. */
  lemma InsertFresh(v: View, key: string, x: set<string>)
    requires key !in v
    ensures Cities(v[key := x]) == Cities(v) + x
    ensures Coarser(v, v[key := x])
  {
    var w := v[key := x];
    forall c | c in Cities(v) + x
      ensures c in Cities(w)
    {
      if c !in x {
        var k :| k in v && c in v[k];
        assert c in w[k];
      } else {
        assert c in w[key];
      }
    }
    forall p | p in v
      ensures Inside(w, v[p])
    {
      assert p in w && v[p] <= w[p];
    }
  }

  /** The cities outside the touched provinces and those inside them are all the cities. */
  lemma UntouchedCities(v: View, t: set<string>)
    ensures Cities(Untouched(v, t)) + UnionOf(v, t) == Cities(v)
  {
    var u := Untouched(v, t);
    forall c | c in Cities(v)
      ensures c in Cities(u) + UnionOf(v, t)
    {
      var k :| k in v && c in v[k];
      if k !in t {
        assert c in u[k];
      }
    }
  }

  /** A fresh province that no province touches keeps the provinces disjoint. */
  lemma NewDisjoint(v: View, key: string, vals: seq<string>)
    requires Disjoint(v) && key !in v
    requires TouchedKeys(v, key, vals) == {}
    ensures Disjoint(v[key := Elems(vals) + {key}])
  {
    var w := v[key := Elems(vals) + {key}];
    forall o | o in v
      ensures !Touches(v[o], key, vals)
    {
      assert o !in TouchedKeys(v, key, vals);
    }
    forall a, b, c | a in w && b in w && c in w[a] && c in w[b]
      ensures a == b
    {
    }
  }

  /** Joining the touched provinces with the city and its neighbours keeps the provinces disjoint. */
  lemma JoinDisjoint(v: View, key: string, vals: seq<string>)
    requires Disjoint(v) && key !in v
    ensures var t := TouchedKeys(v, key, vals);
      Disjoint(Untouched(v, t)[key := {key} + Elems(vals) + UnionOf(v, t)])
  {
    var t := TouchedKeys(v, key, vals);
    var u := Untouched(v, t);
    var s := {key} + Elems(vals) + UnionOf(v, t);
    var w := u[key := s];
    forall a, b, c | a in w && b in w && c in w[a] && c in w[b]
      ensures a == b
    {
    }
  }

  /** Every touched province lies within the joined one. */
  lemma JoinCoarser(v: View, key: string, vals: seq<string>)
    requires key !in v
    ensures var t := TouchedKeys(v, key, vals);
      Coarser(Untouched(v, t), Untouched(v, t)[key := {key} + Elems(vals) + UnionOf(v, t)]) &&
      forall p :: p in t ==> v[p] <= {key} + Elems(vals) + UnionOf(v, t)
  {
    var t := TouchedKeys(v, key, vals);
    InsertFresh(Untouched(v, t), key, {key} + Elems(vals) + UnionOf(v, t));
  }

  /** The provinces of `v` that a merge leaves alone. */
  function Untouched(v: View, t: set<string>): (u: View)
    ensures u.Keys == v.Keys - t
    ensures forall k :: k in u ==> u[k] == v[k]
  {
    map k | k in v && k !in t :: v[k]
  }

  lemma UntouchedSize(v: View, t: set<string>)
    requires t <= v.Keys
    ensures |Untouched(v, t)| == |v| - |t|
  {
    var u := Untouched(v, t);
    assert u.Keys == v.Keys - t;
    assert v.Keys == u.Keys + t;
    assert u.Keys * t == {};
  }

  /** The merged province, and the provinces the merge leaves, when the city is the key of no province. */
  lemma MergeShape(v: View, key: string, vals: seq<string>)
    requires key !in v
    ensures var t := TouchedKeys(v, key, vals);
      MergeView(v, key, vals) ==
        if t == {} then v[key := {key} + Elems(vals)]
        else Untouched(v, t)[key := {key} + Elems(vals) + UnionOf(v, t)]
  {
    assert Elems(vals) + {key} == {key} + Elems(vals);
  }

  /** Every province keeps holding the city it is keyed by (the extending branch included). */
  lemma MergeOwned(v: View, key: string, vals: seq<string>)
    requires Owned(v)
    ensures Owned(MergeView(v, key, vals))
  {
  }

  lemma MergeDisjoint(v: View, key: string, vals: seq<string>)
    requires Disjoint(v) && key !in v
    ensures Disjoint(MergeView(v, key, vals))
  {
    MergeShape(v, key, vals);
    if TouchedKeys(v, key, vals) == {} {
      NewDisjoint(v, key, vals);
    } else {
      JoinDisjoint(v, key, vals);
    }
  }

  /** The provinces still cover exactly the cities seen, now with the city and its neighbours. */
  lemma MergeCities(v: View, key: string, vals: seq<string>)
    requires key !in v
    ensures Cities(MergeView(v, key, vals)) == Cities(v) + {key} + Elems(vals)
  {
    MergeShape(v, key, vals);
    var t := TouchedKeys(v, key, vals);
    if t == {} {
      InsertFresh(v, key, {key} + Elems(vals));
    } else {
      InsertFresh(Untouched(v, t), key, {key} + Elems(vals) + UnionOf(v, t));
      UntouchedCities(v, t);
    }
  }

  /** Each old province lies within a new one, and one new province, under the city's name, holds the city and its neighbours. */
  lemma MergeCoarser(v: View, key: string, vals: seq<string>)
    requires key !in v
    ensures Coarser(v, MergeView(v, key, vals))
    ensures key in MergeView(v, key, vals) && {key} + Elems(vals) <= MergeView(v, key, vals)[key]
  {
    MergeShape(v, key, vals);
    var t := TouchedKeys(v, key, vals);
    var w := MergeView(v, key, vals);
    if t == {} {
      InsertFresh(v, key, {key} + Elems(vals));
    } else {
      var u := Untouched(v, t);
      forall p | p in v
        ensures Inside(w, v[p])
      {
        if p in t {
          assert key in w && v[p] <= w[key];
        } else {
          assert p in w && v[p] == w[p];
        }
      }
    }
  }

  /**
    A city that is the key of no province and touches none adds exactly one province; one that
    touches some removes those and adds one.
  */
  lemma MergeCount(v: View, key: string, vals: seq<string>)
    requires key !in v
    ensures var t := TouchedKeys(v, key, vals);
      |MergeView(v, key, vals)| == if t == {} then |v| + 1 else |v| - |t| + 1
  {
    MergeShape(v, key, vals);
    var t := TouchedKeys(v, key, vals);
    if t != {} {
      UntouchedSize(v, t);
    }
  }

  /** Only the city's name can become a new key. */
  lemma MergeKeys(v: View, key: string, vals: seq<string>)
    ensures MergeView(v, key, vals).Keys <= v.Keys + {key}
  {
  }

  /** One city line of a batch as a `HashMap` yields it: the city and its neighbours. */
  type Entry = (string, seq<string>)

  /** The city and its neighbours. */
  function Star(e: Entry): (cs: set<string>)
    ensures e.0 in cs && forall x :: x in e.1 ==> x in cs
  {
    {e.0} + Elems(e.1)
  }

  /** The provinces, as sets, after merging the entries one by one from an empty map. */
  function After(entries: seq<Entry>): View {
    if entries == [] then map[]
    else
      var last := entries[|entries| - 1];
      MergeView(After(entries[..|entries| - 1]), last.0, last.1)
  }

  /** Every city named in the entries, as a key or as a neighbour. */
  function Seen(entries: seq<Entry>): set<string> {
    if entries == [] then {} else Seen(entries[..|entries| - 1]) + Star(entries[|entries| - 1])
  }

  function KeysOf(entries: seq<Entry>): set<string> {
    set i | 0 <= i < |entries| :: entries[i].0
  }

  ghost predicate DistinctKeys(entries: seq<Entry>) {
    forall i, j :: 0 <= i < j < |entries| ==> entries[i].0 != entries[j].0
  }

  /** One merge step of the fold. */
  lemma AfterStep(entries: seq<Entry>)
    requires entries != []
    ensures var n := |entries| - 1;
      After(entries) == MergeView(After(entries[..n]), entries[n].0, entries[n].1)
  {
  }

  /** Only cities of the batch name provinces. */
  lemma {:induction false} BatchKeys(entries: seq<Entry>)
    ensures After(entries).Keys <= KeysOf(entries)
  {
    if entries != [] {
      var n := |entries| - 1;
      BatchKeys(entries[..n]);
      AfterStep(entries);
      MergeKeys(After(entries[..n]), entries[n].0, entries[n].1);
      assert forall i :: 0 <= i < n ==> entries[..n][i] == entries[i];
    }
  }

  /** With distinct cities, the city of the last line names no province built before it. */
  lemma BatchFresh(entries: seq<Entry>)
    requires DistinctKeys(entries) && entries != []
    ensures var n := |entries| - 1;
      DistinctKeys(entries[..n]) && entries[n].0 !in After(entries[..n])
  {
    var n := |entries| - 1;
    BatchKeys(entries[..n]);
    assert forall i :: 0 <= i < n ==> entries[..n][i] == entries[i];
  }

  /** Every province holds the city it is keyed by, whatever the lines. */
  lemma {:induction false} BatchOwned(entries: seq<Entry>)
    ensures Owned(After(entries))
  {
    if entries != [] {
      var n := |entries| - 1;
      BatchOwned(entries[..n]);
      AfterStep(entries);
      MergeOwned(After(entries[..n]), entries[n].0, entries[n].1);
    }
  }

  /**
    With each city appearing once (as a `HashMap` guarantees), the extending branch never fires and
    no city lies in two provinces.
  */
  lemma {:induction false} BatchDisjoint(entries: seq<Entry>)
    requires DistinctKeys(entries)
    ensures Disjoint(After(entries))
  {
    if entries != [] {
      var n := |entries| - 1;
      BatchFresh(entries);
      BatchDisjoint(entries[..n]);
      AfterStep(entries);
      MergeDisjoint(After(entries[..n]), entries[n].0, entries[n].1);
    }
  }

  /** Together the provinces hold exactly the cities named in the batch. */
  lemma {:induction false} BatchCities(entries: seq<Entry>)
    requires DistinctKeys(entries)
    ensures Cities(After(entries)) == Seen(entries)
  {
    if entries != [] {
      var n := |entries| - 1;
      BatchFresh(entries);
      BatchCities(entries[..n]);
      AfterStep(entries);
      MergeCities(After(entries[..n]), entries[n].0, entries[n].1);
    }
  }

  /** There are at most as many provinces as city lines, and none only when there are no lines. */
  lemma {:induction false} BatchSize(entries: seq<Entry>)
    requires DistinctKeys(entries)
    ensures |After(entries)| <= |entries|
    ensures |After(entries)| == 0 <==> entries == []
  {
    if entries != [] {
      var n := |entries| - 1;
      BatchFresh(entries);
      BatchSize(entries[..n]);
      AfterStep(entries);
      MergeCount(After(entries[..n]), entries[n].0, entries[n].1);
      MergeCoarser(After(entries[..n]), entries[n].0, entries[n].1);
    }
  }

  /** Each city line ends up with the city and all its neighbours in one province. */
  lemma {:induction false} BatchInside(entries: seq<Entry>)
    requires DistinctKeys(entries)
    ensures forall i :: 0 <= i < |entries| ==> Inside(After(entries), Star(entries[i]))
  {
    if entries != [] {
      var n := |entries| - 1;
      var prefix := entries[..n];
      var v := After(prefix);
      var e := entries[n];
      BatchFresh(entries);
      BatchInside(prefix);
      AfterStep(entries);
      MergeCoarser(v, e.0, e.1);
      var w := After(entries);
      forall i | 0 <= i < |entries|
        ensures Inside(w, Star(entries[i]))
      {
        if i < n {
          assert entries[i] == prefix[i];
          InsideCoarser(v, w, Star(prefix[i]));
        } else {
          assert e.0 in w && Star(e) <= w[e.0];
        }
      }
    }
  }

  /** The loop over one batch's cities in `count_provinces`, in the order the entries give, and the count it reports. */
  method CountBatch(entries: seq<Entry>) returns (count: nat)
    ensures count == |After(entries)|
  {
    var list: Provinces := map[];
    for i := 0 to |entries|
      invariant ViewOf(list) == After(entries[..i])
    {
      assert entries[..i + 1][..i] == entries[..i];
      list := MergeCity(list, entries[i].0, entries[i].1);
    }
    assert entries[..|entries|] == entries;
    count := |list|;
  }

  /** `entries` lists each city line of the batch once, in some order, as iterating a `HashMap` does. */
  ghost predicate Enumerates(entries: seq<Entry>, batch: Batch) {
    DistinctKeys(entries) && |entries| == |batch| && KeysOf(entries) == batch.Keys &&
    forall i :: 0 <= i < |entries| ==> entries[i].0 in batch && batch[entries[i].0] == entries[i].1
  }

  /** `count` is what the loop over the batch reports when it visits the cities in the order of `entries`. */
  ghost predicate BatchCounted(batch: Batch, entries: seq<Entry>, count: nat) {
    Enumerates(entries, batch) && count == |After(entries)|
  }

  /** Iterating a batch in an unspecified order. */
  method Enumerate(batch: Batch) returns (entries: seq<Entry>)
    ensures Enumerates(entries, batch)
  {
    entries := [];
    var rest := batch.Keys;
    while rest != {}
      invariant rest <= batch.Keys
      invariant forall k :: k in batch <==> k in KeysOf(entries) || k in rest
      invariant forall k :: k in KeysOf(entries) ==> k !in rest
      invariant |entries| + |rest| == |batch|
      invariant DistinctKeys(entries)
      invariant forall i :: 0 <= i < |entries| ==> entries[i].0 in batch && batch[entries[i].0] == entries[i].1
      decreases |rest|
    {
      var k :| k in rest;
      KeysOfAppend(entries, (k, batch[k]));
      entries := entries + [(k, batch[k])];
      rest := rest - {k};
    }
  }

  lemma KeysOfAppend(entries: seq<Entry>, e: Entry)
    ensures KeysOf(entries + [e]) == KeysOf(entries) + {e.0}
  {
    var longer := entries + [e];
    forall k | k in KeysOf(entries)
      ensures k in KeysOf(longer)
    {
      var i :| 0 <= i < |entries| && entries[i].0 == k;
      assert longer[i] == entries[i];
    }
    assert longer[|entries|] == e;
  }

  /** A batch has at most as many provinces as cities, and none only when it has no cities. */
  lemma ProvinceBounds(entries: seq<Entry>, batch: Batch)
    requires Enumerates(entries, batch)
    ensures |After(entries)| <= |batch|
    ensures |After(entries)| == 0 <==> |batch| == 0
  {
    BatchSize(entries);
  }

  /** The batch keys in the ascending order in which a `BTreeMap` yields them. */
  method SortedKeys(ks: set<string>) returns (s: seq<string>)
    ensures forall x :: x in ks <==> x in s
    ensures forall i, j :: 0 <= i < j < |s| ==> Text.Less(s[i], s[j])
    ensures |s| == |ks|
  {
    s := [];
    var rest := ks;
    while rest != {}
      invariant forall x :: x in ks <==> x in s || x in rest
      invariant forall x :: x in s ==> x !in rest
      invariant forall i, j :: 0 <= i < j < |s| ==> Text.Less(s[i], s[j])
      invariant forall i, x :: 0 <= i < |s| && x in rest ==> Text.Less(s[i], x)
      invariant |s| + |rest| == |ks|
      decreases |rest|
    {
      Text.LeastExists(rest);
      var m :| Text.IsLeast(m, rest);
      s := s + [m];
      rest := rest - {m};
    }
  }

  /** The decimal renderings of the counts. */
  function Numerals(counts: seq<nat>): (r: seq<string>)
    ensures |r| == |counts|
    ensures forall i :: 0 <= i < |r| ==> r[i] == Text.NatToString(counts[i])
  {
    if counts == [] then [] else [Text.NatToString(counts[0])] + Numerals(counts[1..])
  }

  /**
    `count_provinces` on parsed data: one count per batch, in ascending batch-key order, each the
    number of provinces its cities merge into in the order the batch is iterated, joined by commas.
  */
  method CountProvinces(data: DistrictParse.Data) returns (r: string, ghost keys: seq<string>, ghost orders: seq<seq<Entry>>, ghost counts: seq<nat>)
    ensures (forall k :: k in data <==> k in keys) && forall i, j :: 0 <= i < j < |keys| ==> Text.Less(keys[i], keys[j])
    ensures |orders| == |keys| && |counts| == |keys|
    ensures forall i :: 0 <= i < |keys| ==> BatchCounted(data[keys[i]], orders[i], counts[i])
    ensures r == Text.Join(Numerals(counts), ",")
    ensures |keys| == |data|
    ensures |data| == 0 ==> r == ""
    ensures |data| >= 1 ==> |Text.Split(r, ',')| == |data|
  {
    var sorted := SortedKeys(data.Keys);
    keys := sorted;
    var result: seq<string> := [];
    orders := [];
    counts := [];
    for i := 0 to |sorted|
      invariant |orders| == i && |counts| == i
      invariant forall t :: 0 <= t < i ==> BatchCounted(data[keys[t]], orders[t], counts[t])
      invariant result == Numerals(counts)
    {
      var entries := Enumerate(data[sorted[i]]);
      var count := CountBatch(entries);
      assert BatchCounted(data[keys[i]], entries, count);
      NumeralsAppend(counts, count);
      result := result + [Text.NatToString(count)];
      CountedAppend(data, keys, orders, counts, entries, count);
      orders := orders + [entries];
      counts := counts + [count];
    }
    r := Text.Join(result, ",");
    if |counts| >= 1 {
      CountsReadBack(counts);
    }
  }

  lemma CountedAppend(data: DistrictParse.Data, keys: seq<string>, orders: seq<seq<Entry>>, counts: seq<nat>, entries: seq<Entry>, count: nat)
    requires |orders| == |counts| < |keys|
    requires forall k :: k in keys ==> k in data
    requires forall t :: 0 <= t < |orders| ==> BatchCounted(data[keys[t]], orders[t], counts[t])
    requires BatchCounted(data[keys[|orders|]], entries, count)
    ensures forall t :: 0 <= t <= |orders| ==> BatchCounted(data[keys[t]], (orders + [entries])[t], (counts + [count])[t])
  {
    forall t | 0 <= t <= |orders|
      ensures BatchCounted(data[keys[t]], (orders + [entries])[t], (counts + [count])[t])
    {
      if t < |orders| {
        assert (orders + [entries])[t] == orders[t] && (counts + [count])[t] == counts[t];
      }
    }
  }

  lemma {:induction false} NumeralsAppend(counts: seq<nat>, n: nat)
    ensures Numerals(counts + [n]) == Numerals(counts) + [Text.NatToString(n)]
  {
    if counts != [] {
      assert (counts + [n])[1..] == counts[1..] + [n];
      NumeralsAppend(counts[1..], n);
    }
  }

  /** Splitting the output on commas gives back one numeral per batch, each reading as that batch's count. */
  lemma CountsReadBack(counts: seq<nat>)
    requires |counts| >= 1
    ensures Text.Split(Text.Join(Numerals(counts), ","), ',') == Numerals(counts)
    ensures forall i :: 0 <= i < |counts| ==> Text.DigitsValue(Numerals(counts)[i]) == counts[i]
  {
    var ns := Numerals(counts);
    forall i | 0 <= i < |ns|
      ensures ',' !in ns[i] && Text.DigitsValue(ns[i]) == counts[i]
    {
      Text.NoCommaInNumeral(counts[i]);
      Text.NatToStringValue(counts[i]);
    }
    Text.SplitJoin(ns, ',');
  }

  /** `count_provinces` as a whole: parse the lines, then count each batch. */
  method CountProvincesIn(lines: seq<string>) returns (r: string, ghost keys: seq<string>, ghost orders: seq<seq<Entry>>, ghost counts: seq<nat>)
    requires DistrictParse.ParseLines(lines).Some?
    ensures var data := DistrictParse.ParseLines(lines).value.data;
      (forall k :: k in data <==> k in keys) && |orders| == |keys| && |counts| == |keys| &&
      (forall i :: 0 <= i < |keys| ==> BatchCounted(data[keys[i]], orders[i], counts[i])) &&
      r == Text.Join(Numerals(counts), ",")
    ensures var n := |DistrictParse.ParseLines(lines).value.data|;
      (n == 0 ==> r == "") && (n >= 1 ==> |Text.Split(r, ',')| == n)
  {
    var data := DistrictParse.ParseFile(lines);
    r, keys, orders, counts := CountProvinces(data);
  }
}
