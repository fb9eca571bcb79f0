// What is written is read back: values through ext/client.c, the library and
// lib/hyperdex/client.rb, and whole attribute hashes.
module RoundTrips {
  import opened RubyValues
  import opened DataStructures
  import opened Encoder
  import opened Decoder
  import opened MapAttributes
  import opened Calls
  import Machine
  import Solo
  import Requests

  /** A scalar as it reads back: symbols have become strings. */
  function NormalScalar(x: Value): Value {
    if x.Symbol? then Str(CString(x.name)) else x
  }

  function NormalScalars(xs: seq<Value>): (r: seq<Value>)
    ensures |r| == |xs|
  {
    seq(|xs|, i requires 0 <= i < |xs| => NormalScalar(xs[i]))
  }

  predicate IsEmptyContainer(x: Value) {
    match x
    case Array(xs) => xs == []
    case Hash(ps) => ps == []
    case Object(_, Some(xs)) => xs == []
    case _ => false
  }

  /** The pair (k, v) was in the hash, once symbols have become strings. */
  predicate WasGiven(ps: Pairs, k: Value, v: Value) {
    exists i :: 0 <= i < |ps| && NormalScalar(ps[i].0) == k && NormalScalar(ps[i].1) == v
  }

  predicate WasElement(xs: seq<Value>, v: Value) {
    exists i :: 0 <= i < |xs| && NormalScalar(xs[i]) == v
  }

  /** No key is lost, and each has a value that was given for it. */
  ghost predicate HashReadsBack(ps: Pairs, m: map<Value, Value>) {
    && (forall i :: 0 <= i < |ps| ==> NormalScalar(ps[i].0) in m)
    && (forall k :: k in m ==> WasGiven(ps, k, m[k]))
  }

  /** `d` is the Ruby value that should read back for `x`. */
  ghost predicate ReadsBack(x: Value, d: Decoded) {
    match x
    case Array(xs) =>
      d.List? && |d.elems| == |xs| && forall i :: 0 <= i < |xs| ==> d.elems[i] == NormalScalar(xs[i])
    case Hash(ps) => d.MapOf? && HashReadsBack(ps, d.entries)
    case Object(_, Some(xs)) => d.SetOf? && forall v :: v in d.members <==> WasElement(xs, v)
    case _ => d == Scalar(NormalScalar(x))
  }

  // ------------------------------------------------------------------------ values

  lemma NormalIsCell(x: Value)
    requires ScalarOf(x).Ok?
    ensures NormalScalar(x) == CellValue(Some(ScalarOf(x).value))
  {}

  lemma NormalsAreCells(xs: seq<Value>)
    requires AllScalar(xs)
    ensures NormalScalars(xs) == CellValues(ToCells(Scalars(xs)))
  {
    forall i | 0 <= i < |xs|
      ensures NormalScalars(xs)[i] == CellValues(ToCells(Scalars(xs)))[i]
    {
      NormalIsCell(xs[i]);
    }
  }

  lemma ListReadsBack(xs: seq<Value>, w: Wire)
    requires xs != [] && Homogeneous(xs) && Represents(w, DList(Scalars(xs)))
    ensures Decode(w) == Some(List(NormalScalars(xs)))
  {
    NormalsAreCells(xs);
    ContainerDecodes(InLoop, w);
  }

  lemma SetReadsBack(xs: seq<Value>, w: Wire)
    requires xs != [] && Homogeneous(xs) && Represents(w, DSet(ElemSet(Scalars(xs))))
    ensures Decode(w) == Some(SetOf(Members(NormalScalars(xs))))
  {
    var es := Scalars(xs);
    assert es[0] in ElemSet(es);
    ContainerDecodes(InLoop, w);
    NormalsAreCells(xs);
    SameMembers(es, w.cells);
  }

  lemma SameMembers(es: seq<Elem>, cells: seq<Cell>)
    requires forall c <- cells :: c.Some? && c.value in es
    requires forall e <- es :: Some(e) in cells
    ensures Members(CellValues(cells)) == Members(CellValues(ToCells(es)))
  {
    var got, want := CellValues(cells), CellValues(ToCells(es));
    forall v | v in got
      ensures v in want
    {
      var i :| 0 <= i < |got| && got[i] == v;
      assert cells[i] in cells;
      var j :| 0 <= j < |es| && es[j] == cells[i].value;
      assert want[j] == v;
    }
    forall v | v in want
      ensures v in got
    {
      var j :| 0 <= j < |want| && want[j] == v;
      assert es[j] in es;
      var i :| 0 <= i < |cells| && cells[i] == Some(es[j]);
      assert got[i] == v;
    }
  }

  /** The typed entries of a hash that converts. */
  function Entries(ps: Pairs): (es: seq<(Elem, Elem)>)
    requires AllScalar(Keys(ps)) && AllScalar(Vals(ps))
    ensures |es| == |ps|
  {
    Encoder.Zip(Scalars(Keys(ps)), Scalars(Vals(ps)))
  }

  lemma EntryNormal(ps: Pairs, i: nat)
    requires AllScalar(Keys(ps)) && AllScalar(Vals(ps)) && i < |ps|
    ensures NormalScalar(ps[i].0) == CellValue(Some(Entries(ps)[i].0))
    ensures NormalScalar(ps[i].1) == CellValue(Some(Entries(ps)[i].1))
  {
    assert Keys(ps)[i] == ps[i].0 && Vals(ps)[i] == ps[i].1;
    NormalIsCell(ps[i].0);
    NormalIsCell(ps[i].1);
  }

  lemma CellsApart(a: Elem, b: Elem)
    ensures CellValue(Some(a)) == CellValue(Some(b)) <==> a == b
  {}

  /** The entry under a key is the only one with that key. */
  lemma OnlyEntry(a: seq<(Cell, Cell)>, es: seq<(Elem, Elem)>, i: nat)
    requires forall i :: 0 <= i < |a| ==> IsEntryOf(a[i], es)
    requires forall i, j :: 0 <= i < j < |a| ==> a[i].0 != a[j].0
    requires i < |a|
    ensures CellValue(a[i].0) in EntryMap(a) && EntryMap(a)[CellValue(a[i].0)] == CellValue(a[i].1)
  {
    forall j | i < j < |a|
      ensures CellValue(a[j].0) != CellValue(a[i].0)
    {
      assert IsEntryOf(a[i], es) && IsEntryOf(a[j], es);
      CellsApart(a[i].0.value, a[j].0.value);
    }
    MapLastWriteWins(a, i);
  }

  lemma MapKeepsKeys(ps: Pairs, a: seq<(Cell, Cell)>, i: nat)
    requires AllScalar(Keys(ps)) && AllScalar(Vals(ps)) && i < |ps|
    requires HasKey(a, Entries(ps)[i].0)
    ensures NormalScalar(ps[i].0) in EntryMap(a)
  {
    EntryNormal(ps, i);
    var j :| 0 <= j < |a| && a[j].0 == Some(Entries(ps)[i].0);
    MapHoldsKeys(a, NormalScalar(ps[i].0));
  }

  lemma MapAddsNothing(ps: Pairs, a: seq<(Cell, Cell)>, k: Value)
    requires AllScalar(Keys(ps)) && AllScalar(Vals(ps))
    requires forall i :: 0 <= i < |a| ==> IsEntryOf(a[i], Entries(ps))
    requires forall i, j :: 0 <= i < j < |a| ==> a[i].0 != a[j].0
    requires k in EntryMap(a)
    ensures WasGiven(ps, k, EntryMap(a)[k])
  {
    MapHoldsKeys(a, k);
    var i :| 0 <= i < |a| && CellValue(a[i].0) == k;
    OnlyEntry(a, Entries(ps), i);
    EntryWasGiven(ps, a[i]);
  }

  lemma EntryWasGiven(ps: Pairs, entry: (Cell, Cell))
    requires AllScalar(Keys(ps)) && AllScalar(Vals(ps)) && IsEntryOf(entry, Entries(ps))
    ensures WasGiven(ps, CellValue(entry.0), CellValue(entry.1))
  {
    var j :| 0 <= j < |ps| && Entries(ps)[j] == (entry.0.value, entry.1.value);
    EntryNormal(ps, j);
  }

  lemma MapReadsBack(ps: Pairs, w: Wire)
    requires ps != [] && AllScalar(Keys(ps)) && AllScalar(Vals(ps))
    requires Represents(w, DMap(Entries(ps)))
    ensures Decode(w) == Some(MapOf(EntryMap(w.entries))) && HashReadsBack(ps, EntryMap(w.entries))
  {
    ContainerDecodes(InLoop, w);
    forall i | 0 <= i < |ps|
      ensures NormalScalar(ps[i].0) in EntryMap(w.entries)
    {
      MapKeepsKeys(ps, w.entries, i);
    }
    forall k | k in EntryMap(w.entries)
      ensures WasGiven(ps, k, EntryMap(w.entries)[k])
    {
      MapAddsNothing(ps, w.entries, k);
    }
  }

  /** Whatever order the server sends a container's elements in, a converted value
      reads back, unless it is an empty container: those carry no element type, and
      decoding refuses them. */
  lemma {:induction false} RoundTrip(x: Value, w: Wire)
    requires Encode(x).Ok? && Represents(w, Encode(x).value)
    ensures Decode(w).Some? <==> !IsEmptyContainer(x)
    ensures Decode(w).Some? ==> ReadsBack(x, Decode(w).value)
  {
    match x
    case Array(xs) =>
      ContainerAccepts(xs);
      if xs != [] {
        ListReadsBack(xs, w);
      }
    case Hash(ps) =>
      MapAccepts(ps);
      if ps != [] {
        MapReadsBack(ps, w);
      }
    case Object(isSet, toA) =>
      NonSetAcceptance(toA);
      ContainerAccepts(toA.value);
      assert Encode(x) == Encode(Object(true, toA));
      if toA.value != [] {
        SetReadsBack(toA.value, w);
        forall v
          ensures v in Members(NormalScalars(toA.value)) <==> WasElement(toA.value, v)
        {
          assert forall i :: 0 <= i < |toA.value| ==> NormalScalars(toA.value)[i] == NormalScalar(toA.value[i]);
        }
      } else {
        assert ElemSet(Scalars(toA.value)) == {};
      }
    case _ =>
  }

  /** Keys that stay apart once symbols have become strings come back with their own
      values. */
  lemma DistinctKeysReadBack(ps: Pairs, m: map<Value, Value>, i: nat)
    requires HashReadsBack(ps, m) && i < |ps|
    requires forall j :: 0 <= j < |ps| && j != i ==> NormalScalar(ps[j].0) != NormalScalar(ps[i].0)
    ensures NormalScalar(ps[i].0) in m && m[NormalScalar(ps[i].0)] == NormalScalar(ps[i].1)
  {
    var k := NormalScalar(ps[i].0);
    assert WasGiven(ps, k, m[k]);
  }

  /** An empty array converts, to a value that cannot be read back. */
  lemma EmptyArrayIsRefused()
    ensures Encode(Array([])) == Ok(DList([])) && Represents(WGeneric, DList([])) && Decode(WGeneric) == None
  {
    assert AddElems(EMPTY, []) == Ok(EMPTY);
  }

  // A server can always send a converted value back, so no round trip is vacuous.

  /** The first entry of every key. */
  function OnePerKey(es: seq<(Elem, Elem)>): seq<(Cell, Cell)> {
    if es == [] then []
    else
      var before, last := OnePerKey(es[..|es| - 1]), es[|es| - 1];
      if HasKey(before, last.0) then before else before + [(Some(last.0), Some(last.1))]
  }

  lemma {:induction false} OnePerKeyRepresents(es: seq<(Elem, Elem)>)
    ensures forall i :: 0 <= i < |OnePerKey(es)| ==> IsEntryOf(OnePerKey(es)[i], es)
    ensures forall j :: 0 <= j < |es| ==> HasKey(OnePerKey(es), es[j].0)
    ensures forall i, j :: 0 <= i < j < |OnePerKey(es)| ==> OnePerKey(es)[i].0 != OnePerKey(es)[j].0
  {
    if es != [] {
      var n := |es| - 1;
      var init, before, last := es[..n], OnePerKey(es[..n]), es[n];
      OnePerKeyRepresents(init);
      forall i | 0 <= i < |OnePerKey(es)|
        ensures IsEntryOf(OnePerKey(es)[i], es)
      {
        assert i < |before| ==> IsEntryOf(before[i], init);
      }
      forall j | 0 <= j < |es|
        ensures HasKey(OnePerKey(es), es[j].0)
      {
        StillHasKey(before, last, es[j].0);
        assert j < n ==> HasKey(before, init[j].0);
      }
    }
  }

  lemma StillHasKey(before: seq<(Cell, Cell)>, last: (Elem, Elem), key: Elem)
    ensures HasKey(before, key) || key == last.0 ==> HasKey(before + [(Some(last.0), Some(last.1))], key)
  {
    var all := before + [(Some(last.0), Some(last.1))];
    if HasKey(before, key) {
      var i :| 0 <= i < |before| && before[i].0 == Some(key);
      assert all[i].0 == Some(key);
    } else {
      assert all[|before|].0 == Some(last.0);
    }
  }

  /** One way the server can send `d`. */
  function Sent(d: Datum, order: seq<Elem>): Wire {
    match d
    case DString(s) => WString(s)
    case DInt(n) => WInt(Some(n))
    case DFloat(x) => WFloat(Some(x))
    case DList(es) => if es == [] then WGeneric else WList(es[0].KindOf(), ToCells(es), 0)
    case DSet(_) => if order == [] then WGeneric else WSet(order[0].KindOf(), ToCells(order), 0)
    case DMap(es) => if es == [] then WGeneric else WMap(es[0].0.KindOf(), es[0].1.KindOf(), OnePerKey(es), 0)
  }

  lemma SetRepresentable(es: seq<Elem>)
    requires OneKind(es)
    ensures Represents(Sent(DSet(ElemSet(es)), es), DSet(ElemSet(es)))
  {
    if es == [] {
      assert ElemSet(es) == {};
    } else {
      assert es[0] in ElemSet(es);
      var w := Sent(DSet(ElemSet(es)), es);
      forall e | e in ElemSet(es)
        ensures Some(e) in w.cells
      {
        var i :| 0 <= i < |es| && es[i] == e;
        assert w.cells[i] == Some(e);
      }
    }
  }

  lemma {:induction false} Representable(x: Value)
    requires Encode(x).Ok?
    ensures exists w :: Represents(w, Encode(x).value)
  {
    var order := [];
    match x {
      case Array(xs) => ContainerAccepts(xs);
      case Hash(ps) =>
        MapAccepts(ps);
        OnePerKeyRepresents(Entries(ps));
      case Object(isSet, toA) =>
        NonSetAcceptance(toA);
        ContainerAccepts(toA.value);
        assert Encode(x) == Encode(Object(true, toA));
        order := Scalars(toA.value);
        SetRepresentable(order);
      case _ =>
    }
    assert Represents(Sent(Encode(x).value, order), Encode(x).value);
  }

  // -------------------------------------------------------------- attribute hashes

  /** `attr` is one way the server can send the record of a put back. */
  ghost predicate SendsBack(attr: WireAttribute, record: (string, Datum)) {
    attr.name == record.0 && Represents(attr.value, record.1)
  }

  ghost predicate WasPut(attr: WireAttribute, records: seq<(string, Datum)>) {
    exists j :: 0 <= j < |records| && SendsBack(attr, records[j])
  }

  /** The row of an object that was put with these records: each name comes back once,
      with one of the records put under it, in any order. */
  ghost predicate RowRepresents(attrs: seq<WireAttribute>, records: seq<(string, Datum)>) {
    && (forall i {:trigger WasPut(attrs[i], records)} :: 0 <= i < |attrs| ==> WasPut(attrs[i], records))
    && (forall j {:trigger AmongNames(attrs, records[j].0)} :: 0 <= j < |records| ==> AmongNames(attrs, records[j].0))
    && (forall i, k :: 0 <= i < k < |attrs| ==> attrs[i].name != attrs[k].name)
  }

  /** A value that was put under this name reads back as `d`. */
  ghost predicate ValueReadsBack(ps: Pairs, name: string, d: Decoded) {
    exists j :: 0 <= j < |ps| && Names(ps[j].0, name) && ReadsBack(ps[j].1, d)
  }

  /** The row has the names that were put and no others, each with a value that was put
      under it. */
  ghost predicate RowReadsBack(ps: Pairs, row: map<string, Decoded>) {
    && (forall j, name :: 0 <= j < |ps| && Names(ps[j].0, name) ==> name in row)
    && (forall name :: name in row ==> ValueReadsBack(ps, name, row[name]))
  }

  /** What was put is what a get returns.  For every attribute hash that converts, the
      row decodes exactly when no value in it was an empty container, and it then reads
      back. */
  lemma {:induction false} PutThenGet(ps: Pairs, records: seq<(string, Datum)>, attrs: seq<WireAttribute>)
    requires PairsOf(ps) == Ok(records) && RowRepresents(attrs, records)
    ensures |records| == |ps|
    ensures RowDecodable(attrs) <==>
            forall i, j :: 0 <= i < |attrs| && 0 <= j < |ps| && SendsBack(attrs[i], records[j]) ==>
                             !IsEmptyContainer(ps[j].1)
    ensures RowDecodable(attrs) ==> RowReadsBack(ps, RowOf(attrs))
  {
    PairsConvert(ps, records);
    forall i, j | 0 <= i < |attrs| && 0 <= j < |ps| && SendsBack(attrs[i], records[j])
      ensures Decodable(attrs[i].value) <==> !IsEmptyContainer(ps[j].1)
    {
      assert IsRecord(records[j], ps[j]);
      RoundTrip(ps[j].1, attrs[i].value);
      DecodableExactly(attrs[i].value);
    }
    forall i | 0 <= i < |attrs|
      ensures exists j :: 0 <= j < |ps| && SendsBack(attrs[i], records[j])
    {
      assert WasPut(attrs[i], records);
    }
    if RowDecodable(attrs) {
      AttributesReadBack(ps, records, attrs);
    }
  }

  lemma AttributesReadBack(ps: Pairs, records: seq<(string, Datum)>, attrs: seq<WireAttribute>)
    requires PairsOf(ps) == Ok(records) && RowRepresents(attrs, records) && RowDecodable(attrs)
    ensures RowReadsBack(ps, RowOf(attrs))
  {
    RowReads(attrs);
    PairsConvert(ps, records);
    forall j, name | 0 <= j < |ps| && Names(ps[j].0, name)
      ensures name in RowOf(attrs)
    {
      assert IsRecord(records[j], ps[j]);
      NamedOnly(ps[j].0, name, records[j].0);
      assert AmongNames(attrs, records[j].0);
    }
    forall name | name in RowOf(attrs)
      ensures ValueReadsBack(ps, name, RowOf(attrs)[name])
    {
      var i :| 0 <= i < |attrs| && attrs[i].name == name;
      AttributeReadsBack(ps, records, attrs, i);
    }
  }

  lemma NamedOnly(x: Value, a: string, b: string)
    requires Names(x, a) && Names(x, b)
    ensures a == b
  {
    NameOfExactly(x, a);
    NameOfExactly(x, b);
  }

  lemma AttributeReadsBack(ps: Pairs, records: seq<(string, Datum)>, attrs: seq<WireAttribute>, i: nat)
    requires PairsOf(ps) == Ok(records) && RowRepresents(attrs, records) && RowDecodable(attrs)
    requires i < |attrs|
    ensures attrs[i].name in RowOf(attrs) && ValueReadsBack(ps, attrs[i].name, RowOf(attrs)[attrs[i].name])
  {
    PairsConvert(ps, records);
    RowReads(attrs);
    assert WasPut(attrs[i], records);
    var j :| 0 <= j < |ps| && SendsBack(attrs[i], records[j]);
    assert IsRecord(records[j], ps[j]);
    RoundTrip(ps[j].1, attrs[i].value);
    RowLastWriteWins(attrs, i);
  }

  /** No other pair of the hash names the same attribute. */
  ghost predicate NamedOnce(ps: Pairs, j: nat, name: string) {
    && j < |ps| && Names(ps[j].0, name)
    && forall k :: 0 <= k < |ps| && k != j ==> !Names(ps[k].0, name)
  }

  /** An attribute that was named once comes back with its own value; its row decodes
      only if that is no empty container. */
  lemma {:induction false} NamedOnceReadsBack(
    ps: Pairs, records: seq<(string, Datum)>, attrs: seq<WireAttribute>, j: nat, name: string)
    requires PairsOf(ps) == Ok(records) && RowRepresents(attrs, records)
    requires NamedOnce(ps, j, name) && RowDecodable(attrs)
    ensures name in RowOf(attrs)
    ensures !IsEmptyContainer(ps[j].1) && ReadsBack(ps[j].1, RowOf(attrs)[name])
  {
    PutThenGet(ps, records, attrs);
    PairsConvert(ps, records);
    assert ValueReadsBack(ps, name, RowOf(attrs)[name]);
    assert IsRecord(records[j], ps[j]);
    NamedOnly(ps[j].0, name, records[j].0);
    assert AmongNames(attrs, records[j].0);
    var i :| 0 <= i < |attrs| && attrs[i].name == name;
    assert WasPut(attrs[i], records);
    var k :| 0 <= k < |ps| && SendsBack(attrs[i], records[k]);
    assert IsRecord(records[k], ps[k]);
    assert k == j;
  }

  /** A server can always send an attribute hash that converts back. */
  lemma {:induction false} RowRepresentable(ps: Pairs, records: seq<(string, Datum)>)
    requires PairsOf(ps) == Ok(records)
    ensures exists attrs :: RowRepresents(attrs, records)
  {
    PairsConvert(ps, records);
    var attrs := FirstRecords(ps, records, |ps|);
    assert records[..|ps|] == records;
  }

  lemma {:induction false} FirstRecords(ps: Pairs, records: seq<(string, Datum)>, n: nat)
    returns (attrs: seq<WireAttribute>)
    requires PairsOf(ps) == Ok(records) && n <= |ps| == |records|
    ensures RowRepresents(attrs, records[..n])
  {
    if n == 0 {
      attrs := [];
    } else {
      var record := records[n - 1];
      var before := FirstRecords(ps, records, n - 1);
      PairsConvert(ps, records);
      assert IsRecord(record, ps[n - 1]);
      Representable(ps[n - 1].1);
      var w :| Represents(w, record.1);
      attrs := if AmongNames(before, record.0) then before else before + [WireAttribute(record.0, w)];
      assert records[..n] == records[..n - 1] + [record];
      OneMoreRecord(before, records[..n - 1], record, w);
    }
  }

  lemma OneMoreRecord(attrs: seq<WireAttribute>, records: seq<(string, Datum)>, record: (string, Datum), w: Wire)
    requires RowRepresents(attrs, records) && Represents(w, record.1)
    ensures RowRepresents(if AmongNames(attrs, record.0) then attrs else attrs + [WireAttribute(record.0, w)],
                          records + [record])
  {
    var attrs' := if AmongNames(attrs, record.0) then attrs else attrs + [WireAttribute(record.0, w)];
    var records' := records + [record];
    forall i | 0 <= i < |attrs'|
      ensures WasPut(attrs'[i], records')
    {
      if i < |attrs| {
        assert WasPut(attrs[i], records);
        var j :| 0 <= j < |records| && SendsBack(attrs[i], records[j]);
        assert records'[j] == records[j];
      } else {
        assert SendsBack(attrs'[i], records'[|records|]);
      }
    }
    forall j | 0 <= j < |records'|
      ensures AmongNames(attrs', records'[j].0)
    {
      if j < |records| {
        assert AmongNames(attrs, records[j].0);
        var i :| 0 <= i < |attrs| && attrs[i].name == records[j].0;
        assert attrs'[i].name == records'[j].0;
      } else if !AmongNames(attrs, record.0) {
        assert attrs'[|attrs|].name == record.0;
      }
    }
  }

  // ---------------------------------------------------------------- put, then get

  /** Everything that was put, unless a value in the row was an empty container. */
  ghost predicate WhatWasPut(
    ps: Pairs, records: seq<(string, Datum)>, attrs: seq<WireAttribute>, o: Machine.Outcome)
    requires |records| == |ps|
  {
    if forall i, j :: 0 <= i < |attrs| && 0 <= j < |ps| && SendsBack(attrs[i], records[j]) ==>
                        !IsEmptyContainer(ps[j].1)
    then o.Returned? && o.value.Attrs? && RowReadsBack(ps, o.value.row)
    else o == Machine.Malformed
  }

  /** What is to be given for a row of an object that was put, and so what Wait gives for
      a get that is sent it, is what was put. */
  lemma AnswerReadsBack(
    ps: Pairs, records: seq<(string, Datum)>, attrs: seq<WireAttribute>, o: Machine.Outcome)
    requires PairsOf(ps) == Ok(records) && RowRepresents(attrs, records)
    requires Requests.GivesBack(Machine.SUCCESS, Machine.Row(attrs), o)
    ensures |records| == |ps| && WhatWasPut(ps, records, attrs, o)
  {
    PutThenGet(ps, records, attrs);
    if RowDecodable(attrs) {
      RowReads(attrs);
      RowReadOnce(attrs, o.value.row, RowOf(attrs));
    }
  }

  /** In every run, the first wait on a get that was sent an object which was put gives
      what was put. */
  lemma {:induction false} GetReturnsWhatWasPut(
    t: seq<Machine.Step>, h: nat, ps: Pairs, records: seq<(string, Datum)>, attrs: seq<WireAttribute>)
    requires Machine.Legal(t) && h < |Solo.Issues(t)| && Solo.Issues(t)[h].1 == Machine.Attributes
    requires PairsOf(ps) == Ok(records) && RowRepresents(attrs, records)
    requires Solo.Got(Machine.SUCCESS, Machine.Row(attrs)) in Solo.Own(t, h)
    ensures |records| == |ps| && h < |Machine.Run(t).resps| && Machine.Run(t).resps[h].finished
    ensures Machine.Run(t).resps[h].taken == 0 ==>
              WhatWasPut(ps, records, attrs, Machine.ReturnOutcome(Machine.Run(t).resps[h], Machine.Run(t).buffers))
  {
    PairsConvert(ps, records);
    OnlyEvent(t, h, Solo.Got(Machine.SUCCESS, Machine.Row(attrs)));
    Requests.WaitReturnsOwnResult(t, h);
    var o := Machine.ReturnOutcome(Machine.Run(t).resps[h], Machine.Run(t).buffers);
    if Machine.Run(t).resps[h].taken == 0 {
      AnswerReadsBack(ps, records, attrs, o);
    }
  }

  lemma OnlyEvent(t: seq<Machine.Step>, h: nat, event: Solo.OwnStep)
    requires Machine.Legal(t) && h < |Solo.Issues(t)| && Solo.Issues(t)[h].1 != Machine.Search
    requires event.Got? && event in Solo.Own(t, h)
    ensures h < |Machine.Run(t).resps| && Machine.Run(t).resps[h].finished
    ensures Solo.Own(t, h)[0] == event
  {
    var own := Solo.Own(t, h);
    Requests.OwnEventOnce(t, h);
    OnlyOneEvent(Machine.Run(t).resps[h], own, event);
  }

  lemma OnlyOneEvent(r: Machine.Resp, own: seq<Solo.OwnStep>, event: Solo.OwnStep)
    requires Requests.OneEvent(r, own) && event.Got? && event in own
    ensures r.finished && own[0] == event
  {
    var i :| 0 <= i < |own| && own[i] == event;
  }
}
