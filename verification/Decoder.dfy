// lib/hyperdex/client.rb: attribute values sent by the server to Ruby values.
module Decoder {
  import opened RubyValues
  import opened DataStructures

  datatype Decoded =
    | Scalar(v: Value)
    | List(elems: seq<Value>)
    | SetOf(members: set<Value>)
    | MapOf(entries: map<Value, Value>)
    | Document(text: string)   // JSON.parse of the text, left opaque

  function CellValue(c: Cell): Value {
    match c
    case None => Nil
    case Some(EString(s)) => Str(s)
    case Some(EInt(n)) => Integer(n)
    case Some(EFloat(d)) => Float(d)
  }

  function CellValues(cells: seq<Cell>): (r: seq<Value>)
    ensures |r| == |cells|
    ensures forall i :: 0 <= i < |cells| ==> r[i] == CellValue(cells[i])
  {
    seq(|cells|, i requires 0 <= i < |cells| => CellValue(cells[i]))
  }

  function Members(vs: seq<Value>): set<Value> {
    set v <- vs
  }

  function EntryMap(entries: seq<(Cell, Cell)>): map<Value, Value> {
    if entries == [] then map[]
    else
      var last := entries[|entries| - 1];
      EntryMap(entries[..|entries| - 1])[CellValue(last.0) := CellValue(last.1)]
  }

  /** Where a container's loop tests for a negative result: inside, as the source has
      it, or after the loop, on the result that ended it. */
  datatype TailTest = InLoop | AfterLoop

  /** Whether a loop raises that still has its cursor's results from the at-th on: a
      positive one for each of n cells, then `stop`. */
  predicate LoopRaises(test: TailTest, n: nat, stop: Stop, at: nat)
    requires at <= n
    decreases n - at
  {
    var result := if at < n then 1 else stop;
    if result > 0 then (test.InLoop? && result < 0) || LoopRaises(test, n, stop, at + 1)
    else test.AfterLoop? && result < 0
  }

  function Unless<T>(raises: bool, value: T): Option<T> {
    if raises then None else Some(value)
  }

  /** build_attribute, with its loops' test in either place; None is the ServerError
      it raises. */
  function DecodeWith(test: TailTest, w: Wire): Option<Decoded> {
    match w
    case WString(s) => Some(Scalar(Str(s)))
    case WInt(i) => if i.Some? then Some(Scalar(Integer(i.value))) else None
    case WFloat(d) => if d.Some? then Some(Scalar(Float(d.value))) else None
    case WDocument(text, parses) => if parses then Some(Document(text)) else None
    case WList(_, cells, stop) => Unless(LoopRaises(test, |cells|, stop, 0), List(CellValues(cells)))
    case WSet(_, cells, stop) => Unless(LoopRaises(test, |cells|, stop, 0), SetOf(Members(CellValues(cells))))
    case WMap(_, _, entries, stop) => Unless(LoopRaises(test, |entries|, stop, 0), MapOf(EntryMap(entries)))
    case WGeneric => None
  }

  /** build_attribute as it stands. */
  function Decode(w: Wire): Option<Decoded> {
    DecodeWith(InLoop, w)
  }

  /** encode_attributes: a fold that files each attribute under its name, later
      names winning; the first attribute that will not decode raises. */
  function DecodeRow(attrs: seq<WireAttribute>): Option<map<string, Decoded>> {
    if attrs == [] then Some(map[])
    else
      var init := DecodeRow(attrs[..|attrs| - 1]);
      var last := attrs[|attrs| - 1];
      var v := Decode(last.value);
      if init.None? || v.None? then None
      else Some(init.value[last.name := v.value])
  }

  /** The values that build_attribute accepts. */
  predicate Decodable(w: Wire) {
    match w
    case WInt(i) => i.Some?
    case WFloat(d) => d.Some?
    case WDocument(_, parses) => parses
    case WGeneric => false
    case _ => true
  }

  predicate RowDecodable(attrs: seq<WireAttribute>) {
    forall i :: 0 <= i < |attrs| ==> Decodable(attrs[i].value)
  }

  /** The row of attributes that all decode. */
  function RowOf(attrs: seq<WireAttribute>): map<string, Decoded> {
    match DecodeRow(attrs)
    case Some(row) => row
    case None => map[]
  }

  // ------------------------------------------------ what a value is to be read as

  /** The Ruby value of one cell: a NULL string pointer is nil. */
  predicate IsCell(c: Cell, v: Value) {
    match c
    case None => v == Nil
    case Some(EString(s)) => v.Str? && v.bytes == s
    case Some(EInt(n)) => v.Integer? && v.n == n
    case Some(EFloat(d)) => v.Float? && v.d == d
  }

  predicate AmongCells(cells: seq<Cell>, v: Value) {
    exists i :: 0 <= i < |cells| && IsCell(cells[i], v)
  }

  predicate ListReadAs(cells: seq<Cell>, vs: seq<Value>) {
    |vs| == |cells| && forall i :: 0 <= i < |cells| ==> IsCell(cells[i], vs[i])
  }

  ghost predicate SetReadAs(cells: seq<Cell>, vs: set<Value>) {
    forall v :: v in vs <==> AmongCells(cells, v)
  }

  predicate AmongKeys(entries: seq<(Cell, Cell)>, k: Value) {
    exists i :: 0 <= i < |entries| && IsCell(entries[i].0, k)
  }

  /** The i-th entry is the last under the key k. */
  predicate LastUnder(entries: seq<(Cell, Cell)>, i: int, k: Value) {
    && 0 <= i < |entries| && IsCell(entries[i].0, k)
    && forall j :: i < j < |entries| ==> !IsCell(entries[j].0, k)
  }

  ghost predicate MapReadAs(entries: seq<(Cell, Cell)>, m: map<Value, Value>) {
    && (forall k :: k in m <==> AmongKeys(entries, k))
    && (forall i, k :: LastUnder(entries, i, k) ==> k in m && IsCell(entries[i].1, m[k]))
  }

  ghost predicate ReadAs(w: Wire, d: Decoded) {
    match w
    case WString(s) => d == Scalar(Str(s))
    case WInt(i) => i.Some? && d == Scalar(Integer(i.value))
    case WFloat(f) => f.Some? && d == Scalar(Float(f.value))
    case WDocument(text, parses) => parses && d == Document(text)
    case WList(_, cells, _) => d.List? && ListReadAs(cells, d.elems)
    case WSet(_, cells, _) => d.SetOf? && SetReadAs(cells, d.members)
    case WMap(_, _, entries, _) => d.MapOf? && MapReadAs(entries, d.entries)
    case WGeneric => false
  }

  predicate LastNamed(attrs: seq<WireAttribute>, i: int) {
    0 <= i < |attrs| && forall j :: i < j < |attrs| ==> attrs[j].name != attrs[i].name
  }

  predicate AmongNames(attrs: seq<WireAttribute>, name: string) {
    exists i :: 0 <= i < |attrs| && attrs[i].name == name
  }

  /** The row has the attributes' names and no others, each with what its last
      attribute is to be read as. */
  ghost predicate RowReadAs(attrs: seq<WireAttribute>, row: map<string, Decoded>) {
    && (forall name :: name in row <==> AmongNames(attrs, name))
    && (forall i :: LastNamed(attrs, i) ==> attrs[i].name in row && ReadAs(attrs[i].value, row[attrs[i].name]))
  }

  lemma CellIs(c: Cell, v: Value)
    ensures IsCell(c, v) <==> v == CellValue(c)
  {}

  lemma ListReadsExactly(cells: seq<Cell>, vs: seq<Value>)
    ensures ListReadAs(cells, vs) <==> vs == CellValues(cells)
  {
    forall i | 0 <= i < |cells| && i < |vs|
      ensures IsCell(cells[i], vs[i]) <==> vs[i] == CellValue(cells[i])
    {
      CellIs(cells[i], vs[i]);
    }
  }

  lemma SetReadsExactly(cells: seq<Cell>, vs: set<Value>)
    ensures SetReadAs(cells, vs) <==> vs == Members(CellValues(cells))
  {
    forall v
      ensures v in Members(CellValues(cells)) <==> AmongCells(cells, v)
    {
      if v in CellValues(cells) {
        var i :| 0 <= i < |cells| && CellValues(cells)[i] == v;
        CellIs(cells[i], v);
      }
      if i :| 0 <= i < |cells| && IsCell(cells[i], v) {
        CellIs(cells[i], v);
        assert CellValues(cells)[i] == v;
      }
    }
  }

  lemma KeysReadExactly(entries: seq<(Cell, Cell)>, k: Value)
    ensures k in EntryMap(entries) <==> AmongKeys(entries, k)
  {
    MapHoldsKeys(entries, k);
    forall i | 0 <= i < |entries|
      ensures IsCell(entries[i].0, k) <==> k == CellValue(entries[i].0)
    {
      CellIs(entries[i].0, k);
    }
  }

  lemma LastReadsExactly(entries: seq<(Cell, Cell)>, i: nat, k: Value)
    requires LastUnder(entries, i, k)
    ensures k in EntryMap(entries)
    ensures forall v :: IsCell(entries[i].1, v) <==> v == EntryMap(entries)[k]
  {
    CellIs(entries[i].0, k);
    forall j | i < j < |entries|
      ensures CellValue(entries[j].0) != CellValue(entries[i].0)
    {
      CellIs(entries[j].0, k);
    }
    MapLastWriteWins(entries, i);
    forall v
      ensures IsCell(entries[i].1, v) <==> v == EntryMap(entries)[k]
    {
      CellIs(entries[i].1, v);
    }
  }

  lemma {:induction false} SomeLastUnder(entries: seq<(Cell, Cell)>, k: Value, from: nat)
    requires from < |entries| && IsCell(entries[from].0, k)
    ensures exists i :: LastUnder(entries, i, k)
    decreases |entries| - from
  {
    if j :| from < j < |entries| && IsCell(entries[j].0, k) {
      SomeLastUnder(entries, k, j);
    } else {
      assert LastUnder(entries, from, k);
    }
  }

  lemma MapReadsExactly(entries: seq<(Cell, Cell)>, m: map<Value, Value>)
    ensures MapReadAs(entries, m) <==> m == EntryMap(entries)
  {
    forall k
      ensures k in EntryMap(entries) <==> AmongKeys(entries, k)
    {
      KeysReadExactly(entries, k);
    }
    forall i, k | LastUnder(entries, i, k)
      ensures k in EntryMap(entries) && forall v :: IsCell(entries[i].1, v) <==> v == EntryMap(entries)[k]
    {
      LastReadsExactly(entries, i, k);
    }
    if MapReadAs(entries, m) {
      forall k | k in m
        ensures m[k] == EntryMap(entries)[k]
      {
        var from :| 0 <= from < |entries| && IsCell(entries[from].0, k);
        SomeLastUnder(entries, k, from);
        var i :| LastUnder(entries, i, k);
        assert IsCell(entries[i].1, m[k]);
      }
      assert m.Keys == EntryMap(entries).Keys;
    }
  }

  /** What build_attribute gives is what the attribute is to be read as, and nothing
      else. */
  lemma {:induction false} DecodesExactly(w: Wire, d: Decoded)
    ensures Decode(w) == Some(d) <==> ReadAs(w, d)
    ensures Decode(w).Some? <==> Decodable(w)
  {
    DecodableExactly(w);
    if IsContainer(w) {
      ContainerDecodes(InLoop, w);
      match w
      case WList(_, cells, _) => ListReadsExactly(cells, if d.List? then d.elems else []);
      case WSet(_, cells, _) => SetReadsExactly(cells, if d.SetOf? then d.members else {});
      case WMap(_, _, entries, _) => MapReadsExactly(entries, if d.MapOf? then d.entries else map[]);
    }
  }

  lemma {:induction false} SomeLastNamed(attrs: seq<WireAttribute>, from: nat)
    requires from < |attrs|
    ensures exists i :: LastNamed(attrs, i) && attrs[i].name == attrs[from].name
    decreases |attrs| - from
  {
    if j :| from < j < |attrs| && attrs[j].name == attrs[from].name {
      SomeLastNamed(attrs, j);
    } else {
      assert LastNamed(attrs, from);
    }
  }

  /** A row that decodes has the attributes' names and no others, each with what its
      last attribute is to be read as. */
  lemma {:induction false} RowReads(attrs: seq<WireAttribute>)
    ensures DecodeRow(attrs).Some? <==> RowDecodable(attrs)
    ensures RowDecodable(attrs) ==> DecodeRow(attrs) == Some(RowOf(attrs)) && RowReadAs(attrs, RowOf(attrs))
  {
    RowDecodes(attrs);
    if RowDecodable(attrs) {
      var row := RowOf(attrs);
      forall name
        ensures name in row <==> AmongNames(attrs, name)
      {
        RowHoldsNames(attrs, name);
      }
      forall i | LastNamed(attrs, i)
        ensures attrs[i].name in row && ReadAs(attrs[i].value, row[attrs[i].name])
      {
        RowLastWriteWins(attrs, i);
        DecodesExactly(attrs[i].value, row[attrs[i].name]);
      }
    }
  }

  /** Two rows that read the same attributes are the same. */
  lemma RowReadOnce(attrs: seq<WireAttribute>, a: map<string, Decoded>, b: map<string, Decoded>)
    requires RowReadAs(attrs, a) && RowReadAs(attrs, b)
    ensures a == b
  {
    forall name | name in a
      ensures name in b && a[name] == b[name]
    {
      var from :| 0 <= from < |attrs| && attrs[from].name == name;
      SomeLastNamed(attrs, from);
      var i :| LastNamed(attrs, i) && attrs[i].name == attrs[from].name;
      DecodesExactly(attrs[i].value, a[name]);
      DecodesExactly(attrs[i].value, b[name]);
    }
    assert a.Keys == b.Keys;
  }

  // ------------------------------------------------------------- the Ruby loops

  lemma OneMoreCell(cells: seq<Cell>, n: nat)
    requires 0 < n <= |cells|
    ensures CellValues(cells[..n]) == CellValues(cells[..n - 1]) + [CellValue(cells[n - 1])]
    ensures Members(CellValues(cells[..n])) == Members(CellValues(cells[..n - 1])) + {CellValue(cells[n - 1])}
    ensures n == |cells| ==> cells[..n] == cells
  {}

  method BuildList(test: TailTest, cells: seq<Cell>, stop: Stop) returns (r: Option<seq<Value>>)
    ensures r == Unless(LoopRaises(test, |cells|, stop, 0), CellValues(cells))
    ensures r.Some? ==> ListReadAs(cells, r.value)
  {
    ListReadsExactly(cells, CellValues(cells));
    var iter := new Cursor(cells, stop);
    var res: seq<Value> := [];
    var result, cell := iter.Next();
    while result > 0
      invariant iter.Valid() && iter.cells == cells && iter.stop == stop
      invariant result > 0 ==> 0 < iter.at && cell == Some(cells[iter.at - 1])
      invariant result > 0 ==> res == CellValues(cells[..iter.at - 1])
      invariant result <= 0 ==> result == stop && iter.at == |cells| && res == CellValues(cells)
      invariant LoopRaises(test, |cells|, stop, 0) ==
                LoopRaises(test, |cells|, stop, if result > 0 then iter.at - 1 else iter.at)
      decreases |cells| - iter.at, result
    {
      if test.InLoop? && result < 0 {
        return None;
      }
      OneMoreCell(cells, iter.at);
      res := res + [CellValue(cell.value)];
      result, cell := iter.Next();
    }
    if test.AfterLoop? && result < 0 {
      return None;
    }
    r := Some(res);
  }

  method BuildSet(test: TailTest, cells: seq<Cell>, stop: Stop) returns (r: Option<set<Value>>)
    ensures r == Unless(LoopRaises(test, |cells|, stop, 0), Members(CellValues(cells)))
    ensures r.Some? ==> SetReadAs(cells, r.value)
  {
    SetReadsExactly(cells, Members(CellValues(cells)));
    var iter := new Cursor(cells, stop);
    var res: set<Value> := {};
    var result, cell := iter.Next();
    while result > 0
      invariant iter.Valid() && iter.cells == cells && iter.stop == stop
      invariant result > 0 ==> 0 < iter.at && cell == Some(cells[iter.at - 1])
      invariant result > 0 ==> res == Members(CellValues(cells[..iter.at - 1]))
      invariant result <= 0 ==> result == stop && iter.at == |cells| && res == Members(CellValues(cells))
      invariant LoopRaises(test, |cells|, stop, 0) ==
                LoopRaises(test, |cells|, stop, if result > 0 then iter.at - 1 else iter.at)
      decreases |cells| - iter.at, result
    {
      if test.InLoop? && result < 0 {
        return None;
      }
      OneMoreCell(cells, iter.at);
      res := res + {CellValue(cell.value)};
      result, cell := iter.Next();
    }
    if test.AfterLoop? && result < 0 {
      return None;
    }
    r := Some(res);
  }

  method BuildMap(test: TailTest, entries: seq<(Cell, Cell)>, stop: Stop) returns (r: Option<map<Value, Value>>)
    ensures r == Unless(LoopRaises(test, |entries|, stop, 0), EntryMap(entries))
    ensures r.Some? ==> MapReadAs(entries, r.value)
  {
    MapReadsExactly(entries, EntryMap(entries));
    var iter := new Cursor(entries, stop);
    var res: map<Value, Value> := map[];
    var result, cell := iter.Next();
    while result > 0
      invariant iter.Valid() && iter.cells == entries && iter.stop == stop
      invariant result > 0 ==> 0 < iter.at && cell == Some(entries[iter.at - 1])
      invariant result > 0 ==> res == EntryMap(entries[..iter.at - 1])
      invariant result <= 0 ==> result == stop && iter.at == |entries| && res == EntryMap(entries)
      invariant LoopRaises(test, |entries|, stop, 0) ==
                LoopRaises(test, |entries|, stop, if result > 0 then iter.at - 1 else iter.at)
      decreases |entries| - iter.at, result
    {
      if test.InLoop? && result < 0 {
        return None;
      }
      assert entries[..iter.at][..iter.at - 1] == entries[..iter.at - 1];
      var (k, v) := cell.value;
      res := res[CellValue(k) := CellValue(v)];
      assert iter.at == |entries| ==> entries[..iter.at] == entries;
      result, cell := iter.Next();
    }
    if test.AfterLoop? && result < 0 {
      return None;
    }
    r := Some(res);
  }

  method BuildAttribute(test: TailTest, w: Wire) returns (r: Option<Decoded>)
    ensures r == DecodeWith(test, w)
    ensures r.Some? ==> ReadAs(w, r.value)
    ensures test == InLoop ==> (r.Some? <==> Decodable(w))
  {
    DecodableExactly(w);
    match w {
      case WString(s) => r := Some(Scalar(Str(s)));
      case WInt(i) => r := if i.Some? then Some(Scalar(Integer(i.value))) else None;
      case WFloat(d) => r := if d.Some? then Some(Scalar(Float(d.value))) else None;
      case WDocument(text, parses) => r := if parses then Some(Document(text)) else None;
      case WList(_, cells, stop) =>
        var l := BuildList(test, cells, stop);
        r := if l.Some? then Some(List(l.value)) else None;
      case WSet(_, cells, stop) =>
        var s := BuildSet(test, cells, stop);
        r := if s.Some? then Some(SetOf(s.value)) else None;
      case WMap(_, _, entries, stop) =>
        var m := BuildMap(test, entries, stop);
        r := if m.Some? then Some(MapOf(m.value)) else None;
      case WGeneric => r := None;
    }
  }

  // ------------------------------------------------------- what decoding yields

  /** A decoded map holds exactly the cursor's keys ... */
  lemma {:induction false} MapHoldsKeys(entries: seq<(Cell, Cell)>, v: Value)
    ensures v in EntryMap(entries) <==> exists i :: 0 <= i < |entries| && CellValue(entries[i].0) == v
  {
    if entries != [] {
      var n := |entries| - 1;
      var init := entries[..n];
      MapHoldsKeys(init, v);
      assert CellValue(entries[n].0) == v ==> v in EntryMap(entries);
      assert forall i :: 0 <= i < n ==> init[i] == entries[i];
    }
  }

  /** ... each with the value of its last occurrence. */
  lemma {:induction false} MapLastWriteWins(entries: seq<(Cell, Cell)>, i: nat)
    requires i < |entries|
    requires forall j :: i < j < |entries| ==> CellValue(entries[j].0) != CellValue(entries[i].0)
    ensures CellValue(entries[i].0) in EntryMap(entries)
    ensures EntryMap(entries)[CellValue(entries[i].0)] == CellValue(entries[i].1)
  {
    var n := |entries| - 1;
    if i < n {
      MapLastWriteWins(entries[..n], i);
    }
  }

  /** A loop raises exactly when its test comes after it and the tail is malformed. */
  lemma {:induction false} RaisesExactly(test: TailTest, n: nat, stop: Stop, at: nat)
    requires at <= n
    ensures LoopRaises(test, n, stop, at) <==> test.AfterLoop? && stop < 0
    decreases n - at
  {
    if at < n {
      RaisesExactly(test, n, stop, at + 1);
    }
  }

  predicate IsContainer(w: Wire) {
    w.WList? || w.WSet? || w.WMap?
  }

  /** A container without the question of its tail. */
  function Contained(w: Wire): Decoded
    requires IsContainer(w)
  {
    match w
    case WList(_, cells, _) => List(CellValues(cells))
    case WSet(_, cells, _) => SetOf(Members(CellValues(cells)))
    case WMap(_, _, entries, _) => MapOf(EntryMap(entries))
  }

  predicate TailMalformed(w: Wire) {
    IsContainer(w) && w.stop < 0
  }

  lemma ContainerDecodes(test: TailTest, w: Wire)
    requires IsContainer(w)
    ensures DecodeWith(test, w) == Unless(test.AfterLoop? && TailMalformed(w), Contained(w))
  {
    match w
    case WList(_, cells, stop) => RaisesExactly(test, |cells|, stop, 0);
    case WSet(_, cells, stop) => RaisesExactly(test, |cells|, stop, 0);
    case WMap(_, _, entries, stop) => RaisesExactly(test, |entries|, stop, 0);
  }

  /** The same value, cut where the cursor stops. */
  function CutAtStop(w: Wire): Wire {
    match w
    case WList(kind, cells, _) => WList(kind, cells, 0)
    case WSet(kind, cells, _) => WSet(kind, cells, 0)
    case WMap(key, val, entries, _) => WMap(key, val, entries, 0)
    case _ => w
  }

  /** The negative-result test sits inside a loop that only runs on positive results,
      so a malformed tail is never reported: the value is cut short instead.  With the
      test after the loop it is reported; the two agree exactly when no tail is
      malformed. */
  lemma TailNeverReported(w: Wire)
    ensures IsContainer(w) ==> Decode(w).Some?
    ensures Decode(w) == Decode(CutAtStop(w))
    ensures DecodeWith(AfterLoop, w) == if TailMalformed(w) then None else Decode(w)
    ensures Decode(w) == DecodeWith(AfterLoop, w) <==> !TailMalformed(w)
  {
    if IsContainer(w) {
      ContainerDecodes(InLoop, w);
      ContainerDecodes(InLoop, CutAtStop(w));
      ContainerDecodes(AfterLoop, w);
    }
  }

  lemma TailCutShort()
    ensures Decode(WList(IntKind, [Some(EInt(1))], -1)) == Some(List([Integer(1)]))
    ensures DecodeWith(AfterLoop, WList(IntKind, [Some(EInt(1))], -1)) == None
  {
    var cells: seq<Cell> := [Some(EInt(1))];
    assert CellValues(cells) == [Integer(1)];
    TailNeverReported(WList(IntKind, cells, -1));
  }

  lemma DecodableExactly(w: Wire)
    ensures Decode(w).Some? <==> Decodable(w)
  {
    TailNeverReported(w);
  }

  /** A row decodes exactly when each of its attributes does ... */
  lemma {:induction false} RowDecodes(attrs: seq<WireAttribute>)
    ensures DecodeRow(attrs).Some? <==> RowDecodable(attrs)
    ensures DecodeRow(attrs).Some? <==> forall i :: 0 <= i < |attrs| ==> Decode(attrs[i].value).Some?
  {
    if attrs != [] {
      var n := |attrs| - 1;
      var init := attrs[..n];
      RowDecodes(init);
      DecodableExactly(attrs[n].value);
      assert forall i :: 0 <= i < n ==> init[i] == attrs[i];
    }
  }

  /** ... and then gives every name the value of its last attribute, and no others. */
  lemma {:induction false} RowLastWriteWins(attrs: seq<WireAttribute>, i: nat)
    requires DecodeRow(attrs).Some?
    requires i < |attrs| && forall j :: i < j < |attrs| ==> attrs[j].name != attrs[i].name
    ensures attrs[i].name in DecodeRow(attrs).value
    ensures Some(DecodeRow(attrs).value[attrs[i].name]) == Decode(attrs[i].value)
  {
    var n := |attrs| - 1;
    if i < n {
      RowLastWriteWins(attrs[..n], i);
    }
  }

  lemma {:induction false} RowHoldsNames(attrs: seq<WireAttribute>, name: string)
    requires DecodeRow(attrs).Some?
    ensures name in DecodeRow(attrs).value <==> exists i :: 0 <= i < |attrs| && attrs[i].name == name
  {
    if attrs != [] {
      var n := |attrs| - 1;
      var init := attrs[..n];
      RowHoldsNames(init, name);
      assert forall i :: 0 <= i < n ==> init[i] == attrs[i];
      if exists i :: 0 <= i < |attrs| && attrs[i].name == name {
        var i :| 0 <= i < |attrs| && attrs[i].name == name;
        assert i < n ==> init[i].name == name;
      }
    }
  }
}
