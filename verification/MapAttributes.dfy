// ext/client.c: nested map attributes flattened into one array of records.
module MapAttributes {
  import opened RubyValues
  import opened DataStructures
  import opened Encoder
  import opened Predicates

  datatype MapAttribute = MapAttribute(attr: string, key: Datum, value: Datum)

  type Pairs = seq<(Value, Value)>

  // ------------------------------------------------------------------ what is built

  function CountRecords(ps: Pairs): Result<nat> {
    if ps == [] then Ok(0)
    else if !ps[0].1.Hash? then Raise(TypeMismatch)
    else
      var rest :- CountRecords(ps[1..]);
      Ok(|ps[0].1.pairs| + rest)
  }

  function FlattenInner(name: Value, inner: Pairs): Result<seq<MapAttribute>> {
    if inner == [] then Ok([])
    else
      var attr :- NameOf(name);
      var key :- Encode(inner[0].0);
      var value :- Encode(inner[0].1);
      After([MapAttribute(attr, key, value)], FlattenInner(name, inner[1..]))
  }

  predicate AllHashes(ps: Pairs) {
    forall i :: 0 <= i < |ps| ==> ps[i].1.Hash?
  }

  function Flatten(ps: Pairs): Result<seq<MapAttribute>>
    requires AllHashes(ps)
  {
    if ps == [] then Ok([])
    else
      var first :- FlattenInner(ps[0].0, ps[0].1.pairs);
      After(first, Flatten(ps[1..]))
  }

  /** How the fill loop can end.  Overrun: it reads past the end of an inner hash's
      pairs, where there is nil instead of a pair. */
  datatype Outcome<+T> = Done(result: T) | Failed(error: RubyError) | Overrun

  /** The inner loop's guard: as it stands in the source it tests the length alone;
      bounded, it compares the index with it. */
  datatype Guard = AsWritten | Bounded

  function FillInnerOutcome(guard: Guard, name: Value, inner: Pairs): Outcome<seq<MapAttribute>> {
    match FlattenInner(name, inner)
    case Raise(e) => Failed(e)
    case Ok(rs) => if guard.AsWritten? && inner != [] then Overrun else Done(rs)
  }

  function FillOutcome(guard: Guard, ps: Pairs): Outcome<seq<MapAttribute>>
    requires AllHashes(ps)
  {
    if ps == [] then Done([])
    else
      match FillInnerOutcome(guard, ps[0].0, ps[0].1.pairs)
      case Failed(e) => Failed(e)
      case Overrun => Overrun
      case Done(first) => InFront(first, FillOutcome(guard, ps[1..]))
  }

  function InFront<T>(done: seq<T>, rest: Outcome<seq<T>>): Outcome<seq<T>> {
    match rest
    case Done(rs) => Done(done + rs)
    case Failed(e) => Failed(e)
    case Overrun => Overrun
  }

  function MapAttributesOutcome(guard: Guard, x: Value): Outcome<seq<MapAttribute>> {
    if !x.Hash? then Failed(TypeMismatch)
    else if !AllHashes(x.pairs) then Failed(TypeMismatch)
    else FillOutcome(guard, x.pairs)
  }

  lemma {:induction false} CountsHashes(ps: Pairs)
    ensures CountRecords(ps).Ok? <==> AllHashes(ps)
    ensures CountRecords(ps).Raise? ==> CountRecords(ps).error == TypeMismatch
    decreases |ps|
  {
    if ps != [] {
      CountsHashes(ps[1..]);
      assert forall i :: 1 <= i < |ps| ==> ps[i] == ps[1..][i - 1];
    }
  }

  lemma InFrontTwice<T>(a: seq<T>, b: seq<T>, rest: Outcome<seq<T>>)
    ensures InFront(a, InFront(b, rest)) == InFront(a + b, rest)
  {
    if rest.Done? {
      assert a + (b + rest.result) == (a + b) + rest.result;
    }
  }

  lemma InFrontNothing<T>(rest: Outcome<seq<T>>)
    ensures InFront([], rest) == rest
  {
    if rest.Done? {
      assert [] + rest.result == rest.result;
    }
  }

  // ------------------------------------------------------------------ the C loops

  method CountLoop(ps: Pairs) returns (r: Result<nat>)
    ensures r == CountRecords(ps)
  {
    var sz := 0;
    assert ps[0..] == ps;
    for i := 0 to |ps|
      invariant CountRecords(ps) == match CountRecords(ps[i..]) case Ok(n) => Ok(sz + n) case Raise(e) => Raise(e)
    {
      assert ps[i..][1..] == ps[i + 1..];
      if !ps[i].1.Hash? {
        return Raise(TypeMismatch);
      }
      sz := sz + |ps[i].1.pairs|;
    }
    r := Ok(sz);
  }

  /** The inner loop, with either guard. */
  method FillInner(guard: Guard, name: Value, inner: Pairs, slots: array<Option<MapAttribute>>, start: nat)
    returns (r: Outcome<nat>)
    requires start + |inner| <= slots.Length
    requires Unwritten(slots, start, start + |inner|)
    modifies slots
    ensures match FillInnerOutcome(guard, name, inner)
            case Failed(e) => r == Failed(e)
            case Overrun => r == Overrun
            case Done(rs) => |rs| == |inner| && r == Done(start + |rs|) && HoldsAt(slots, start, rs)
    ensures forall k :: 0 <= k < slots.Length && !(start <= k < start + |inner|) ==> slots[k] == old(slots[k])
  {
    var j, idx := 0, start;
    ghost var done: seq<MapAttribute> := [];
    assert inner[0..] == inner;
    AfterNothing(FlattenInner(name, inner));
    while if guard.AsWritten? then |inner| != 0 else j < |inner|
      invariant j <= |inner| && idx == start + j && |done| == j && HoldsAt(slots, start, done)
      invariant forall k :: 0 <= k < slots.Length && !(start <= k < start + j) ==> slots[k] == old(slots[k])
      invariant FlattenInner(name, inner) == After(done, FlattenInner(name, inner[j..]))
      decreases |inner| - j
    {
      if j >= |inner| {
        return Overrun;
      }
      assert inner[j..][1..] == inner[j + 1..];
      assert slots[idx] == None;   // this slot is written only now
      var attr := NameOf(name);
      if attr.Raise? {
        return Failed(attr.error);
      }
      var key := ConvertType(inner[j].0);
      if key.Raise? {
        return Failed(key.error);
      }
      var value := ConvertType(inner[j].1);
      if value.Raise? {
        return Failed(value.error);
      }
      var record := MapAttribute(attr.value, key.value, value.value);
      slots[idx] := Some(record);
      AfterTwice(done, [record], FlattenInner(name, inner[j + 1..]));
      done := done + [record];
      j, idx := j + 1, idx + 1;
    }
    assert done + [] == done;
    r := Done(idx);
  }

  /** The outer loop: it ends exactly at the end of the array. */
  method FillLoop(guard: Guard, ps: Pairs, slots: array<Option<MapAttribute>>) returns (r: Outcome<nat>)
    requires AllHashes(ps) && CountRecords(ps) == Ok(slots.Length)
    requires Unwritten(slots, 0, slots.Length)
    modifies slots
    ensures match FillOutcome(guard, ps)
            case Failed(e) => r == Failed(e)
            case Overrun => r == Overrun
            case Done(rs) => |rs| == slots.Length && r == Done(|rs|) && HoldsAt(slots, 0, rs)
  {
    var idx := 0;
    ghost var done: seq<MapAttribute> := [];
    assert ps[0..] == ps;
    InFrontNothing(FillOutcome(guard, ps));
    for i := 0 to |ps|
      invariant idx == |done| && CountRecords(ps[i..]).Ok? && |done| + CountRecords(ps[i..]).value == slots.Length
      invariant HoldsAt(slots, 0, done) && Unwritten(slots, idx, slots.Length)
      invariant FillOutcome(guard, ps) == InFront(done, FillOutcome(guard, ps[i..]))
    {
      assert ps[i..][1..] == ps[i + 1..];
      var next := FillInner(guard, ps[i].0, ps[i].1.pairs, slots, idx);
      if !next.Done? {
        return next;
      }
      ghost var rs := FillInnerOutcome(guard, ps[i].0, ps[i].1.pairs).result;
      InFrontTwice(done, rs, FillOutcome(guard, ps[i + 1..]));
      done := done + rs;
      idx := next.result;
    }
    assert done + [] == done;
    r := Done(idx);
  }

  method ConvertMapAttributes(guard: Guard, x: Value) returns (r: Outcome<array<Option<MapAttribute>>>)
    ensures r.Done? ==> fresh(r.result)
    ensures match MapAttributesOutcome(guard, x)
            case Failed(e) => r == Failed(e)
            case Overrun => r == Overrun
            case Done(rs) => r.Done? && r.result.Length == |rs| && HoldsAt(r.result, 0, rs)
  {
    if !x.Hash? {
      return Failed(TypeMismatch);
    }
    CountsHashes(x.pairs);
    var sz := CountLoop(x.pairs);
    if sz.Raise? {
      return Failed(sz.error);
    }
    var slots := new Option<MapAttribute>[sz.value](_ => None);
    var filled := FillLoop(guard, x.pairs, slots);
    match filled
    case Failed(e) => r := Failed(e);
    case Overrun => r := Overrun;
    case Done(_) => r := Done(slots);
  }

  // ----------------------------------------------------------- the guard's two forms

  predicate AllInnerEmpty(ps: Pairs) {
    forall i :: 0 <= i < |ps| ==> ps[i].1 == Hash([])
  }

  lemma {:induction false} FillCompletes(ps: Pairs)
    requires AllHashes(ps)
    ensures FillOutcome(AsWritten, ps).Done? <==> AllInnerEmpty(ps)
    ensures AllInnerEmpty(ps) ==> FillOutcome(AsWritten, ps) == Done([])
    decreases |ps|
  {
    if ps != [] {
      FillCompletes(ps[1..]);
      assert forall i :: 1 <= i < |ps| ==> ps[i] == ps[1..][i - 1];
      InFrontNothing(FillOutcome(AsWritten, ps[1..]));
    }
  }

  /** With the guard as it stands, conversion completes exactly on a hash whose inner
      hashes are all empty: anything else raises or runs past the pairs. */
  lemma {:induction false} AsWrittenCompletes(x: Value)
    ensures MapAttributesOutcome(AsWritten, x).Done? <==> x.Hash? && AllInnerEmpty(x.pairs)
    ensures x.Hash? && AllInnerEmpty(x.pairs) ==> MapAttributesOutcome(AsWritten, x) == Done([])
  {
    if x.Hash? && AllHashes(x.pairs) {
      FillCompletes(x.pairs);
    }
  }

  lemma AsWrittenOverruns()
    ensures MapAttributesOutcome(AsWritten, Hash([(Str("m"), Hash([(Str("k"), Integer(1))]))])) == Overrun
    ensures MapAttributesOutcome(Bounded, Hash([(Str("m"), Hash([(Str("k"), Integer(1))]))])) ==
            Done([MapAttribute("m", DString("k"), DInt(1))])
  {
    var inner := [(Str("k"), Integer(1))];
    var ps := [(Str("m"), Hash(inner))];
    var record := MapAttribute("m", DString("k"), DInt(1));
    assert FlattenInner(Str("m"), inner[1..]) == Ok([]);
    assert FlattenInner(Str("m"), inner) == Ok([record] + []);
    assert ps[1..] == [];
    assert FillOutcome(Bounded, ps[1..]) == Done([]);
    assert [record] + [] == [record];
    assert FillInnerOutcome(Bounded, ps[0].0, inner) == Done([record]);
  }

  lemma {:induction false} BoundedFlattens(ps: Pairs)
    requires AllHashes(ps)
    ensures FillOutcome(Bounded, ps) ==
            if Flatten(ps).Ok? then Done(Flatten(ps).value) else Failed(Flatten(ps).error)
    decreases |ps|
  {
    if ps != [] {
      BoundedFlattens(ps[1..]);
    }
  }

  // ------------------------------------------------------------- where records land

  /** How many records come before the i-th attribute's. */
  function PrefixSum(ps: Pairs, i: nat): nat
    requires AllHashes(ps) && i <= |ps|
  {
    if i == 0 then 0 else PrefixSum(ps, i - 1) + |ps[i - 1].1.pairs|
  }

  lemma {:induction false} PrefixSumTail(ps: Pairs, i: nat)
    requires AllHashes(ps) && 1 <= i <= |ps|
    ensures PrefixSum(ps, i) == |ps[0].1.pairs| + PrefixSum(ps[1..], i - 1)
  {
    if i > 1 {
      PrefixSumTail(ps, i - 1);
    }
  }

  lemma {:induction false} InnerPlacement(name: Value, inner: Pairs)
    requires FlattenInner(name, inner).Ok?
    ensures |FlattenInner(name, inner).value| == |inner|
    ensures forall j :: 0 <= j < |inner| ==> RecordOf(name, inner[j], FlattenInner(name, inner).value[j])
    decreases |inner|
  {
    if inner != [] {
      NameOfExactly(name, NameOf(name).value);
      InnerPlacement(name, inner[1..]);
    }
  }

  /** `r` is the record of one inner pair of the attribute `name`. */
  predicate RecordOf(name: Value, pair: (Value, Value), r: MapAttribute) {
    Names(name, r.attr) && Encode(pair.0) == Ok(r.key) && Encode(pair.1) == Ok(r.value)
  }

  /** The record of the j-th pair of the i-th attribute lands at the i-th prefix sum
      plus j, and the prefix sums account for every record. */
  lemma {:induction false} Placement(ps: Pairs, i: nat, j: nat)
    requires AllHashes(ps) && Flatten(ps).Ok?
    ensures |Flatten(ps).value| == PrefixSum(ps, |ps|)
    ensures i < |ps| && j < |ps[i].1.pairs| ==>
              && PrefixSum(ps, i) + j < |Flatten(ps).value|
              && RecordOf(ps[i].0, ps[i].1.pairs[j], Flatten(ps).value[PrefixSum(ps, i) + j])
    decreases |ps|
  {
    if ps != [] {
      var rest := ps[1..];
      InnerPlacement(ps[0].0, ps[0].1.pairs);
      PrefixSumTail(ps, |ps|);
      if 0 < i < |ps| {
        PrefixSumTail(ps, i);
        Placement(rest, i - 1, j);
      } else {
        Placement(rest, |rest|, 0);
      }
    }
  }

  // -------------------------------------------------------------------- regrouping

  type Nested = map<string, map<Datum, Datum>>

  function Under(m: Nested, attr: string): map<Datum, Datum> {
    if attr in m then m[attr] else map[]
  }

  function RegroupFrom(m: Nested, rs: seq<MapAttribute>): Nested
    decreases |rs|
  {
    if rs == [] then m
    else RegroupFrom(m[rs[0].attr := Under(m, rs[0].attr)[rs[0].key := rs[0].value]], rs[1..])
  }

  /** Groups flat records by attribute, later records winning. */
  function Regroup(rs: seq<MapAttribute>): Nested {
    RegroupFrom(map[], rs)
  }

  function InnerFrom(m: map<Datum, Datum>, inner: Pairs): map<Datum, Datum>
    requires forall j :: 0 <= j < |inner| ==> Encode(inner[j].0).Ok? && Encode(inner[j].1).Ok?
    decreases |inner|
  {
    if inner == [] then m
    else InnerFrom(m[Encode(inner[0].0).value := Encode(inner[0].1).value], inner[1..])
  }

  predicate Convertible(pair: (Value, Value)) {
    && pair.1.Hash?
    && (pair.1.pairs != [] ==> NameOf(pair.0).Ok?)
    && (forall j :: 0 <= j < |pair.1.pairs| ==> Encode(pair.1.pairs[j].0).Ok? && Encode(pair.1.pairs[j].1).Ok?)
  }

  predicate AllConvertible(ps: Pairs) {
    forall i :: 0 <= i < |ps| ==> Convertible(ps[i])
  }

  /** The caller's nested hash, with names and values converted and attributes without
      entries left out. */
  function NestedFrom(m: Nested, ps: Pairs): Nested
    requires AllConvertible(ps)
    decreases |ps|
  {
    if ps == [] then m
    else
      assert Convertible(ps[0]);
      var inner := ps[0].1.pairs;
      if inner == [] then NestedFrom(m, ps[1..])
      else
        var attr := NameOf(ps[0].0).value;
        NestedFrom(m[attr := InnerFrom(Under(m, attr), inner)], ps[1..])
  }

  lemma {:induction false} RegroupConcat(m: Nested, a: seq<MapAttribute>, b: seq<MapAttribute>)
    ensures RegroupFrom(m, a + b) == RegroupFrom(RegroupFrom(m, a), b)
    decreases |a|
  {
    if a == [] {
      assert a + b == b;
    } else {
      assert (a + b)[1..] == a[1..] + b && (a + b)[0] == a[0];
      RegroupConcat(m[a[0].attr := Under(m, a[0].attr)[a[0].key := a[0].value]], a[1..], b);
    }
  }

  lemma {:induction false} FlattensExactly(ps: Pairs)
    requires AllHashes(ps)
    ensures Flatten(ps).Ok? <==> AllConvertible(ps)
    decreases |ps|
  {
    if ps != [] {
      FlattensExactly(ps[1..]);
      InnerFlattens(ps[0].0, ps[0].1.pairs);
      assert forall i :: 1 <= i < |ps| ==> ps[i] == ps[1..][i - 1];
    }
  }

  lemma {:induction false} InnerFlattens(name: Value, inner: Pairs)
    ensures FlattenInner(name, inner).Ok? <==> Convertible((name, Hash(inner)))
    decreases |inner|
  {
    if inner != [] {
      InnerFlattens(name, inner[1..]);
      assert forall i :: 1 <= i < |inner| ==> inner[i] == inner[1..][i - 1];
    }
  }

  lemma {:induction false} InnerRegroups(m: Nested, name: Value, inner: Pairs)
    requires inner != [] && Convertible((name, Hash(inner)))
    ensures FlattenInner(name, inner).Ok?
    ensures var attr := NameOf(name).value;
            RegroupFrom(m, FlattenInner(name, inner).value) == m[attr := InnerFrom(Under(m, attr), inner)]
    decreases |inner|
  {
    InnerFlattens(name, inner);
    var attr := NameOf(name).value;
    var r := MapAttribute(attr, Encode(inner[0].0).value, Encode(inner[0].1).value);
    var rest := inner[1..];
    var m1 := m[attr := Under(m, attr)[r.key := r.value]];
    var rs := FlattenInner(name, inner).value;
    assert rs[0] == r && rs[1..] == FlattenInner(name, rest).value;
    if rest == [] {
      assert RegroupFrom(m1, []) == m1;
    } else {
      InnerRegroups(m1, name, rest);
      assert m1[attr := InnerFrom(Under(m1, attr), rest)] == m[attr := InnerFrom(Under(m, attr), inner)];
    }
  }

  /** Regrouping the flat records gives the nested hash, for every nested hash that
      converts. */
  lemma {:induction false} RegroupGivesNested(m: Nested, ps: Pairs)
    requires AllConvertible(ps) && AllHashes(ps) && Flatten(ps).Ok?
    ensures RegroupFrom(m, Flatten(ps).value) == NestedFrom(m, ps)
    decreases |ps|
  {
    if ps != [] {
      assert Convertible(ps[0]);
      var first := FlattenInner(ps[0].0, ps[0].1.pairs).value;
      RegroupConcat(m, first, Flatten(ps[1..]).value);
      if ps[0].1.pairs == [] {
        RegroupGivesNested(m, ps[1..]);
      } else {
        assert ps[0] == (ps[0].0, Hash(ps[0].1.pairs));
        InnerRegroups(m, ps[0].0, ps[0].1.pairs);
        RegroupGivesNested(RegroupFrom(m, first), ps[1..]);
      }
    }
  }

  // What the nested hash holds, entry by entry.

  predicate HasEntries(pair: (Value, Value), name: string)
    ensures HasEntries(pair, name) <==> pair.1.Hash? && pair.1.pairs != [] && NameOf(pair.0) == Ok(name)
  {
    NameOfExactly(pair.0, name);
    pair.1.Hash? && pair.1.pairs != [] && Names(pair.0, name)
  }

  lemma {:induction false} NestedNames(m: Nested, ps: Pairs, name: string)
    requires AllConvertible(ps)
    ensures name in NestedFrom(m, ps) <==> name in m || exists i :: 0 <= i < |ps| && HasEntries(ps[i], name)
    ensures !(exists i :: 0 <= i < |ps| && HasEntries(ps[i], name)) ==> Under(NestedFrom(m, ps), name) == Under(m, name)
    decreases |ps|
  {
    if ps != [] {
      assert Convertible(ps[0]);
      var rest := ps[1..];
      assert forall i :: 1 <= i < |ps| ==> ps[i] == rest[i - 1];
      assert forall i :: 0 <= i < |rest| ==> HasEntries(rest[i], name) ==> HasEntries(ps[i + 1], name);
      var m1 := if ps[0].1.pairs == [] then m
                else m[NameOf(ps[0].0).value := InnerFrom(Under(m, NameOf(ps[0].0).value), ps[0].1.pairs)];
      NestedNames(m1, rest, name);
    }
  }

  ghost predicate NamesApart(ps: Pairs) {
    forall i, k, name :: 0 <= i < k < |ps| && HasEntries(ps[i], name) ==> !HasEntries(ps[k], name)
  }

  lemma {:induction false} NestedEntry(m: Nested, ps: Pairs, i: nat)
    requires AllConvertible(ps) && NamesApart(ps)
    requires i < |ps| && ps[i].1.Hash? && ps[i].1.pairs != [] && NameOf(ps[i].0).Ok? && NameOf(ps[i].0).value !in m
    ensures Convertible(ps[i])
    ensures NameOf(ps[i].0).value in NestedFrom(m, ps)
    ensures NestedFrom(m, ps)[NameOf(ps[i].0).value] == InnerFrom(map[], ps[i].1.pairs)
    decreases |ps|
  {
    assert Convertible(ps[0]) && Convertible(ps[i]);
    var name := NameOf(ps[i].0).value;
    var rest := ps[1..];
    assert HasEntries(ps[i], name);
    if i == 0 {
      forall k | 0 <= k < |rest|
        ensures !HasEntries(rest[k], name)
      {
        assert rest[k] == ps[k + 1];
      }
      var m1 := m[name := InnerFrom(map[], ps[0].1.pairs)];
      NestedNames(m1, rest, name);
    } else {
      assert rest[i - 1] == ps[i];
      assert ps[0].1.pairs != [] ==> HasEntries(ps[0], NameOf(ps[0].0).value);
      forall a, k, n | 0 <= a < k < |rest| && HasEntries(rest[a], n)
        ensures !HasEntries(rest[k], n)
      {
        assert rest[a] == ps[a + 1] && rest[k] == ps[k + 1];
      }
      var m1 := if ps[0].1.pairs == [] then m
                else m[NameOf(ps[0].0).value := InnerFrom(Under(m, NameOf(ps[0].0).value), ps[0].1.pairs)];
      NestedEntry(m1, rest, i - 1);
    }
  }

  lemma {:induction false} InnerKeys(m: map<Datum, Datum>, inner: Pairs, key: Datum)
    requires forall j :: 0 <= j < |inner| ==> Encode(inner[j].0).Ok? && Encode(inner[j].1).Ok?
    ensures key in InnerFrom(m, inner) <==> key in m || exists j :: 0 <= j < |inner| && Encode(inner[j].0) == Ok(key)
    ensures !(exists j :: 0 <= j < |inner| && Encode(inner[j].0) == Ok(key)) && key in m ==>
              InnerFrom(m, inner)[key] == m[key]
    decreases |inner|
  {
    if inner != [] {
      var rest := inner[1..];
      assert forall j :: 1 <= j < |inner| ==> inner[j] == rest[j - 1];
      assert forall j :: 0 <= j < |rest| ==> Encode(rest[j].0) == Encode(inner[j + 1].0);
      InnerKeys(m[Encode(inner[0].0).value := Encode(inner[0].1).value], rest, key);
    }
  }

  predicate InnerKeysApart(inner: Pairs) {
    forall j, k :: 0 <= j < k < |inner| ==> Encode(inner[j].0) != Encode(inner[k].0)
  }

  lemma {:induction false} InnerEntry(m: map<Datum, Datum>, inner: Pairs, j: nat)
    requires forall j :: 0 <= j < |inner| ==> Encode(inner[j].0).Ok? && Encode(inner[j].1).Ok?
    requires j < |inner| && InnerKeysApart(inner)
    ensures Encode(inner[j].0).value in InnerFrom(m, inner)
    ensures InnerFrom(m, inner)[Encode(inner[j].0).value] == Encode(inner[j].1).value
    decreases |inner|
  {
    var rest := inner[1..];
    assert forall k :: 0 <= k < |rest| ==> rest[k] == inner[k + 1];
    var m1 := m[Encode(inner[0].0).value := Encode(inner[0].1).value];
    if j == 0 {
      InnerKeys(m1, rest, Encode(inner[0].0).value);
    } else {
      assert rest[j - 1] == inner[j];
      InnerEntry(m1, rest, j - 1);
    }
  }

  /** Flatten, then regroup: an attribute comes back exactly when it had entries, and
      each of its entries comes back under its key with its value, given outer names
      that stay apart once converted and inner keys that stay apart once encoded. */
  lemma {:induction false} FlattenRegroup(ps: Pairs, i: nat, j: nat, name: string)
    requires AllHashes(ps) && AllConvertible(ps) && NamesApart(ps)
    ensures Flatten(ps).Ok?
    ensures name in Regroup(Flatten(ps).value) <==> exists i :: 0 <= i < |ps| && HasEntries(ps[i], name)
    ensures i < |ps| && HasEntries(ps[i], name) && InnerKeysApart(ps[i].1.pairs) && j < |ps[i].1.pairs| ==>
              var back := Under(Regroup(Flatten(ps).value), name);
              var (key, value) := ps[i].1.pairs[j];
              && Encode(key).Ok? && Encode(value).Ok?
              && Encode(key).value in back && back[Encode(key).value] == Encode(value).value
    ensures i < |ps| && HasEntries(ps[i], name) ==>
              forall key :: key in Under(Regroup(Flatten(ps).value), name) ==>
                exists k :: 0 <= k < |ps[i].1.pairs| && Encode(ps[i].1.pairs[k].0) == Ok(key)
  {
    FlattensExactly(ps);
    RegroupGivesNested(map[], ps);
    NestedNames(map[], ps, name);
    if i < |ps| && HasEntries(ps[i], name) {
      NestedEntry(map[], ps, i);
      var inner := ps[i].1.pairs;
      forall key | key in InnerFrom(map[], inner)
        ensures exists k :: 0 <= k < |inner| && Encode(inner[k].0) == Ok(key)
      {
        InnerKeys(map[], inner, key);
      }
      if j < |inner| && InnerKeysApart(inner) {
        InnerEntry(map[], inner, j);
      }
    }
  }
}
