// ext/client.c: Ruby values to typed HyperDex values.
module Encoder {
  import opened RubyValues
  import opened DataStructures

  /** A container element: the scalar that convert_elem passes on. */
  function ScalarOf(x: Value): Result<Elem> {
    match x
    case Symbol(name) => Ok(EString(CString(name)))
    case Str(bytes) => Ok(EString(bytes))
    case Integer(n) => if INT64_MIN <= n <= INT64_MAX then Ok(EInt(n)) else Raise(OutOfRange)
    case Float(d) => Ok(EFloat(d))
    case _ => Raise(TypeMismatch)
  }

  function ElemError(code: DsCode): RubyError {
    if code == DsMixedTypes then Heterogeneous else TypeMismatch
  }

  function AddElem(c: Contents, slot: Slot, x: Value): Result<Contents> {
    var e :- ScalarOf(x);
    var (code, after) := Inserted(c, slot, e);
    if code == DsSuccess then Ok(after) else Raise(ElemError(code))
  }

  function AddElems(c: Contents, xs: seq<Value>): Result<Contents>
    decreases |xs|
  {
    if xs == [] then Ok(c)
    else
      var c1 :- AddElem(c, Item, xs[0]);
      AddElems(c1, xs[1..])
  }

  function AddPairs(c: Contents, ps: seq<(Value, Value)>): Result<Contents>
    decreases |ps|
  {
    if ps == [] then Ok(c)
    else
      var c1 :- AddElem(c, Key, ps[0].0);
      var c2 :- AddElem(c1, Val, ps[0].1);
      AddPairs(c2, ps[1..])
  }

  /** The typed value of a Ruby value, or the exception its conversion raises. */
  function Encode(x: Value): Result<Datum> {
    match x
    case Symbol(name) => Ok(DString(CString(name)))
    case Str(bytes) => Ok(DString(bytes))
    case Integer(n) => if INT64_MIN <= n <= INT64_MAX then Ok(DInt(n)) else Raise(OutOfRange)
    case Float(d) => Ok(DFloat(d))
    case Array(xs) =>
      var c :- AddElems(EMPTY, xs);
      Ok(DList(c.elems))
    case Hash(ps) =>
      var c :- AddPairs(EMPTY, ps);
      Ok(DMap(c.pairs))
    case Object(isSet, toA) =>
      if toA.None? then Raise(NoSuchMethod)
      else
        var c :- AddElems(EMPTY, toA.value);
        Ok(DSet(ElemSet(c.elems)))
    case _ => Raise(TypeMismatch)
  }

  // ---------------------------------------------------------------- the C loops

  method ConvertElem(x: Value, container: Builder, slot: Slot) returns (r: Result<()>)
    modifies container
    ensures r.Ok? ==> AddElem(old(container.contents), slot, x) == Ok(container.contents)
    ensures r.Raise? ==> AddElem(old(container.contents), slot, x) == Raise(r.error)
  {
    var rc, error;
    match x {
      case Symbol(name) =>
        rc, error := container.Insert(slot, EString(CString(name)));
      case Str(bytes) =>
        rc, error := container.Insert(slot, EString(bytes));
      case Integer(n) =>
        if n < INT64_MIN || INT64_MAX < n {
          return Raise(OutOfRange);
        }
        rc, error := container.Insert(slot, EInt(n));
      case Float(d) =>
        rc, error := container.Insert(slot, EFloat(d));
      case _ =>
        return Raise(TypeMismatch);
    }
    if rc < 0 {
      return Raise(ElemError(error));
    }
    r := Ok(());
  }

  method ConvertItems(xs: seq<Value>, container: Builder) returns (r: Result<()>)
    requires container.contents == EMPTY
    modifies container
    ensures r.Ok? ==> AddElems(EMPTY, xs) == Ok(container.contents)
    ensures r.Raise? ==> AddElems(EMPTY, xs) == Raise(r.error)
  {
    for i := 0 to |xs|
      invariant AddElems(EMPTY, xs) == AddElems(container.contents, xs[i..])
    {
      assert xs[i..][1..] == xs[i + 1..];
      var _ :- ConvertElem(xs[i], container, Item);
    }
    r := Ok(());
  }

  method ConvertMap(ps: seq<(Value, Value)>) returns (r: Result<Datum>)
    ensures r == Encode(Hash(ps))
  {
    var map_ := new Builder();
    for i := 0 to |ps|
      invariant map_.contents.openKey.None?
      invariant AddPairs(EMPTY, ps) == AddPairs(map_.contents, ps[i..])
    {
      assert ps[i..][1..] == ps[i + 1..];
      var (key, val) := ps[i];
      var _ :- ConvertElem(key, map_, Key);
      var _ :- ConvertElem(val, map_, Val);
    }
    var rc, value := map_.FinalizeMap();
    assert rc >= 0;   // every key has met its value
    r := Ok(value);
  }

  method ConvertType(x: Value) returns (r: Result<Datum>)
    ensures r == Encode(x)
  {
    match x {
      case Symbol(name) => r := Ok(DString(CString(name)));
      case Str(bytes) => r := Ok(DString(bytes));
      case Integer(n) =>
        if n < INT64_MIN || INT64_MAX < n {
          return Raise(OutOfRange);
        }
        r := Ok(DInt(n));
      case Float(d) => r := Ok(DFloat(d));
      case Array(xs) =>
        var list := new Builder();
        var _ :- ConvertItems(xs, list);
        r := Ok(DList(list.contents.elems));
      case Hash(ps) => r := ConvertMap(ps);
      case Object(_, toA) =>
        // The kind test at this point never rejects: C's `!` binds before `==`.
        if toA.None? {
          return Raise(NoSuchMethod);
        }
        var s := new Builder();
        var _ :- ConvertItems(toA.value, s);
        r := Ok(DSet(ElemSet(s.contents.elems)));
      case _ => r := Raise(TypeMismatch);
    }
  }

  // ------------------------------------------------------- what conversion accepts

  predicate AllScalar(xs: seq<Value>) {
    forall i :: 0 <= i < |xs| ==> ScalarOf(xs[i]).Ok?
  }

  function Scalars(xs: seq<Value>): (es: seq<Elem>)
    requires AllScalar(xs)
    ensures |es| == |xs|
  {
    seq(|xs|, i requires 0 <= i < |xs| => ScalarOf(xs[i]).value)
  }

  predicate OneKind(es: seq<Elem>) {
    forall i :: 0 <= i < |es| ==> es[i].KindOf() == es[0].KindOf()
  }

  predicate IsText(x: Value) {
    x.Symbol? || x.Str?
  }

  predicate IsWhole(x: Value) {
    x.Integer? && INT64_MIN <= x.n <= INT64_MAX
  }

  predicate IsScalar(x: Value) {
    IsText(x) || IsWhole(x) || x.Float?
  }

  predicate SameSort(x: Value, y: Value) {
    (IsText(x) && IsText(y)) || (IsWhole(x) && IsWhole(y)) || (x.Float? && y.Float?)
  }

  /** Only names, only whole numbers in range, or only floats. */
  predicate Homogeneous(xs: seq<Value>)
    ensures Homogeneous(xs) <==> AllScalar(xs) && OneKind(Scalars(xs))
  {
    SortsAreKinds(xs);
    || (forall i :: 0 <= i < |xs| ==> IsText(xs[i]))
    || (forall i :: 0 <= i < |xs| ==> IsWhole(xs[i]))
    || (forall i :: 0 <= i < |xs| ==> xs[i].Float?)
  }

  lemma ScalarOfExactly(x: Value)
    ensures ScalarOf(x).Ok? <==> IsScalar(x)
    ensures ScalarOf(x) == Raise(OutOfRange) <==> x.Integer? && !IsWhole(x)
    ensures ScalarOf(x) == Raise(TypeMismatch) <==> !IsText(x) && !x.Integer? && !x.Float?
  {}

  lemma KindsAreSorts(x: Value, y: Value)
    requires ScalarOf(x).Ok?
    ensures ScalarOf(y).Ok? ==>
              (ScalarOf(x).value.KindOf() == ScalarOf(y).value.KindOf() <==> SameSort(x, y))
  {}

  lemma SortsAreKinds(xs: seq<Value>)
    ensures AllScalar(xs) && OneKind(Scalars(xs)) <==>
            || (forall i :: 0 <= i < |xs| ==> IsText(xs[i]))
            || (forall i :: 0 <= i < |xs| ==> IsWhole(xs[i]))
            || (forall i :: 0 <= i < |xs| ==> xs[i].Float?)
  {
    forall i | 0 <= i < |xs|
      ensures ScalarOf(xs[i]).Ok? <==> IsScalar(xs[i])
    {
      ScalarOfExactly(xs[i]);
    }
    if AllScalar(xs) {
      forall i | 0 <= i < |xs|
        ensures Scalars(xs)[i].KindOf() == Scalars(xs)[0].KindOf() <==> SameSort(xs[i], xs[0])
      {
        KindsAreSorts(xs[i], xs[0]);
      }
    }
  }

  function Keys(ps: seq<(Value, Value)>): (ks: seq<Value>)
    ensures |ks| == |ps|
  {
    seq(|ps|, i requires 0 <= i < |ps| => ps[i].0)
  }

  function Vals(ps: seq<(Value, Value)>): (vs: seq<Value>)
    ensures |vs| == |ps|
  {
    seq(|ps|, i requires 0 <= i < |ps| => ps[i].1)
  }

  function Zip(ks: seq<Elem>, vs: seq<Elem>): (r: seq<(Elem, Elem)>)
    requires |ks| == |vs|
    ensures |r| == |ks|
  {
    seq(|ks|, i requires 0 <= i < |ks| => (ks[i], vs[i]))
  }

  lemma {:induction false} AddElemsAccepts(c: Contents, xs: seq<Value>)
    requires OneKind(c.elems)
    ensures AddElems(c, xs).Ok? <==> AllScalar(xs) && OneKind(c.elems + Scalars(xs))
    ensures AddElems(c, xs).Ok? ==> AddElems(c, xs).value == c.(elems := c.elems + Scalars(xs))
    decreases |xs|
  {
    if xs == [] {
      assert c.elems + Scalars(xs) == c.elems;
    } else {
      var rest := xs[1..];
      assert forall i :: 0 <= i < |rest| ==> rest[i] == xs[i + 1];
      match AddElem(c, Item, xs[0])
      case Ok(c1) =>
        AddElemsAccepts(c1, rest);
        assert AllScalar(xs) ==> AllScalar(rest);
        assert AllScalar(rest) ==> forall i :: 1 <= i < |xs| ==> xs[i] == rest[i - 1];
        if AllScalar(rest) {
          assert c1.elems + Scalars(rest) == c.elems + Scalars(xs);
        }
      case Raise(_) =>
        if AllScalar(xs) {
          var es := c.elems + Scalars(xs);
          assert es[|c.elems|] == ScalarOf(xs[0]).value && es[0] == c.elems[0];
        }
    }
  }

  /** List and set conversion succeed exactly when all elements are scalars of one
      kind, and then lose, add and reorder nothing. */
  lemma {:induction false} ContainerAccepts(xs: seq<Value>)
    ensures Encode(Array(xs)).Ok? <==> Homogeneous(xs)
    ensures Encode(Object(true, Some(xs))).Ok? <==> Homogeneous(xs)
    ensures Homogeneous(xs) ==> Encode(Array(xs)) == Ok(DList(Scalars(xs)))
    ensures Homogeneous(xs) ==> Encode(Object(true, Some(xs))) == Ok(DSet(ElemSet(Scalars(xs))))
  {
    AddedElems(xs);
  }

  lemma {:induction false} AddPairsAccepts(c: Contents, ps: seq<(Value, Value)>, ks: seq<Elem>, vs: seq<Elem>)
    requires |ks| == |vs| && c == EMPTY.(pairs := Zip(ks, vs)) && OneKind(ks) && OneKind(vs)
    ensures AddPairs(c, ps).Ok? <==>
              AllScalar(Keys(ps)) && AllScalar(Vals(ps)) &&
              OneKind(ks + Scalars(Keys(ps))) && OneKind(vs + Scalars(Vals(ps)))
    ensures AddPairs(c, ps).Ok? ==>
              AddPairs(c, ps).value == EMPTY.(pairs := Zip(ks + Scalars(Keys(ps)), vs + Scalars(Vals(ps))))
    decreases |ps|
  {
    if ps == [] {
      assert ks + Scalars(Keys(ps)) == ks && vs + Scalars(Vals(ps)) == vs;
    } else {
      var rest := ps[1..];
      assert Keys(rest) == Keys(ps)[1..] && Vals(rest) == Vals(ps)[1..];
      var k, v := ScalarOf(ps[0].0), ScalarOf(ps[0].1);
      assert Keys(ps)[0] == ps[0].0 && Vals(ps)[0] == ps[0].1;
      if k.Ok? && v.Ok? && (ks == [] || (k.value.KindOf() == ks[0].KindOf() && v.value.KindOf() == vs[0].KindOf())) {
        var ks1, vs1 := ks + [k.value], vs + [v.value];
        assert Zip(ks1, vs1) == Zip(ks, vs) + [(k.value, v.value)];
        AddPairsAccepts(EMPTY.(pairs := Zip(ks1, vs1)), rest, ks1, vs1);
        ScalarsCons(Keys(ps));
        ScalarsCons(Vals(ps));
        if AllScalar(Keys(rest)) && AllScalar(Vals(rest)) {
          assert ks1 + Scalars(Keys(rest)) == ks + Scalars(Keys(ps));
          assert vs1 + Scalars(Vals(rest)) == vs + Scalars(Vals(ps));
        }
      } else {
        assert AddPairs(c, ps).Raise?;
        if AllScalar(Keys(ps)) && AllScalar(Vals(ps)) {
          var eks, evs := ks + Scalars(Keys(ps)), vs + Scalars(Vals(ps));
          assert eks[|ks|] == k.value && evs[|vs|] == v.value && eks[0] == ks[0] && evs[0] == vs[0];
        }
      }
    }
  }

  lemma ScalarsCons(xs: seq<Value>)
    requires xs != []
    ensures AllScalar(xs) <==> ScalarOf(xs[0]).Ok? && AllScalar(xs[1..])
    ensures AllScalar(xs) ==> Scalars(xs) == [ScalarOf(xs[0]).value] + Scalars(xs[1..])
  {
    assert forall i :: 1 <= i < |xs| ==> xs[i] == xs[1..][i - 1];
  }

  /** Map conversion succeeds exactly when all keys share one kind and all values
      share one kind. */
  lemma {:induction false} MapAccepts(ps: seq<(Value, Value)>)
    ensures Encode(Hash(ps)).Ok? <==> Homogeneous(Keys(ps)) && Homogeneous(Vals(ps))
    ensures Encode(Hash(ps)).Ok? ==> Encode(Hash(ps)) == Ok(DMap(Zip(Scalars(Keys(ps)), Scalars(Vals(ps)))))
  {
    assert EMPTY.pairs == Zip([], []);
    AddPairsAccepts(EMPTY, ps, [], []);
    if AllScalar(Keys(ps)) && AllScalar(Vals(ps)) {
      assert [] + Scalars(Keys(ps)) == Scalars(Keys(ps)) && [] + Scalars(Vals(ps)) == Scalars(Vals(ps));
    }
  }

  /** The insertion of `x` would meet the builder in the wrong state. */
  predicate OutOfTurn(c: Contents, slot: Slot, x: Value) {
    ScalarOf(x).Ok? && Inserted(c, slot, ScalarOf(x).value).0 == DsWrongState
  }

  lemma {:induction false} EveryKeyMeetsItsValue(c: Contents, ps: seq<(Value, Value)>)
    requires c.openKey.None? && AddPairs(c, ps).Ok?
    ensures AddPairs(c, ps).value.openKey.None?
    decreases |ps|
  {
    if ps != [] {
      var c1 := AddElem(c, Key, ps[0].0).value;
      EveryKeyMeetsItsValue(AddElem(c1, Val, ps[0].1).value, ps[1..]);
    }
  }

  /** The wrong-state code is never returned: at every pair that the map loop gets to,
      neither the key's insertion nor, after it, the value's is out of turn. */
  lemma {:induction false} MapNeverOutOfTurn(ps: seq<(Value, Value)>, k: nat)
    requires k < |ps| && AddPairs(EMPTY, ps[..k]).Ok?
    ensures var c := AddPairs(EMPTY, ps[..k]).value;
            && !OutOfTurn(c, Key, ps[k].0)
            && (AddElem(c, Key, ps[k].0).Ok? ==> !OutOfTurn(AddElem(c, Key, ps[k].0).value, Val, ps[k].1))
  {
    EveryKeyMeetsItsValue(EMPTY, ps[..k]);
  }

  /** The first offending element decides the exception. */
  lemma {:induction false} ContainerRaises(xs: seq<Value>, e: RubyError)
    ensures Encode(Array(xs)) == Raise(e) <==>
              exists k :: 0 <= k < |xs| && Homogeneous(xs[..k]) && FailsAt(xs, k, e)
  {
    if k :| 0 <= k < |xs| && Homogeneous(xs[..k]) && FailsAt(xs, k, e) {
      AddElemsSplit(EMPTY, xs, k);
      RaisesAt(xs, k, e);
    }
    if Encode(Array(xs)) == Raise(e) {
      FirstFailure(EMPTY, xs, e);
      var k :| 0 <= k < |xs| && AddElems(EMPTY, xs[..k]).Ok? &&
               AddElem(AddElems(EMPTY, xs[..k]).value, Item, xs[k]) == Raise(e);
      RaisesAt(xs, k, e);
    }
  }

  lemma AddedElems(xs: seq<Value>)
    ensures AddElems(EMPTY, xs).Ok? <==> Homogeneous(xs)
    ensures Homogeneous(xs) ==> AddElems(EMPTY, xs) == Ok(EMPTY.(elems := Scalars(xs)))
  {
    AddElemsAccepts(EMPTY, xs);
    if AllScalar(xs) {
      assert EMPTY.elems + Scalars(xs) == Scalars(xs);
    }
  }

  lemma RaisesAt(xs: seq<Value>, k: nat, e: RubyError)
    requires k < |xs|
    ensures AddElems(EMPTY, xs[..k]).Ok? <==> Homogeneous(xs[..k])
    ensures Homogeneous(xs[..k]) ==>
              (AddElem(AddElems(EMPTY, xs[..k]).value, Item, xs[k]) == Raise(e) <==> FailsAt(xs, k, e))
    ensures xs[k..] != [] && xs[k..][0] == xs[k]
  {
    AddedElems(xs[..k]);
    ScalarOfExactly(xs[k]);
    if Homogeneous(xs[..k]) && k > 0 {
      assert xs[..k][0] == xs[0];
      assert Scalars(xs[..k])[0] == ScalarOf(xs[0]).value;
      KindsAreSorts(xs[0], xs[k]);
    }
  }

  /** Element k is no scalar, or is one of another sort than its predecessors. */
  predicate FailsAt(xs: seq<Value>, k: nat, e: RubyError)
    requires k < |xs|
  {
    match e
    case OutOfRange => xs[k].Integer? && !IsWhole(xs[k])
    case TypeMismatch => !IsText(xs[k]) && !xs[k].Integer? && !xs[k].Float?
    case Heterogeneous => IsScalar(xs[k]) && k > 0 && !SameSort(xs[0], xs[k])
    case _ => false
  }

  /** Element k is a scalar of the sort of its predecessors. */
  predicate FitsAt(xs: seq<Value>, k: nat)
    requires k < |xs|
  {
    IsScalar(xs[k]) && (k > 0 ==> SameSort(xs[0], xs[k]))
  }

  /** The key of pair k does not fit, or it does and the value does not. */
  predicate PairFailsAt(ps: seq<(Value, Value)>, k: nat, e: RubyError)
    requires k < |ps|
  {
    FailsAt(Keys(ps), k, e) || (FitsAt(Keys(ps), k) && FailsAt(Vals(ps), k, e))
  }

  lemma {:induction false} AddElemsSplit(c: Contents, xs: seq<Value>, k: nat)
    requires k <= |xs|
    ensures AddElems(c, xs) == match AddElems(c, xs[..k])
                               case Raise(e) => Raise(e)
                               case Ok(c') => AddElems(c', xs[k..])
    decreases k
  {
    if k == 0 {
      assert xs[0..] == xs && xs[..0] == [];
    } else {
      var c1 := AddElem(c, Item, xs[0]);
      assert xs[..k][0] == xs[0] && xs[..k][1..] == xs[1..][..k - 1];
      assert xs[1..][k - 1..] == xs[k..];
      if c1.Ok? {
        AddElemsSplit(c1.value, xs[1..], k - 1);
      }
    }
  }

  lemma {:induction false} FirstFailure(c: Contents, xs: seq<Value>, e: RubyError)
    requires AddElems(c, xs) == Raise(e)
    ensures exists k :: 0 <= k < |xs| && AddElems(c, xs[..k]).Ok?
              && AddElem(AddElems(c, xs[..k]).value, Item, xs[k]) == Raise(e)
    decreases |xs|
  {
    match AddElem(c, Item, xs[0])
    case Raise(_) =>
      assert xs[..0] == [];
      assert AddElems(c, xs[..0]).Ok?;
    case Ok(c1) =>
      FirstFailure(c1, xs[1..], e);
      var k :| 0 <= k < |xs[1..]| && AddElems(c1, xs[1..][..k]).Ok? &&
               AddElem(AddElems(c1, xs[1..][..k]).value, Item, xs[1..][k]) == Raise(e);
      assert xs[..k + 1][0] == xs[0] && xs[..k + 1][1..] == xs[1..][..k];
      assert AddElems(c, xs[..k + 1]) == AddElems(c1, xs[1..][..k]);
      assert xs[1..][k] == xs[k + 1];
  }

  function AddPair(c: Contents, p: (Value, Value)): Result<Contents> {
    var c1 :- AddElem(c, Key, p.0);
    AddElem(c1, Val, p.1)
  }

  /** The first pair whose key or value does not fit decides the exception; in it, the
      key before the value. */
  lemma {:induction false} MapRaises(ps: seq<(Value, Value)>, e: RubyError)
    ensures Encode(Hash(ps)) == Raise(e) <==>
              exists k :: 0 <= k < |ps| && Homogeneous(Keys(ps[..k])) && Homogeneous(Vals(ps[..k]))
                  && PairFailsAt(ps, k, e)
  {
    if k :| 0 <= k < |ps| && Homogeneous(Keys(ps[..k])) && Homogeneous(Vals(ps[..k])) && PairFailsAt(ps, k, e) {
      AddPairsSplit(EMPTY, ps, k);
      PairRaisesAt(ps, k, e);
    }
    if Encode(Hash(ps)) == Raise(e) {
      FirstPairFailure(EMPTY, ps, e);
      var k :| 0 <= k < |ps| && AddPairs(EMPTY, ps[..k]).Ok?
          && AddPair(AddPairs(EMPTY, ps[..k]).value, ps[k]) == Raise(e);
      PairRaisesAt(ps, k, e);
    }
  }

  lemma PairRaisesAt(ps: seq<(Value, Value)>, k: nat, e: RubyError)
    requires k < |ps|
    ensures AddPairs(EMPTY, ps[..k]).Ok? <==> Homogeneous(Keys(ps[..k])) && Homogeneous(Vals(ps[..k]))
    ensures AddPairs(EMPTY, ps[..k]).Ok? ==>
              (AddPair(AddPairs(EMPTY, ps[..k]).value, ps[k]) == Raise(e) <==> PairFailsAt(ps, k, e))
    ensures ps[k..] != [] && ps[k..][0] == ps[k]
  {
    var before := ps[..k];
    MapAccepts(before);
    OpenAfter(before);
    if AddPairs(EMPTY, before).Ok? {
      assert Keys(before) == Keys(ps)[..k] && Vals(before) == Vals(ps)[..k];
      ScalarOfExactly(ps[k].0);
      ScalarOfExactly(ps[k].1);
      if k > 0 {
        assert Keys(before)[0] == ps[0].0 && Vals(before)[0] == ps[0].1;
        KindsAreSorts(ps[0].0, ps[k].0);
        KindsAreSorts(ps[0].1, ps[k].1);
      }
    }
  }

  lemma OpenAfter(ps: seq<(Value, Value)>)
    ensures AddPairs(EMPTY, ps).Ok? <==> Encode(Hash(ps)).Ok?
    ensures AddPairs(EMPTY, ps).Ok? ==> AddPairs(EMPTY, ps).value.openKey.None?
    ensures AddPairs(EMPTY, ps).Ok? ==> Encode(Hash(ps)) == Ok(DMap(AddPairs(EMPTY, ps).value.pairs))
  {
    if AddPairs(EMPTY, ps).Ok? {
      EveryKeyMeetsItsValue(EMPTY, ps);
    }
  }

  lemma {:induction false} AddPairsSplit(c: Contents, ps: seq<(Value, Value)>, k: nat)
    requires k <= |ps|
    ensures AddPairs(c, ps) == match AddPairs(c, ps[..k])
                               case Raise(e) => Raise(e)
                               case Ok(c') => AddPairs(c', ps[k..])
    decreases k
  {
    if k == 0 {
      assert ps[0..] == ps && ps[..0] == [];
    } else {
      var c1 := AddPair(c, ps[0]);
      assert ps[..k][0] == ps[0] && ps[..k][1..] == ps[1..][..k - 1];
      assert ps[1..][k - 1..] == ps[k..];
      if c1.Ok? {
        AddPairsSplit(c1.value, ps[1..], k - 1);
      }
    }
  }

  lemma {:induction false} FirstPairFailure(c: Contents, ps: seq<(Value, Value)>, e: RubyError)
    requires AddPairs(c, ps) == Raise(e)
    ensures exists k :: 0 <= k < |ps| && AddPairs(c, ps[..k]).Ok?
              && AddPair(AddPairs(c, ps[..k]).value, ps[k]) == Raise(e)
    decreases |ps|
  {
    match AddPair(c, ps[0])
    case Raise(_) =>
      assert ps[..0] == [];
      assert AddPairs(c, ps[..0]).Ok?;
    case Ok(c1) =>
      var rest := ps[1..];
      FirstPairFailure(c1, rest, e);
      var k :| 0 <= k < |rest| && AddPairs(c1, rest[..k]).Ok?
          && AddPair(AddPairs(c1, rest[..k]).value, rest[k]) == Raise(e);
      assert ps[..k + 1][0] == ps[0] && ps[..k + 1][1..] == rest[..k];
      assert AddPairs(c, ps[..k + 1]) == AddPairs(c1, rest[..k]);
      assert rest[k] == ps[k + 1];
  }

  /** What converts, by itself. */
  predicate Converts(x: Value) {
    match x
    case Array(xs) => Homogeneous(xs)
    case Hash(ps) => Homogeneous(Keys(ps)) && Homogeneous(Vals(ps))
    case Object(_, toA) => toA.Some? && Homogeneous(toA.value)
    case _ => IsScalar(x)
  }

  /** Names, whole numbers in range and floats convert, and containers of one sort of
      them.  What else is raised, containers apart: a number out of range, an object
      without a to_a, or no type that HyperDex has. */
  lemma {:induction false} EncodeExactly(x: Value)
    ensures Encode(x).Ok? <==> Converts(x)
    ensures x.Integer? && !IsWhole(x) ==> Encode(x) == Raise(OutOfRange)
    ensures x.Object? && x.toA.None? ==> Encode(x) == Raise(NoSuchMethod)
    ensures !IsText(x) && !x.Integer? && !x.Float? && !x.Array? && !x.Hash? && !x.Object? ==>
              Encode(x) == Raise(TypeMismatch)
    ensures x.Object? && x.toA.Some? ==>
              forall e :: Encode(x) == Raise(e) <==> Encode(Array(x.toA.value)) == Raise(e)
  {
    match x
    case Array(xs) => ContainerAccepts(xs);
    case Hash(ps) => MapAccepts(ps);
    case Object(_, toA) =>
      if toA.Some? {
        ContainerAccepts(toA.value);
      }
    case _ =>
  }

  /** The test for Set rejects nothing: an object of any other class is encoded as a
      set whenever its to_a gives a homogeneous array.  Rejection of non-Sets, which
      the code evidently intends, holds exactly when that fails. */
  lemma {:induction false} NonSetAcceptance(toA: Option<seq<Value>>)
    ensures Encode(Object(false, toA)).Ok? <==> toA.Some? && Homogeneous(toA.value)
    ensures toA.Some? ==> Encode(Object(false, toA)) == Encode(Object(true, toA))
  {
    if toA.Some? {
      ContainerAccepts(toA.value);
    }
  }

  lemma NonSetAccepted()
    ensures Encode(Object(false, Some([Integer(1)]))) == Ok(DSet({EInt(1)}))
  {
    var one := [Integer(1)];
    ContainerAccepts(one);
    assert Scalars(one) == [EInt(1)];
    assert Homogeneous(one);
    assert ElemSet([EInt(1)]) == {EInt(1)};
  }
}
