// What a query means, and that compiling it keeps the meaning.
module PredicateMeaning {
  import opened RubyValues
  import opened DataStructures
  import opened Encoder
  import opened Predicates

  /** The server's relations between an attribute's value and a given value, left
      abstract. */
  datatype Server = Server(
    same: (Datum, Datum) -> bool,
    atMost: (Datum, Datum) -> bool,
    below: (Datum, Datum) -> bool,
    matches: (Datum, Datum) -> bool,
    contains: (Datum, Datum) -> bool,
    length: Datum -> int)

  type Record = string -> Datum

  /** How the server answers one check on the attribute value `a`. */
  predicate Holds(srv: Server, op: HyperPredicate, a: Datum, given: Datum) {
    match op
    case FAIL => false
    case EQUALS => srv.same(a, given)
    case LESS_THAN => srv.below(a, given)
    case LESS_EQUAL => srv.atMost(a, given)
    case GREATER_EQUAL => srv.atMost(given, a)
    case GREATER_THAN => srv.below(given, a)
    case REGEX => srv.matches(a, given)
    case LENGTH_EQUALS => given == DInt(srv.length(a))
    case LENGTH_LESS_EQUAL => given.DInt? && srv.length(a) <= given.n
    case LENGTH_GREATER_EQUAL => given.DInt? && given.n <= srv.length(a)
    case CONTAINS => srv.contains(a, given)
  }

  /** The server selects the records on which every check holds. */
  predicate Selected(srv: Server, obj: Record, cs: seq<Check>) {
    forall i :: 0 <= i < |cs| ==> Holds(srv, cs[i].op, obj(cs[i].attr), cs[i].value)
  }

  // ------------------------------------------------------- meaning of the source

  predicate Encodable(v: Value) {
    Encode(v).Ok?
  }

  function Bound(v: Value): Datum
    requires Encodable(v)
  {
    Encode(v).value
  }

  /** The values a predicate object was made from can all be encoded.  The base class
      holds nil, which cannot. */
  predicate ObjectEncodable(p: Predicate) {
    match p
    case Bare => false
    case Range(lower, upper) => Encodable(lower) && Encodable(upper)
    case _ => Encodable(p.v)
  }

  predicate ObjectMeans(srv: Server, p: Predicate, a: Datum)
    requires ObjectEncodable(p)
  {
    match p
    case Equals(v) => srv.same(a, Bound(v))
    case LessEqual(v) => srv.atMost(a, Bound(v))
    case GreaterEqual(v) => srv.atMost(Bound(v), a)
    case LessThan(v) => srv.below(a, Bound(v))
    case GreaterThan(v) => srv.below(Bound(v), a)
    case Range(lower, upper) => srv.atMost(Bound(lower), a) && srv.atMost(a, Bound(upper))
    case Regex(v) => srv.matches(a, Bound(v))
    case LengthEquals(v) => Bound(v) == DInt(srv.length(a))
    case LengthLessEqual(v) => Bound(v).DInt? && srv.length(a) <= Bound(v).n
    case LengthGreaterEqual(v) => Bound(v).DInt? && Bound(v).n <= srv.length(a)
    case Contains(v) => srv.contains(a, Bound(v))
  }

  /** A hash value that the compiler accepts: a predicate object, an array of them, or
      a plain value. */
  predicate EntryEncodable(x: Value) {
    match x
    case Data(p) => ObjectEncodable(p)
    case Array(xs) =>
      if xs != [] && xs[0].Data? then forall i :: 0 <= i < |xs| ==> xs[i].Data? && ObjectEncodable(xs[i].p)
      else Encodable(x)
    case _ => Encodable(x)
  }

  /** A predicate object says what its class says, an array of them says all of it,
      and a plain value says equality. */
  predicate EntryMeans(srv: Server, x: Value, a: Datum)
    requires EntryEncodable(x)
  {
    match x
    case Data(p) => ObjectMeans(srv, p, a)
    case Array(xs) =>
      if xs != [] && xs[0].Data? then forall i :: 0 <= i < |xs| ==> ObjectMeans(srv, xs[i].p, a)
      else srv.same(a, Bound(x))
    case _ => srv.same(a, Bound(x))
  }

  predicate QueryEncodable(ps: seq<(Value, Value)>) {
    forall i :: 0 <= i < |ps| ==> HasName(ps[i].0) && EntryEncodable(ps[i].1)
  }

  ghost predicate QueryMeans(srv: Server, ps: seq<(Value, Value)>, obj: Record)
    requires QueryEncodable(ps)
  {
    forall i, name :: 0 <= i < |ps| && Names(ps[i].0, name) ==> EntryMeans(srv, ps[i].1, obj(name))
  }

  // ---------------------------------------------------------- meaning is preserved

  lemma SelectedConcat(srv: Server, obj: Record, a: seq<Check>, b: seq<Check>)
    ensures Selected(srv, obj, a + b) <==> Selected(srv, obj, a) && Selected(srv, obj, b)
  {
    var c := a + b;
    if Selected(srv, obj, c) {
      assert forall i :: 0 <= i < |a| ==> a[i] == c[i];
      assert forall i :: 0 <= i < |b| ==> b[i] == c[|a| + i];
    }
  }

  lemma SelectedOne(srv: Server, obj: Record, c: Check)
    ensures Selected(srv, obj, [c]) <==> Holds(srv, c.op, obj(c.attr), c.value)
  {
    assert [c][0] == c;
  }

  lemma SingleInner(attr: string, c: Inner)
    ensures CompileInner(attr, [c]) ==
            if Encode(c.v).Ok? then Ok([Check(attr, c.op, Encode(c.v).value)])
            else Raise(Encode(c.v).error)
  {
    var cs := [c];
    assert CompileInner(attr, cs[1..]) == Ok([]);
    assert cs[0] == c;
    if Encode(c.v).Ok? {
      var only := [Check(attr, c.op, Encode(c.v).value)];
      assert only + [] == only;
    }
  }

  lemma PairInner(attr: string, c: Inner, d: Inner)
    ensures CompileInner(attr, [c, d]) ==
            if Encode(c.v).Raise? then Raise(Encode(c.v).error)
            else if Encode(d.v).Raise? then Raise(Encode(d.v).error)
            else Ok([Check(attr, c.op, Encode(c.v).value), Check(attr, d.op, Encode(d.v).value)])
  {
    var cs := [c, d];
    assert cs[1..] == [d] && cs[0] == c;
    SingleInner(attr, d);
    if Encode(c.v).Ok? && Encode(d.v).Ok? {
      var first, second := Check(attr, c.op, Encode(c.v).value), Check(attr, d.op, Encode(d.v).value);
      assert [first] + [second] == [first, second];
    }
  }

  lemma {:induction false} ObjectCompiles(srv: Server, obj: Record, attr: string, p: Predicate)
    ensures CompileInner(attr, InnerChecks(p)).Ok? <==> ObjectEncodable(p)
    ensures ObjectEncodable(p) ==>
              (Selected(srv, obj, CompileInner(attr, InnerChecks(p)).value) <==> ObjectMeans(srv, p, obj(attr)))
  {
    var inner := InnerChecks(p);
    if p.Range? {
      PairInner(attr, inner[0], inner[1]);
      assert inner == [inner[0], inner[1]];
      if ObjectEncodable(p) {
        var lo := Check(attr, inner[0].op, Encode(inner[0].v).value);
        var hi := Check(attr, inner[1].op, Encode(inner[1].v).value);
        assert [lo] + [hi] == [lo, hi];
        SelectedConcat(srv, obj, [lo], [hi]);
        SelectedOne(srv, obj, lo);
        SelectedOne(srv, obj, hi);
      }
    } else {
      SingleInner(attr, inner[0]);
      assert inner == [inner[0]];
      if Encode(inner[0].v).Ok? {
        SelectedOne(srv, obj, Check(attr, inner[0].op, Encode(inner[0].v).value));
      }
    }
  }

  lemma {:induction false} MembersCompile(srv: Server, obj: Record, attr: string, xs: seq<Value>)
    requires AllPredicates(xs)
    ensures CompileMembers(attr, xs).Ok? <==> forall i :: 0 <= i < |xs| ==> ObjectEncodable(xs[i].p)
    ensures CompileMembers(attr, xs).Ok? ==>
              (Selected(srv, obj, CompileMembers(attr, xs).value) <==>
               forall i :: 0 <= i < |xs| ==> ObjectMeans(srv, xs[i].p, obj(attr)))
    decreases |xs|
  {
    if xs != [] {
      var rest := xs[1..];
      assert forall i :: 1 <= i < |xs| ==> xs[i] == rest[i - 1];
      ObjectCompiles(srv, obj, attr, xs[0].p);
      MembersCompile(srv, obj, attr, rest);
      if CompileMembers(attr, xs).Ok? {
        SelectedConcat(srv, obj, CompileInner(attr, InnerChecks(xs[0].p)).value, CompileMembers(attr, rest).value);
      }
    }
  }

  lemma {:induction false} EntryCompiles(srv: Server, obj: Record, attr: string, x: Value)
    ensures Size(x).Ok? && Compile(attr, x).Ok? <==> EntryEncodable(x)
    ensures EntryEncodable(x) ==>
              (Selected(srv, obj, Compile(attr, x).value) <==> EntryMeans(srv, x, obj(attr)))
  {
    if x.Data? {
      ObjectCompiles(srv, obj, attr, x.p);
    } else if IsPredicateArray(x) {
      if AllPredicates(x.elems) {
        MembersCompile(srv, obj, attr, x.elems);
      } else {
        var i :| 0 <= i < |x.elems| && !x.elems[i].Data?;
        assert !EntryEncodable(x);
      }
    } else if Encodable(x) {
      SelectedOne(srv, obj, Check(attr, EQUALS, Bound(x)));
    }
  }

  lemma QueryMeansStep(srv: Server, ps: seq<(Value, Value)>, obj: Record, name: string)
    requires ps != [] && QueryEncodable(ps) && NameOf(ps[0].0) == Ok(name)
    ensures EntryEncodable(ps[0].1) && QueryEncodable(ps[1..])
    ensures QueryMeans(srv, ps, obj) <==> EntryMeans(srv, ps[0].1, obj(name)) && QueryMeans(srv, ps[1..], obj)
  {
    var rest := ps[1..];
    assert forall i :: 1 <= i < |ps| ==> ps[i] == rest[i - 1];
    forall other
      ensures Names(ps[0].0, other) <==> other == name
    {
      NameOfExactly(ps[0].0, other);
    }
  }

  lemma {:induction false} PairsCompile(srv: Server, obj: Record, ps: seq<(Value, Value)>)
    ensures HashSize(ps).Ok? && CompileHash(ps).Ok? <==> QueryEncodable(ps)
    ensures QueryEncodable(ps) ==>
              (Selected(srv, obj, CompileHash(ps).value) <==> QueryMeans(srv, ps, obj))
    decreases |ps|
  {
    if ps != [] {
      var rest := ps[1..];
      assert forall i :: 1 <= i < |ps| ==> ps[i] == rest[i - 1];
      PairsCompile(srv, obj, rest);
      var name := NameOf(ps[0].0);
      NameOfExactly(ps[0].0, "");
      if name.Ok? {
        EntryCompiles(srv, obj, name.value, ps[0].1);
        if QueryEncodable(ps) {
          QueryMeansStep(srv, ps, obj, name.value);
          SelectedConcat(srv, obj, Compile(name.value, ps[0].1).value, CompileHash(rest).value);
        }
      }
    }
  }

  /** A query compiles exactly when every name and every value in it converts, and the
      records that the compiled checks select are then exactly those the query
      describes. */
  lemma {:induction false} CompilationPreservesMeaning(srv: Server, obj: Record, ps: seq<(Value, Value)>)
    ensures CompileQuery(Hash(ps)).Ok? <==> QueryEncodable(ps)
    ensures QueryEncodable(ps) ==>
              (Selected(srv, obj, CompileQuery(Hash(ps)).value) <==> QueryMeans(srv, ps, obj))
  {
    PairsCompile(srv, obj, ps);
  }

  // ----------------------------------------------- compilation respects concatenation

  /** An array of predicates emits the concatenation of what its members emit, in
      order, and raises what the first failing member raises. */
  lemma {:induction false} MembersConcat(attr: string, xs: seq<Value>, ys: seq<Value>)
    requires AllPredicates(xs) && AllPredicates(ys)
    ensures CompileMembers(attr, xs + ys) ==
            if CompileMembers(attr, xs).Ok? then After(CompileMembers(attr, xs).value, CompileMembers(attr, ys))
            else CompileMembers(attr, xs)
    decreases |xs|
  {
    if xs == [] {
      assert xs + ys == ys;
      AfterNothing(CompileMembers(attr, ys));
    } else {
      assert (xs + ys)[1..] == xs[1..] + ys;
      MembersConcat(attr, xs[1..], ys);
      var first := CompileInner(attr, InnerChecks(xs[0].p));
      var rest := CompileMembers(attr, xs[1..]);
      if first.Ok? && rest.Ok? {
        AfterTwice(first.value, rest.value, CompileMembers(attr, ys));
      }
    }
  }

  /** A Range is the array of its two bounds. */
  lemma {:induction false} RangeIsTwoBounds(attr: string, lower: Value, upper: Value)
    ensures Compile(attr, Data(Range(lower, upper))) ==
            Compile(attr, Array([Data(GreaterEqual(lower)), Data(LessEqual(upper))]))
  {
    var xs := [Data(GreaterEqual(lower)), Data(LessEqual(upper))];
    var lo, hi := Inner(lower, GREATER_EQUAL), Inner(upper, LESS_EQUAL);
    PairInner(attr, lo, hi);
    SingleInner(attr, lo);
    SingleInner(attr, hi);
    assert xs == [xs[0]] + [xs[1]];
    MembersConcat(attr, [xs[0]], [xs[1]]);
    SingleMember(attr, xs[0]);
    SingleMember(attr, xs[1]);
  }

  lemma SingleMember(attr: string, x: Value)
    requires x.Data?
    ensures CompileMembers(attr, [x]) == CompileInner(attr, InnerChecks(x.p))
  {
    var xs := [x];
    assert CompileMembers(attr, xs[1..]) == Ok([]);
    var first := CompileInner(attr, InnerChecks(xs[0].p));
    if first.Ok? {
      assert first.value + [] == first.value;
    }
  }
}
