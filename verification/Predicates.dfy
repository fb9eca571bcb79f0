// ext/client.c: the query compiler.  A hash of predicates becomes one flat array of
// attribute checks, sized by a first pass and filled by a second.
module Predicates {
  import opened RubyValues
  import opened DataStructures
  import opened Encoder

  datatype HyperPredicate =
    | FAIL | EQUALS | LESS_THAN | LESS_EQUAL | GREATER_EQUAL | GREATER_THAN
    | REGEX | LENGTH_EQUALS | LENGTH_LESS_EQUAL | LENGTH_GREATER_EQUAL | CONTAINS

  datatype Inner = Inner(v: Value, op: HyperPredicate)

  datatype Check = Check(attr: string, op: HyperPredicate, value: Datum)

  // ------------------------------------------------------------ predicate objects

  /** The checks that a predicate object holds once it is initialised. */
  function InnerChecks(p: Predicate): (r: seq<Inner>)
    ensures |r| == NumChecks(p)
  {
    match p
    case Bare => [Inner(Nil, FAIL)]
    case Equals(v) => [Inner(v, EQUALS)]
    case LessEqual(v) => [Inner(v, LESS_EQUAL)]
    case GreaterEqual(v) => [Inner(v, GREATER_EQUAL)]
    case LessThan(v) => [Inner(v, LESS_THAN)]
    case GreaterThan(v) => [Inner(v, GREATER_THAN)]
    case Range(lower, upper) => [Inner(lower, GREATER_EQUAL), Inner(upper, LESS_EQUAL)]
    case Regex(v) => [Inner(v, REGEX)]
    case LengthEquals(v) => [Inner(v, LENGTH_EQUALS)]
    case LengthLessEqual(v) => [Inner(v, LENGTH_LESS_EQUAL)]
    case LengthGreaterEqual(v) => [Inner(v, LENGTH_GREATER_EQUAL)]
    case Contains(v) => [Inner(v, CONTAINS)]
  }

  /** Which allocator a class is registered with. */
  function NumChecks(p: Predicate): nat {
    if p.Range? then 2 else 1
  }

  /** The C struct behind a predicate object. */
  class PredicateStruct {
    const numChecks: nat
    const checks: array<Inner>

    /** What the object's class left in it. */
    ghost predicate IsFor(p: Predicate)
      reads checks
    {
      numChecks == checks.Length && checks[..] == InnerChecks(p)
    }

    /** Allocation zeroes the struct. */
    constructor Alloc(numChecks: nat)
      ensures this.numChecks == numChecks && fresh(checks) && checks.Length == numChecks
      ensures forall i :: 0 <= i < numChecks ==> checks[i] == Inner(Other, FAIL)
    {
      this.numChecks := numChecks;
      checks := new Inner[numChecks](_ => Inner(Other, FAIL));
    }

    /** One `initialize` per class; it overwrites every check of its allocation. */
    method Initialize(p: Predicate)
      requires numChecks == checks.Length == NumChecks(p)
      modifies checks
      ensures IsFor(p)
    {
      match p {
        case Bare => checks[0] := Inner(Nil, FAIL);
        case Equals(v) => checks[0] := Inner(v, EQUALS);
        case LessEqual(v) => checks[0] := Inner(v, LESS_EQUAL);
        case GreaterEqual(v) => checks[0] := Inner(v, GREATER_EQUAL);
        case LessThan(v) => checks[0] := Inner(v, LESS_THAN);
        case GreaterThan(v) => checks[0] := Inner(v, GREATER_THAN);
        case Range(lower, upper) =>
          checks[0] := Inner(lower, GREATER_EQUAL);
          checks[1] := Inner(upper, LESS_EQUAL);
        case Regex(v) => checks[0] := Inner(v, REGEX);
        case LengthEquals(v) => checks[0] := Inner(v, LENGTH_EQUALS);
        case LengthLessEqual(v) => checks[0] := Inner(v, LENGTH_LESS_EQUAL);
        case LengthGreaterEqual(v) => checks[0] := Inner(v, LENGTH_GREATER_EQUAL);
        case Contains(v) => checks[0] := Inner(v, CONTAINS);
      }
    }
  }

  /** Data_Get_Struct.  A predicate object is known by what it was made from, so its
      struct is what its class's allocator and `initialize` make of that. */
  method StructOf(p: Predicate) returns (struct: PredicateStruct)
    ensures fresh(struct) && fresh(struct.checks) && struct.IsFor(p)
  {
    struct := new PredicateStruct.Alloc(NumChecks(p));
    struct.Initialize(p);
  }

  // ------------------------------------------------------------------ two passes

  predicate IsPredicateArray(x: Value) {
    x.Array? && x.elems != [] && x.elems[0].Data?
  }

  predicate AllPredicates(xs: seq<Value>) {
    forall i :: 0 <= i < |xs| ==> xs[i].Data?
  }

  function MemberSizes(xs: seq<Value>): nat
    requires AllPredicates(xs)
  {
    if xs == [] then 0 else NumChecks(xs[0].p) + MemberSizes(xs[1..])
  }

  /** First pass. */
  function Size(x: Value): Result<nat> {
    if x.Data? then Ok(NumChecks(x.p))
    else if IsPredicateArray(x) then
      if AllPredicates(x.elems) then Ok(MemberSizes(x.elems)) else Raise(TypeMismatch)
    else Ok(1)
  }

  function HashSize(ps: seq<(Value, Value)>): Result<nat> {
    if ps == [] then Ok(0)
    else
      var first :- Size(ps[0].1);
      var rest :- HashSize(ps[1..]);
      Ok(first + rest)
  }

  /** `done` in front of what is still to come. */
  function After<T>(done: seq<T>, rest: Result<seq<T>>): Result<seq<T>> {
    match rest
    case Ok(cs) => Ok(done + cs)
    case Raise(e) => Raise(e)
  }

  function CompileInner(attr: string, inner: seq<Inner>): Result<seq<Check>> {
    if inner == [] then Ok([])
    else
      var value :- Encode(inner[0].v);
      After([Check(attr, inner[0].op, value)], CompileInner(attr, inner[1..]))
  }

  function CompileMembers(attr: string, xs: seq<Value>): Result<seq<Check>>
    requires AllPredicates(xs)
  {
    if xs == [] then Ok([])
    else
      var first :- CompileInner(attr, InnerChecks(xs[0].p));
      After(first, CompileMembers(attr, xs[1..]))
  }

  /** Second pass over one hash entry. */
  function Compile(attr: string, x: Value): Result<seq<Check>>
    requires Size(x).Ok?
  {
    if x.Data? then CompileInner(attr, InnerChecks(x.p))
    else if IsPredicateArray(x) then CompileMembers(attr, x.elems)
    else
      var value :- Encode(x);
      Ok([Check(attr, EQUALS, value)])
  }

  function CompileHash(ps: seq<(Value, Value)>): Result<seq<Check>>
    requires HashSize(ps).Ok?
  {
    if ps == [] then Ok([])
    else
      var attr :- NameOf(ps[0].0);
      var first :- Compile(attr, ps[0].1);
      After(first, CompileHash(ps[1..]))
  }

  function CompileQuery(x: Value): Result<seq<Check>> {
    if !x.Hash? then Raise(TypeMismatch)
    else
      var _ :- HashSize(x.pairs);
      CompileHash(x.pairs)
  }

  // ------------------------------------------------------ the passes agree on size

  lemma {:induction false} InnerSize(attr: string, inner: seq<Inner>)
    ensures CompileInner(attr, inner).Ok? ==> |CompileInner(attr, inner).value| == |inner|
    decreases |inner|
  {
    if inner != [] {
      InnerSize(attr, inner[1..]);
    }
  }

  lemma {:induction false} MembersSize(attr: string, xs: seq<Value>)
    requires AllPredicates(xs)
    ensures CompileMembers(attr, xs).Ok? ==> |CompileMembers(attr, xs).value| == MemberSizes(xs)
    decreases |xs|
  {
    if xs != [] {
      InnerSize(attr, InnerChecks(xs[0].p));
      MembersSize(attr, xs[1..]);
    }
  }

  lemma {:induction false} CompileSize(attr: string, x: Value)
    requires Size(x).Ok?
    ensures Compile(attr, x).Ok? ==> |Compile(attr, x).value| == Size(x).value
  {
    if x.Data? {
      InnerSize(attr, InnerChecks(x.p));
    } else if IsPredicateArray(x) {
      MembersSize(attr, x.elems);
    }
  }

  /** For every query that passes sizing and converts, the second pass emits exactly
      as many checks as the first pass counted. */
  lemma {:induction false} TwoPassAgreement(ps: seq<(Value, Value)>)
    requires HashSize(ps).Ok?
    ensures CompileHash(ps).Ok? ==> |CompileHash(ps).value| == HashSize(ps).value
    decreases |ps|
  {
    if ps != [] {
      if NameOf(ps[0].0).Ok? {
        CompileSize(NameOf(ps[0].0).value, ps[0].1);
      }
      TwoPassAgreement(ps[1..]);
    }
  }

  // ------------------------------------------------------------------ the C loops

  /** An array slot is None until it is written. */
  ghost predicate Unwritten<T(!new)>(slots: array<Option<T>>, lo: nat, hi: nat)
    requires lo <= hi <= slots.Length
    reads slots
  {
    forall k :: lo <= k < hi ==> slots[k].None?
  }

  /** The slots from `at` on have been written with `cs`, in order. */
  ghost predicate HoldsAt<T(!new)>(slots: array<Option<T>>, at: nat, cs: seq<T>)
    reads slots
  {
    && at + |cs| <= slots.Length
    && forall k :: 0 <= k < |cs| ==> slots[at + k] == Some(cs[k])
  }

  lemma AfterNothing<T>(rest: Result<seq<T>>)
    ensures After([], rest) == rest
  {
    if rest.Ok? {
      assert [] + rest.value == rest.value;
    }
  }

  lemma AfterTwice<T>(a: seq<T>, b: seq<T>, rest: Result<seq<T>>)
    ensures After(a, After(b, rest)) == After(a + b, rest)
  {
    if rest.Ok? {
      assert a + (b + rest.value) == (a + b) + rest.value;
    }
  }

  lemma HoldsJoin<T(!new)>(slots: array<Option<T>>, at: nat, a: seq<T>, b: seq<T>)
    requires HoldsAt(slots, at, a) && HoldsAt(slots, at + |a|, b)
    ensures HoldsAt(slots, at, a + b)
  {
    forall k | 0 <= k < |a + b|
      ensures slots[at + k] == Some((a + b)[k])
    {
      if k >= |a| {
        assert slots[(at + |a|) + (k - |a|)] == Some(b[k - |a|]);
      }
    }
  }

  method EstimatePredicateSize(x: Value) returns (r: Result<nat>)
    ensures r == Size(x)
  {
    match x {
      case Data(p) =>
        var struct := StructOf(p);
        return Ok(struct.numChecks);
      case Array(xs) =>
        if |xs| > 0 && xs[0].Data? {
          var sum := 0;
          for i := 0 to |xs|
            invariant AllPredicates(xs[..i])
            invariant AllPredicates(xs) ==> sum + MemberSizes(xs[i..]) == MemberSizes(xs)
          {
            if !xs[i].Data? {
              return Raise(TypeMismatch);
            }
            assert xs[i..][1..] == xs[i + 1..];
            assert xs[..i + 1] == xs[..i] + [xs[i]];
            var struct := StructOf(xs[i].p);
            sum := sum + struct.numChecks;
          }
          assert xs[..|xs|] == xs;
          return Ok(sum);
        }
      case _ =>
    }
    r := Ok(1);
  }

  method ConvertPredicateObject(attr: string, p: Predicate, checks: array<Option<Check>>, checksIdx: nat)
    returns (r: Result<nat>)
    requires checksIdx + NumChecks(p) <= checks.Length
    requires Unwritten(checks, checksIdx, checksIdx + NumChecks(p))
    modifies checks
    ensures match CompileInner(attr, InnerChecks(p))
            case Raise(e) => r == Raise(e)
            case Ok(cs) => |cs| == NumChecks(p) && r == Ok(checksIdx + |cs|) && HoldsAt(checks, checksIdx, cs)
    ensures forall k :: 0 <= k < checks.Length && !(checksIdx <= k < checksIdx + NumChecks(p)) ==>
              checks[k] == old(checks[k])
  {
    var struct := StructOf(p);
    ghost var inner := InnerChecks(p);
    ghost var done: seq<Check> := [];
    assert inner[0..] == inner;
    AfterNothing(CompileInner(attr, inner));
    for i := 0 to struct.numChecks
      invariant struct.IsFor(p)
      invariant |done| == i && HoldsAt(checks, checksIdx, done)
      invariant forall k :: 0 <= k < checks.Length && !(checksIdx <= k < checksIdx + i) ==> checks[k] == old(checks[k])
      invariant CompileInner(attr, inner) == After(done, CompileInner(attr, inner[i..]))
    {
      assert inner[i..][1..] == inner[i + 1..];
      assert checks[checksIdx + i] == None;   // this slot is written only now
      assert struct.checks[i] == inner[i];
      var value :- ConvertType(struct.checks[i].v);
      var c := Check(attr, struct.checks[i].op, value);
      checks[checksIdx + i] := Some(c);
      AfterTwice(done, [c], CompileInner(attr, inner[i + 1..]));
      done := done + [c];
    }
    assert done + [] == done;
    r := Ok(checksIdx + struct.numChecks);
  }

  method ConvertPredicateArray(attr: string, xs: seq<Value>, checks: array<Option<Check>>, checksIdx: nat)
    returns (r: Result<nat>)
    requires AllPredicates(xs) && checksIdx + MemberSizes(xs) <= checks.Length
    requires Unwritten(checks, checksIdx, checksIdx + MemberSizes(xs))
    modifies checks
    ensures match CompileMembers(attr, xs)
            case Raise(e) => r == Raise(e)
            case Ok(cs) => |cs| == MemberSizes(xs) && r == Ok(checksIdx + |cs|) && HoldsAt(checks, checksIdx, cs)
    ensures forall k :: 0 <= k < checks.Length && !(checksIdx <= k < checksIdx + MemberSizes(xs)) ==>
              checks[k] == old(checks[k])
  {
    var idx := checksIdx;
    ghost var done: seq<Check> := [];
    assert xs[0..] == xs;
    AfterNothing(CompileMembers(attr, xs));
    for i := 0 to |xs|
      invariant idx == checksIdx + |done| && |done| + MemberSizes(xs[i..]) == MemberSizes(xs)
      invariant HoldsAt(checks, checksIdx, done)
      invariant forall k :: 0 <= k < checks.Length && !(checksIdx <= k < idx) ==> checks[k] == old(checks[k])
      invariant CompileMembers(attr, xs) == After(done, CompileMembers(attr, xs[i..]))
    {
      assert xs[i].Data?;   // what the first pass checked
      assert xs[i..][1..] == xs[i + 1..];
      var next := ConvertPredicateObject(attr, xs[i].p, checks, idx);
      if next.Raise? {
        return next;
      }
      ghost var cs := CompileInner(attr, InnerChecks(xs[i].p)).value;
      AfterTwice(done, cs, CompileMembers(attr, xs[i + 1..]));
      HoldsJoin(checks, checksIdx, done, cs);
      done := done + cs;
      idx := next.value;
    }
    assert done + [] == done;
    r := Ok(idx);
  }

  /** Writes the checks of one entry to exactly the slots that sizing set aside for
      it, each once, and returns the index after them. */
  method ConvertPredicate(attr: string, x: Value, checks: array<Option<Check>>, checksIdx: nat)
    returns (r: Result<nat>)
    requires Size(x).Ok? && checksIdx + Size(x).value <= checks.Length
    requires Unwritten(checks, checksIdx, checksIdx + Size(x).value)
    modifies checks
    ensures match Compile(attr, x)
            case Raise(e) => r == Raise(e)
            case Ok(cs) => |cs| == Size(x).value && r == Ok(checksIdx + |cs|) && HoldsAt(checks, checksIdx, cs)
    ensures forall k :: 0 <= k < checks.Length && !(checksIdx <= k < checksIdx + Size(x).value) ==>
              checks[k] == old(checks[k])
  {
    if x.Data? {
      r := ConvertPredicateObject(attr, x.p, checks, checksIdx);
    } else if IsPredicateArray(x) {
      r := ConvertPredicateArray(attr, x.elems, checks, checksIdx);
    } else {
      assert checks[checksIdx] == None;
      var value :- ConvertType(x);
      checks[checksIdx] := Some(Check(attr, EQUALS, value));
      r := Ok(checksIdx + 1);
    }
  }

  /** The first loop: how many checks to allocate. */
  method CountChecks(ps: seq<(Value, Value)>) returns (r: Result<nat>)
    ensures r == HashSize(ps)
  {
    var checksSz := 0;
    assert ps[0..] == ps;
    for i := 0 to |ps|
      invariant HashSize(ps) == match HashSize(ps[i..]) case Ok(n) => Ok(checksSz + n) case Raise(e) => Raise(e)
    {
      assert ps[i..][1..] == ps[i + 1..];
      var n :- EstimatePredicateSize(ps[i].1);
      checksSz := checksSz + n;
    }
    r := Ok(checksSz);
  }

  /** The second loop: it ends exactly at the end of the array. */
  method FillChecks(ps: seq<(Value, Value)>, checks: array<Option<Check>>) returns (r: Result<nat>)
    requires HashSize(ps) == Ok(checks.Length)
    requires Unwritten(checks, 0, checks.Length)
    modifies checks
    ensures match CompileHash(ps)
            case Raise(e) => r == Raise(e)
            case Ok(cs) => r == Ok(checks.Length) && |cs| == checks.Length && HoldsAt(checks, 0, cs)
  {
    var checksIdx := 0;
    ghost var done: seq<Check> := [];
    assert ps[0..] == ps;
    AfterNothing(CompileHash(ps));
    for i := 0 to |ps|
      invariant checksIdx == |done| && HashSize(ps[i..]).Ok? && |done| + HashSize(ps[i..]).value == checks.Length
      invariant HoldsAt(checks, 0, done)
      invariant Unwritten(checks, checksIdx, checks.Length)
      invariant CompileHash(ps) == After(done, CompileHash(ps[i..]))
    {
      assert ps[i..][1..] == ps[i + 1..];
      var attr :- NameOf(ps[i].0);
      checksIdx :- ConvertPredicate(attr, ps[i].1, checks, checksIdx);
      ghost var cs := Compile(attr, ps[i].1).value;
      AfterTwice(done, cs, CompileHash(ps[i + 1..]));
      HoldsJoin(checks, 0, done, cs);
      done := done + cs;
    }
    assert done + [] == done;
    r := Ok(checksIdx);
  }

  /** The compiled query, in an array with every slot written. */
  method ConvertPredicates(x: Value) returns (r: Result<array<Option<Check>>>)
    ensures r.Ok? ==> fresh(r.value)
    ensures match CompileQuery(x)
            case Raise(e) => r == Raise(e)
            case Ok(cs) => r.Ok? && r.value.Length == |cs| && HoldsAt(r.value, 0, cs)
  {
    if !x.Hash? {
      return Raise(TypeMismatch);
    }
    var checksSz :- CountChecks(x.pairs);
    var checks := new Option<Check>[checksSz](_ => None);
    var checksIdx :- FillChecks(x.pairs, checks);
    assert checksIdx == checksSz;
    r := Ok(checks);
  }
}
