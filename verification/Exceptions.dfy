// Which exception a call raises: that of the first of its conversions that fails.
module Exceptions {
  import opened RubyValues
  import opened DataStructures
  import opened Encoder
  import opened Predicates
  import opened MapAttributes
  import opened Calls

  function ErrorsOf(vs: seq<Value>): (es: Errors)
    ensures |es| == |vs|
  {
    seq(|vs|, i requires 0 <= i < |vs| => ErrorOf(Encode(vs[i])))
  }

  lemma ErrorsConcat(a: seq<Value>, b: seq<Value>)
    ensures ErrorsOf(a + b) == ErrorsOf(a) + ErrorsOf(b)
  {}

  // ----------------------------------------------------------------------- queries

  /** The values that a predicate object was made from, in the order of its checks. */
  function ObjectOperands(p: Predicate): seq<Value> {
    match p
    case Bare => [Nil]
    case Range(lower, upper) => [lower, upper]
    case _ => [p.v]
  }

  function MemberOperands(xs: seq<Value>): seq<Value>
    requires forall i :: 0 <= i < |xs| ==> xs[i].Data?
  {
    if xs == [] then [] else ObjectOperands(xs[0].p) + MemberOperands(xs[1..])
  }

  /** An array that begins with a predicate and holds something else. */
  predicate IsMixed(x: Value) {
    x.Array? && x.elems != [] && x.elems[0].Data? && exists i :: 0 <= i < |x.elems| && !x.elems[i].Data?
  }

  /** The values to be encoded for one entry of a query, in order. */
  function Operands(x: Value): seq<Value>
    requires !IsMixed(x)
  {
    match x
    case Data(p) => ObjectOperands(p)
    case Array(xs) => if xs != [] && xs[0].Data? then MemberOperands(xs) else [x]
    case _ => [x]
  }

  predicate NoneMixed(ps: Pairs) {
    forall i :: 0 <= i < |ps| ==> !IsMixed(ps[i].1)
  }

  /** Entry by entry, its name and then its operands. */
  function QueryErrors(ps: Pairs): Errors
    requires NoneMixed(ps)
  {
    if ps == [] then []
    else
      assert !IsMixed(ps[0].1);
      [ErrorOf(NameOf(ps[0].0))] + ErrorsOf(Operands(ps[0].1)) + QueryErrors(ps[1..])
  }

  function InnerValues(inner: seq<Inner>): (vs: seq<Value>)
    ensures |vs| == |inner|
  {
    seq(|inner|, i requires 0 <= i < |inner| => inner[i].v)
  }

  lemma {:induction false} InnerRaises(attr: string, inner: seq<Inner>, e: RubyError)
    ensures CompileInner(attr, inner).Ok? <==> NoneFails(ErrorsOf(InnerValues(inner)))
    ensures CompileInner(attr, inner) == Raise(e) <==> FirstFails(ErrorsOf(InnerValues(inner)), e)
    decreases |inner|
  {
    if inner != [] {
      var es := ErrorsOf(InnerValues(inner));
      InnerRaises(attr, inner[1..], e);
      assert es[1..] == ErrorsOf(InnerValues(inner[1..]));
      FirstFailsStep(es, e);
    }
  }

  lemma ObjectRaises(attr: string, p: Predicate, e: RubyError)
    ensures CompileInner(attr, InnerChecks(p)).Ok? <==> NoneFails(ErrorsOf(ObjectOperands(p)))
    ensures CompileInner(attr, InnerChecks(p)) == Raise(e) <==> FirstFails(ErrorsOf(ObjectOperands(p)), e)
  {
    InnerRaises(attr, InnerChecks(p), e);
    assert InnerValues(InnerChecks(p)) == ObjectOperands(p);
  }

  lemma {:induction false} MembersRaise(attr: string, xs: seq<Value>, e: RubyError)
    requires AllPredicates(xs)
    ensures CompileMembers(attr, xs).Ok? <==> NoneFails(ErrorsOf(MemberOperands(xs)))
    ensures CompileMembers(attr, xs) == Raise(e) <==> FirstFails(ErrorsOf(MemberOperands(xs)), e)
    decreases |xs|
  {
    if xs != [] {
      var first, rest := ObjectOperands(xs[0].p), MemberOperands(xs[1..]);
      ObjectRaises(attr, xs[0].p, e);
      MembersRaise(attr, xs[1..], e);
      ErrorsConcat(first, rest);
      FirstFailsConcat(ErrorsOf(first), ErrorsOf(rest), e);
    }
  }

  lemma FirstOfOne(r: Option<RubyError>, e: RubyError)
    ensures NoneFails([r]) <==> r == None
    ensures FirstFails([r], e) <==> r == Some(e)
  {
    FirstFailsStep([r], e);
  }

  lemma EntryRaises(attr: string, x: Value, e: RubyError)
    requires !IsMixed(x)
    ensures Size(x).Ok?
    ensures Compile(attr, x).Ok? <==> NoneFails(ErrorsOf(Operands(x)))
    ensures Compile(attr, x) == Raise(e) <==> FirstFails(ErrorsOf(Operands(x)), e)
  {
    if x.Data? {
      ObjectRaises(attr, x.p, e);
    } else if IsPredicateArray(x) {
      MembersRaise(attr, x.elems, e);
    } else {
      assert ErrorsOf([x]) == [ErrorOf(Encode(x))];
      FirstOfOne(ErrorOf(Encode(x)), e);
    }
  }

  lemma {:induction false} SizingRaises(ps: Pairs)
    ensures HashSize(ps).Ok? <==> NoneMixed(ps)
    ensures HashSize(ps).Ok? || HashSize(ps) == Raise(TypeMismatch)
    decreases |ps|
  {
    if ps != [] {
      SizingRaises(ps[1..]);
      assert forall i :: 1 <= i < |ps| ==> ps[i] == ps[1..][i - 1];
      assert Size(ps[0].1).Ok? <==> !IsMixed(ps[0].1);
    }
  }

  lemma {:induction false} EntriesRaise(ps: Pairs, e: RubyError)
    requires NoneMixed(ps)
    ensures HashSize(ps).Ok?
    ensures CompileHash(ps).Ok? <==> NoneFails(QueryErrors(ps))
    ensures CompileHash(ps) == Raise(e) <==> FirstFails(QueryErrors(ps), e)
    decreases |ps|
  {
    SizingRaises(ps);
    if ps != [] {
      var name, rest := NameOf(ps[0].0), ps[1..];
      assert !IsMixed(ps[0].1);
      var values := ErrorsOf(Operands(ps[0].1));
      assert forall i :: 0 <= i < |rest| ==> rest[i] == ps[i + 1];
      EntriesRaise(rest, e);
      EntryRaises(if name.Ok? then name.value else "", ps[0].1, e);
      FirstOfOne(ErrorOf(name), e);
      FirstFailsConcat([ErrorOf(name)], values, e);
      FirstFailsConcat([ErrorOf(name)] + values, QueryErrors(rest), e);
    }
  }

  /** A query that is no hash, or that has an array of predicates with something else in
      it, is a TypeError before anything is converted.  Any other raises what the first
      failing conversion raises: entry by entry, its name and then its operands. */
  lemma {:induction false} QueryRaises(x: Value, e: RubyError)
    ensures !x.Hash? || !NoneMixed(x.pairs) ==> CompileQuery(x) == Raise(TypeMismatch)
    ensures x.Hash? && NoneMixed(x.pairs) ==> (CompileQuery(x) == Raise(e) <==> FirstFails(QueryErrors(x.pairs), e))
  {
    if x.Hash? {
      SizingRaises(x.pairs);
      if NoneMixed(x.pairs) {
        EntriesRaise(x.pairs, e);
      }
    }
  }

  // ------------------------------------------------------- names, attributes, records

  function NameErrors(vs: seq<Value>): Errors {
    seq(|vs|, i requires 0 <= i < |vs| => ErrorOf(NameOf(vs[i])))
  }

  lemma {:induction false} NamesRaise(vs: seq<Value>, e: RubyError)
    ensures NamesOf(vs) == Raise(e) <==> FirstFails(NameErrors(vs), e)
    decreases |vs|
  {
    if vs != [] {
      NamesRaise(vs[1..], e);
      assert NameErrors(vs)[1..] == NameErrors(vs[1..]);
      FirstFailsStep(NameErrors(vs), e);
    }
  }

  /** Pair by pair, its name and then its value. */
  function AttributeErrors(ps: Pairs): Errors {
    if ps == [] then []
    else [ErrorOf(NameOf(ps[0].0)), ErrorOf(Encode(ps[0].1))] + AttributeErrors(ps[1..])
  }

  lemma FirstOfTwo(a: Option<RubyError>, b: Option<RubyError>, e: RubyError)
    ensures NoneFails([a, b]) <==> a == None && b == None
    ensures FirstFails([a, b], e) <==> a == Some(e) || (a == None && b == Some(e))
  {
    FirstFailsStep([a, b], e);
    assert [a, b][1..] == [b];
    FirstOfOne(b, e);
  }

  lemma {:induction false} AttributesRaise(ps: Pairs, e: RubyError)
    ensures PairsOf(ps) == Raise(e) <==> FirstFails(AttributeErrors(ps), e)
    decreases |ps|
  {
    if ps != [] {
      var name, value := ErrorOf(NameOf(ps[0].0)), ErrorOf(Encode(ps[0].1));
      AttributesRaise(ps[1..], e);
      FirstOfTwo(name, value, e);
      FirstFailsConcat([name, value], AttributeErrors(ps[1..]), e);
    }
  }

  /** Pair by pair, the attribute's name, the key and the value. */
  function RecordErrors(name: Value, inner: Pairs): Errors {
    if inner == [] then []
    else
      var key, value := ErrorOf(Encode(inner[0].0)), ErrorOf(Encode(inner[0].1));
      [ErrorOf(NameOf(name))] + [key, value] + RecordErrors(name, inner[1..])
  }

  lemma {:induction false} RecordsRaise(name: Value, inner: Pairs, e: RubyError)
    ensures FlattenInner(name, inner).Ok? <==> NoneFails(RecordErrors(name, inner))
    ensures FlattenInner(name, inner) == Raise(e) <==> FirstFails(RecordErrors(name, inner), e)
    decreases |inner|
  {
    if inner != [] {
      var attr, key, value := ErrorOf(NameOf(name)), ErrorOf(Encode(inner[0].0)), ErrorOf(Encode(inner[0].1));
      RecordsRaise(name, inner[1..], e);
      FirstOfOne(attr, e);
      FirstOfTwo(key, value, e);
      FirstFailsConcat([attr], [key, value], e);
      FirstFailsConcat([attr] + [key, value], RecordErrors(name, inner[1..]), e);
    }
  }

  /** With the bound, map attributes raise what the first failing record raises. */
  function NestedErrors(ps: Pairs): Errors
    requires AllHashes(ps)
  {
    if ps == [] then [] else RecordErrors(ps[0].0, ps[0].1.pairs) + NestedErrors(ps[1..])
  }

  lemma {:induction false} FlattenRaises(ps: Pairs, e: RubyError)
    requires AllHashes(ps)
    ensures Flatten(ps) == Raise(e) <==> FirstFails(NestedErrors(ps), e)
    decreases |ps|
  {
    if ps != [] {
      RecordsRaise(ps[0].0, ps[0].1.pairs, e);
      FlattenRaises(ps[1..], e);
      FirstFailsConcat(RecordErrors(ps[0].0, ps[0].1.pairs), NestedErrors(ps[1..]), e);
    }
  }

  predicate EmptyUpTo(ps: Pairs, i: nat)
    requires i <= |ps|
  {
    forall j :: 0 <= j < i ==> ps[j].1 == Hash([])
  }

  lemma {:induction false} FirstEntriesDecide(ps: Pairs, i: nat)
    requires AllHashes(ps) && i < |ps| && EmptyUpTo(ps, i) && ps[i].1.pairs != []
    ensures FillOutcome(AsWritten, ps) ==
            match FlattenInner(ps[i].0, ps[i].1.pairs)
            case Ok(_) => Overrun
            case Raise(e) => Failed(e)
    decreases i
  {
    if i > 0 {
      assert ps[1..][i - 1] == ps[i];
      assert forall j :: 0 <= j < i - 1 ==> ps[1..][j] == ps[j + 1];
      FirstEntriesDecide(ps[1..], i - 1);
      InFrontNothing(FillOutcome(AsWritten, ps[1..]));
    }
  }

  /** With the guard as it stands, the first attribute that has entries decides: its
      first failing record raises, and if none fails the loop runs past the end.  What
      is no hash of hashes is a TypeError before that. */
  lemma {:induction false} AsWrittenEnds(x: Value, i: nat, e: RubyError)
    ensures !x.Hash? || (exists j :: 0 <= j < |x.pairs| && !x.pairs[j].1.Hash?) ==>
              MapAttributesOutcome(AsWritten, x) == Failed(TypeMismatch)
    ensures x.Hash? && (forall j :: 0 <= j < |x.pairs| ==> x.pairs[j].1.Hash?)
            && i < |x.pairs| && EmptyUpTo(x.pairs, i) && x.pairs[i].1.pairs != [] ==>
              var es := RecordErrors(x.pairs[i].0, x.pairs[i].1.pairs);
              && (MapAttributesOutcome(AsWritten, x) == Failed(e) <==> FirstFails(es, e))
              && (MapAttributesOutcome(AsWritten, x) == Overrun <==> NoneFails(es))
  {
    if x.Hash? && AllHashes(x.pairs) && i < |x.pairs| && EmptyUpTo(x.pairs, i) && x.pairs[i].1.pairs != [] {
      FirstEntriesDecide(x.pairs, i);
      RecordsRaise(x.pairs[i].0, x.pairs[i].1.pairs, e);
    }
  }

  // ------------------------------------------------------------------------- calls

  predicate ParameterFails(p: Param, e: RubyError) {
    match p
    case Name(v) => if v.Str? then NUL in v.bytes && e == NulInName else !v.Symbol? && e == TypeMismatch
    case KeyOf(v) => Encode(v) == Raise(e)
    case NameList(vs) => FirstFails(NameErrors(vs), e)
    case AttributesOf(v) => if v.Hash? then FirstFails(AttributeErrors(v.pairs), e) else e == TypeMismatch
    case PredicatesOf(v) =>
      if v.Hash? && NoneMixed(v.pairs) then FirstFails(QueryErrors(v.pairs), e) else e == TypeMismatch
    case MapAttributesOf(v) => MapAttributesOutcome(AsWritten, v) == Failed(e)
    case Limit(v) => Unsigned(v) == Raise(e)
    case MaxMin(v) => false
  }

  lemma ParameterRaises(p: Param, e: RubyError)
    ensures Converted(p) == Failed(e) <==> ParameterFails(p, e)
  {
    match p
    case Name(v) => NameOfExactly(v, "");
    case NameList(vs) => NamesRaise(vs, e);
    case AttributesOf(v) => AttributesRaise(if v.Hash? then v.pairs else [], e);
    case PredicatesOf(v) => QueryRaises(v, e);
    case _ =>
  }

  /** A call raises what the first of its parameters that does not convert raises. */
  lemma {:induction false} CallRaises(c: Call, e: RubyError)
    ensures ArgsOf(c) == Failed(e) <==>
            exists k :: 0 <= k < |Params(c)| && AllDone(Params(c)[..k]) && ParameterFails(Params(c)[k], e)
  {
    var ps := Params(c);
    FirstParameterFails(ps, Failed(e));
    forall k | 0 <= k < |ps|
      ensures FailsLike(Converted(ps[k]), Failed(e)) <==> ParameterFails(ps[k], e)
    {
      ParameterRaises(ps[k], e);
    }
  }
}
