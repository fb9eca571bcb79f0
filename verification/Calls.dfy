// ext/definitions.c: the call families.  Each converts its arguments in order, calls
// the library, and says what kind of result it waits for.
module Calls {
  import opened RubyValues
  import opened DataStructures
  import opened Encoder
  import opened Predicates
  import opened MapAttributes
  import Machine

  /** One constructor per argument signature in the source. */
  datatype Call =
    | Get(space: Value, key: Value)
    | GetPartial(space: Value, key: Value, names: seq<Value>)
    | Put(space: Value, key: Value, attributes: Value)
    | CondPut(space: Value, key: Value, predicates: Value, attributes: Value)
    | Del(space: Value, key: Value)
    | CondDel(space: Value, key: Value, predicates: Value)
    | MapAdd(space: Value, key: Value, mapAttributes: Value)
    | CondMapAdd(space: Value, key: Value, predicates: Value, mapAttributes: Value)
    | Search(space: Value, predicates: Value)
    | SearchDescribe(space: Value, predicates: Value)
    | SortedSearch(space: Value, predicates: Value, sortBy: Value, limit: Value, maximize: Value)
    | GroupDel(space: Value, predicates: Value)
    | Count(space: Value, predicates: Value)

  /** The result kind that each family's signature names. */
  function FamilyOf(c: Call): Machine.Family {
    match c
    case Get(_, _) => Machine.Attributes
    case GetPartial(_, _, _) => Machine.Attributes
    case Search(_, _) => Machine.Search
    case SortedSearch(_, _, _, _, _) => Machine.Search
    case SearchDescribe(_, _) => Machine.Description
    case Count(_, _) => Machine.Count
    case _ => Machine.StatusOnly
  }

  datatype Param =
    | Name(v: Value)
    | KeyOf(v: Value)
    | NameList(vs: seq<Value>)
    | AttributesOf(v: Value)
    | PredicatesOf(v: Value)
    | MapAttributesOf(v: Value)
    | Limit(v: Value)
    | MaxMin(v: Value)

  /** The parameters of a call, in the order they are converted. */
  function Params(c: Call): seq<Param> {
    match c
    case Get(s, k) => [Name(s), KeyOf(k)]
    case GetPartial(s, k, ns) => [Name(s), KeyOf(k), NameList(ns)]
    case Put(s, k, a) => [Name(s), KeyOf(k), AttributesOf(a)]
    case CondPut(s, k, p, a) => [Name(s), KeyOf(k), PredicatesOf(p), AttributesOf(a)]
    case Del(s, k) => [Name(s), KeyOf(k)]
    case CondDel(s, k, p) => [Name(s), KeyOf(k), PredicatesOf(p)]
    case MapAdd(s, k, m) => [Name(s), KeyOf(k), MapAttributesOf(m)]
    case CondMapAdd(s, k, p, m) => [Name(s), KeyOf(k), PredicatesOf(p), MapAttributesOf(m)]
    case Search(s, p) => [Name(s), PredicatesOf(p)]
    case SearchDescribe(s, p) => [Name(s), PredicatesOf(p)]
    case SortedSearch(s, p, b, l, m) => [Name(s), PredicatesOf(p), Name(b), Limit(l), MaxMin(m)]
    case GroupDel(s, p) => [Name(s), PredicatesOf(p)]
    case Count(s, p) => [Name(s), PredicatesOf(p)]
  }

  /** What the library is handed. */
  datatype Arg =
    | CName(name: string)
    | CKey(key: Datum)
    | CNames(names: seq<string>)
    | CAttributes(attrs: seq<(string, Datum)>)
    | CChecks(checks: seq<Check>)
    | CMapAttributes(records: seq<MapAttribute>)
    | CLimit(n: nat)
    | CMaxMin(flag: int)

  function NamesOf(vs: seq<Value>): Result<seq<string>> {
    if vs == [] then Ok([])
    else
      var name :- NameOf(vs[0]);
      After([name], NamesOf(vs[1..]))
  }

  function PairsOf(ps: Pairs): Result<seq<(string, Datum)>> {
    if ps == [] then Ok([])
    else
      var name :- NameOf(ps[0].0);
      var value :- Encode(ps[0].1);
      After([(name, value)], PairsOf(ps[1..]))
  }

  function Converted(p: Param): Outcome<Arg> {
    match p
    case Name(v) =>
      (match NameOf(v)
       case Ok(s) => Done(CName(s))
       case Raise(e) => Failed(e))
    case KeyOf(v) =>
      (match Encode(v)
       case Ok(d) => Done(CKey(d))
       case Raise(e) => Failed(e))
    case NameList(vs) =>
      (match NamesOf(vs)
       case Ok(ns) => Done(CNames(ns))
       case Raise(e) => Failed(e))
    case AttributesOf(v) =>
      if !v.Hash? then Failed(TypeMismatch)
      else
        (match PairsOf(v.pairs)
         case Ok(ps) => Done(CAttributes(ps))
         case Raise(e) => Failed(e))
    case PredicatesOf(v) =>
      (match CompileQuery(v)
       case Ok(cs) => Done(CChecks(cs))
       case Raise(e) => Failed(e))
    case MapAttributesOf(v) =>
      (match MapAttributesOutcome(AsWritten, v)
       case Done(rs) => Done(CMapAttributes(rs))
       case Failed(e) => Failed(e)
       case Overrun => Overrun)
    case Limit(v) =>
      (match Unsigned(v)
       case Ok(n) => Done(CLimit(n))
       case Raise(e) => Failed(e))
    case MaxMin(v) => Done(CMaxMin(if v == True then 1 else 0))
  }

  function ConvertedAll(ps: seq<Param>): Outcome<seq<Arg>> {
    if ps == [] then Done([])
    else
      match Converted(ps[0])
      case Done(a) => InFront([a], ConvertedAll(ps[1..]))
      case Failed(e) => Failed(e)
      case Overrun => Overrun
  }

  /** The converted arguments of a call. */
  function ArgsOf(c: Call): Outcome<seq<Arg>> {
    ConvertedAll(Params(c))
  }

  // ------------------------------------------------ what a call is to hand over

  predicate IsName(a: Arg, x: Value) {
    a.CName? && Names(x, a.name)
  }

  predicate IsKey(a: Arg, x: Value) {
    a.CKey? && Encode(x) == Ok(a.key)
  }

  predicate IsNames(a: Arg, xs: seq<Value>) {
    && a.CNames? && |a.names| == |xs|
    && forall i :: 0 <= i < |xs| ==> Names(xs[i], a.names[i])
  }

  predicate IsRecord(r: (string, Datum), pair: (Value, Value)) {
    Names(pair.0, r.0) && Encode(pair.1) == Ok(r.1)
  }

  predicate IsAttributes(a: Arg, x: Value) {
    && a.CAttributes? && x.Hash? && |a.attrs| == |x.pairs|
    && forall i :: 0 <= i < |x.pairs| ==> IsRecord(a.attrs[i], x.pairs[i])
  }

  predicate IsChecks(a: Arg, x: Value) {
    a.CChecks? && x.Hash? && CompileQuery(x) == Ok(a.checks)
  }

  /** With the inner loop's guard as it stands, no record is ever handed over. */
  predicate IsMapAttributes(a: Arg, x: Value) {
    a.CMapAttributes? && x.Hash? && AllInnerEmpty(x.pairs) && a.records == []
  }

  predicate IsLimit(a: Arg, x: Value) {
    a.CLimit? && Unsigned(x) == Ok(a.n)
  }

  predicate IsFlag(a: Arg, x: Value) {
    a.CMaxMin? && if x == True then a.flag == 1 else a.flag == 0
  }

  /** What the library is to be handed for each call: every argument made from its own
      field, at its position in the signature. */
  predicate HandsOver(c: Call, args: seq<Arg>) {
    match c
    case Get(space, key) => |args| == 2 && IsName(args[0], space) && IsKey(args[1], key)
    case GetPartial(space, key, names) =>
      |args| == 3 && IsName(args[0], space) && IsKey(args[1], key) && IsNames(args[2], names)
    case Put(space, key, attributes) =>
      |args| == 3 && IsName(args[0], space) && IsKey(args[1], key) && IsAttributes(args[2], attributes)
    case CondPut(space, key, predicates, attributes) =>
      && |args| == 4 && IsName(args[0], space) && IsKey(args[1], key)
      && IsChecks(args[2], predicates) && IsAttributes(args[3], attributes)
    case Del(space, key) => |args| == 2 && IsName(args[0], space) && IsKey(args[1], key)
    case CondDel(space, key, predicates) =>
      |args| == 3 && IsName(args[0], space) && IsKey(args[1], key) && IsChecks(args[2], predicates)
    case MapAdd(space, key, mapAttributes) =>
      |args| == 3 && IsName(args[0], space) && IsKey(args[1], key) && IsMapAttributes(args[2], mapAttributes)
    case CondMapAdd(space, key, predicates, mapAttributes) =>
      && |args| == 4 && IsName(args[0], space) && IsKey(args[1], key)
      && IsChecks(args[2], predicates) && IsMapAttributes(args[3], mapAttributes)
    case Search(space, predicates) => |args| == 2 && IsName(args[0], space) && IsChecks(args[1], predicates)
    case SearchDescribe(space, predicates) => |args| == 2 && IsName(args[0], space) && IsChecks(args[1], predicates)
    case SortedSearch(space, predicates, sortBy, limit, maximize) =>
      && |args| == 5 && IsName(args[0], space) && IsChecks(args[1], predicates) && IsName(args[2], sortBy)
      && IsLimit(args[3], limit) && IsFlag(args[4], maximize)
    case GroupDel(space, predicates) => |args| == 2 && IsName(args[0], space) && IsChecks(args[1], predicates)
    case Count(space, predicates) => |args| == 2 && IsName(args[0], space) && IsChecks(args[1], predicates)
  }

  /** `a` is what one parameter is converted to. */
  predicate Fits(a: Arg, p: Param) {
    match p
    case Name(v) => IsName(a, v)
    case KeyOf(v) => IsKey(a, v)
    case NameList(vs) => IsNames(a, vs)
    case AttributesOf(v) => IsAttributes(a, v)
    case PredicatesOf(v) => IsChecks(a, v)
    case MapAttributesOf(v) => IsMapAttributes(a, v)
    case Limit(v) => IsLimit(a, v)
    case MaxMin(v) => IsFlag(a, v)
  }

  lemma {:induction false} NamesConvert(vs: seq<Value>, names: seq<string>)
    ensures NamesOf(vs) == Ok(names) <==>
            |names| == |vs| && forall i :: 0 <= i < |vs| ==> Names(vs[i], names[i])
    decreases |vs|
  {
    if vs != [] {
      var rest := vs[1..];
      if names != [] {
        NameOfExactly(vs[0], names[0]);
        NamesConvert(rest, names[1..]);
        assert forall i :: 1 <= i < |vs| ==> vs[i] == rest[i - 1];
        assert names == [names[0]] + names[1..];
      }
      if NamesOf(vs).Ok? {
        NamesConvert(rest, NamesOf(rest).value);
        assert NamesOf(vs).value[1..] == NamesOf(rest).value;
      }
    }
  }

  /** An attribute hash converts exactly to a record per pair: its name, and its value
      encoded. */
  lemma {:induction false} PairsConvert(ps: Pairs, records: seq<(string, Datum)>)
    ensures PairsOf(ps) == Ok(records) <==>
            |records| == |ps| && forall i :: 0 <= i < |ps| ==> IsRecord(records[i], ps[i])
    decreases |ps|
  {
    if ps != [] {
      var rest := ps[1..];
      if records != [] {
        NameOfExactly(ps[0].0, records[0].0);
        PairsConvert(rest, records[1..]);
        assert forall i :: 1 <= i < |ps| ==> ps[i] == rest[i - 1];
        assert records == [records[0]] + records[1..];
      }
      if PairsOf(ps).Ok? {
        PairsConvert(rest, PairsOf(rest).value);
        assert PairsOf(ps).value[1..] == PairsOf(rest).value;
      }
    }
  }

  lemma ParamConverts(p: Param, a: Arg)
    ensures Converted(p) == Done(a) <==> Fits(a, p)
  {
    match p
    case Name(v) => NameOfExactly(v, if a.CName? then a.name else "");
    case KeyOf(v) =>
    case NameList(vs) => NamesConvert(vs, if a.CNames? then a.names else []);
    case AttributesOf(v) => PairsConvert(if v.Hash? then v.pairs else [], if a.CAttributes? then a.attrs else []);
    case PredicatesOf(v) =>
    case MapAttributesOf(v) => AsWrittenCompletes(v);
    case Limit(v) =>
    case MaxMin(v) =>
  }

  // ------------------------------------------------------------------ the C loops

  method ConvertNames(vs: seq<Value>) returns (r: Result<array<Option<string>>>)
    ensures match NamesOf(vs)
            case Raise(e) => r == Raise(e)
            case Ok(ns) => r.Ok? && fresh(r.value) && r.value.Length == |ns| && HoldsAt(r.value, 0, ns)
  {
    var names := new Option<string>[|vs|](_ => None);
    ghost var done: seq<string> := [];
    assert vs[0..] == vs;
    AfterNothing(NamesOf(vs));
    for i := 0 to |vs|
      invariant |done| == i && HoldsAt(names, 0, done)
      invariant NamesOf(vs) == After(done, NamesOf(vs[i..]))
    {
      assert vs[i..][1..] == vs[i + 1..];
      var name :- NameOf(vs[i]);
      names[i] := Some(name);
      AfterTwice(done, [name], NamesOf(vs[i + 1..]));
      done := done + [name];
    }
    assert done + [] == done;
    r := Ok(names);
  }

  method ConvertAttributes(x: Value) returns (r: Result<array<Option<(string, Datum)>>>)
    ensures match Converted(AttributesOf(x))
            case Failed(e) => r == Raise(e)
            case Done(a) => r.Ok? && fresh(r.value) && r.value.Length == |a.attrs| && HoldsAt(r.value, 0, a.attrs)
            case Overrun => false
  {
    if !x.Hash? {
      return Raise(TypeMismatch);
    }
    var ps := x.pairs;
    var attrs := new Option<(string, Datum)>[|ps|](_ => None);
    ghost var done: seq<(string, Datum)> := [];
    assert ps[0..] == ps;
    AfterNothing(PairsOf(ps));
    for i := 0 to |ps|
      invariant |done| == i && HoldsAt(attrs, 0, done)
      invariant PairsOf(ps) == After(done, PairsOf(ps[i..]))
    {
      assert ps[i..][1..] == ps[i + 1..];
      var name :- NameOf(ps[i].0);
      var value :- ConvertType(ps[i].1);
      attrs[i] := Some((name, value));
      AfterTwice(done, [(name, value)], PairsOf(ps[i + 1..]));
      done := done + [(name, value)];
    }
    assert done + [] == done;
    r := Ok(attrs);
  }

  /** Reads a filled array. */
  method Slots<T(!new)>(a: array<Option<T>>, ghost cs: seq<T>) returns (r: seq<T>)
    requires a.Length == |cs| && HoldsAt(a, 0, cs)
    ensures r == cs
  {
    r := [];
    for i := 0 to a.Length
      invariant r == cs[..i]
    {
      assert a[0 + i] == Some(cs[i]);
      r := r + [a[i].value];
    }
  }

  method ConvertParam(p: Param) returns (r: Outcome<Arg>)
    ensures r == Converted(p)
  {
    match p
    case Name(v) =>
      var s := NameOf(v);
      r := match s case Ok(n) => Done(CName(n)) case Raise(e) => Failed(e);
    case KeyOf(v) =>
      var d := ConvertType(v);
      r := match d case Ok(k) => Done(CKey(k)) case Raise(e) => Failed(e);
    case NameList(vs) =>
      var ns := ConvertNames(vs);
      if ns.Raise? {
        return Failed(ns.error);
      }
      var names := Slots(ns.value, NamesOf(vs).value);
      r := Done(CNames(names));
    case AttributesOf(v) =>
      var ps := ConvertAttributes(v);
      if ps.Raise? {
        return Failed(ps.error);
      }
      var attrs := Slots(ps.value, Converted(p).result.attrs);
      r := Done(CAttributes(attrs));
    case PredicatesOf(v) =>
      var cs := ConvertPredicates(v);
      if cs.Raise? {
        return Failed(cs.error);
      }
      var checks := Slots(cs.value, CompileQuery(v).value);
      r := Done(CChecks(checks));
    case MapAttributesOf(v) =>
      var rs := ConvertMapAttributes(AsWritten, v);
      if rs.Failed? {
        return Failed(rs.error);
      }
      if rs.Overrun? {
        return Overrun;
      }
      var records := Slots(rs.result, MapAttributesOutcome(AsWritten, v).result);
      r := Done(CMapAttributes(records));
    case Limit(v) =>
      var n := Unsigned(v);
      r := match n case Ok(limit) => Done(CLimit(limit)) case Raise(e) => Failed(e);
    case MaxMin(v) => r := Done(CMaxMin(if v == True then 1 else 0));
  }

  method ConvertArgs(c: Call) returns (r: Outcome<seq<Arg>>)
    ensures r == ArgsOf(c)
    ensures r.Done? ==> HandsOver(c, r.result)
  {
    var ps := Params(c);
    var args: seq<Arg> := [];
    assert ps[0..] == ps;
    InFrontNothing(ConvertedAll(ps));
    for i := 0 to |ps|
      invariant ConvertedAll(ps) == InFront(args, ConvertedAll(ps[i..]))
    {
      assert ps[i..][1..] == ps[i + 1..];
      var a := ConvertParam(ps[i]);
      if a.Failed? {
        return Failed(a.error);
      }
      if a.Overrun? {
        return Overrun;
      }
      InFrontTwice(args, [a.result], ConvertedAll(ps[i + 1..]));
      args := args + [a.result];
    }
    assert args + [] == args;
    CallConverts(c, args);
    r := Done(args);
  }

  // ------------------------------------------------------- what conversion accepts

  lemma {:induction false} AllConvert(ps: seq<Param>)
    ensures ConvertedAll(ps).Done? <==> forall i :: 0 <= i < |ps| ==> Converted(ps[i]).Done?
    ensures ConvertedAll(ps).Done? ==>
              && |ConvertedAll(ps).result| == |ps|
              && forall i :: 0 <= i < |ps| ==> Converted(ps[i]) == Done(ConvertedAll(ps).result[i])
    decreases |ps|
  {
    if ps != [] {
      var rest := ps[1..];
      AllConvert(rest);
      assert forall i :: 1 <= i < |ps| ==> ps[i] == rest[i - 1];
      if ConvertedAll(ps).Done? {
        assert ConvertedAll(ps).result == [Converted(ps[0]).result] + ConvertedAll(rest).result;
      }
    }
  }

  predicate AllFit(args: seq<Arg>, ps: seq<Param>) {
    |args| == |ps| && forall i :: 0 <= i < |ps| ==> Fits(args[i], ps[i])
  }

  lemma ParametersConvert(ps: seq<Param>, args: seq<Arg>)
    ensures ConvertedAll(ps) == Done(args) <==> AllFit(args, ps)
  {
    AllConvert(ps);
    forall i | 0 <= i < |ps| && i < |args|
      ensures Converted(ps[i]) == Done(args[i]) <==> Fits(args[i], ps[i])
    {
      ParamConverts(ps[i], args[i]);
    }
    if AllFit(args, ps) {
      assert forall i :: 0 <= i < |ps| ==> Fits(args[i], ps[i]) && Converted(ps[i]) == Done(args[i]);
      assert ConvertedAll(ps).Done?;
      assert ConvertedAll(ps).result == args;
    }
  }

  lemma AllFitFive(args: seq<Arg>, ps: seq<Param>)
    requires 2 <= |ps| <= 5
    ensures AllFit(args, ps) <==>
            && |args| == |ps| && Fits(args[0], ps[0]) && Fits(args[1], ps[1])
            && (|ps| > 2 ==> Fits(args[2], ps[2])) && (|ps| > 3 ==> Fits(args[3], ps[3]))
            && (|ps| > 4 ==> Fits(args[4], ps[4]))
  {}

  predicate IsKeyed(c: Call) {
    c.Get? || c.GetPartial? || c.Put? || c.CondPut? || c.Del? || c.CondDel? || c.MapAdd? || c.CondMapAdd?
  }

  lemma KeyedFields(c: Call, args: seq<Arg>)
    requires IsKeyed(c)
    ensures AllFit(args, Params(c)) <==> HandsOver(c, args)
  {
    var ps := Params(c);
    AllFitFive(args, ps);
    match c
    case Get(s, k) => assert ps == [Name(s), KeyOf(k)];
    case GetPartial(s, k, ns) => assert ps == [Name(s), KeyOf(k), NameList(ns)];
    case Put(s, k, a) => assert ps == [Name(s), KeyOf(k), AttributesOf(a)];
    case CondPut(s, k, p, a) => assert ps == [Name(s), KeyOf(k), PredicatesOf(p), AttributesOf(a)];
    case Del(s, k) => assert ps == [Name(s), KeyOf(k)];
    case CondDel(s, k, p) => assert ps == [Name(s), KeyOf(k), PredicatesOf(p)];
    case MapAdd(s, k, m) => assert ps == [Name(s), KeyOf(k), MapAttributesOf(m)];
    case CondMapAdd(s, k, p, m) => assert ps == [Name(s), KeyOf(k), PredicatesOf(p), MapAttributesOf(m)];
  }

  lemma QueryFields(c: Call, args: seq<Arg>)
    requires !IsKeyed(c)
    ensures AllFit(args, Params(c)) <==> HandsOver(c, args)
  {
    var ps := Params(c);
    AllFitFive(args, ps);
    if c.SortedSearch? {
      assert ps == [Name(c.space), PredicatesOf(c.predicates), Name(c.sortBy), Limit(c.limit), MaxMin(c.maximize)];
    } else {
      assert ps == [Name(c.space), PredicatesOf(c.predicates)];
    }
  }

  /** A call is made exactly when there are arguments that its fields say, and it then
      hands over those. */
  lemma {:induction false} CallConverts(c: Call, args: seq<Arg>)
    ensures ArgsOf(c) == Done(args) <==> HandsOver(c, args)
  {
    ParametersConvert(Params(c), args);
    if IsKeyed(c) {
      KeyedFields(c, args);
    } else {
      QueryFields(c, args);
    }
  }

  /** The first parameter that does not convert decides how a call fails. */
  lemma {:induction false} FirstParameterFails(ps: seq<Param>, failure: Outcome<seq<Arg>>)
    requires !failure.Done?
    ensures ConvertedAll(ps) == failure <==>
            exists k :: 0 <= k < |ps| && AllDone(ps[..k]) && FailsLike(Converted(ps[k]), failure)
    decreases |ps|
  {
    if ps != [] {
      var rest := ps[1..];
      FirstParameterFails(rest, failure);
      if Converted(ps[0]).Done? {
        if k :| 0 <= k < |rest| && AllDone(rest[..k]) && FailsLike(Converted(rest[k]), failure) {
          assert ps[..k + 1] == [ps[0]] + rest[..k];
          assert AllDone(ps[..k + 1]) && ps[k + 1] == rest[k];
        }
        if k :| 0 <= k < |ps| && AllDone(ps[..k]) && FailsLike(Converted(ps[k]), failure) {
          assert rest[..k - 1] == ps[..k][1..];
          assert AllDone(rest[..k - 1]) && rest[k - 1] == ps[k];
        }
      } else {
        assert AllDone(ps[..0]);
        assert forall k :: 1 <= k < |ps| ==> ps[..k][0] == ps[0];
      }
    }
  }

  predicate AllDone(ps: seq<Param>) {
    forall i :: 0 <= i < |ps| ==> Converted(ps[i]).Done?
  }

  predicate FailsLike(p: Outcome<Arg>, failure: Outcome<seq<Arg>>) {
    || (p.Failed? && failure.Failed? && p.error == failure.error)
    || (p.Overrun? && failure.Overrun?)
  }
}
