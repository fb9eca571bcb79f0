// The Ruby values that a caller hands to the binding, and how a call can fail.
module RubyValues {

  datatype Option<+T> = None | Some(value: T)

  /** The Ruby exceptions that conversion can raise. */
  datatype RubyError =
    | TypeMismatch     // TypeError, "Cannot convert ..." or "... must be ..."
    | Heterogeneous    // TypeError, "Cannot add ... to a heterogenous container"
    | OutOfRange       // RangeError from NUM2LL or NUM2ULONG
    | NulInName        // ArgumentError from StringValueCStr
    | NoSuchMethod     // NoMethodError from calling to_a

  datatype Result<+T> = Ok(value: T) | Raise(error: RubyError) {
    predicate IsFailure() {
      Raise?
    }

    function PropagateFailure<U>(): Result<U>
      requires Raise?
    {
      Raise(error)
    }

    function Extract(): T
      requires Ok?
    {
      value
    }
  }

  /** Instances of HyperDex::Client::Predicate and of its subclasses. */
  datatype Predicate =
    | Bare
    | Equals(v: Value)
    | LessEqual(v: Value)
    | GreaterEqual(v: Value)
    | LessThan(v: Value)
    | GreaterThan(v: Value)
    | Range(lower: Value, upper: Value)
    | Regex(v: Value)
    | LengthEquals(v: Value)
    | LengthLessEqual(v: Value)
    | LengthGreaterEqual(v: Value)
    | Contains(v: Value)

  /** What TYPE(x) tells apart.  `Object` is T_OBJECT: a Set, or any other plain
      object, with what its to_a answers (None when it has no such method). */
  datatype Value =
    | Nil
    | True
    | Symbol(name: string)
    | Str(bytes: string)
    | Integer(n: int)
    | Float(d: real)
    | Array(elems: seq<Value>)
    | Hash(pairs: seq<(Value, Value)>)
    | Object(isSet: bool, toA: Option<seq<Value>>)
    | Data(p: Predicate)
    | Other

  const INT64_MIN: int := -0x8000_0000_0000_0000
  const INT64_MAX: int := 0x7fff_ffff_ffff_ffff
  const UINT64_SIZE: int := 0x1_0000_0000_0000_0000

  const NUL: char := '\0'

  /** What C sees of a string: everything before the first NUL. */
  function CString(s: string): (r: string)
    ensures r <= s && NUL !in r
    ensures |r| < |s| ==> s[|r|] == NUL
  {
    if s == [] || s[0] == NUL then []
    else [s[0]] + CString(s[1..])
  }

  /** `s` begins with `t` and ends there, or goes on with its first NUL. */
  predicate Spells(s: string, t: string) {
    t <= s && NUL !in t && (|t| < |s| ==> s[|t|] == NUL)
  }

  lemma {:induction false} CStringSpells(s: string, t: string)
    ensures CString(s) == t <==> Spells(s, t)
  {
    if s != [] && s[0] != NUL && t != [] {
      CStringSpells(s[1..], t[1..]);
    }
  }

  /** Attribute, space and sort names: only symbols and strings have one. */
  function NameOf(x: Value): Result<string> {
    match x
    case Symbol(name) => Ok(CString(name))
    case Str(bytes) => if NUL in bytes then Raise(NulInName) else Ok(bytes)
    case _ => Raise(TypeMismatch)
  }

  /** `t` is the name that a caller who gives `x` means. */
  predicate Names(x: Value, t: string) {
    (x.Symbol? && Spells(x.name, t)) || (x.Str? && x.bytes == t && NUL !in t)
  }

  predicate HasName(x: Value) {
    x.Symbol? || (x.Str? && NUL !in x.bytes)
  }

  lemma NameOfExactly(x: Value, t: string)
    ensures NameOf(x) == Ok(t) <==> Names(x, t)
    ensures NameOf(x).Ok? <==> HasName(x)
    ensures NameOf(x) == Raise(NulInName) <==> x.Str? && NUL in x.bytes
    ensures NameOf(x) == Raise(TypeMismatch) <==> !x.Symbol? && !x.Str?
  {
    if x.Symbol? {
      CStringSpells(x.name, t);
    }
  }

  /** Ruby's conversion to an unsigned 64-bit integer: floats lose their fraction, and
      negative numbers wrap. */
  function Unsigned(x: Value): Result<nat> {
    match x
    case Integer(n) => Wrapped(n)
    case Float(d) => Wrapped(if d < 0.0 then -((-d).Floor) else d.Floor)
    case _ => Raise(TypeMismatch)
  }

  function Wrapped(n: int): Result<nat> {
    if INT64_MIN <= n < UINT64_SIZE then Ok(if n < 0 then n + UINT64_SIZE else n)
    else Raise(OutOfRange)
  }

  /** `n` is `x` without its fraction. */
  predicate Truncates(x: Value, n: int) {
    match x
    case Integer(m) => m == n
    case Float(d) => if d < 0.0 then n as real - 1.0 < d <= n as real else n as real <= d < n as real + 1.0
    case _ => false
  }

  /** Numbers from -2^63 up to 2^64 convert, to what is congruent to them modulo 2^64;
      other numbers are out of range, and nothing else converts. */
  lemma UnsignedExactly(x: Value, n: int)
    ensures Truncates(x, n) && INT64_MIN <= n < UINT64_SIZE ==>
              Unsigned(x).Ok? && Unsigned(x).value < UINT64_SIZE && (Unsigned(x).value - n) % UINT64_SIZE == 0
    ensures Truncates(x, n) && !(INT64_MIN <= n < UINT64_SIZE) ==> Unsigned(x) == Raise(OutOfRange)
    ensures !x.Integer? && !x.Float? ==> Unsigned(x) == Raise(TypeMismatch)
  {
    if x.Float? && Truncates(x, n) {
      assert n == if x.d < 0.0 then -((-x.d).Floor) else x.d.Floor;
    }
  }

  // ------------------------------------------------------------- the first exception

  /** What each of several conversions raises, if anything. */
  type Errors = seq<Option<RubyError>>

  function ErrorOf<T>(r: Result<T>): Option<RubyError> {
    match r
    case Ok(_) => None
    case Raise(e) => Some(e)
  }

  predicate NoneFails(es: Errors) {
    forall i :: 0 <= i < |es| ==> es[i] == None
  }

  /** The first conversion that raises anything raises `e`. */
  predicate FirstFails(es: Errors, e: RubyError) {
    exists k :: 0 <= k < |es| && NoneFails(es[..k]) && es[k] == Some(e)
  }

  lemma FirstFailsStep(es: Errors, e: RubyError)
    requires es != []
    ensures NoneFails(es) <==> es[0] == None && NoneFails(es[1..])
    ensures FirstFails(es, e) <==> es[0] == Some(e) || (es[0] == None && FirstFails(es[1..], e))
  {
    var rest := es[1..];
    assert forall i :: 1 <= i < |es| ==> es[i] == rest[i - 1];
    if es[0] == None && FirstFails(rest, e) {
      var k :| 0 <= k < |rest| && NoneFails(rest[..k]) && rest[k] == Some(e);
      assert es[..k + 1] == [es[0]] + rest[..k];
      assert NoneFails(es[..k + 1]) && es[k + 1] == Some(e);
    }
    if es[0] == Some(e) {
      assert NoneFails(es[..0]);
    }
    if FirstFails(es, e) && es[0] != Some(e) {
      var k :| 0 <= k < |es| && NoneFails(es[..k]) && es[k] == Some(e);
      assert es[..k][0] == es[0];
      assert rest[..k - 1] == es[..k][1..];
      assert NoneFails(rest[..k - 1]) && rest[k - 1] == Some(e);
    }
  }

  lemma FirstFailsConcat(a: Errors, b: Errors, e: RubyError)
    ensures NoneFails(a + b) <==> NoneFails(a) && NoneFails(b)
    ensures FirstFails(a + b, e) <==> FirstFails(a, e) || (NoneFails(a) && FirstFails(b, e))
    decreases |a|
  {
    if a == [] {
      assert a + b == b;
    } else {
      assert (a + b)[1..] == a[1..] + b && (a + b)[0] == a[0];
      FirstFailsConcat(a[1..], b, e);
      FirstFailsStep(a, e);
      FirstFailsStep(a + b, e);
    }
  }
}
