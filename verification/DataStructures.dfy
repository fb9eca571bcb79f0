// The contract that the binding relies on for HyperDex's data-structure library:
// a typed builder (append / insert / finalize), the typed value it produces, and
// the cursor that reads a value back.  No byte layout is modelled.
module DataStructures {
  import opened RubyValues

  datatype Kind = StringKind | IntKind | FloatKind

  datatype Elem = EString(s: string) | EInt(n: int) | EFloat(d: real) {
    function KindOf(): Kind {
      match this
      case EString(_) => StringKind
      case EInt(_) => IntKind
      case EFloat(_) => FloatKind
    }
  }

  /** A typed value as handed to the client library.  A set is what was inserted; a
      map keeps the insertions, because what a repeated key means is the library's
      business. */
  datatype Datum =
    | DString(s: string)
    | DInt(n: int)
    | DFloat(d: real)
    | DList(elems: seq<Elem>)
    | DSet(members: set<Elem>)
    | DMap(entries: seq<(Elem, Elem)>)

  datatype DsCode = DsSuccess | DsMixedTypes | DsWrongState

  datatype Slot = Item | Key | Val

  datatype Contents = Contents(elems: seq<Elem>, pairs: seq<(Elem, Elem)>, openKey: Option<Elem>)

  const EMPTY := Contents([], [], None)

  /** The first element fixes the container's element kind; a map takes a key, then
      its value, and fixes both kinds with its first entry. */
  function Inserted(c: Contents, slot: Slot, e: Elem): (DsCode, Contents) {
    match slot
    case Item =>
      if c.elems != [] && c.elems[0].KindOf() != e.KindOf() then (DsMixedTypes, c)
      else (DsSuccess, c.(elems := c.elems + [e]))
    case Key =>
      if c.openKey.Some? then (DsWrongState, c)
      else if c.pairs != [] && c.pairs[0].0.KindOf() != e.KindOf() then (DsMixedTypes, c)
      else (DsSuccess, c.(openKey := Some(e)))
    case Val =>
      if c.openKey.None? then (DsWrongState, c)
      else if c.pairs != [] && c.pairs[0].1.KindOf() != e.KindOf() then (DsMixedTypes, c)
      else (DsSuccess, c.(pairs := c.pairs + [(c.openKey.value, e)], openKey := None))
  }

  class Builder {
    var contents: Contents

    constructor ()
      ensures contents == EMPTY
    {
      contents := EMPTY;
    }

    method Insert(slot: Slot, e: Elem) returns (rc: int, error: DsCode)
      modifies this
      ensures (error, contents) == Inserted(old(contents), slot, e)
      ensures rc < 0 <==> error != DsSuccess
    {
      var (code, after) := Inserted(contents, slot, e);
      contents := after;
      error := code;
      rc := if code == DsSuccess then 0 else -1;
    }

    method FinalizeMap() returns (rc: int, value: Datum)
      ensures rc < 0 <==> contents.openKey.Some?
      ensures value == DMap(contents.pairs)
    {
      rc := if contents.openKey.Some? then -1 else 0;
      value := DMap(contents.pairs);
    }
  }

  /** One element as a cursor yields it; None is a NULL string pointer. */
  type Cell = Option<Elem>

  /** The result that ends a cursor's loop: 0 at the end of a well-formed value, negative
      at a malformed tail. */
  type Stop = n: int | n <= 0

  /** An attribute value as the server sends it.  A container's cursor yields its
      cells, one per positive result, and then answers `stop`. */
  datatype Wire =
    | WString(s: string)
    | WInt(unpacked: Option<int>)
    | WFloat(unpackedFloat: Option<real>)
    | WDocument(text: string, parses: bool)
    | WList(kind: Kind, cells: seq<Cell>, stop: Stop)
    | WSet(kind: Kind, cells: seq<Cell>, stop: Stop)
    | WMap(key: Kind, val: Kind, entries: seq<(Cell, Cell)>, stop: Stop)
    | WGeneric   // GENERIC, LIST_GENERIC, SET_GENERIC, MAP_GENERIC, KEYONLY maps, GARBAGE

  datatype WireAttribute = WireAttribute(name: string, value: Wire)

  class Cursor<T> {
    const cells: seq<T>
    const stop: Stop
    var at: nat

    ghost predicate Valid()
      reads this
    {
      at <= |cells|
    }

    constructor (cells: seq<T>, stop: Stop)
      ensures Valid() && this.cells == cells && this.stop == stop && at == 0
    {
      this.cells := cells;
      this.stop := stop;
      at := 0;
    }

    method Next() returns (result: int, cell: Option<T>)
      requires Valid()
      modifies this
      ensures Valid()
      ensures old(at) < |cells| ==> result == 1 && cell == Some(cells[old(at)]) && at == old(at) + 1
      ensures old(at) == |cells| ==> result == stop && cell == None && at == old(at)
    {
      if at < |cells| {
        result, cell := 1, Some(cells[at]);
        at := at + 1;
      } else {
        result, cell := stop, None;
      }
    }
  }

  function ElemSet(es: seq<Elem>): (r: set<Elem>)
    ensures forall e :: e in r <==> e in es
  {
    set e <- es
  }

  function ToCells(es: seq<Elem>): (r: seq<Cell>)
    ensures |r| == |es|
  {
    seq(|es|, i requires 0 <= i < |es| => Some(es[i]))
  }

  predicate IsEntryOf(c: (Cell, Cell), ps: seq<(Elem, Elem)>) {
    c.0.Some? && c.1.Some? && (c.0.value, c.1.value) in ps
  }

  predicate HasKey(entries: seq<(Cell, Cell)>, key: Elem) {
    exists i :: 0 <= i < |entries| && entries[i].0 == Some(key)
  }

  /** The server sends back `d` as `w`: a list in order, a set in any order, a map
      as each of its keys once with one of the values inserted for it, in any
      order.  An empty container carries no element type. */
  ghost predicate Represents(w: Wire, d: Datum) {
    match d
    case DString(s) => w == WString(s)
    case DInt(n) => w == WInt(Some(n))
    case DFloat(x) => w == WFloat(Some(x))
    case DList(es) =>
      if es == [] then w == WGeneric
      else w == WList(es[0].KindOf(), ToCells(es), 0)
    case DSet(ms) =>
      if ms == {} then w == WGeneric
      else
        && w.WSet? && w.stop == 0
        && (forall c <- w.cells :: c.Some? && c.value in ms && c.value.KindOf() == w.kind)
        && (forall e <- ms :: Some(e) in w.cells)
    case DMap(ps) =>
      if ps == [] then w == WGeneric
      else
        && w.WMap? && w.stop == 0
        && w.key == ps[0].0.KindOf() && w.val == ps[0].1.KindOf()
        && (forall i :: 0 <= i < |w.entries| ==> IsEntryOf(w.entries[i], ps))
        && (forall j :: 0 <= j < |ps| ==> HasKey(w.entries, ps[j].0))
        && (forall i, j :: 0 <= i < j < |w.entries| ==> w.entries[i].0 != w.entries[j].0)
  }
}
