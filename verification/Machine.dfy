// The request multiplexer as a state machine: many requests outstanding on one
// connection, an op table that routes the library's events, and the attribute
// buffers that the library hands over.  The classes in Client.dfy are proved to take
// exactly these steps.
module Machine {
  import opened RubyValues
  import opened DataStructures
  import opened Decoder

  datatype Status =
    | SUCCESS | NOTFOUND | SEARCHDONE | CMPFAIL | READONLY
    | UNKNOWNSPACE | COORDFAIL | SERVERERROR | POLLFAILED | OVERFLOW
    | RECONFIGURE | TIMEOUT | UNKNOWNATTR | DUPEATTR | NONEPENDING | DONTUSEKEY
    | WRONGTYPE | NOMEM | INTERRUPTED | CLUSTER_JUMP | OFFLINE
    | INTERNAL | EXCEPTION | GARBAGE

  /** What a call's signature says it gives back besides a status. */
  datatype Family = StatusOnly | Attributes | Description | Count | Search

  type SizeT = n: nat | n < UINT64_SIZE

  const WORD := 8

  /** The bytes of a cell that holds a pointer. */
  type Word = s: string | |s| == WORD witness [NUL, NUL, NUL, NUL, NUL, NUL, NUL, NUL]

  const NULL: Word := [NUL, NUL, NUL, NUL, NUL, NUL, NUL, NUL]

  /** What the library writes into a request's cells along with the status.  For a
      description that is a pointer: its own bytes, and the string that it points to. */
  datatype Payload =
    | NoPayload
    | Row(attrs: seq<WireAttribute>)
    | Number(n: SizeT)
    | Text(pointer: Word, target: string)

  /** One return of hyperdex_client_loop. */
  datatype Reply =
    | Interrupted
    | LoopFailed(rc: Status)
    | Event(id: int, status: Status, payload: Payload)

  datatype ReturnValue =
    | Yes | No | Absent
    | Counted(n: int)
    | Described(s: string)
    | Attrs(row: map<string, Decoded>)

  /** How encode_return ends.  Malformed is the ServerError of the decoder; Dangling
      means that it read attributes from a buffer that was already freed. */
  datatype Outcome = Returned(value: ReturnValue) | Raised(status: Status) | Malformed | Dangling

  /** What an iterator queues: a row, or an exception object. */
  datatype Item = Found(value: ReturnValue) | Problem(status: Status)

  /** A delivered attribute buffer and how often it has been destroyed. */
  datatype Buffer = Buffer(owner: nat, attrs: seq<WireAttribute>, destroyed: nat)

  /** One response object.  `yielded` and `taken` record its history: the items that
      `next` has returned and how many waits have completed. */
  datatype Resp = Resp(
    family: Family, reqid: int, finished: bool,
    status: Status, attrs: Option<nat>, count: SizeT, text: Word,
    backlog: seq<Item>, yielded: seq<Item>, taken: nat)

  /** `ops` is the client's table, `pending` the library's own record of which
      request's cells each id writes to.  Responses are numbered in issue order. */
  datatype Sys = Sys(resps: seq<Resp>, ops: map<int, nat>, pending: map<int, nat>, buffers: seq<Buffer>)

  const INIT := Sys([], map[], map[], [])

  datatype Step =
    | Issue(id: int, family: Family)
    | Library(reply: Reply)
    | Take(h: nat)     // a wait completes
    | Next(h: nat)     // an iterator's next

  // ------------------------------------------------------------------- transitions

  predicate Terminal(family: Family, status: Status) {
    family != Search || status == SEARCHDONE
  }

  function NewResp(id: int, family: Family): Resp {
    Resp(family, id, false, GARBAGE, None, 0, NULL, [], [], 0)
  }

  /** read_int64 on the count's cell. */
  function ReadInt64(cell: SizeT): int {
    if cell <= INT64_MAX then cell else cell - UINT64_SIZE
  }

  /** encode_return, as a function of what the request's own cells hold.  read_string on
      the description's cell reads the bytes of the pointer in it, not the string that
      it points to. */
  function OutcomeOf(family: Family, status: Status, content: Option<Buffer>, count: SizeT, text: Word): Outcome {
    match status
    case SUCCESS =>
      (match family
       case Description => Returned(Described(CString(text)))
       case Count => Returned(Counted(ReadInt64(count)))
       case Attributes => RowOutcome(content)
       case Search => RowOutcome(content)
       case StatusOnly => Returned(Yes))
    case NOTFOUND => Returned(Absent)
    case CMPFAIL => Returned(No)
    case _ => Raised(status)
  }

  function RowOutcome(content: Option<Buffer>): Outcome {
    if content.None? then Returned(Attrs(map[]))
    else if content.value.destroyed > 0 && content.value.attrs != [] then Dangling
    else if RowDecodable(content.value.attrs) then Returned(Attrs(RowOf(content.value.attrs)))
    else Malformed
  }

  function ContentOf(r: Resp, buffers: seq<Buffer>): Option<Buffer> {
    if r.attrs.Some? && r.attrs.value < |buffers| then Some(buffers[r.attrs.value]) else None
  }

  function ReturnOutcome(r: Resp, buffers: seq<Buffer>): Outcome {
    OutcomeOf(r.family, r.status, ContentOf(r, buffers), r.count, r.text)
  }

  predicate WantsRow(family: Family) {
    family == Attributes || family == Search
  }

  /** The buffer is destroyed after decoding, so not when decoding raises. */
  predicate Frees(r: Resp, buffers: seq<Buffer>) {
    r.status == SUCCESS && WantsRow(r.family) && !ReturnOutcome(r, buffers).Malformed?
  }

  function Freed(r: Resp, buffers: seq<Buffer>): seq<Buffer> {
    if r.attrs.Some? && r.attrs.value < |buffers| && Frees(r, buffers) then
      var b := buffers[r.attrs.value];
      buffers[r.attrs.value := b.(destroyed := b.destroyed + 1)]
    else buffers
  }

  /** The library's part of a loop call: write the cells of the request, and forget it
      at its terminal event. */
  function Written(s: Sys, id: int, status: Status, payload: Payload): Sys
    requires id in s.pending && s.pending[id] < |s.resps|
  {
    var h := s.pending[id];
    var r := s.resps[h].(status := status);
    var r1 :=
      match payload
      case NoPayload => r
      case Row(_) => r.(attrs := Some(|s.buffers|))
      case Number(n) => r.(count := n)
      case Text(pointer, _) => r.(text := pointer);
    s.(resps := s.resps[h := r1],
       pending := if Terminal(r.family, status) then s.pending - {id} else s.pending,
       buffers := if payload.Row? then s.buffers + [Buffer(h, payload.attrs, 0)] else s.buffers)
  }

  datatype Dispatched = Handled | DecodeRaised | NoOwner

  function Finished(s: Sys, h: nat): Sys
    requires h < |s.resps|
  {
    s.(resps := s.resps[h := s.resps[h].(finished := true)], ops := s.ops - {s.resps[h].reqid})
  }

  function Queued(s: Sys, h: nat, item: Item): Sys
    requires h < |s.resps|
  {
    s.(resps := s.resps[h := s.resps[h].(backlog := s.resps[h].backlog + [item])])
  }

  /** Look up the owner of `id` and run its callback. */
  function Dispatch(s: Sys, id: int): (Sys, Dispatched) {
    if id !in s.ops || s.ops[id] >= |s.resps| then (s, NoOwner)
    else
      var h := s.ops[id];
      var r := s.resps[h];
      if r.family != Search || r.status == SEARCHDONE then (Finished(s, h), Handled)
      else if r.status == SUCCESS then
        match ReturnOutcome(r, s.buffers)
        case Returned(value) =>
          (Queued(s.(buffers := Freed(r, s.buffers)), h, Found(value)), Handled)
        case _ => (s.(buffers := Freed(r, s.buffers)), DecodeRaised)
      else
        (Queued(s, h, Problem(r.status)), Handled)
  }

  /** The environment contract.  Ids are fresh among outstanding requests; events
      arrive only for outstanding ids; a payload accompanies SUCCESS and is the one
      the call asked for; only waits on finished requests complete. */
  predicate Enabled(s: Sys, step: Step) {
    match step
    case Issue(id, _) => id >= 0 && id !in s.pending
    case Library(Interrupted) => true
    case Library(LoopFailed(rc)) => rc != INTERRUPTED
    case Library(Event(id, status, payload)) =>
      && id in s.pending && s.pending[id] < |s.resps|
      && PayloadFits(s.resps[s.pending[id]].family, status, payload)
    case Take(h) => h < |s.resps| && s.resps[h].family != Search && s.resps[h].finished
    case Next(h) => h < |s.resps| && s.resps[h].family == Search
  }

  predicate PayloadFits(family: Family, status: Status, payload: Payload) {
    if status != SUCCESS then payload == NoPayload
    else
      match family
      case StatusOnly => payload == NoPayload
      case Attributes => payload.Row?
      case Search => payload.Row?
      case Description => payload.Text?
      case Count => payload.Number?
  }

  function Issued(s: Sys, id: int, family: Family): Sys {
    var h := |s.resps|;
    s.(resps := s.resps + [NewResp(id, family)], ops := s.ops[id := h], pending := s.pending[id := h])
  }

  function Taken(s: Sys, h: nat): Sys
    requires h < |s.resps|
  {
    var r := s.resps[h];
    s.(resps := s.resps[h := r.(taken := r.taken + 1)], buffers := Freed(r, s.buffers))
  }

  function Shifted(s: Sys, h: nat): Sys
    requires h < |s.resps|
  {
    var r := s.resps[h];
    if r.backlog == [] then s
    else s.(resps := s.resps[h := r.(backlog := r.backlog[1..], yielded := r.yielded + [r.backlog[0]])])
  }

  function Apply(s: Sys, step: Step): Sys
    requires Enabled(s, step)
  {
    match step
    case Issue(id, family) => Issued(s, id, family)
    case Library(Event(id, status, payload)) => Dispatch(Written(s, id, status, payload), id).0
    case Library(_) => s
    case Take(h) => Taken(s, h)
    case Next(h) => Shifted(s, h)
  }

  /** The state after a run, and the runs that keep the contract. */
  function Run(t: seq<Step>): Sys {
    if t == [] then INIT
    else
      var before := Run(t[..|t| - 1]);
      if Enabled(before, t[|t| - 1]) then Apply(before, t[|t| - 1]) else before
  }

  ghost predicate Legal(t: seq<Step>) {
    forall k :: 0 <= k < |t| ==> Enabled(Run(t[..k]), t[k])
  }

  // --------------------------------------------------------------------- invariants

  /** The op table holds exactly the unfinished responses, each under its own id, and
      agrees with what the library still has outstanding. */
  ghost predicate TableOk(s: Sys) {
    && s.ops == s.pending
    && (forall id :: id in s.ops ==>
        s.ops[id] < |s.resps| && s.resps[s.ops[id]].reqid == id && !s.resps[s.ops[id]].finished)
    && (forall h :: 0 <= h < |s.resps| && !s.resps[h].finished ==>
        s.resps[h].reqid in s.ops && s.ops[s.resps[h].reqid] == h)
  }

  predicate Decodes(b: Buffer) {
    RowDecodable(b.attrs)
  }

  /** Who holds a delivered buffer, and how often it has been destroyed: a search's
      within the callback that queued it, a get's by each completed wait. */
  ghost predicate BufferOk(s: Sys, b: nat)
    requires b < |s.buffers|
  {
    var buf := s.buffers[b];
    && buf.owner < |s.resps|
    && var r := s.resps[buf.owner];
    && WantsRow(r.family)
    && (r.family == Search ==> buf.destroyed == if Decodes(buf) then 1 else 0)
    && (r.family == Attributes ==>
          && r.finished && r.status == SUCCESS && r.attrs == Some(b)
          && buf.destroyed == if Decodes(buf) then r.taken else 0)
  }

  ghost predicate BuffersOk(s: Sys) {
    forall b :: 0 <= b < |s.buffers| ==> BufferOk(s, b)
  }

  predicate RespOk(s: Sys, h: nat)
    requires h < |s.resps|
  {
    var r := s.resps[h];
    && (r.attrs.Some? ==> r.attrs.value < |s.buffers| && s.buffers[r.attrs.value].owner == h)
    && (r.family != Search ==> r.backlog == [] && r.yielded == [])
    && (r.family == Search ==> r.taken == 0)
    && (!r.finished ==> r.taken == 0)
    && (r.family == Attributes && !r.finished ==> r.attrs == None)
    && (r.family == Attributes && r.finished && r.status == SUCCESS ==> r.attrs.Some?)
    && (r.family == Search && r.finished ==> r.status == SEARCHDONE)
  }

  ghost predicate RespsOk(s: Sys) {
    forall h :: 0 <= h < |s.resps| ==> RespOk(s, h)
  }

  ghost predicate Inv(s: Sys) {
    TableOk(s) && BuffersOk(s) && RespsOk(s)
  }

  lemma InvIssue(s: Sys, id: int, family: Family)
    requires Inv(s) && Enabled(s, Issue(id, family))
    ensures Inv(Apply(s, Issue(id, family)))
  {
    var s' := Apply(s, Issue(id, family));
    forall b | 0 <= b < |s'.buffers|
      ensures BufferOk(s', b)
    {
      assert BufferOk(s, b);
    }
    forall h | 0 <= h < |s'.resps|
      ensures RespOk(s', h)
    {
      assert h < |s.resps| ==> RespOk(s, h);
    }
  }

  lemma InvEvent(s: Sys, id: int, status: Status, payload: Payload)
    requires Inv(s) && Enabled(s, Library(Event(id, status, payload)))
    ensures Inv(Apply(s, Library(Event(id, status, payload))))
  {
    EventKeepsTable(s, id, status, payload);
    EventKeepsBuffers(s, id, status, payload);
    EventKeepsResps(s, id, status, payload);
  }

  /** What an event leaves of the op table and of the responses. */
  lemma EventOnTable(s: Sys, id: int, status: Status, payload: Payload)
    requires TableOk(s) && Enabled(s, Library(Event(id, status, payload)))
    ensures var s', h := Apply(s, Library(Event(id, status, payload))), s.ops[id];
            var over := Terminal(s.resps[h].family, status);
            && |s'.resps| == |s.resps|
            && s'.ops == s'.pending == (if over then s.ops - {id} else s.ops)
            && s'.resps[h].reqid == id && s'.resps[h].finished == over
            && (forall k :: 0 <= k < |s.resps| && k != h ==> s'.resps[k] == s.resps[k])
  {
    assert s.pending[id] == s.ops[id];
  }

  lemma TableKept(s: Sys, s': Sys, id: int, over: bool)
    requires TableOk(s) && id in s.ops && |s'.resps| == |s.resps|
    requires s'.ops == s'.pending == (if over then s.ops - {id} else s.ops)
    requires s'.resps[s.ops[id]].reqid == id && s'.resps[s.ops[id]].finished == over
    requires forall k :: 0 <= k < |s.resps| && k != s.ops[id] ==> s'.resps[k] == s.resps[k]
    ensures TableOk(s')
  {}

  lemma EventKeepsTable(s: Sys, id: int, status: Status, payload: Payload)
    requires TableOk(s) && Enabled(s, Library(Event(id, status, payload)))
    ensures TableOk(Apply(s, Library(Event(id, status, payload))))
  {
    EventOnTable(s, id, status, payload);
    TableKept(s, Apply(s, Library(Event(id, status, payload))), id, Terminal(s.resps[s.ops[id]].family, status));
  }

  lemma EventKeepsBuffers(s: Sys, id: int, status: Status, payload: Payload)
    requires Inv(s) && Enabled(s, Library(Event(id, status, payload)))
    ensures BuffersOk(Apply(s, Library(Event(id, status, payload))))
  {
    var s' := Apply(s, Library(Event(id, status, payload)));
    assert RespOk(s, s.pending[id]);
    EventOnTable(s, id, status, payload);
    EventOnBuffers(s, id, status, payload);
    forall b | 0 <= b < |s'.buffers|
      ensures BufferOk(s', b)
    {
      assert b < |s.buffers| ==> BufferOk(s, b);
    }
  }

  lemma EventKeepsResps(s: Sys, id: int, status: Status, payload: Payload)
    requires Inv(s) && Enabled(s, Library(Event(id, status, payload)))
    ensures RespsOk(Apply(s, Library(Event(id, status, payload))))
  {
    var s' := Apply(s, Library(Event(id, status, payload)));
    EventOnTable(s, id, status, payload);
    EventOnBuffers(s, id, status, payload);
    forall k | 0 <= k < |s'.resps|
      ensures RespOk(s', k)
    {
      assert RespOk(s, k);
    }
  }

  lemma EventOnBuffers(s: Sys, id: int, status: Status, payload: Payload)
    requires Inv(s) && Enabled(s, Library(Event(id, status, payload)))
    ensures var s' := Apply(s, Library(Event(id, status, payload)));
            && |s'.buffers| == |s.buffers| + (if payload.Row? then 1 else 0)
            && (forall b :: 0 <= b < |s.buffers| ==> s'.buffers[b] == s.buffers[b])
            && (payload.Row? ==>
                s'.buffers[|s.buffers|].owner == s.ops[id] && s'.buffers[|s.buffers|].attrs == payload.attrs)
  {
    assert RespOk(s, s.ops[id]);
  }

  lemma InvTake(s: Sys, h: nat)
    requires Inv(s) && Enabled(s, Take(h))
    ensures Inv(Apply(s, Take(h)))
  {
    var s' := Apply(s, Take(h));
    assert RespOk(s, h);
    forall b | 0 <= b < |s'.buffers|
      ensures BufferOk(s', b)
    {
      assert BufferOk(s, b);
    }
    forall k | 0 <= k < |s'.resps|
      ensures RespOk(s', k)
    {
      assert RespOk(s, k);
    }
  }

  lemma InvNext(s: Sys, h: nat)
    requires Inv(s) && Enabled(s, Next(h))
    ensures Inv(Apply(s, Next(h)))
  {
    var s' := Apply(s, Next(h));
    forall b | 0 <= b < |s'.buffers|
      ensures BufferOk(s', b)
    {
      assert BufferOk(s, b);
    }
    forall k | 0 <= k < |s'.resps|
      ensures RespOk(s', k)
    {
      assert RespOk(s, k);
    }
  }

  lemma InvStep(s: Sys, step: Step)
    requires Inv(s) && Enabled(s, step)
    ensures Inv(Apply(s, step))
  {
    match step
    case Issue(id, family) => InvIssue(s, id, family);
    case Library(Event(id, status, payload)) => InvEvent(s, id, status, payload);
    case Library(_) =>
    case Take(h) => InvTake(s, h);
    case Next(h) => InvNext(s, h);
  }

  lemma {:induction false} LegalPrefix(t: seq<Step>, n: nat)
    requires Legal(t) && n <= |t|
    ensures Legal(t[..n])
  {
    forall k | 0 <= k < n
      ensures Enabled(Run(t[..n][..k]), t[..n][k])
    {
      assert t[..n][..k] == t[..k];
    }
  }

  lemma LegalExtend(t: seq<Step>, step: Step)
    requires Legal(t)
    ensures Legal(t + [step]) <==> Enabled(Run(t), step)
    ensures Enabled(Run(t), step) ==> Run(t + [step]) == Apply(Run(t), step)
  {
    var t' := t + [step];
    assert t'[..|t|] == t;
    forall k | 0 <= k < |t|
      ensures Enabled(Run(t'[..k]), t'[k])
    {
      assert t'[..k] == t[..k];
    }
    assert t'[|t|] == step;
  }

  lemma LastStep(t: seq<Step>)
    requires Legal(t) && t != []
    ensures Legal(t[..|t| - 1]) && Enabled(Run(t[..|t| - 1]), t[|t| - 1])
    ensures Run(t) == Apply(Run(t[..|t| - 1]), t[|t| - 1])
  {
    LegalPrefix(t, |t| - 1);
  }

  // The same, by way of the states passed through.

  ghost predicate Moves(t: seq<Step>, states: seq<Sys>, k: nat)
    requires k < |t| && |states| == |t| + 1
  {
    Enabled(states[k], t[k]) && states[k + 1] == Apply(states[k], t[k])
  }

  ghost predicate Chain(t: seq<Step>, states: seq<Sys>) {
    && |states| == |t| + 1 && states[0] == INIT
    && forall k :: 0 <= k < |t| ==> Moves(t, states, k)
  }

  ghost predicate Reached(t: seq<Step>, s: Sys) {
    exists states :: Chain(t, states) && states[|t|] == s
  }

  lemma ReachedStart()
    ensures Reached([], INIT)
  {
    assert Chain([], [INIT]);
  }

  lemma ReachedStep(t: seq<Step>, s: Sys, step: Step)
    requires Reached(t, s) && Enabled(s, step)
    ensures Reached(t + [step], Apply(s, step))
  {
    var states :| Chain(t, states) && states[|t|] == s;
    var t', states' := t + [step], states + [Apply(s, step)];
    forall k | 0 <= k < |t'|
      ensures Moves(t', states', k)
    {
      assert k < |t| ==> Moves(t, states, k);
    }
    assert Chain(t', states');
  }

  lemma ReachedIssue(t: seq<Step>, s: Sys, id: int, family: Family)
    requires Reached(t, s) && id >= 0 && id !in s.pending
    ensures Reached(t + [Issue(id, family)], Issued(s, id, family))
  {
    ReachedStep(t, s, Issue(id, family));
  }

  lemma ReachedTake(t: seq<Step>, s: Sys, h: nat)
    requires Reached(t, s) && h < |s.resps| && s.resps[h].family != Search && s.resps[h].finished
    ensures Reached(t + [Take(h)], Taken(s, h))
  {
    ReachedStep(t, s, Take(h));
  }

  lemma ReachedNext(t: seq<Step>, s: Sys, h: nat)
    requires Reached(t, s) && h < |s.resps| && s.resps[h].family == Search
    ensures Reached(t + [Next(h)], Shifted(s, h))
  {
    ReachedStep(t, s, Next(h));
  }

  lemma {:induction false} ReachedIsRun(t: seq<Step>, s: Sys)
    requires Reached(t, s)
    ensures Legal(t) && Run(t) == s
  {
    var states :| Chain(t, states) && states[|t|] == s;
    if t != [] {
      var n := |t| - 1;
      assert Moves(t, states, n);
      var t0, states0 := t[..n], states[..n + 1];
      forall k | 0 <= k < n
        ensures Moves(t0, states0, k)
      {
        assert Moves(t, states, k);
      }
      assert Chain(t0, states0);
      ReachedIsRun(t[..n], states[n]);
      assert t == t[..n] + [t[n]];
      LegalExtend(t[..n], t[n]);
    }
  }

  /** The two ways to say what a run does agree. */
  lemma {:induction false} ReachedExactly(t: seq<Step>, s: Sys)
    ensures Reached(t, s) <==> Legal(t) && Run(t) == s
  {
    if Reached(t, s) {
      ReachedIsRun(t, s);
    } else if Legal(t) {
      RunIsReached(t);
    }
  }

  lemma {:induction false} RunIsReached(t: seq<Step>)
    requires Legal(t)
    ensures Reached(t, Run(t))
  {
    if t == [] {
      ReachedStart();
    } else {
      var n := |t| - 1;
      LastStep(t);
      RunIsReached(t[..n]);
      ReachedStep(t[..n], Run(t[..n]), t[n]);
      assert t == t[..n] + [t[n]];
    }
  }

  lemma ReachedOnce(t: seq<Step>, a: Sys, b: Sys)
    requires Reached(t, a) && Reached(t, b)
    ensures a == b
  {
    ReachedIsRun(t, a);
    ReachedIsRun(t, b);
  }

  /** Every state reached by a run keeps the invariants. */
  lemma {:induction false} Reachable(t: seq<Step>)
    requires Legal(t)
    ensures Inv(Run(t))
  {
    if t != [] {
      var n := |t| - 1;
      LegalPrefix(t, n);
      Reachable(t[..n]);
      assert Enabled(Run(t[..n]), t[n]);
      InvStep(Run(t[..n]), t[n]);
    }
  }

  /** An event's dispatch always finds an owner, and it is the unfinished response
      that was issued under that id.  Dispatch raises exactly on a search's row that
      will not decode. */
  lemma {:induction false} DispatchFindsOwner(t: seq<Step>, id: int, status: Status, payload: Payload)
    requires Legal(t + [Library(Event(id, status, payload))])
    ensures Legal(t) && id in Run(t).ops && Enabled(Run(t), Library(Event(id, status, payload)))
    ensures var s := Run(t);
            var h := s.ops[id];
            var (_, how) := Dispatch(Written(s, id, status, payload), id);
            && h < |s.resps| && s.resps[h].reqid == id && !s.resps[h].finished
            && how != NoOwner
            && (how == DecodeRaised <==> s.resps[h].family == Search && payload.Row? && !RowDecodable(payload.attrs))
  {
    var t' := t + [Library(Event(id, status, payload))];
    assert t'[..|t|] == t && t'[|t|] == Library(Event(id, status, payload));
    LegalPrefix(t', |t|);
    Reachable(t);
    assert Enabled(Run(t'[..|t|]), t'[|t|]);
  }

  /** The op table maps no two ids to one response, and a response that has not
      finished is always in it: whoever waits for it has an operation pending. */
  lemma {:induction false} TableIsInjective(t: seq<Step>, a: int, b: int, h: nat)
    requires Legal(t)
    ensures a in Run(t).ops && b in Run(t).ops && Run(t).ops[a] == Run(t).ops[b] ==> a == b
    ensures h < |Run(t).resps| ==>
              (Run(t).resps[h].finished <==> !(exists id :: id in Run(t).ops && Run(t).ops[id] == h))
    ensures Run(t).ops == Run(t).pending
  {
    Reachable(t);
  }

  /** Attribute buffers are conserved.  A buffer that decodes is destroyed exactly once
      if a search delivered it, and otherwise exactly as often as its owner has been
      waited on: never, while the owner is finished but not waited on.  A buffer that
      does not decode is never destroyed. */
  lemma {:induction false} BuffersConserved(t: seq<Step>, b: nat)
    requires Legal(t) && b < |Run(t).buffers|
    ensures var s, buf := Run(t), Run(t).buffers[b];
            && buf.owner < |s.resps|
            && var r := s.resps[buf.owner];
            && WantsRow(r.family)
            && (r.family == Attributes ==> r.finished)
            && (!Decodes(buf) ==> buf.destroyed == 0)
            && (Decodes(buf) && r.family == Search ==> buf.destroyed == 1)
            && (Decodes(buf) && r.family == Attributes ==> buf.destroyed == r.taken)
  {
    Reachable(t);
    assert BufferOk(Run(t), b);
    assert RespOk(Run(t), Run(t).buffers[b].owner);
  }

  lemma ReachedRespOk(t: seq<Step>, s: Sys, h: nat)
    requires Reached(t, s) && h < |s.resps|
    ensures s.resps[h].attrs.Some? ==> s.resps[h].attrs.value < |s.buffers|
  {
    ReachedIsRun(t, s);
    Reachable(t);
    assert RespOk(s, h);
  }
}
