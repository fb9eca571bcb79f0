// Non-interference: every request behaves as if it were the only one.  A solo request
// has no id, no op table and no shared buffers; it only sees its own events.
module Solo {
  import opened RubyValues
  import opened DataStructures
  import opened Decoder
  import opened Machine

  datatype OwnStep =
    | Got(status: Status, payload: Payload)
    | Took
    | Nexted

  /** A request on its own; `row` is the buffer it was last given and whether it has
      been destroyed. */
  datatype Request = Request(
    family: Family, finished: bool, status: Status,
    row: Option<seq<WireAttribute>>, destroyed: nat, count: SizeT, text: Word,
    backlog: seq<Item>, yielded: seq<Item>)

  function Start(family: Family): Request {
    Request(family, false, GARBAGE, None, 0, 0, NULL, [], [])
  }

  /** What a finished call's own terminal event means to its caller. */
  function Meaning(status: Status, payload: Payload): Outcome {
    match status
    case SUCCESS =>
      (match payload
       case NoPayload => Returned(Yes)
       case Number(n) => Returned(Counted(ReadInt64(n)))
       case Text(pointer, _) => Returned(Described(CString(pointer)))
       case Row(attrs) => if RowDecodable(attrs) then Returned(Attrs(RowOf(attrs))) else Malformed)
    case NOTFOUND => Returned(Absent)
    case CMPFAIL => Returned(No)
    case _ => Raised(status)
  }

  /** The item that an event adds to an iterator's queue, if any. */
  function ItemsOf(status: Status, payload: Payload): seq<Item> {
    if status == SEARCHDONE then []
    else if status != SUCCESS then [Problem(status)]
    else
      match Meaning(status, payload)
      case Returned(value) => [Found(value)]
      case _ => []   // the callback raised
  }

  function Advance(q: Request, own: OwnStep): Request {
    match own
    case Got(status, payload) =>
      var q1 := q.(status := status);
      var q2 :=
        match payload
        case NoPayload => q1
        case Number(n) => q1.(count := n)
        case Text(pointer, _) => q1.(text := pointer)
        case Row(attrs) =>
          q1.(row := Some(attrs),
              destroyed := if q.family == Search && RowDecodable(attrs) then 1 else 0);
      if q.family != Search || status == SEARCHDONE then q2.(finished := true)
      else q2.(backlog := q.backlog + ItemsOf(status, payload))
    case Took =>
      if q.status == SUCCESS && q.family == Attributes && q.row.Some? && RowDecodable(q.row.value)
      then q.(destroyed := q.destroyed + 1)
      else q
    case Nexted =>
      if q.backlog == [] then q
      else q.(backlog := q.backlog[1..], yielded := q.yielded + [q.backlog[0]])
  }

  function Alone(family: Family, own: seq<OwnStep>): Request {
    if own == [] then Start(family)
    else Advance(Alone(family, own[..|own| - 1]), own[|own| - 1])
  }

  // ----------------------------------------------- which steps belong to a request

  /** The calls issued during a run, in order, with the ids they were given. */
  function Issues(t: seq<Step>): seq<(int, Family)> {
    if t == [] then [] else IssuesAfter(Issues(t[..|t| - 1]), t[|t| - 1])
  }

  function IssuesAfter(calls: seq<(int, Family)>, step: Step): seq<(int, Family)> {
    match step
    case Issue(id, family) => calls + [(id, family)]
    case _ => calls
  }

  predicate Ended(family: Family, own: seq<OwnStep>) {
    exists i :: 0 <= i < |own| && own[i].Got? && Terminal(family, own[i].status)
  }

  /** The steps that concern the h-th call: the events under its id from its issue to
      its terminal event, and what its own response object was asked. */
  function Own(t: seq<Step>, h: nat): seq<OwnStep> {
    if t == [] then []
    else
      var before := t[..|t| - 1];
      OwnAfter(Issues(before), Own(before, h), t[|t| - 1], h)
  }

  function OwnAfter(calls: seq<(int, Family)>, own: seq<OwnStep>, step: Step, h: nat): seq<OwnStep> {
    match step
    case Library(Event(id, status, payload)) =>
      if h < |calls| && calls[h].0 == id && !Ended(calls[h].1, own) then own + [Got(status, payload)] else own
    case Take(k) => if k == h then own + [Took] else own
    case Next(k) => if k == h then own + [Nexted] else own
    case _ => own
  }

  // -------------------------------------------------------------- the simulation

  /** The h-th response as seen by itself, without ids or buffer numbers. */
  function View(s: Sys, h: nat): Request
    requires h < |s.resps|
  {
    var r := s.resps[h];
    var content := ContentOf(r, s.buffers);
    Request(r.family, r.finished, r.status,
            if content.Some? then Some(content.value.attrs) else None,
            if content.Some? then content.value.destroyed else 0,
            r.count, r.text, r.backlog, r.yielded)
  }

  lemma EventElsewhere(s: Sys, id: int, status: Status, payload: Payload, h: nat)
    requires Inv(s) && Enabled(s, Library(Event(id, status, payload)))
    requires h < |s.resps| && s.ops[id] != h
    ensures h < |Apply(s, Library(Event(id, status, payload))).resps|
    ensures View(Apply(s, Library(Event(id, status, payload))), h) == View(s, h)
  {
    assert RespOk(s, h) && RespOk(s, s.ops[id]);
  }

  lemma EventHere(s: Sys, id: int, status: Status, payload: Payload)
    requires Inv(s) && Enabled(s, Library(Event(id, status, payload)))
    ensures s.ops[id] < |Apply(s, Library(Event(id, status, payload))).resps|
    ensures View(Apply(s, Library(Event(id, status, payload))), s.ops[id]) ==
            Advance(View(s, s.ops[id]), Got(status, payload))
  {
    if s.resps[s.ops[id]].family != Search {
      AnswerHere(s, id, status, payload);
    } else if payload.Row? {
      RowHere(s, id, payload.attrs);
    } else {
      NoticeHere(s, id, status);
    }
  }

  /** The one event of a call that is no search. */
  lemma AnswerHere(s: Sys, id: int, status: Status, payload: Payload)
    requires Inv(s) && Enabled(s, Library(Event(id, status, payload)))
    requires s.resps[s.ops[id]].family != Search
    ensures s.ops[id] < |Apply(s, Library(Event(id, status, payload))).resps|
    ensures View(Apply(s, Library(Event(id, status, payload))), s.ops[id]) ==
            Advance(View(s, s.ops[id]), Got(status, payload))
  {
    assert RespOk(s, s.ops[id]);
  }

  /** A search's item. */
  lemma RowHere(s: Sys, id: int, attrs: seq<WireAttribute>)
    requires Inv(s) && Enabled(s, Library(Event(id, SUCCESS, Row(attrs))))
    requires s.resps[s.ops[id]].family == Search
    ensures s.ops[id] < |Apply(s, Library(Event(id, SUCCESS, Row(attrs)))).resps|
    ensures View(Apply(s, Library(Event(id, SUCCESS, Row(attrs)))), s.ops[id]) ==
            Advance(View(s, s.ops[id]), Got(SUCCESS, Row(attrs)))
  {}

  /** A search's error, or its end. */
  lemma NoticeHere(s: Sys, id: int, status: Status)
    requires Inv(s) && Enabled(s, Library(Event(id, status, NoPayload)))
    requires s.resps[s.ops[id]].family == Search
    ensures s.ops[id] < |Apply(s, Library(Event(id, status, NoPayload))).resps|
    ensures View(Apply(s, Library(Event(id, status, NoPayload))), s.ops[id]) ==
            Advance(View(s, s.ops[id]), Got(status, NoPayload))
  {
    assert RespOk(s, s.ops[id]);
  }

  lemma TakeView(s: Sys, k: nat, h: nat)
    requires Inv(s) && Enabled(s, Take(k)) && h < |s.resps|
    ensures h < |Apply(s, Take(k)).resps|
    ensures View(Apply(s, Take(k)), h) == if k == h then Advance(View(s, h), Took) else View(s, h)
  {
    assert RespOk(s, h) && RespOk(s, k);
    if s.resps[h].attrs.Some? {
      assert BufferOk(s, s.resps[h].attrs.value);
    }
  }

  lemma NextView(s: Sys, k: nat, h: nat)
    requires Inv(s) && Enabled(s, Next(k)) && h < |s.resps|
    ensures h < |Apply(s, Next(k)).resps|
    ensures View(Apply(s, Next(k)), h) == if k == h then Advance(View(s, h), Nexted) else View(s, h)
  {}

  lemma AloneExtend(family: Family, own: seq<OwnStep>, step: OwnStep)
    ensures Alone(family, own + [step]) == Advance(Alone(family, own), step)
    ensures Ended(family, own + [step]) <==> Ended(family, own) || (step.Got? && Terminal(family, step.status))
  {
    var all := own + [step];
    assert all[..|own|] == own && all[|own|] == step;
    if Ended(family, own) {
      var i :| 0 <= i < |own| && own[i].Got? && Terminal(family, own[i].status);
      assert all[i] == own[i];
    }
    if Ended(family, all) {
      var i :| 0 <= i < |all| && all[i].Got? && Terminal(family, all[i].status);
      assert i < |own| ==> own[i] == all[i];
    }
  }

  lemma {:induction false} AloneKeepsFamily(family: Family, own: seq<OwnStep>)
    ensures Alone(family, own).family == family
    ensures Alone(family, own).finished <==> Ended(family, own)
  {
    if own != [] {
      var n := |own| - 1;
      assert own == own[..n] + [own[n]];
      AloneExtend(family, own[..n], own[n]);
      AloneKeepsFamily(family, own[..n]);
    }
  }

  ghost predicate Matches(s: Sys, calls: seq<(int, Family)>) {
    && |calls| == |s.resps|
    && forall h :: 0 <= h < |calls| ==> calls[h] == (s.resps[h].reqid, s.resps[h].family)
  }

  lemma EventKeepsCalls(s: Sys, id: int, status: Status, payload: Payload, h: nat)
    requires Enabled(s, Library(Event(id, status, payload))) && h < |s.resps|
    ensures var s' := Apply(s, Library(Event(id, status, payload)));
            |s'.resps| == |s.resps| && s'.resps[h].reqid == s.resps[h].reqid && s'.resps[h].family == s.resps[h].family
  {}

  lemma IssuesStep(s: Sys, calls: seq<(int, Family)>, step: Step)
    requires Matches(s, calls) && Enabled(s, step)
    ensures Matches(Apply(s, step), IssuesAfter(calls, step))
  {
    if step.Library? && step.reply.Event? {
      var Event(id, status, payload) := step.reply;
      EventKeepsCalls(s, id, status, payload, s.pending[id]);
      forall h | 0 <= h < |s.resps|
        ensures calls[h] == (Apply(s, step).resps[h].reqid, Apply(s, step).resps[h].family)
      {
        EventKeepsCalls(s, id, status, payload, h);
      }
    }
  }

  lemma {:induction false} IssuesMatch(t: seq<Step>)
    requires Legal(t)
    ensures Matches(Run(t), Issues(t))
  {
    if t != [] {
      LastStep(t);
      IssuesMatch(t[..|t| - 1]);
      IssuesStep(Run(t[..|t| - 1]), Issues(t[..|t| - 1]), t[|t| - 1]);
    }
  }

  lemma {:induction false} NothingBeforeIssue(t: seq<Step>, h: nat)
    requires Legal(t) && h >= |Issues(t)|
    ensures Own(t, h) == []
  {
    if t != [] {
      var before := t[..|t| - 1];
      LastStep(t);
      IssuesMatch(before);
      NothingBeforeIssue(before, h);
    }
  }

  lemma IssueView(s: Sys, id: int, family: Family, h: nat)
    requires Inv(s) && Enabled(s, Issue(id, family)) && h <= |s.resps|
    ensures h < |Apply(s, Issue(id, family)).resps|
    ensures View(Apply(s, Issue(id, family)), h) == if h == |s.resps| then Start(family) else View(s, h)
  {}

  lemma EventView(
    s: Sys, calls: seq<(int, Family)>, own: seq<OwnStep>, id: int, status: Status, payload: Payload, h: nat)
    requires Inv(s) && Enabled(s, Library(Event(id, status, payload))) && Matches(s, calls) && h < |s.resps|
    requires View(s, h) == Alone(s.resps[h].family, own)
    ensures h < |Apply(s, Library(Event(id, status, payload))).resps|
    ensures View(Apply(s, Library(Event(id, status, payload))), h) ==
            Alone(s.resps[h].family, OwnAfter(calls, own, Library(Event(id, status, payload)), h))
  {
    AloneKeepsFamily(s.resps[h].family, own);
    if s.ops[id] == h {
      EventHere(s, id, status, payload);
      AloneExtend(s.resps[h].family, own, Got(status, payload));
    } else {
      EventElsewhere(s, id, status, payload, h);
    }
  }

  /** One step keeps the simulation. */
  lemma ViewStep(s: Sys, calls: seq<(int, Family)>, own: seq<OwnStep>, step: Step, h: nat)
    requires Inv(s) && Enabled(s, step) && Matches(s, calls) && h < |s.resps|
    requires View(s, h) == Alone(s.resps[h].family, own)
    ensures h < |Apply(s, step).resps|
    ensures View(Apply(s, step), h) == Alone(s.resps[h].family, OwnAfter(calls, own, step, h))
  {
    match step
    case Issue(id, family) => IssueView(s, id, family, h);
    case Library(Event(id, status, payload)) => EventView(s, calls, own, id, status, payload, h);
    case Library(_) =>
    case Take(k) =>
      TakeView(s, k, h);
      AloneExtend(s.resps[h].family, own, Took);
    case Next(k) =>
      NextView(s, k, h);
      AloneExtend(s.resps[h].family, own, Nexted);
  }

  /** For every run that keeps the contract and every call in it, however its steps
      were interleaved with those of other calls, the call's response is in the state
      that its own steps alone would have put it in. */
  lemma {:induction false} NonInterference(t: seq<Step>, h: nat)
    requires Legal(t) && h < |Issues(t)|
    ensures h < |Run(t).resps|
    ensures View(Run(t), h) == Alone(Issues(t)[h].1, Own(t, h))
  {
    var before, step := t[..|t| - 1], t[|t| - 1];
    LastStep(t);
    Reachable(before);
    IssuesMatch(before);
    IssuesMatch(t);
    if h == |Issues(before)| {
      NothingBeforeIssue(before, h);
      IssueView(Run(before), step.id, step.family, h);
    } else {
      NonInterference(before, h);
      ViewStep(Run(before), Issues(before), Own(before, h), step, h);
    }
  }
}
