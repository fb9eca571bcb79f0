// What non-interference gives to a caller: the value of a wait, the order of an
// iterator's items, and the kind of result of each call.
module Requests {
  import opened RubyValues
  import opened DataStructures
  import opened Decoder
  import opened Machine
  import opened Solo
  import opened SoleRun

  // ------------------------------------------------------------------------- waits

  /** A call that is no search sees at most one event, then only completed waits. */
  predicate OneEvent(r: Resp, own: seq<OwnStep>) {
    if !r.finished then own == []
    else
      && own != [] && own[0].Got? && PayloadFits(r.family, own[0].status, own[0].payload)
      && |own| == 1 + r.taken
      && forall i :: 1 <= i < |own| ==> own[i].Took?
  }

  lemma OneEventStep(s: Sys, calls: seq<(int, Family)>, own: seq<OwnStep>, step: Step, h: nat)
    requires Inv(s) && Enabled(s, step) && Matches(s, calls)
    requires h < |s.resps| && s.resps[h].family != Search && OneEvent(s.resps[h], own)
    ensures h < |Apply(s, step).resps| && OneEvent(Apply(s, step).resps[h], OwnAfter(calls, own, step, h))
  {
    assert RespOk(s, h);
    match step
    case Library(Event(id, status, payload)) => OneEventDispatch(s, calls, own, id, status, payload, h);
    case _ =>
  }

  lemma OneEventDispatch(
    s: Sys, calls: seq<(int, Family)>, own: seq<OwnStep>, id: int, status: Status, payload: Payload, h: nat)
    requires Inv(s) && Enabled(s, Library(Event(id, status, payload))) && Matches(s, calls)
    requires h < |s.resps| && s.resps[h].family != Search && OneEvent(s.resps[h], own)
    ensures var s' := Apply(s, Library(Event(id, status, payload)));
            h < |s'.resps| && OneEvent(s'.resps[h], OwnAfter(calls, own, Library(Event(id, status, payload)), h))
  {
    EventOnTable(s, id, status, payload);
    assert RespOk(s, h);
    if s.resps[h].finished {
      assert own[0].Got? && Terminal(s.resps[h].family, own[0].status);
    } else {
      assert !Ended(s.resps[h].family, own);
      assert s.resps[h].reqid == id <==> s.ops[id] == h;
    }
  }

  lemma {:induction false} OwnEventOnce(t: seq<Step>, h: nat)
    requires Legal(t) && h < |Issues(t)| && Issues(t)[h].1 != Search
    ensures h < |Run(t).resps| && Run(t).resps[h].family == Issues(t)[h].1
    ensures OneEvent(Run(t).resps[h], Own(t, h))
  {
    var before, step := t[..|t| - 1], t[|t| - 1];
    LastStep(t);
    Reachable(before);
    IssuesMatch(before);
    IssuesMatch(t);
    if h == |Issues(before)| {
      NothingBeforeIssue(before, h);
    } else {
      OwnEventOnce(before, h);
      OneEventStep(Run(before), Issues(before), Own(before, h), step, h);
    }
  }

  /** encode_return on a view. */
  function ViewOutcome(q: Request): Outcome {
    OutcomeOf(q.family, q.status,
              if q.row.Some? then Some(Buffer(0, q.row.value, q.destroyed)) else None,
              q.count, q.text)
  }

  lemma OutcomeIsLocal(s: Sys, h: nat)
    requires h < |s.resps|
    ensures ReturnOutcome(s.resps[h], s.buffers) == ViewOutcome(View(s, h))
  {}

  /** The event brought a row and the row decodes. */
  predicate GoodRow(status: Status, payload: Payload) {
    status == SUCCESS && payload.Row? && RowDecodable(payload.attrs)
  }

  /** A second wait reads attributes that the first has freed. */
  predicate Rereads(status: Status, payload: Payload) {
    GoodRow(status, payload) && payload.attrs != []
  }

  /** A call after its event and `waits` completed waits. */
  function AfterWaits(family: Family, status: Status, payload: Payload, waits: nat): Request {
    Advance(Start(family), Got(status, payload)).(destroyed := if GoodRow(status, payload) then waits else 0)
  }

  lemma OneMoreWait(family: Family, status: Status, payload: Payload, waits: nat)
    requires family != Search && PayloadFits(family, status, payload)
    ensures Advance(AfterWaits(family, status, payload, waits), Took) == AfterWaits(family, status, payload, waits + 1)
  {}

  lemma {:induction false} AloneAfterWaits(family: Family, own: seq<OwnStep>)
    requires family != Search
    requires own != [] && own[0].Got? && PayloadFits(family, own[0].status, own[0].payload)
    requires forall i :: 1 <= i < |own| ==> own[i].Took?
    ensures Alone(family, own) == AfterWaits(family, own[0].status, own[0].payload, |own| - 1)
    decreases |own|
  {
    var n := |own| - 1;
    if n == 0 {
      assert Alone(family, own[..0]) == Start(family);
    } else {
      AloneAfterWaits(family, own[..n]);
      OneMoreWait(family, own[0].status, own[0].payload, n - 1);
    }
  }

  lemma OutcomeAfterWaits(family: Family, status: Status, payload: Payload, waits: nat)
    requires family != Search && PayloadFits(family, status, payload)
    ensures ViewOutcome(AfterWaits(family, status, payload, waits)) ==
            if waits > 0 && Rereads(status, payload) then Dangling else Meaning(status, payload)
  {}

  /** What a completed wait gives: the meaning of the call's own event, except that a
      row which decodes to something can be taken only once. */
  function Settled(own: seq<OwnStep>): Outcome {
    if own == [] || !own[0].Got? then Raised(GARBAGE)
    else if |own| > 1 && Rereads(own[0].status, own[0].payload) then Dangling
    else Meaning(own[0].status, own[0].payload)
  }

  /** What a caller is to get for this event. */
  ghost predicate GivesBack(status: Status, payload: Payload, o: Outcome) {
    match status
    case SUCCESS =>
      (match payload
       case NoPayload => o == Returned(Yes)
       case Number(n) =>
         && o.Returned? && o.value.Counted? && INT64_MIN <= o.value.n <= INT64_MAX
         && (o.value.n - n) % UINT64_SIZE == 0
       case Text(pointer, _) => o.Returned? && o.value.Described? && Spells(pointer, o.value.s)
       case Row(attrs) =>
         if RowDecodable(attrs) then o.Returned? && o.value.Attrs? && RowReadAs(attrs, o.value.row)
         else o == Malformed)
    case NOTFOUND => o == Returned(Absent)
    case CMPFAIL => o == Returned(No)
    case _ => o == Raised(status)
  }

  lemma RowMeaning(attrs: seq<WireAttribute>, o: Outcome)
    ensures GivesBack(SUCCESS, Row(attrs), o) <==>
            o == if RowDecodable(attrs) then Returned(Attrs(RowOf(attrs))) else Malformed
  {
    RowReads(attrs);
    if RowDecodable(attrs) && o.Returned? && o.value.Attrs? && RowReadAs(attrs, o.value.row) {
      RowReadOnce(attrs, o.value.row, RowOf(attrs));
    }
  }

  /** The meaning of an event is what is to be given for it, and nothing else. */
  lemma MeaningExactly(status: Status, payload: Payload, o: Outcome)
    ensures GivesBack(status, payload, o) <==> o == Meaning(status, payload)
  {
    if status == SUCCESS {
      match payload
      case Row(attrs) => RowMeaning(attrs, o);
      case Text(pointer, _) =>
        if o.Returned? && o.value.Described? {
          CStringSpells(pointer, o.value.s);
        }
        CStringSpells(pointer, CString(pointer));
      case _ =>
    }
  }

  /** The value of a wait.  In every run, what encode_return makes of a finished call
      that is no search is what is to be given for that call's own terminal event,
      except that a second wait on a row which decodes, and is not empty, reads a freed
      buffer. */
  lemma {:induction false} WaitReturnsOwnResult(t: seq<Step>, h: nat)
    requires Legal(t) && h < |Issues(t)| && Issues(t)[h].1 != Search
    requires h < |Run(t).resps| && Run(t).resps[h].finished
    ensures Own(t, h) != [] && Own(t, h)[0].Got?
    ensures ReturnOutcome(Run(t).resps[h], Run(t).buffers) == Settled(Own(t, h))
    ensures var Got(status, payload) := Own(t, h)[0];
            var r, o := Run(t).resps[h], ReturnOutcome(Run(t).resps[h], Run(t).buffers);
            && PayloadFits(Issues(t)[h].1, status, payload)
            && (o == Dangling <==> r.taken > 0 && Rereads(status, payload))
            && (o != Dangling ==> GivesBack(status, payload, o))
  {
    OwnEventOnce(t, h);
    NonInterference(t, h);
    OutcomeIsLocal(Run(t), h);
    var own := Own(t, h);
    AloneAfterWaits(Issues(t)[h].1, own);
    OutcomeAfterWaits(Issues(t)[h].1, own[0].status, own[0].payload, |own| - 1);
    MeaningExactly(own[0].status, own[0].payload, Meaning(own[0].status, own[0].payload));
  }

  /** What a call of each family gives on SUCCESS. */
  predicate OfKind(family: Family, o: Outcome) {
    match family
    case StatusOnly => o == Returned(Yes)
    case Count => o.Returned? && o.value.Counted?
    case Description => o.Returned? && o.value.Described?
    case Attributes => o == Malformed || (o.Returned? && o.value.Attrs?)
    case Search => true
  }

  /** The kind of every successful wait follows from the call: a get gives a row, a
      count a number, a put-like call true.  Only a get that has been waited for before
      can fail to, exactly when it reads a freed buffer. */
  lemma {:induction false} ResultKindFollowsCall(t: seq<Step>, h: nat)
    requires Legal(t) && h < |Issues(t)| && Issues(t)[h].1 != Search
    requires h < |Run(t).resps| && Run(t).resps[h].finished && Run(t).resps[h].status == SUCCESS
    ensures Own(t, h) != [] && Own(t, h)[0].Got?
    ensures var family, r, payload := Issues(t)[h].1, Run(t).resps[h], Own(t, h)[0].payload;
            var o := ReturnOutcome(r, Run(t).buffers);
            && (r.taken > 0 && Rereads(SUCCESS, payload) ==> family == Attributes && o == Dangling)
            && (!(r.taken > 0 && Rereads(SUCCESS, payload)) ==> OfKind(family, o))
  {
    WaitReturnsOwnResult(t, h);
    OwnStatus(t, h);
  }

  lemma OwnStatus(t: seq<Step>, h: nat)
    requires Legal(t) && h < |Issues(t)| && Issues(t)[h].1 != Search
    requires h < |Run(t).resps| && Run(t).resps[h].finished
    ensures Own(t, h) != [] && Own(t, h)[0].Got? && Run(t).resps[h].status == Own(t, h)[0].status
  {
    OwnEventOnce(t, h);
    NonInterference(t, h);
    AloneAfterWaits(Issues(t)[h].1, Own(t, h));
  }

  lemma MeaningReadsBack(family: Family, payload: Payload)
    requires PayloadFits(family, SUCCESS, payload)
    ensures family == Description ==>
              && payload.Text?
              && (Meaning(SUCCESS, payload) == Returned(Described(payload.target)) <==>
                  Spells(payload.pointer, payload.target))
    ensures family == Count ==>
              && payload.Number?
              && (Meaning(SUCCESS, payload) == Returned(Counted(payload.n)) <==> payload.n <= INT64_MAX)
  {
    if payload.Text? {
      CStringSpells(payload.pointer, payload.target);
    }
  }

  /** A description that is longer than a pointer never comes back.  A shorter one does
      exactly when its pointer's bytes spell it, and a count exactly when its cell reads
      the same signed. */
  lemma {:induction false} CellsReadBack(t: seq<Step>, h: nat)
    requires Legal(t) && h < |Issues(t)| && h < |Run(t).resps| && Run(t).resps[h].finished
    requires Issues(t)[h].1 != Search && Run(t).resps[h].status == SUCCESS
    ensures Own(t, h) != [] && Own(t, h)[0].Got?
    ensures var payload, o := Own(t, h)[0].payload, ReturnOutcome(Run(t).resps[h], Run(t).buffers);
            match Issues(t)[h].1
            case Description =>
              && payload.Text?
              && (|payload.target| > WORD ==> o != Returned(Described(payload.target)))
              && (o == Returned(Described(payload.target)) <==> Spells(payload.pointer, payload.target))
            case Count =>
              && payload.Number?
              && (o == Returned(Counted(payload.n)) <==> payload.n <= INT64_MAX)
            case _ => true
  {
    WaitReturnsOwnResult(t, h);
    OwnStatus(t, h);
    MeaningReadsBack(Issues(t)[h].1, Own(t, h)[0].payload);
  }

  /** The little-endian bytes of 0x7f3a5c201060. */
  const SOME_POINTER: Word :=
    [0x60 as char, 0x10 as char, 0x20 as char, 0x5c as char, 0x3a as char, 0x7f as char, NUL, NUL]

  /** A description that comes back as the bytes of its pointer, and a count that comes
      back negative. */
  lemma CellsMisread()
    ensures var payload := Text(SOME_POINTER, "an index");
            && PayloadFits(Description, SUCCESS, payload)
            && Meaning(SUCCESS, payload) == Returned(Described(SOME_POINTER[..6]))
            && SOME_POINTER[..6] != payload.target
    ensures var payload := Number(INT64_MAX + 1);
            PayloadFits(Count, SUCCESS, payload) && Meaning(SUCCESS, payload) == Returned(Counted(INT64_MIN))
  {
    CStringSpells(SOME_POINTER, SOME_POINTER[..6]);
    assert ReadInt64(INT64_MAX + 1) == INT64_MIN;
  }

  /** The event that finishes a call is its first own step. */
  lemma FinishingEvent(t: seq<Step>, id: int, status: Status, payload: Payload, h: nat)
    requires Legal(t + [Library(Event(id, status, payload))])
    requires h < |Issues(t)| && Issues(t)[h] == (id, Issues(t)[h].1) && Issues(t)[h].1 != Search
    requires h < |Run(t).resps| && !Run(t).resps[h].finished
    ensures Own(t + [Library(Event(id, status, payload))], h) == [Got(status, payload)]
  {
    var t' := t + [Library(Event(id, status, payload))];
    assert t'[..|t'| - 1] == t;
    LegalPrefix(t', |t|);
    OwnEventOnce(t, h);
    assert !Ended(Issues(t)[h].1, Own(t, h));
  }

  /** A get, its row, and one wait. */
  function GetAndWait(attrs: seq<WireAttribute>): seq<Step> {
    [Issue(0, Attributes), Library(Event(0, SUCCESS, Row(attrs))), Take(0)]
  }

  lemma AfterGetAndWait(attrs: seq<WireAttribute>)
    ensures var t := GetAndWait(attrs);
            && Legal(t)
            && Run(t).resps ==
               [NewResp(0, Attributes).(finished := true, status := SUCCESS, attrs := Some(0), taken := 1)]
            && Run(t).buffers == [Buffer(0, attrs, if RowDecodable(attrs) then 1 else 0)]
  {
    var event := Library(Event(0, SUCCESS, Row(attrs)));
    var s1 := Issued(INIT, 0, Attributes);
    ReachedStart();
    ReachedIssue([], INIT, 0, Attributes);
    GetAnswered(attrs);
    ReachedStep([] + [Issue(0, Attributes)], s1, event);
    var s2 := Apply(s1, event);
    ReachedTake(([] + [Issue(0, Attributes)]) + [event], s2, 0);
    assert (([] + [Issue(0, Attributes)]) + [event]) + [Take(0)] == GetAndWait(attrs);
    ReachedIsRun(GetAndWait(attrs), Taken(s2, 0));
    RowTaken(s2, attrs);
  }

  lemma RowTaken(s: Sys, attrs: seq<WireAttribute>)
    requires s.resps == [NewResp(0, Attributes).(finished := true, status := SUCCESS, attrs := Some(0))]
    requires s.buffers == [Buffer(0, attrs, 0)]
    ensures Taken(s, 0).resps == [s.resps[0].(taken := 1)]
    ensures Taken(s, 0).buffers == [Buffer(0, attrs, if RowDecodable(attrs) then 1 else 0)]
  {}

  /** The row of a get has been taken once: a second wait reads it after it was freed. */
  lemma SecondWaitDangles(attrs: seq<WireAttribute>)
    requires RowDecodable(attrs) && attrs != []
    ensures Legal(GetAndWait(attrs))
    ensures var s := Run(GetAndWait(attrs));
            |s.resps| == 1 && s.resps[0].finished && ReturnOutcome(s.resps[0], s.buffers) == Dangling
  {
    AfterGetAndWait(attrs);
  }

  /** A row that does not decode: the wait has raised, and nothing has freed the row. */
  lemma BadRowLeaks()
    ensures var t := GetAndWait([WireAttribute("a", WGeneric)]);
            && Legal(t) && |Run(t).resps| == 1 && |Run(t).buffers| == 1
            && Run(t).resps[0].taken == 1 && Run(t).buffers[0].destroyed == 0
            && ReturnOutcome(Run(t).resps[0], Run(t).buffers) == Malformed
  {
    var attrs := [WireAttribute("a", WGeneric)];
    assert !Decodable(attrs[0].value);
    AfterGetAndWait(attrs);
  }

  lemma GetAnswered(attrs: seq<WireAttribute>)
    ensures var s, event := Issued(INIT, 0, Attributes), Library(Event(0, SUCCESS, Row(attrs)));
            && Enabled(s, event)
            && var s' := Apply(s, event);
            && s'.resps == [NewResp(0, Attributes).(finished := true, status := SUCCESS, attrs := Some(0))]
            && s'.buffers == [Buffer(0, attrs, 0)]
  {}

  lemma SettledBy(t: seq<Step>, s: Sys, h: nat)
    requires Reached(t, s) && h < |s.resps| && s.resps[h].family != Search && s.resps[h].finished
    ensures h < |Issues(t)|
    ensures ReturnOutcome(s.resps[h], s.buffers) == Settled(Own(t, h))
  {
    ReachedIsRun(t, s);
    IssuesMatch(t);
    WaitReturnsOwnResult(t, h);
  }

  // --------------------------------------------------------------------- iterators

  /** The items of a search's events, in the order they were dispatched. */
  function ItemsIn(own: seq<OwnStep>): seq<Item> {
    if own == [] then []
    else
      var before := ItemsIn(own[..|own| - 1]);
      match own[|own| - 1]
      case Got(status, payload) => before + ItemsOf(status, payload)
      case _ => before
  }

  lemma FifoStep(q: Request, own: OwnStep)
    requires q.family == Search
    ensures var q' := Advance(q, own);
            q'.yielded + q'.backlog ==
            (q.yielded + q.backlog) + if own.Got? then ItemsOf(own.status, own.payload) else []
  {
    var q' := Advance(q, own);
    match own
    case Got(status, payload) =>
      var items := ItemsOf(status, payload);
      assert q'.yielded == q.yielded && q'.backlog == q.backlog + items;
      assert q.yielded + (q.backlog + items) == (q.yielded + q.backlog) + items;
    case Nexted => assert q.backlog != [] ==> q.backlog == [q.backlog[0]] + q.backlog[1..];
    case Took =>
  }

  lemma {:induction false} AloneIsFifo(own: seq<OwnStep>)
    ensures Alone(Search, own).yielded + Alone(Search, own).backlog == ItemsIn(own)
  {
    if own != [] {
      var n := |own| - 1;
      AloneKeepsFamily(Search, own[..n]);
      AloneIsFifo(own[..n]);
      FifoStep(Alone(Search, own[..n]), own[n]);
    }
  }

  /** An event that queues nothing: the end of the search, or a row whose decoding
      raised out of the loop. */
  predicate Silent(own: OwnStep) {
    own.Got? && (own.status == SEARCHDONE || (own.status == SUCCESS && !GoodRow(own.status, own.payload)))
  }

  /** The item that is to be queued for an event: its row, or its error. */
  ghost predicate IsItem(own: OwnStep, item: Item) {
    && own.Got?
    && if own.status == SUCCESS then
         own.payload.Row? && item.Found? && item.value.Attrs? && RowReadAs(own.payload.attrs, item.value.row)
       else item == Problem(own.status)
  }

  lemma ItemOfEvent(own: OwnStep)
    requires own.Got? && PayloadFits(Search, own.status, own.payload)
    ensures if Silent(own) then ItemsOf(own.status, own.payload) == []
            else |ItemsOf(own.status, own.payload)| == 1 && IsItem(own, ItemsOf(own.status, own.payload)[0])
  {
    if own.payload.Row? {
      RowReads(own.payload.attrs);
    }
  }

  /** The events that are to queue an item, in order. */
  function Queueing(own: seq<OwnStep>): seq<OwnStep> {
    if own == [] then []
    else
      var last := own[|own| - 1];
      Queueing(own[..|own| - 1]) + (if last.Got? && !Silent(last) then [last] else [])
  }

  /** One item for each, in the same order. */
  ghost predicate ItemsMatch(items: seq<Item>, events: seq<OwnStep>) {
    |items| == |events| && forall k :: 0 <= k < |events| ==> IsItem(events[k], items[k])
  }

  /** Every event of a search queues its own item, except its last and rows that do not
      decode. */
  lemma {:induction false} OneItemPerEvent(own: seq<OwnStep>)
    requires forall i :: 0 <= i < |own| && own[i].Got? ==> PayloadFits(Search, own[i].status, own[i].payload)
    ensures ItemsMatch(ItemsIn(own), Queueing(own))
  {
    if own != [] {
      var n := |own| - 1;
      OneItemPerEvent(own[..n]);
      if own[n].Got? {
        ItemOfEvent(own[n]);
      }
    }
  }

  /** First in, first out, exactly once: in every run, the items an iterator has
      yielded followed by those in its backlog are the items of the events dispatched
      to it, one for each that is to queue one, in order. */
  lemma {:induction false} IteratorFifo(t: seq<Step>, h: nat)
    requires Legal(t) && h < |Issues(t)| && Issues(t)[h].1 == Search
    ensures h < |Run(t).resps|
    ensures Run(t).resps[h].yielded + Run(t).resps[h].backlog == ItemsIn(Own(t, h))
    ensures ItemsMatch(ItemsIn(Own(t, h)), Queueing(Own(t, h)))
  {
    var own := Own(t, h);
    NonInterference(t, h);
    AloneIsFifo(own);
    OwnStepsFit(t, h);
    forall i | 0 <= i < |own| && own[i].Got?
      ensures PayloadFits(Search, own[i].status, own[i].payload)
    {
      assert Fits(Search, own[..i], own[i]);
    }
    OneItemPerEvent(own);
  }

  lemma FifoIn(t: seq<Step>, s: Sys, h: nat)
    requires Reached(t, s) && h < |s.resps| && s.resps[h].family == Search
    ensures s.resps[h].yielded + s.resps[h].backlog == ItemsIn(Own(t, h))
    ensures ItemsMatch(ItemsIn(Own(t, h)), Queueing(Own(t, h)))
  {
    ReachedIsRun(t, s);
    IssuesMatch(t);
    IteratorFifo(t, h);
  }

  predicate Drained(s: Sys, h: nat) {
    h < |s.resps| && s.resps[h].finished && s.resps[h].backlog == []
  }

  lemma DrainedStep(s: Sys, step: Step, h: nat)
    requires Inv(s) && Enabled(s, step) && Drained(s, h) && s.resps[h].family == Search
    ensures Drained(Apply(s, step), h)
    ensures Apply(s, step).resps[h].family == Search && Apply(s, step).resps[h].yielded == s.resps[h].yielded
  {
    if step.Library? && step.reply.Event? {
      EventOnTable(s, step.reply.id, step.reply.status, step.reply.payload);
    }
  }

  /** A false answer of has_next? is final.  Once a search is done and its backlog empty,
      its last event was SEARCHDONE, what it has yielded is the items of all its events,
      one for each that brought one, in order; and however the run goes on, there is
      nothing more to yield. */
  lemma {:induction false} DrainedForGood(t: seq<Step>, more: seq<Step>, h: nat)
    requires Legal(t + more) && h < |Issues(t)| && Issues(t)[h].1 == Search && Drained(Run(t), h)
    ensures Drained(Run(t + more), h) && Run(t + more).resps[h].family == Search
    ensures Run(t + more).resps[h].yielded == ItemsIn(Own(t, h))
    ensures ItemsMatch(ItemsIn(Own(t, h)), Queueing(Own(t, h)))
    ensures Ended(Search, Own(t, h))
    decreases |more|
  {
    var t' := t + more;
    assert t'[..|t|] == t;
    LegalPrefix(t', |t|);
    if more == [] {
      assert t' == t;
      DrainedYields(t, h);
    } else {
      var n := |more| - 1;
      assert t'[..|t'| - 1] == t + more[..n];
      LastStep(t');
      DrainedForGood(t, more[..n], h);
      Reachable(t + more[..n]);
      DrainedStep(Run(t + more[..n]), t'[|t'| - 1], h);
    }
  }

  lemma DrainedYields(t: seq<Step>, h: nat)
    requires Legal(t) && h < |Issues(t)| && Issues(t)[h].1 == Search && Drained(Run(t), h)
    ensures Run(t).resps[h].family == Search && Run(t).resps[h].yielded == ItemsIn(Own(t, h))
    ensures ItemsMatch(ItemsIn(Own(t, h)), Queueing(Own(t, h))) && Ended(Search, Own(t, h))
  {
    IssuesMatch(t);
    IteratorFifo(t, h);
    NonInterference(t, h);
    AloneKeepsFamily(Search, Own(t, h));
  }
}
