// What the library answers during one call: a finite sequence of loop returns, any
// that keeps the environment contract.
module Schedules {
  import opened DataStructures
  import opened Decoder
  import opened Machine
  import opened Solo
  import opened Requests

  ghost predicate MovesAt(path: seq<Sys>, replies: seq<Reply>, k: nat)
    requires k < |replies| && |path| == |replies| + 1
  {
    Enabled(path[k], Library(replies[k])) && path[k + 1] == Apply(path[k], Library(replies[k]))
  }

  /** Every reply keeps the contract when its turn comes; path[k] is the state after
      the first k replies. */
  ghost predicate Answers(path: seq<Sys>, replies: seq<Reply>) {
    |path| == |replies| + 1 && forall k :: 0 <= k < |replies| ==> MovesAt(path, replies, k)
  }

  function Steps(replies: seq<Reply>): (r: seq<Step>)
    ensures |r| == |replies|
  {
    seq(|replies|, i requires 0 <= i < |replies| => Library(replies[i]))
  }

  /** The run after the first n replies. */
  function LogAt(log: seq<Step>, replies: seq<Reply>, n: nat): seq<Step>
    requires n <= |replies|
  {
    log + Steps(replies[..n])
  }

  /** From the run `log`, the library can give these replies. */
  ghost predicate CanAnswer(log: seq<Step>, path: seq<Sys>, replies: seq<Reply>) {
    Answers(path, replies) && Reached(log, path[0])
  }

  lemma {:induction false} PathReached(log: seq<Step>, path: seq<Sys>, replies: seq<Reply>, n: nat)
    requires CanAnswer(log, path, replies) && n <= |replies|
    ensures Reached(LogAt(log, replies, n), path[n])
  {
    if n == 0 {
      assert log + Steps(replies[..0]) == log;
    } else {
      PathReached(log, path, replies, n - 1);
      assert MovesAt(path, replies, n - 1);
      ReachedStep(LogAt(log, replies, n - 1), path[n - 1], Library(replies[n - 1]));
      LogExtends(log, replies, n - 1);
    }
  }

  lemma QuietReply(path: seq<Sys>, replies: seq<Reply>, n: nat)
    requires Answers(path, replies) && n < |replies| && !replies[n].Event?
    ensures path[n + 1] == path[n]
    ensures replies[n] != LoopFailed(INTERRUPTED)
  {
    assert MovesAt(path, replies, n);
  }

  lemma EventReply(
    log: seq<Step>, path: seq<Sys>, replies: seq<Reply>, n: nat, id: int, status: Status, payload: Payload)
    requires CanAnswer(log, path, replies) && n < |replies| && replies[n] == Event(id, status, payload)
    ensures Inv(path[n]) && Enabled(path[n], Library(Event(id, status, payload)))
    ensures path[n + 1] == Dispatch(Written(path[n], id, status, payload), id).0
  {
    PathReached(log, path, replies, n);
    assert MovesAt(path, replies, n);
    ReachedIsRun(LogAt(log, replies, n), path[n]);
    Reachable(LogAt(log, replies, n));
  }

  /** A reply that makes the loop raise: an error other than INTERRUPTED, or a search's
      row that will not decode. */
  predicate Disturbs(s: Sys, reply: Reply) {
    match reply
    case Interrupted => false
    case LoopFailed(_) => true
    case Event(id, _, payload) =>
      && id in s.pending && s.pending[id] < |s.resps|
      && s.resps[s.pending[id]].family == Search
      && payload.Row? && !RowDecodable(payload.attrs)
  }

  predicate Serves(id: int, reply: Reply) {
    reply.Event? && reply.id == id
  }

  /** The k-th reply neither raises nor is for `id`. */
  ghost predicate PassesBy(path: seq<Sys>, replies: seq<Reply>, k: nat, id: int)
    requires k < |replies| < |path|
  {
    !Disturbs(path[k], replies[k]) && !Serves(id, replies[k])
  }

  ghost predicate Uneventful(path: seq<Sys>, replies: seq<Reply>, n: nat, id: int)
    requires n <= |replies| < |path|
  {
    forall k :: 0 <= k < n ==> PassesBy(path, replies, k, id)
  }

  /** How a call of Client#loop, or a whole wait, ends. */
  datatype End =
    | Served               // a reply was dispatched; for a wait, one for its own call
    | LoopError(rc: Status)
    | RowError             // a search's row did not decode
    | NoReply              // it never returns

  /** The last of the first n replies brings about `end`. */
  ghost predicate Causes(end: End, path: seq<Sys>, replies: seq<Reply>, n: nat)
    requires 0 < n <= |replies| < |path|
  {
    match end
    case Served => replies[n - 1].Event? && !Disturbs(path[n - 1], replies[n - 1])
    case LoopError(rc) => replies[n - 1] == LoopFailed(rc)
    case RowError => replies[n - 1].Event? && Disturbs(path[n - 1], replies[n - 1])
    case NoReply => false
  }

  ghost predicate Retried(replies: seq<Reply>, start: nat, pos: nat)
    requires pos <= |replies|
  {
    forall k :: start <= k < pos ==> replies[k] == Interrupted
  }

  /** One call of Client#loop: INTERRUPTED is retried, and the first other reply ends
      it. */
  ghost predicate LoopEnds(end: End, path: seq<Sys>, replies: seq<Reply>, start: nat, pos: nat)
    requires start <= pos <= |replies| < |path|
  {
    if end == NoReply then pos == |replies| && Retried(replies, start, pos)
    else start < pos && Retried(replies, start, pos - 1) && Causes(end, path, replies, pos)
  }

  /** A wait for `id`: the first reply that raises or is for `id` ends it. */
  ghost predicate WaitEnds(end: End, path: seq<Sys>, replies: seq<Reply>, used: nat, id: int)
    requires used <= |replies| < |path|
  {
    if end == NoReply then used == |replies| && Uneventful(path, replies, used, id)
    else
      && 0 < used && Uneventful(path, replies, used - 1, id) && Causes(end, path, replies, used)
      && (end == Served ==> Serves(id, replies[used - 1]))
  }

  /** What an event does to a response that was unfinished before it. */
  lemma EventEffect(s: Sys, id: int, status: Status, payload: Payload, h: nat)
    requires Inv(s) && Enabled(s, Library(Event(id, status, payload)))
    requires h < |s.resps| && !s.resps[h].finished
    ensures var s' := Dispatch(Written(s, id, status, payload), id).0;
            && h < |s'.resps|
            && s'.resps[h].reqid == s.resps[h].reqid && s'.resps[h].family == s.resps[h].family
            && (id != s.resps[h].reqid ==> s'.resps[h] == s.resps[h])
            && (id == s.resps[h].reqid ==> (s'.resps[h].finished <==> Terminal(s.resps[h].family, status)))
            && (id == s.resps[h].reqid && s.resps[h].family == Search ==>
                  s'.resps[h].backlog == s.resps[h].backlog + ItemsOf(status, payload))
            && (id == s.resps[h].reqid && !s'.resps[h].finished && !Disturbs(s, Event(id, status, payload)) ==>
                  ItemsOf(status, payload) != [])
  {
    assert s.pending[id] == s.ops[id];
    assert id == s.resps[h].reqid <==> s.ops[id] == h;
    assert RespOk(s, h);
  }

  /** Who is called back for an event, and whether that raises. */
  lemma EventOwner(s: Sys, id: int, status: Status, payload: Payload)
    requires Inv(s) && Enabled(s, Library(Event(id, status, payload)))
    ensures var w := Written(s, id, status, payload);
            && id in s.ops && s.ops[id] < |s.resps|
            && w.ops == s.ops && |w.resps| == |s.resps|
            && var r := w.resps[s.ops[id]];
            && r.reqid == id
            && (r.attrs.Some? ==> r.attrs.value < |w.buffers|)
            && (Dispatch(w, id).1 == DecodeRaised <==> Disturbs(s, Event(id, status, payload)))
  {
    assert s.pending[id] == s.ops[id];
    assert RespOk(s, s.ops[id]);
  }

  /** What Client#loop makes of the replies from `start` on, and how many it takes. */
  function LoopResult(path: seq<Sys>, replies: seq<Reply>, start: nat): (End, nat)
    requires start <= |replies| < |path|
    decreases |replies| - start
  {
    if start == |replies| then (NoReply, start)
    else
      match replies[start]
      case Interrupted => LoopResult(path, replies, start + 1)
      case LoopFailed(rc) => (LoopError(rc), start + 1)
      case Event(_, _, _) => (if Disturbs(path[start], replies[start]) then RowError else Served, start + 1)
  }

  lemma {:induction false} LoopResultEnds(path: seq<Sys>, replies: seq<Reply>, start: nat)
    requires start <= |replies| < |path|
    ensures var (end, pos) := LoopResult(path, replies, start);
            start <= pos <= |replies| && LoopEnds(end, path, replies, start, pos)
    decreases |replies| - start
  {
    if start < |replies| && replies[start] == Interrupted {
      LoopResultEnds(path, replies, start + 1);
    }
  }

  /** What a wait for `id` makes of the replies from `start` on. */
  function WaitResult(path: seq<Sys>, replies: seq<Reply>, start: nat, id: int): (End, nat)
    requires start <= |replies| < |path|
    decreases |replies| - start
  {
    if start == |replies| then (NoReply, start)
    else
      match replies[start]
      case Interrupted => WaitResult(path, replies, start + 1, id)
      case LoopFailed(rc) => (LoopError(rc), start + 1)
      case Event(at, _, _) =>
        if Disturbs(path[start], replies[start]) then (RowError, start + 1)
        else if at == id then (Served, start + 1)
        else WaitResult(path, replies, start + 1, id)
  }

  lemma {:induction false} WaitResultEnds(path: seq<Sys>, replies: seq<Reply>, start: nat, id: int)
    requires start <= |replies| < |path| && Uneventful(path, replies, start, id)
    ensures var (end, used) := WaitResult(path, replies, start, id);
            start <= used <= |replies| && WaitEnds(end, path, replies, used, id)
    decreases |replies| - start
  {
    if start < |replies| && PassesBy(path, replies, start, id) {
      WaitResultEnds(path, replies, start + 1, id);
    }
  }

  /** One call of Client#loop as seen by a response h that had not finished: it either
      ends the wait for h, or was for another call and leaves h as it was. */
  lemma {:induction false} LoopSeenBy(log: seq<Step>, path: seq<Sys>, replies: seq<Reply>, start: nat, h: nat)
    requires CanAnswer(log, path, replies) && start <= |replies|
    requires h < |path[start].resps| && !path[start].resps[h].finished
    ensures var (end, pos) := LoopResult(path, replies, start);
            && start <= pos <= |replies| && h < |path[pos].resps| && (end != NoReply ==> start < pos)
            && var r, r' := path[start].resps[h], path[pos].resps[h];
            if end == Served && !Serves(r.reqid, replies[pos - 1]) then
              r' == r && WaitResult(path, replies, start, r.reqid) == WaitResult(path, replies, pos, r.reqid)
            else
              && WaitResult(path, replies, start, r.reqid) == (end, pos)
              && (end == Served && Terminal(r.family, replies[pos - 1].status) ==> r'.finished)
              && (end == Served && !Terminal(r.family, replies[pos - 1].status) ==> !r'.finished && r'.backlog != [])
    decreases |replies| - start
  {
    if start < |replies| {
      match replies[start]
      case Interrupted =>
        QuietReply(path, replies, start);
        LoopSeenBy(log, path, replies, start + 1, h);
      case LoopFailed(_) => QuietReply(path, replies, start);
      case Event(id, status, payload) =>
        EventReply(log, path, replies, start, id, status, payload);
        EventEffect(path[start], id, status, payload, h);
    }
  }

  /** The n-th reply is for `id`, and it raises no more than any before it. */
  ghost predicate ServesFirst(path: seq<Sys>, replies: seq<Reply>, n: nat, id: int)
    requires n < |replies| < |path|
  {
    Serves(id, replies[n]) && Uneventful(path, replies, n, id) && !Disturbs(path[n], replies[n])
  }

  /** When and how a wait ends is settled by the replies: at the first that raises or is
      for `id`.  In particular it ends well exactly when some reply is for `id` and none
      up to it raises, and never exactly when no reply raises or is for `id`. */
  lemma {:induction false} WaitEndsOnce(end: End, path: seq<Sys>, replies: seq<Reply>, used: nat, id: int)
    requires used <= |replies| < |path| && WaitEnds(end, path, replies, used, id)
    ensures end == Served <==> exists n :: 0 <= n < |replies| && ServesFirst(path, replies, n, id)
    ensures end == NoReply <==> Uneventful(path, replies, |replies|, id)
    ensures forall n :: 0 <= n < |replies| && Uneventful(path, replies, n, id) && !PassesBy(path, replies, n, id) ==>
              used == n + 1
  {
    forall n | 0 <= n < |replies| && Uneventful(path, replies, n, id) && !PassesBy(path, replies, n, id)
      ensures used == n + 1
    {
      if used - 1 < n {
        EarlierPasses(path, replies, n, id, used - 1);
      }
    }
    if Uneventful(path, replies, |replies|, id) && end != NoReply {
      EarlierPasses(path, replies, |replies|, id, used - 1);
    }
    if end == Served {
      assert ServesFirst(path, replies, used - 1, id);
    }
    if n :| 0 <= n < |replies| && ServesFirst(path, replies, n, id) {
      assert Uneventful(path, replies, n, id) && !PassesBy(path, replies, n, id);
    }
  }

  lemma EarlierPasses(path: seq<Sys>, replies: seq<Reply>, n: nat, id: int, k: nat)
    requires n <= |replies| < |path| && Uneventful(path, replies, n, id) && k < n
    ensures PassesBy(path, replies, k, id)
  {}

  lemma {:induction false} StaysWaiting(log: seq<Step>, path: seq<Sys>, replies: seq<Reply>, n: nat, h: nat)
    requires CanAnswer(log, path, replies) && n <= |replies|
    requires h < |path[0].resps| && !path[0].resps[h].finished
    requires Uneventful(path, replies, n, path[0].resps[h].reqid)
    ensures h < |path[n].resps| && path[n].resps[h] == path[0].resps[h]
  {
    if n > 0 {
      var id := path[0].resps[h].reqid;
      forall k | 0 <= k < n - 1
        ensures PassesBy(path, replies, k, id)
      {}
      StaysWaiting(log, path, replies, n - 1, h);
      assert PassesBy(path, replies, n - 1, id);
      match replies[n - 1]
      case Event(at, status, payload) =>
        EventReply(log, path, replies, n - 1, at, status, payload);
        EventEffect(path[n - 1], at, status, payload, h);
      case Interrupted => QuietReply(path, replies, n - 1);
      case LoopFailed(_) =>
    }
  }

  lemma LogExtends(log: seq<Step>, replies: seq<Reply>, n: nat)
    requires n < |replies|
    ensures LogAt(log, replies, n) + [Library(replies[n])] == LogAt(log, replies, n + 1)
  {
    assert Steps(replies[..n]) + [Library(replies[n])] == Steps(replies[..n + 1]);
  }

  /** What a wait that this reply ends gives. */
  lemma AnswerOfReply(t: seq<Step>, s: Sys, reply: Reply, h: nat)
    requires Reached(t, s) && Legal(t + [Library(reply)])
    requires h < |s.resps| && !s.resps[h].finished && s.resps[h].family != Search && Serves(s.resps[h].reqid, reply)
    ensures h < |Issues(t + [Library(reply)])|
    ensures var o := Settled(Own(t + [Library(reply)], h));
            GivesBack(reply.status, reply.payload, o) && (reply.status == SUCCESS ==> OfKind(s.resps[h].family, o))
  {
    ServedOnce(t, s, reply, h);
    MeaningExactly(reply.status, reply.payload, Meaning(reply.status, reply.payload));
  }

  lemma ServedOnce(t: seq<Step>, s: Sys, reply: Reply, h: nat)
    requires Reached(t, s) && Legal(t + [Library(reply)])
    requires h < |s.resps| && !s.resps[h].finished && s.resps[h].family != Search && Serves(s.resps[h].reqid, reply)
    ensures h < |Issues(t + [Library(reply)])| && Issues(t + [Library(reply)])[h].1 == s.resps[h].family
    ensures Own(t + [Library(reply)], h) == [Got(reply.status, reply.payload)]
    ensures PayloadFits(s.resps[h].family, reply.status, reply.payload)
  {
    ReachedIsRun(t, s);
    IssuesMatch(t);
    IssuesMatch(t + [Library(reply)]);
    assert (t + [Library(reply)])[..|t|] == t;
    FinishingEvent(t, reply.id, reply.status, reply.payload, h);
    OwnEventOnce(t + [Library(reply)], h);
  }

  /** `o` is what the last of the first n replies means, and of the kind that a call of
      that family gives. */
  ghost predicate AnsweredBy(family: Family, replies: seq<Reply>, n: nat, o: Outcome) {
    && 0 < n <= |replies| && replies[n - 1].Event?
    && GivesBack(replies[n - 1].status, replies[n - 1].payload, o)
    && (replies[n - 1].status == SUCCESS ==> OfKind(family, o))
  }

  /** The reply that ends a wait is the one event its call ever sees, so the wait gives
      what that reply means. */
  lemma {:induction false} WaitGivesReply(log: seq<Step>, path: seq<Sys>, replies: seq<Reply>, used: nat, h: nat)
    requires CanAnswer(log, path, replies)
    requires h < |path[0].resps| && !path[0].resps[h].finished && path[0].resps[h].family != Search
    requires WaitResult(path, replies, 0, path[0].resps[h].reqid) == (Served, used)
    ensures used <= |replies| && h < |Issues(LogAt(log, replies, used))|
    ensures AnsweredBy(path[0].resps[h].family, replies, used, Settled(Own(LogAt(log, replies, used), h)))
  {
    WaitResultEnds(path, replies, 0, path[0].resps[h].reqid);
    var n := used - 1;
    StaysWaiting(log, path, replies, n, h);
    PathReached(log, path, replies, n);
    PathReached(log, path, replies, used);
    LogExtends(log, replies, n);
    ReachedIsRun(LogAt(log, replies, used), path[used]);
    AnswerOfReply(LogAt(log, replies, n), path[n], replies[n], h);
  }

  /** What the last of the first n replies queues for an iterator that had nothing
      queued, and whether it ends the search. */
  ghost predicate QueuedBy(replies: seq<Reply>, n: nat, backlog: seq<Item>, finished: bool) {
    && 0 < n <= |replies| && replies[n - 1].Event?
    && (finished <==> replies[n - 1].status == SEARCHDONE)
    && if finished then backlog == []
       else |backlog| == 1 && IsItem(Got(replies[n - 1].status, replies[n - 1].payload), backlog[0])
  }

  /** The reply that ends a wait for a search's next item is the one that queues it. */
  lemma {:induction false} WaitQueuesReply(log: seq<Step>, path: seq<Sys>, replies: seq<Reply>, used: nat, h: nat)
    requires CanAnswer(log, path, replies)
    requires h < |path[0].resps| && !path[0].resps[h].finished
    requires path[0].resps[h].family == Search && path[0].resps[h].backlog == []
    requires WaitResult(path, replies, 0, path[0].resps[h].reqid) == (Served, used)
    ensures used <= |replies| && h < |path[used].resps|
    ensures QueuedBy(replies, used, path[used].resps[h].backlog, path[used].resps[h].finished)
  {
    WaitResultEnds(path, replies, 0, path[0].resps[h].reqid);
    var n := used - 1;
    StaysWaiting(log, path, replies, n, h);
    var Event(id, status, payload) := replies[n];
    EventReply(log, path, replies, n, id, status, payload);
    EventEffect(path[n], id, status, payload, h);
    ItemOfEvent(Got(status, payload));
  }

  lemma SearchThenPut()
    ensures Reached([Issue(0, Search), Issue(1, StatusOnly)], Issued(Issued(INIT, 0, Search), 1, StatusOnly))
  {
    ReachedStart();
    ReachedIssue([], INIT, 0, Search);
    assert [] + [Issue(0, Search)] == [Issue(0, Search)];
    ReachedIssue([Issue(0, Search)], Issued(INIT, 0, Search), 1, StatusOnly);
    assert [Issue(0, Search)] + [Issue(1, StatusOnly)] == [Issue(0, Search), Issue(1, StatusOnly)];
  }

  /** Another call's row can end a wait: here a search under id 0 is sent a row that
      will not decode just before the event of the put under id 1 that is waited for. */
  lemma OthersRowEndsWait(attrs: seq<WireAttribute>) returns (path: seq<Sys>, replies: seq<Reply>)
    requires !RowDecodable(attrs)
    ensures CanAnswer([Issue(0, Search), Issue(1, StatusOnly)], path, replies)
    ensures replies == [Event(0, SUCCESS, Row(attrs)), Event(1, SUCCESS, NoPayload)]
    ensures WaitResult(path, replies, 0, 1) == (RowError, 1)
  {
    SearchThenPut();
    var s0 := Issued(Issued(INIT, 0, Search), 1, StatusOnly);
    replies := [Event(0, SUCCESS, Row(attrs)), Event(1, SUCCESS, NoPayload)];
    BadRowThenPut(s0, attrs);
    var s1 := Apply(s0, Library(replies[0]));
    path := [s0, s1, Apply(s1, Library(replies[1]))];
    assert MovesAt(path, replies, 0) && MovesAt(path, replies, 1);
  }

  lemma BadRowThenPut(s: Sys, attrs: seq<WireAttribute>)
    requires s == Issued(Issued(INIT, 0, Search), 1, StatusOnly) && !RowDecodable(attrs)
    ensures Enabled(s, Library(Event(0, SUCCESS, Row(attrs)))) && Disturbs(s, Event(0, SUCCESS, Row(attrs)))
    ensures Enabled(Apply(s, Library(Event(0, SUCCESS, Row(attrs)))), Library(Event(1, SUCCESS, NoPayload)))
  {}
}
