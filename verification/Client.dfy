// The client object, its responses and the library they share.  Every method is
// proved to take steps of the state machine; `log` records them.
module Client {
  import opened RubyValues
  import opened DataStructures
  import opened Decoder
  import opened Machine
  import Calls
  import opened Schedules
  import opened Requests
  import Solo

  /** The foreign memory of one request: the library writes it, the response reads it. */
  class Cells {
    ghost const owner: nat
    var status: Status
    var attrs: Option<nat>
    var count: SizeT
    var text: Word

    ghost predicate Hold(r: Resp)
      reads this
    {
      status == r.status && attrs == r.attrs && count == r.count && text == r.text
    }

    constructor (ghost owner: nat)
      ensures this.owner == owner
      ensures status == GARBAGE && attrs == None && count == 0 && text == NULL
    {
      this.owner := owner;
      status, attrs, count, text := GARBAGE, None, 0, NULL;
    }
  }

  /** Where a request's converted arguments live until its response is collected. */
  class Arena {
    constructor () {}
  }

  datatype Pending = Pending(arena: Arena, cells: Cells, search: bool)

  datatype Delivered = Delivered(attrs: seq<WireAttribute>, destroyed: nat)

  /** The C client library, as far as the binding's contract with it goes. */
  class Library {
    var pending: map<int, Pending>
    var buffers: seq<Delivered>
    var calls: seq<seq<Calls.Arg>>   // the arguments of every call made

    constructor ()
      ensures pending == map[] && buffers == [] && calls == []
    {
      pending, buffers, calls := map[], [], [];
    }

    /** Accepts a call under the id `ret`, or refuses it with a negative one. */
    method Call(args: seq<Calls.Arg>, arena: Arena, cells: Cells, search: bool, ret: int)
      modifies this`pending, this`calls
      ensures calls == old(calls) + [args]
      ensures pending == if ret < 0 then old(pending) else old(pending)[ret := Pending(arena, cells, search)]
    {
      calls := calls + [args];
      if ret >= 0 {
        pending := pending[ret := Pending(arena, cells, search)];
      }
    }

    /** The loop call that returns `id`: the only one that writes its cells. */
    method Loop(id: int, status: Status, payload: Payload)
      requires id in pending
      modifies this`pending, this`buffers, pending[id].cells
      ensures var cells := old(pending)[id].cells;
              && cells.status == status
              && cells.attrs == (if payload.Row? then Some(|old(buffers)|) else old(cells.attrs))
              && cells.count == (if payload.Number? then payload.n else old(cells.count))
              && cells.text == (if payload.Text? then payload.pointer else old(cells.text))
      ensures buffers == old(buffers) + if payload.Row? then [Delivered(payload.attrs, 0)] else []
      ensures pending == if old(pending)[id].search && status != SEARCHDONE then old(pending) else old(pending) - {id}
    {
      var Pending(_, cells, search) := pending[id];
      cells.status := status;
      match payload {
        case NoPayload =>
        case Row(attrs) =>
          cells.attrs := Some(|buffers|);
          buffers := buffers + [Delivered(attrs, 0)];
        case Number(n) => cells.count := n;
        case Text(pointer, _) => cells.text := pointer;
      }
      if !search || status == SEARCHDONE {
        pending := pending - {id};
      }
    }

    method DestroyAttrs(ptr: nat)
      requires ptr < |buffers|
      modifies this`buffers
      ensures buffers == old(buffers)[ptr := old(buffers)[ptr].(destroyed := old(buffers)[ptr].destroyed + 1)]
    {
      var b := buffers[ptr];
      buffers := buffers[ptr := b.(destroyed := b.destroyed + 1)];
    }

    ghost predicate Holds(bs: seq<Buffer>)
      reads this`buffers
    {
      && |buffers| == |bs|
      && forall b :: 0 <= b < |bs| ==> buffers[b] == Delivered(bs[b].attrs, bs[b].destroyed)
    }
  }

  /** A Deferred or, if `isIterator`, an Iterator. */
  class Response {
    const client: Client
    const cells: Cells
    const arena: Arena
    const isIterator: bool
    var reqid: Option<int>
    var finished: bool
    var statusFlag: bool
    var attrsFlag: bool
    var descriptionFlag: bool
    var countFlag: bool
    var backlog: seq<Item>
    ghost const number: nat
    ghost var yielded: seq<Item>
    ghost var taken: nat

    constructor (client: Client, isIterator: bool, ghost number: nat)
      ensures this.client == client && this.isIterator == isIterator && this.number == number
      ensures fresh(cells) && Blank()
    {
      this.client, this.isIterator, this.number := client, isIterator, number;
      cells := new Cells(number);
      arena := new Arena();
      reqid, finished := None, false;
      statusFlag, attrsFlag, descriptionFlag, countFlag := false, false, false, false;
      backlog, yielded, taken := [], [], 0;
    }

    /** What the library holds of it while its call is outstanding. */
    ghost function AsPending(family: Family): Pending {
      Pending(arena, cells, family == Machine.Search)
    }

    /** As it is before its call has been made. */
    ghost predicate Blank()
      reads this, cells
    {
      && cells.owner == number
      && cells.status == GARBAGE && cells.attrs == None && cells.count == 0 && cells.text == NULL
      && reqid == None && !finished && !attrsFlag && !descriptionFlag && !countFlag
      && backlog == [] && yielded == [] && taken == 0
    }

    /** Sets the flags of the call's family, and the request id. */
    method Expect(call: Calls.Call, ret: int)
      requires isIterator == (call.Search? || call.SortedSearch?)
      requires !attrsFlag && !descriptionFlag && !countFlag
      modifies this`statusFlag, this`attrsFlag, this`descriptionFlag, this`countFlag, this`reqid
      ensures FlagsFor(call) && FlagsSay(Calls.FamilyOf(call)) && reqid == Some(ret)
    {
      statusFlag := true;
      match call {
        case Get(_, _) => attrsFlag := true;
        case GetPartial(_, _, _) => attrsFlag := true;
        case Search(_, _) => attrsFlag := true;
        case SortedSearch(_, _, _, _, _) => attrsFlag := true;
        case SearchDescribe(_, _) => descriptionFlag := true;
        case Count(_, _) => countFlag := true;
        case _ =>
      }
      reqid := Some(ret);
    }

    /** What each call sets. */
    ghost predicate FlagsFor(call: Calls.Call)
      reads this
    {
      && statusFlag
      && (attrsFlag <==> call.Get? || call.GetPartial? || call.Search? || call.SortedSearch?)
      && (descriptionFlag <==> call.SearchDescribe?)
      && (countFlag <==> call.Count?)
      && (isIterator <==> call.Search? || call.SortedSearch?)
    }

    /** What a wait gives on SUCCESS, by the flags. */
    ghost predicate SuccessFits(o: Outcome)
      reads this
    {
      && (countFlag ==> o.Returned? && o.value.Counted?)
      && (descriptionFlag ==> o.Returned? && o.value.Described?)
      && (attrsFlag ==> o == Malformed || (o.Returned? && o.value.Attrs?))
      && (!countFlag && !descriptionFlag && !attrsFlag ==> o == Returned(Yes))
    }

    lemma KindByFlags(family: Family, replies: seq<Reply>, n: nat, o: Outcome)
      requires FlagsSay(family) && family != Machine.Search && AnsweredBy(family, replies, n, o)
      ensures replies[n - 1].status == SUCCESS ==> SuccessFits(o)
    {}

    /** The flags of the response say what its call waits for; no two of them hold. */
    ghost predicate FlagsSay(family: Family)
      reads this
    {
      && (isIterator <==> family == Machine.Search)
      && (attrsFlag <==> WantsRow(family))
      && (descriptionFlag <==> family == Description)
      && (countFlag <==> family == Machine.Count)
    }

    ghost predicate Is(r: Resp, h: nat)
      reads this, cells
    {
      && number == h && cells.owner == h
      && FlagsSay(r.family) && statusFlag
      && reqid == Some(r.reqid) && finished == r.finished
      && cells.Hold(r)
      && backlog == r.backlog && yielded == r.yielded && taken == r.taken
    }

    method EncodeReturn(ghost r: Resp, ghost bs: seq<Buffer>) returns (o: Outcome)
      requires FlagsSay(r.family) && cells.Hold(r) && client.lib.Holds(bs)
      requires cells.attrs.Some? ==> cells.attrs.value < |client.lib.buffers|
      modifies client.lib`buffers
      ensures o == ReturnOutcome(r, bs)
      ensures client.lib.Holds(Freed(r, bs))
    {
      match cells.status
      case SUCCESS =>
        if descriptionFlag {
          o := Returned(Described(CString(cells.text)));   // read_string on the pointer's own cell
        } else if countFlag {
          o := Returned(Counted(ReadInt64(cells.count)));
        } else if attrsFlag {
          if cells.attrs.None? {
            return Returned(Attrs(map[]));
          }
          var ptr := cells.attrs.value;
          if client.lib.buffers[ptr].destroyed > 0 && client.lib.buffers[ptr].attrs != [] {
            client.lib.DestroyAttrs(ptr);
            return Dangling;
          }
          RowDecodes(client.lib.buffers[ptr].attrs);
          var row := DecodeRow(client.lib.buffers[ptr].attrs);
          if row.None? {
            return Malformed;   // raised before the buffer is destroyed
          }
          client.lib.DestroyAttrs(ptr);
          o := Returned(Attrs(row.value));
        } else {
          o := Returned(Yes);
        }
      case NOTFOUND => o := Returned(Absent);
      case CMPFAIL => o := Returned(No);
      case _ => o := Raised(cells.status);
    }

    /** This response is registered with a client in the state `s`. */
    ghost predicate KnownIn(s: Sys)
      reads this, client, client.lib, client.issued, client.AllCells()
    {
      client.Models(s) && number < |client.issued| && client.issued[number] == this
    }

    /** Response#callback. */
    method Finish(ghost s: Sys)
      requires KnownIn(s) && reqid.Some?
      modifies this`finished, client`ops
      ensures client.Models(Finished(s, number))
    {
      finished := true;
      client.DeleteOp(reqid.value);
      ghost var s' := Finished(s, number);
      assert forall i :: 0 <= i < |client.issued| && i != number ==> client.issued[i] != this;
      assert client.ModelsResps(s');
    }

    method Push(item: Item, ghost s: Sys)
      requires KnownIn(s)
      modifies this`backlog
      ensures client.Models(Queued(s, number, item))
    {
      backlog := backlog + [item];
      assert forall i :: 0 <= i < |client.issued| && i != number ==> client.issued[i] != this;
      assert client.ModelsResps(Queued(s, number, item));
    }

    /** Iterator#callback over Response#callback. */
    method Callback(ghost s: Sys) returns (raised: bool)
      requires KnownIn(s)
      requires reqid.Some? && reqid.value in s.ops && s.ops[reqid.value] == number
      requires cells.attrs.Some? ==> cells.attrs.value < |client.lib.buffers|
      modifies this`finished, this`backlog, client`ops, client.lib`buffers
      ensures client.Models(Dispatch(s, reqid.value).0)
      ensures Dispatch(s, reqid.value).1 == if raised then DecodeRaised else Handled
    {
      raised := false;
      if !isIterator || cells.status == SEARCHDONE {
        Finish(s);
      } else if cells.status == SUCCESS {
        ghost var r := s.resps[number];
        var o := EncodeReturn(r, s.buffers);
        ghost var s1 := s.(buffers := Freed(r, s.buffers));
        assert client.Models(s1);
        if !o.Returned? {
          return true;
        }
        Push(Found(o.value), s1);
      } else {
        Push(Problem(cells.status), s);
      }
    }
  }

  class Client {
    const lib: Library
    var ops: map<int, Response>
    ghost var issued: seq<Response>
    ghost var log: seq<Step>
    ghost var sys: Sys

    constructor ()
      ensures Valid() && fresh(lib) && issued == [] && log == [] && ops == map[]
    {
      lib := new Library();
      ops, issued, log, sys := map[], [], [], INIT;
      ReachedStart();
    }

    ghost function AllCells(): set<Cells>
      reads this`issued
    {
      set r | r in issued :: r.cells
    }

    ghost predicate ModelsResps(s: Sys)
      reads this`issued, issued, AllCells()
    {
      && |issued| == |s.resps|
      && forall i :: 0 <= i < |issued| ==> issued[i].client == this && issued[i].Is(s.resps[i], i)
    }

    ghost predicate ModelsOps(s: Sys)
      reads this`issued, this`ops
    {
      && ops.Keys == s.ops.Keys
      && forall id :: id in s.ops ==> s.ops[id] < |issued| && ops[id] == issued[s.ops[id]]
    }

    /** What the library will write to are cells of issued responses. */
    ghost predicate ModelsPending(s: Sys, pending: map<int, Pending>)
      reads this`issued
    {
      && pending.Keys == s.pending.Keys
      && forall id :: id in s.pending ==>
           && s.pending[id] < |issued| && s.pending[id] < |s.resps|
           && pending[id] == issued[s.pending[id]].AsPending(s.resps[s.pending[id]].family)
    }

    ghost predicate Models(s: Sys)
      reads this`ops, this`issued, lib`pending, lib`buffers, issued, AllCells()
    {
      ModelsResps(s) && ModelsOps(s) && ModelsPending(s, lib.pending) && lib.Holds(s.buffers)
    }

    ghost predicate Valid()
      reads this, lib, issued, AllCells()
    {
      Reached(log, sys) && Models(sys)
    }

    method DeleteOp(reqid: int)
      modifies this`ops
      ensures ops == old(ops) - {reqid}
    {
      ops := ops - {reqid};
    }

    ghost predicate Knows(r: Response)
      reads this`issued, r
    {
      r.number < |issued| && issued[r.number] == r
    }

    /** Enters a response that has just been issued under `ret`. */
    method Register(resp: Response, ret: int, ghost family: Family, ghost s: Sys, ghost pending: map<int, Pending>)
      requires ModelsResps(s) && ModelsOps(s) && ModelsPending(s, pending) && lib.Holds(s.buffers)
      requires lib.pending == pending[ret := resp.AsPending(family)]
      requires ret !in s.pending
      requires resp.client == this && resp.Is(NewResp(ret, family), |issued|)
      modifies this`ops, this`issued
      ensures Models(Machine.Issued(s, ret, family))
      ensures issued == old(issued) + [resp] && ops == old(ops)[ret := resp]
    {
      ghost var s' := Machine.Issued(s, ret, family);
      ops := ops[ret := resp];
      issued := issued + [resp];
      assert ModelsResps(s');
      assert ModelsOps(s');
      assert ModelsPending(s', lib.pending);
    }

    /** Makes the library call, sets the flags and registers the response. */
    method Submit(call: Calls.Call, args: seq<Calls.Arg>, resp: Response, ret: int, rc: Status, ghost s: Sys)
      returns (r: IssueResult)
      requires Models(s)
      requires ret >= 0 ==> ret !in s.pending
      requires resp.client == this && resp.number == |issued| && resp.Blank()
      requires resp.isIterator == (call.Search? || call.SortedSearch?)
      requires resp !in issued && resp.cells !in AllCells()
      modifies this`ops, this`issued, lib`pending, lib`calls, resp
      ensures lib.calls == old(lib.calls) + [args]
      ensures if ret < 0 then r == Refused(rc) else r == Issued(resp)
      ensures ret >= 0 ==> resp.FlagsFor(call) && resp.Is(NewResp(ret, Calls.FamilyOf(call)), |old(issued)|)
      ensures ret < 0 ==> Models(s) && issued == old(issued) && ops == old(ops) && lib.pending == old(lib.pending)
      ensures ret >= 0 ==>
                && issued == old(issued) + [resp] && ops == old(ops)[ret := resp]
                && Models(Machine.Issued(s, ret, Calls.FamilyOf(call)))
    {
      lib.Call(args, resp.arena, resp.cells, resp.isIterator, ret);
      if ret < 0 {
        return Refused(rc);
      }
      resp.Expect(call, ret);
      assert ModelsResps(s);
      Register(resp, ret, Calls.FamilyOf(call), s, old(lib.pending));
      r := Issued(resp);
    }

    ghost method Record(step: Step, s: Sys)
      requires Reached(log + [step], s) && Models(s)
      modifies this`log, this`sys
      ensures Valid() && log == old(log) + [step] && sys == s
    {
      log, sys := log + [step], s;
    }

    /** Makes the call and, if the library accepts it, records it. */
    method Send(call: Calls.Call, args: seq<Calls.Arg>, resp: Response, ret: int, rc: Status) returns (r: IssueResult)
      requires Valid() && (ret >= 0 ==> ret !in lib.pending)
      requires resp.client == this && resp.number == |issued| && resp.Blank()
      requires resp.isIterator == (call.Search? || call.SortedSearch?)
      requires resp !in issued && resp.cells !in AllCells()
      modifies this, lib`pending, lib`calls, resp
      ensures Valid() && lib.calls == old(lib.calls) + [args]
      ensures if ret < 0 then r == Refused(rc) else r == Issued(resp)
      ensures ret >= 0 ==>
                && issued == old(issued) + [resp] && ops == old(ops)[ret := resp]
                && resp.FlagsFor(call) && resp.Is(NewResp(ret, Calls.FamilyOf(call)), |old(issued)|)
                && log == old(log) + [Step.Issue(ret, Calls.FamilyOf(call))]
                && sys == Machine.Issued(old(sys), ret, Calls.FamilyOf(call))
      ensures ret < 0 ==> issued == old(issued) && ops == old(ops) && lib.pending == old(lib.pending) && log == old(log)
    {
      ghost var family := Calls.FamilyOf(call);
      assert ret >= 0 ==> ret !in sys.pending;
      r := Submit(call, args, resp, ret, rc, sys);
      if ret >= 0 {
        ReachedIssue(log, sys, ret, family);
        Record(Step.Issue(ret, family), Machine.Issued(sys, ret, family));
      }
    }

    /** Issues a call.  The library answers the call itself with `ret`, and with `rc` in
        the status cell when it refuses.  A failed conversion or a refusal changes
        neither the op table nor any response; success adds one fresh entry. */
    method Issue(call: Calls.Call, ret: int, rc: Status) returns (r: IssueResult)
      requires Valid()
      requires ret >= 0 ==> ret !in lib.pending
      modifies this, lib`pending, lib`calls
      ensures Valid()
      ensures match Calls.ArgsOf(call)
              case Failed(e) => r == ConversionRaised(e) && lib.calls == old(lib.calls)
              case Overrun => r == Overran && lib.calls == old(lib.calls)
              case Done(args) =>
                && lib.calls == old(lib.calls) + [args] && Calls.HandsOver(call, args)
                && if ret < 0 then r == Refused(rc) else r.Issued?
      ensures r.Issued? ==>
                && fresh(r.response) && fresh(r.response.cells)
                && issued == old(issued) + [r.response]
                && r.response.FlagsFor(call) && r.response.Is(NewResp(ret, Calls.FamilyOf(call)), |old(issued)|)
                && ops == old(ops)[ret := r.response]
                && log == old(log) + [Step.Issue(ret, Calls.FamilyOf(call))]
                && sys == Machine.Issued(old(sys), ret, Calls.FamilyOf(call))
      ensures !r.Issued? ==>
                issued == old(issued) && ops == old(ops) && lib.pending == old(lib.pending) && log == old(log)
    {
      var resp := new Response(this, call.Search? || call.SortedSearch?, |issued|);
      var args := Calls.ConvertArgs(call);
      match args
      case Failed(e) => r := ConversionRaised(e);
      case Overrun => r := Overran;
      case Done(converted) =>
        r := Send(call, converted, resp, ret, rc);
    }

    /** The library writes the cells of one of the issued responses. */
    method LibraryLoop(id: int, status: Status, payload: Payload, ghost s: Sys)
      requires Models(s) && id in s.pending && s.pending[id] < |s.resps|
      modifies lib`pending, lib`buffers, AllCells()
      ensures Models(Written(s, id, status, payload))
    {
      ghost var h, w := s.pending[id], Written(s, id, status, payload);
      lib.Loop(id, status, payload);
      assert forall i :: 0 <= i < |issued| && i != h ==> issued[i].cells != issued[h].cells;
      assert ModelsResps(w);
      assert ModelsPending(w, lib.pending);
    }

    /** Looks up the owner of `id` and runs its callback. */
    method RunCallback(id: int, ghost s: Sys) returns (op: Response, raised: bool)
      requires Models(s) && id in s.ops && s.ops[id] < |s.resps| && s.resps[s.ops[id]].reqid == id
      requires s.resps[s.ops[id]].attrs.Some? ==> s.resps[s.ops[id]].attrs.value < |s.buffers|
      modifies this`ops, lib`buffers, issued`finished, issued`backlog
      ensures Models(Dispatch(s, id).0)
      ensures raised <==> Dispatch(s, id).1 == DecodeRaised
      ensures Knows(op) && op.reqid == Some(id)
    {
      op := ops[id];
      raised := op.Callback(s);
    }

    /** The library's loop call returns an id, and its owner's callback runs. */
    method HandleEvent(replies: seq<Reply>, pos: nat, ghost base: seq<Step>, ghost path: seq<Sys>)
      returns (end: End, op: Response)
      requires CanAnswer(base, path, replies) && pos < |replies| && replies[pos].Event? && Models(path[pos])
      modifies this`ops, lib`pending, lib`buffers, issued`finished, issued`backlog, AllCells()
      ensures LoopResult(path, replies, pos) == (end, pos + 1) && Models(path[pos + 1])
      ensures Knows(op) && op.reqid.Some? && Serves(op.reqid.value, replies[pos])
    {
      var Event(id, status, payload) := replies[pos];
      EventReply(base, path, replies, pos, id, status, payload);
      ghost var s := path[pos];
      EventOwner(s, id, status, payload);
      LibraryLoop(id, status, payload, s);
      var raised;
      op, raised := RunCallback(id, Written(s, id, status, payload));
      end := if raised then RowError else Served;
    }

    /** The retry loop around hyperdex_client_loop: INTERRUPTED is retried, any other
        failure raises.  Served says that the next reply is an event. */
    method Poll(replies: seq<Reply>, start: nat, ghost path: seq<Sys>) returns (end: End, pos: nat)
      requires Answers(path, replies) && start <= |replies| && Models(path[start])
      ensures start <= pos <= |replies| && Models(path[pos])
      ensures if end == Served then
                && pos < |replies| && replies[pos].Event?
                && LoopResult(path, replies, start) == LoopResult(path, replies, pos)
              else LoopResult(path, replies, start) == (end, pos)
    {
      pos := start;
      while pos < |replies| && !replies[pos].Event?
        invariant start <= pos <= |replies| && path[pos] == path[start]
        invariant LoopResult(path, replies, start) == LoopResult(path, replies, pos)
      {
        QuietReply(path, replies, pos);
        var rc := if replies[pos].LoopFailed? then replies[pos].rc else INTERRUPTED;
        pos := pos + 1;
        if rc != INTERRUPTED {
          return LoopError(rc), pos;
        }
      }
      end := if pos == |replies| then NoReply else Served;
    }

    /** Client#loop: takes replies until one names a request, and runs that request's
        callback. */
    method Loop(replies: seq<Reply>, start: nat, ghost base: seq<Step>, ghost path: seq<Sys>)
      returns (end: End, op: Response?, pos: nat)
      requires CanAnswer(base, path, replies) && start <= |replies| && Models(path[start])
      modifies this`ops, lib`pending, lib`buffers, issued`finished, issued`backlog, AllCells()
      ensures LoopResult(path, replies, start) == (end, pos)
      ensures pos <= |replies| && Models(path[pos])
      ensures end == Served ==>
                pos > 0 && op != null && Knows(op) && op.reqid.Some? && Serves(op.reqid.value, replies[pos - 1])
    {
      op := null;
      end, pos := Poll(replies, start, path);
      if end == Served {
        var owner;
        end, owner := HandleEvent(replies, pos, base, path);
        op, pos := owner, pos + 1;
      }
    }

    /** A call of Client#loop by the application itself. */
    method LoopOnce(replies: seq<Reply>, ghost path: seq<Sys>) returns (end: End, op: Response?, used: nat)
      requires Valid() && CanAnswer(log, path, replies)
      modifies this`ops, this`log, this`sys, lib`pending, lib`buffers, issued`finished, issued`backlog, AllCells()
      ensures Valid() && used <= |replies| && log == LogAt(old(log), replies, used) && sys == path[used]
      ensures LoopResult(path, replies, 0) == (end, used)
      ensures end == Served ==>
                used > 0 && op != null && Knows(op) && op.reqid.Some? && Serves(op.reqid.value, replies[used - 1])
    {
      ReachedOnce(log, sys, path[0]);
      end, op, used := Loop(replies, 0, log, path);
      RecordReplies(replies, used, path);
    }

    ghost method RecordReplies(replies: seq<Reply>, used: nat, path: seq<Sys>)
      requires CanAnswer(log, path, replies) && used <= |replies| && Models(path[used])
      modifies this`log, this`sys
      ensures Valid() && log == LogAt(old(log), replies, used) && sys == path[used]
    {
      PathReached(log, path, replies, used);
      log, sys := LogAt(log, replies, used), path[used];
    }

    /** One call of Client#loop on behalf of an unfinished response: `over` says that
        its wait has ended. */
    method Pump(r: Response, replies: seq<Reply>, start: nat, ghost base: seq<Step>, ghost path: seq<Sys>)
      returns (over: bool, end: End, pos: nat)
      requires CanAnswer(base, path, replies) && start <= |replies| && Models(path[start])
      requires Knows(r) && !r.finished && r.reqid.Some?
      modifies this`ops, lib`pending, lib`buffers, issued`finished, issued`backlog, AllCells()
      ensures start <= pos <= |replies| && Models(path[pos])
      ensures WaitResult(path, replies, start, r.reqid.value) ==
                if over then (end, pos) else WaitResult(path, replies, pos, r.reqid.value)
      ensures !over ==> start < pos && !r.finished && r.backlog == old(r.backlog)
      ensures over && end == Served ==> if r.isIterator then r.finished || r.backlog != [] else r.finished
    {
      var op;
      LoopSeenBy(base, path, replies, start, r.number);
      end, op, pos := Loop(replies, start, base, path);
      over := end != Served || op.reqid == r.reqid;
    }

    /** The loop of Deferred#wait. */
    method PumpUntilFinished(r: Response, replies: seq<Reply>, ghost base: seq<Step>, ghost path: seq<Sys>)
      returns (end: End, used: nat)
      requires CanAnswer(base, path, replies) && Models(path[0])
      requires Knows(r) && !r.isIterator && r.reqid.Some? && !r.finished
      modifies this`ops, lib`pending, lib`buffers, issued`finished, issued`backlog, AllCells()
      ensures used <= |replies| && Models(path[used])
      ensures WaitResult(path, replies, 0, r.reqid.value) == (end, used)
      ensures end == Served ==> r.finished
    {
      end, used := Served, 0;
      while !r.finished
        invariant used <= |replies| && Models(path[used])
        invariant WaitResult(path, replies, 0, r.reqid.value) ==
                  if r.finished then (Served, used) else WaitResult(path, replies, used, r.reqid.value)
        invariant r.finished ==> end == Served
        decreases |replies| - used, if r.finished then 0 else 1
      {
        var over;
        over, end, used := Pump(r, replies, used, base, path);
        if over && end != Served {
          return;
        }
      }
    }

    ghost method CountTake(r: Response, s: Sys)
      requires Knows(r) && ModelsResps(s)
      modifies r`taken
      ensures var q := s.resps[r.number];
              ModelsResps(s.(resps := s.resps[r.number := q.(taken := q.taken + 1)]))
    {
      r.taken := r.taken + 1;
      assert forall i :: 0 <= i < |issued| && i != r.number ==> issued[i] != r;
    }

    /** encode_return, and the count of completed waits. */
    method Settle(r: Response, ghost s: Sys) returns (o: Outcome)
      requires Models(s) && Knows(r)
      requires s.resps[r.number].attrs.Some? ==> s.resps[r.number].attrs.value < |s.buffers|
      modifies lib`buffers, r`taken
      ensures Models(Taken(s, r.number))
      ensures o == ReturnOutcome(s.resps[r.number], s.buffers)
    {
      ghost var s' := Taken(s, r.number);
      o := r.EncodeReturn(s.resps[r.number], s.buffers);
      CountTake(r, s);
      assert ModelsOps(s') && ModelsPending(s', lib.pending);
    }

    /** encode_return at the end of a wait. */
    method Complete(r: Response) returns (o: Outcome)
      requires Valid() && Knows(r) && !r.isIterator && r.finished
      modifies this`log, this`sys, lib`buffers, r`taken
      ensures Valid() && log == old(log) + [Take(r.number)]
      ensures SettledIn(old(log), r.number, o)
    {
      ReachedRespOk(log, sys, r.number);
      SettledBy(log, sys, r.number);
      ReachedTake(log, sys, r.number);
      o := Settle(r, sys);
      Record(Take(r.number), Taken(sys, r.number));
    }

    /** A wait up to the point where its call is finished. */
    method AwaitOwn(r: Response, replies: seq<Reply>, ghost path: seq<Sys>) returns (end: End, used: nat)
      requires Valid() && Knows(r) && !r.isIterator && r.reqid.Some? && !r.finished
      requires CanAnswer(log, path, replies)
      modifies this`ops, this`log, this`sys, lib`pending, lib`buffers, issued`finished, issued`backlog, AllCells()
      ensures Valid() && used <= |replies| && log == LogAt(old(log), replies, used)
      ensures WaitResult(path, replies, 0, r.reqid.value) == (end, used)
      ensures end == Served ==>
                && r.finished && r.number < |path[0].resps|
                && forall o :: SettledIn(log, r.number, o) ==>
                    AnsweredBy(path[0].resps[r.number].family, replies, used, o)
    {
      ReachedOnce(log, sys, path[0]);
      end, used := PumpUntilFinished(r, replies, log, path);
      if end == Served {
        WaitGivesReply(log, path, replies, used, r.number);
      }
      RecordReplies(replies, used, path);
    }

    /** A wait for a call that has been issued. */
    method WaitIssued(r: Response, replies: seq<Reply>, ghost path: seq<Sys>) returns (end: End, o: Outcome, used: nat)
      requires Valid() && Knows(r) && !r.isIterator && r.reqid.Some?
      requires CanAnswer(log, path, replies)
      modifies this`ops, this`log, this`sys, lib`pending, lib`buffers
      modifies issued`finished, issued`backlog, AllCells(), r`taken
      ensures Valid() && used <= |replies| && r.number < |path[0].resps|
      ensures if old(r.finished) then end == Served && used == 0
              else WaitResult(path, replies, 0, r.reqid.value) == (end, used)
      ensures end != Served ==> log == LogAt(old(log), replies, used)
      ensures end == Served ==>
                && log == LogAt(old(log), replies, used) + [Take(r.number)]
                && SettledIn(LogAt(old(log), replies, used), r.number, o)
      ensures end == Served && !old(r.finished) ==> AnsweredBy(path[0].resps[r.number].family, replies, used, o)
    {
      end, o, used := Served, Raised(GARBAGE), 0;
      ReachedOnce(log, sys, path[0]);
      assert r.number < |sys.resps|;
      if r.finished {
        RecordReplies(replies, 0, path);
      } else {
        end, used := AwaitOwn(r, replies, path);
      }
      if end == Served {
        o := Complete(r);
      }
    }

    /** A Deferred that no call was issued for has no id and its cells are as they were
        made. */
    method WaitUnissued(r: Response) returns (o: Outcome)
      requires Valid() && r.client == this && r.Blank() && !r.isIterator
      modifies lib`buffers
      ensures Valid() && o == Raised(GARBAGE)
    {
      o := r.EncodeReturn(NewResp(0, StatusOnly), sys.buffers);
    }

    ghost function FamilyOf(r: Response, s: Sys): (family: Family)
      requires Valid() && Knows(r) && Reached(log, s)
      reads this, lib, issued, AllCells(), r
      ensures r.number < |s.resps| && family == s.resps[r.number].family && r.FlagsSay(family)
    {
      ReachedOnce(log, sys, s);
      s.resps[r.number].family
    }

    /** Deferred#wait: pumps the shared loop until its own call is finished, whatever
        other calls the replies are for, and then gives its own result.  It ends at the
        first reply that raises or is for this call; it never returns exactly when there
        is no such reply.  Without a call there is nothing to wait for, and it raises. */
    method Wait(r: Response, replies: seq<Reply>, ghost path: seq<Sys>) returns (end: End, o: Outcome, used: nat)
      requires Valid() && CanAnswer(log, path, replies)
      requires !r.isIterator && if r.reqid.Some? then Knows(r) else r.client == this && r.Blank()
      modifies this`ops, this`log, this`sys, lib`pending, lib`buffers
      modifies issued`finished, issued`backlog, AllCells(), r`taken
      ensures Valid() && used <= |replies|
      ensures r.reqid.None? ==> end == Served && used == 0 && o == Raised(GARBAGE) && log == old(log)
      ensures r.reqid.Some? ==>
                if old(r.finished) then end == Served && used == 0
                else WaitResult(path, replies, 0, r.reqid.value) == (end, used)
      ensures end != Served ==> log == LogAt(old(log), replies, used)
      ensures r.reqid.Some? && end == Served ==>
                && log == LogAt(old(log), replies, used) + [Take(r.number)]
                && SettledIn(LogAt(old(log), replies, used), r.number, o)
      ensures r.reqid.Some? && end == Served && !old(r.finished) ==>
                && r.number < |path[0].resps| && AnsweredBy(path[0].resps[r.number].family, replies, used, o)
                && (replies[used - 1].status == SUCCESS ==> r.SuccessFits(o))
    {
      if r.reqid.None? {
        end, used := Served, 0;
        o := WaitUnissued(r);
      } else {
        ghost var waiting, family := !r.finished, FamilyOf(r, path[0]);
        end, o, used := WaitIssued(r, replies, path);
        if waiting && end == Served {
          r.KindByFlags(family, replies, used, o);
        }
      }
    }

    /** The loop of Iterator#has_next?. */
    method PumpUntilItem(r: Response, replies: seq<Reply>, ghost base: seq<Step>, ghost path: seq<Sys>)
      returns (end: End, used: nat)
      requires CanAnswer(base, path, replies) && Models(path[0])
      requires Knows(r) && r.isIterator && r.reqid.Some? && !r.finished && r.backlog == []
      modifies this`ops, lib`pending, lib`buffers, issued`finished, issued`backlog, AllCells()
      ensures used <= |replies| && Models(path[used])
      ensures WaitResult(path, replies, 0, r.reqid.value) == (end, used)
      ensures end == Served ==> r.finished || r.backlog != []
    {
      end, used := Served, 0;
      while !(r.finished || r.backlog != [])
        invariant used <= |replies| && Models(path[used])
        invariant WaitResult(path, replies, 0, r.reqid.value) ==
                  if r.finished || r.backlog != [] then (Served, used)
                  else WaitResult(path, replies, used, r.reqid.value)
        invariant r.finished || r.backlog != [] ==> end == Served
        decreases |replies| - used, if r.finished || r.backlog != [] then 0 else 1
      {
        var over;
        over, end, used := Pump(r, replies, used, base, path);
        if over && end != Served {
          return;
        }
      }
    }

    /** Iterator#has_next?: pumps the shared loop until an item is queued or the search
        is done.  The answer is false only when the search is done and every item of its
        events has been yielded. */
    method HasNext(r: Response, replies: seq<Reply>, ghost path: seq<Sys>) returns (end: End, more: bool, used: nat)
      requires Valid() && Knows(r) && r.isIterator && r.reqid.Some?
      requires CanAnswer(log, path, replies)
      modifies this`ops, this`log, this`sys, lib`pending, lib`buffers, issued`finished, issued`backlog, AllCells()
      ensures Valid() && used <= |replies| && log == LogAt(old(log), replies, used)
      ensures old(r.finished || r.backlog != []) ==> end == Served && used == 0
      ensures old(!r.finished && r.backlog == []) ==> WaitResult(path, replies, 0, r.reqid.value) == (end, used)
      ensures end == Served ==> more == (r.backlog != []) && (!more ==> r.finished)
      ensures end == Served && old(!r.finished && r.backlog == []) ==> QueuedBy(replies, used, r.backlog, r.finished)
      ensures r.yielded + r.backlog == ItemsIn(Solo.Own(log, r.number))
    {
      end, used := Served, 0;
      ReachedOnce(log, sys, path[0]);
      if !r.finished && r.backlog == [] {
        end, used := PumpUntilItem(r, replies, log, path);
        if end == Served {
          WaitQueuesReply(log, path, replies, used, r.number);
        }
      }
      RecordReplies(replies, used, path);
      FifoIn(log, sys, r.number);
      more := r.backlog != [];
    }

    /** Iterator#next: the oldest queued item, or nil. */
    method Next(r: Response) returns (item: Option<Item>)
      requires Valid() && Knows(r) && r.isIterator
      modifies this`log, this`sys, r`backlog, r`yielded
      ensures Valid() && log == old(log) + [Step.Next(r.number)]
      ensures if old(r.backlog) == [] then item == None && r.backlog == [] && r.yielded == old(r.yielded)
              else
                && item == Some(old(r.backlog)[0]) && r.backlog == old(r.backlog)[1..]
                && r.yielded == old(r.yielded) + [item.value]
      ensures r.yielded + r.backlog == ItemsIn(Solo.Own(log, r.number))
    {
      ghost var h := r.number;
      ghost var s' := Shifted(sys, h);
      ReachedNext(log, sys, h);
      item := None;
      if r.backlog != [] {
        item := Some(r.backlog[0]);
        r.yielded := r.yielded + [r.backlog[0]];
        r.backlog := r.backlog[1..];
      }
      assert forall i :: 0 <= i < |issued| && i != h ==> issued[i] != r;
      assert ModelsResps(s');
      Record(Step.Next(h), s');
      FifoIn(log, sys, h);
    }

    /** A wait for a call that has only just been issued. */
    method WaitNew(r: Response, ghost id: int, ghost family: Family, replies: seq<Reply>, ghost path: seq<Sys>)
      returns (end: End, o: Outcome, used: nat)
      requires Valid() && Knows(r) && r.Is(NewResp(id, family), r.number) && family != Machine.Search
      requires CanAnswer(log, path, replies)
      modifies this`ops, this`log, this`sys, lib`pending, lib`buffers
      modifies issued`finished, issued`backlog, AllCells(), r`taken
      ensures Valid() && WaitResult(path, replies, 0, id) == (end, used)
      ensures end == Served ==> AnsweredBy(family, replies, used, o)
    {
      assert path[0].resps[r.number].family == family by {
        ReachedOnce(log, sys, path[0]);
      }
      end, o, used := WaitIssued(r, replies, path);
    }

    /** The synchronous form of a call: issue it, then wait for it. */
    method CallAndWait(call: Calls.Call, ret: int, rc: Status, replies: seq<Reply>, ghost path: seq<Sys>)
      returns (r: IssueResult, end: End, o: Outcome, used: nat)
      requires Valid() && Calls.FamilyOf(call) != Machine.Search
      requires ret >= 0 ==>
                 && ret !in lib.pending
                 && CanAnswer(log + [Step.Issue(ret, Calls.FamilyOf(call))], path, replies)
      modifies this, lib`pending, lib`calls, lib`buffers, issued`finished, issued`backlog, AllCells()
      ensures Valid()
      ensures !r.Issued? ==>
                issued == old(issued) && ops == old(ops) && lib.pending == old(lib.pending) && log == old(log)
      ensures r.Issued? ==> ret >= 0 && |replies| < |path| && WaitResult(path, replies, 0, ret) == (end, used)
      ensures r.Issued? && end == Served ==> AnswersCall(call, replies, used, o)
    {
      end, o, used := NoReply, Raised(GARBAGE), 0;
      r := Issue(call, ret, rc);
      if r.Issued? {
        end, o, used := WaitNew(r.response, ret, Calls.FamilyOf(call), replies, path);
        FamilyAnswers(call, replies, used, o);
      }
    }

    /** Whatever the library may still write to or read from belongs to a response that
        the client holds in its op table and that has not finished. */
    lemma WritesHitLiveCells(id: int)
      requires Valid() && id in lib.pending
      ensures id in ops && ops[id].cells == lib.pending[id].cells && ops[id].arena == lib.pending[id].arena
      ensures ops[id].reqid == Some(id) && !ops[id].finished
    {
      ReachedIsRun(log, sys);
      Reachable(log);
    }
  }

  /** `o` is what the h-th call's own steps in the run `t` give a wait. */
  ghost predicate SettledIn(t: seq<Step>, h: nat, o: Outcome) {
    h < |Solo.Issues(t)| && o == Settled(Solo.Own(t, h))
  }

  /** What each call gives on SUCCESS. */
  predicate SuccessOf(call: Calls.Call, o: Outcome) {
    match call
    case Count(_, _) => o.Returned? && o.value.Counted?
    case SearchDescribe(_, _) => o.Returned? && o.value.Described?
    case Get(_, _) => o == Malformed || (o.Returned? && o.value.Attrs?)
    case GetPartial(_, _, _) => o == Malformed || (o.Returned? && o.value.Attrs?)
    case _ => o == Returned(Yes)
  }

  /** `o` is what the last of the first n replies is to give, and of the call's kind. */
  ghost predicate AnswersCall(call: Calls.Call, replies: seq<Reply>, n: nat, o: Outcome) {
    && 0 < n <= |replies| && replies[n - 1].Event?
    && GivesBack(replies[n - 1].status, replies[n - 1].payload, o)
    && (replies[n - 1].status == SUCCESS ==> SuccessOf(call, o))
  }

  lemma FamilyAnswers(call: Calls.Call, replies: seq<Reply>, n: nat, o: Outcome)
    requires Calls.FamilyOf(call) != Machine.Search
    ensures AnsweredBy(Calls.FamilyOf(call), replies, n, o) ==> AnswersCall(call, replies, n, o)
  {}

  datatype IssueResult =
    | Issued(response: Response)
    | ConversionRaised(error: RubyError)
    | Overran
    | Refused(rc: Status)
}
