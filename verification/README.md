# HyperDex Ruby client: a verified model

hyperdex-gem binds Ruby to the HyperDex client library. This project models the parts
of it that hold state or transform data, and proves what they are for:

- **The request multiplexer.** Many requests are outstanding on one connection. Issuing
  a call registers a response object under the id that the library gives it; one shared
  `loop` takes the library's next event, whichever request it is for, and runs the
  owner's callback. `Client.dfy` has the objects (`Client`, `Response` in its Deferred
  and Iterator forms, the foreign cells that the library writes, the library's side of
  the contract). `Machine.dfy` is the same as a state machine; every method of
  `Client.dfy` is proved to take its steps, and a ghost `log` in the client records
  them. `Solo.dfy`, `SoleRun.dfy` and `Requests.dfy` prove, over every run, that a
  request behaves as if it were the only one. `Schedules.dfy` settles when a wait ends.
- **The argument compiler.** Predicates become a flat array of checks in two passes
  (`Predicates.dfy`), and the checks mean what the query means (`PredicateMeaning.dfy`).
  Nested map attributes are flattened the same way (`MapAttributes.dfy`). `Calls.dfy`
  puts the conversions together, one constructor per call signature, and says what the
  library is handed for each. `Exceptions.dfy` says which exception a call raises.
- **The value encoder and decoder.** `Encoder.dfy` and `Decoder.dfy`, over the contract
  of the data-structure library in `DataStructures.dfy`: a typed builder and a cursor.
  `RoundTrips.dfy` proves that what is written, value by value or as an attribute hash,
  is read back.

`dafny verify dfyconfig.toml` checks the whole project.

## What is assumed of the C library

`Machine.Enabled` states it. Ids are not negative and are fresh among the outstanding
requests (a finished request's id may come again). Events arrive only for outstanding
ids. A request's cells are written only by the loop call that returns its id, and a
payload accompanies SUCCESS and is the one that the call asked for. A call that is no
search gets one event; a search gets any number of events and then SEARCHDONE. The
replies of the library during one call are a parameter: any finite sequence that keeps
this contract. Running out of replies stands for a call that never returns.

## Where the code departs from what it is evidently meant to do

The model follows the code. Each departure has a concrete input and an exact condition.

- `ext/client.c:497`: the inner loop's guard does not look at its index. Conversion of
  map attributes completes exactly when every inner hash is empty
  (`AsWrittenCompletes`, `AsWrittenOverruns`). The results on flattening are for the
  guard with the bound; `FillInner` runs the loop with either guard, and `Calls.dfy`
  uses the one in the source.
- `ext/client.c:363`: the test for Set rejects nothing, so any object whose `to_a` gives
  a homogeneous array is encoded as a set (`NonSetAcceptance`, `NonSetAccepted`).
- `lib/hyperdex/client.rb:58-62` and its siblings: the test for a negative result sits
  in a loop that runs on positive ones, so a malformed tail is never reported and the
  value is cut short (`TailCutShort`). The loops of `Decoder.dfy` run with the test there
  or after the loop; the two agree exactly when the tail is not malformed
  (`TailNeverReported`).
- `lib/hyperdex/client/response.rb:50-53`: `read_string` reads the bytes of the pointer
  cell, not the string that it points to, and `read_int64` reads an unsigned cell as
  signed (`CellsMisread`). A description of more than the eight bytes of a pointer never
  comes back, a shorter one exactly when those bytes spell it; a count comes back exactly
  below 2^63 (`CellsReadBack`).
- `lib/hyperdex/client/response.rb:54-59`: a row that decodes is freed by the first wait,
  so each further wait frees it again (`BuffersConserved`), and reads its freed
  attributes exactly when it has any (`WaitReturnsOwnResult`, `SecondWaitDangles`). A row
  is never freed, however often it is waited for, exactly when it does not decode
  (`BuffersConserved`, `BadRowLeaks`).
- `lib/hyperdex/client/iterator.rb:12-13`: a search's row that does not decode raises out
  of whichever call is pumping the loop, and the row is lost. So a wait can be ended by
  another request's row (`OthersRowEndsWait`); `WaitEndsOnce` says exactly when.
- An empty container carries no element type, and decoding refuses it
  (`EmptyArrayIsRefused`): values come back exactly when they are no empty containers
  (`RoundTrip`).

## Model

| member | source | states |
|---|---|---|
| Solo.NonInterference | lib/hyperdex/client/client.rb:15-24 | In every run that keeps the contract, however its steps interleave, each call's response is in the state that its own events, waits and nexts alone would have put it in. |
| SoleRun.AsIfAlone | lib/hyperdex/client/client.rb:15-24 | Leaving every other call out of a run leaves a run that still keeps the contract, and the call's response ends in the same state. |
| SoleRun.OwnStepsFit | lib/hyperdex/client/deferred.rb:4-7 | In every run a call sees no event after its terminal one, and a wait completes only after it. |
| Requests.OwnEventOnce | lib/hyperdex/client/deferred.rb:4-7 | In every run a call that is no search sees at most one event, and after it only completed waits. |
| Requests.WaitReturnsOwnResult | lib/hyperdex/client/response.rb:47-70 | In every run the result of a wait is what is to be given for the call's own event (a row with exactly its attributes' names, each with what its last attribute reads as; the text, the number, true, nil, false or the exception); it dangles exactly on a second wait for a row that decodes and is not empty. |
| Requests.MeaningExactly | lib/hyperdex/client/response.rb:47-70 | That is the only result that is to be given for an event. |
| Requests.SecondWaitDangles | lib/hyperdex/client/response.rb:54-59 | A get, its row, and one wait: for any row that decodes and is not empty, the next wait reads a freed buffer. |
| Requests.BadRowLeaks | lib/hyperdex/client/response.rb:57-59 | A get, a row that does not decode, and one wait: the wait raised and the row has not been freed. |
| Requests.CellsReadBack | lib/hyperdex/client/response.rb:50-53 | In every run a description longer than a pointer never comes back, a shorter one exactly when the pointer's bytes begin with it and end or go on with a NUL; a count comes back exactly when it is below 2^63. |
| Requests.CellsMisread | lib/hyperdex/client/response.rb:50-53 | A description that comes back as the bytes of its eight-byte pointer, and a count that comes back negative. |
| Requests.ResultKindFollowsCall | ext/definitions.c:54-60 | On SUCCESS every wait on a get gives a row (or the decoder's error), on a count a number, on a description a text, on any other call true; the one exception, exactly, is a repeated wait on a get whose non-empty row decodes, which dangles. |
| Requests.IteratorFifo | lib/hyperdex/client/iterator.rb:9-31 | In every run what an iterator has yielded followed by its backlog is, in order, one item for each event dispatched to it that is to queue one: its error, or its row with what the attributes read as. |
| Requests.OneItemPerEvent | lib/hyperdex/client/iterator.rb:9-17 | Every event of a search queues its own row or error, except SEARCHDONE and rows that do not decode. |
| Requests.DrainedForGood | lib/hyperdex/client/iterator.rb:19-31 | Once a search is done and its backlog empty, it has yielded the items of all its events, one for each that brought one, in order, up to its SEARCHDONE; and in every longer run it has nothing more to yield. |
| Machine.ReachedExactly | lib/hyperdex/client/client.rb:15-24 | A state is passed to by a chain of steps that the contract allows exactly when the steps keep the contract and running them gives it. |
| Machine.Reachable | lib/hyperdex/client/client.rb:23-41 | The invariants of the op table, the responses and the buffers hold in every state of every run. |
| Machine.TableIsInjective | lib/hyperdex/client/client.rb:39-41 | The op table maps no two ids to one response, holds exactly the unfinished ones, and agrees with what the library has outstanding. |
| Machine.DispatchFindsOwner | lib/hyperdex/client/client.rb:23-23 | Every event finds an owner: the unfinished response issued under that id. Dispatch raises exactly on a search's row that does not decode. |
| Machine.BuffersConserved | lib/hyperdex/client/response.rb:54-59 | A delivered buffer that decodes is destroyed once if a search got it, else once per wait on its finished owner; one that does not decode never is. |
| Schedules.WaitEndsOnce | lib/hyperdex/client/deferred.rb:4-7 | A wait ends at the first reply that raises or is for its call; well exactly when some reply is for it and none up to that raises; never exactly when there is no such reply. |
| Schedules.WaitResultEnds | lib/hyperdex/client/deferred.rb:4-7 | The outcome and position computed for a wait are those of the first reply that raises or is for its call. |
| Schedules.LoopResultEnds | lib/hyperdex/client/client.rb:17-21 | A loop call retries INTERRUPTED and is ended by the first other reply. |
| Schedules.LoopSeenBy | lib/hyperdex/client/deferred.rb:5-5 | A loop call that dispatches another request's event leaves a waiting response as it was; one for it finishes it or gives it an item. |
| Schedules.WaitGivesReply | lib/hyperdex/client/deferred.rb:4-7 | The reply that ends a wait is the one event its call ever sees, and the wait gives what is to be given for that reply, of the kind of its family. |
| Schedules.WaitQueuesReply | lib/hyperdex/client/iterator.rb:19-22 | The reply that ends a wait for a search's next item queues its own row or error, or is the SEARCHDONE that ends the search. |
| Schedules.OthersRowEndsWait | lib/hyperdex/client/iterator.rb:12-13 | A run in which a wait for one call is ended by another call's undecodable row. |
| Client.Client.Issue | ext/definitions.c:31-61 | A failed conversion or a refused call leaves the op table, the library's record and the log as they were; success hands over what the call's fields say and adds one fresh entry and one blank response with the call's flags. |
| Client.Client.Register | ext/definitions.c:58-59 | Entering a response under its id takes the machine's issue step. |
| Client.Response.Expect | ext/definitions.c:54-58 | The id, and for each call its flags: the row flag for gets and searches, the description flag for search_describe, the count flag for count, none for the rest. |
| Client.Client.CallAndWait | ext/definitions.c:461-466 | The synchronous form: ends at the first reply that raises or is for the new call, and then gives what is to be given for that reply; on SUCCESS a number for count, a text for search_describe, a row for gets, true for the rest. |
| Client.Client.Poll | lib/hyperdex/client/client.rb:17-21 | The retry loop: INTERRUPTED is retried, any other failure raises, and the next event is left for dispatch. |
| Client.Client.HandleEvent | lib/hyperdex/client/client.rb:23-23 | Writing the cells and running the owner's callback takes the machine's event step; it raises exactly on an undecodable row. |
| Client.Client.Loop | lib/hyperdex/client/client.rb:15-24 | One loop call ends where and how the replies say, in the machine's state after them, and returns the dispatched response. |
| Client.Client.LoopOnce | lib/hyperdex/client/client.rb:15-24 | A direct loop call extends the log by exactly the replies it took. |
| Client.Client.Wait | lib/hyperdex/client/deferred.rb:4-7 | Pumps until its own call is finished, extends the log by the replies taken and the wait, and gives the call's own result; on a first wait, what is to be given for the very reply that ended it, of the kind its flags say. Without a call it raises at once. |
| Client.Client.HasNext | lib/hyperdex/client/iterator.rb:19-27 | Ends at an item, the end of the search or a raise, and what is then queued is what the reply that ended it brought; false only when the search is done and everything its events queued has been yielded. |
| Client.Client.Next | lib/hyperdex/client/iterator.rb:29-31 | Removes and returns the oldest item, nil on an empty backlog; order and count of items are kept. |
| Client.Client.Complete | lib/hyperdex/client/response.rb:47-70 | encode_return at the end of a wait gives the outcome that the log's own steps of the call determine. |
| Client.Response.EncodeReturn | lib/hyperdex/client/response.rb:47-70 | The result selected from the cells and flags, and the one buffer destroyed with it. |
| Client.Response.Callback | lib/hyperdex/client/iterator.rb:9-17 | The callback of either kind takes the machine's dispatch step: finish and leave the table, queue an item, or raise. |
| Client.Response.Finish | lib/hyperdex/client/response.rb:33-36 | Finishes the response and removes exactly its entry from the table. |
| Client.Client.WritesHitLiveCells | lib/hyperdex/client/response.rb:9-30 | The cells that the library may still write to and the arena that it may still read belong to a response that is unfinished and reachable through the op table. |
| Calls.CallConverts | ext/definitions.c:131-164 | A call is made with these arguments exactly when they are what its fields say: the name of the space, the encoded key, the checks, names, attributes, map attributes, sort name, limit and flag, each from its own field at its position in the signature, and no others. |
| Calls.ConvertArgs | ext/definitions.c:131-164 | The arguments that the call's fields say, converted in order, the first failure deciding. |
| Calls.ConvertNames | ext/client.c:675-694 | One attribute name per element, every slot written, in order. |
| Calls.ConvertAttributes | ext/client.c:377-418 | One record per pair, every slot written, in order. |
| Calls.NamesConvert | ext/client.c:675-694 | A list of attribute names converts exactly to the name that each symbol or string spells. |
| Calls.PairsConvert | ext/client.c:409-417 | An attribute hash converts exactly to a record per pair: the name that its key spells, and its value encoded. |
| Exceptions.CallRaises | ext/definitions.c:131-164 | A call raises what the first of its parameters that does not convert raises. |
| Exceptions.AttributesRaise | ext/client.c:409-417 | An attribute hash raises what its first failing conversion raises: pair by pair, the name and then the value. |
| Exceptions.NamesRaise | ext/client.c:675-694 | A list of names raises what its first bad name raises. |
| Predicates.EstimatePredicateSize | ext/client.c:525-564 | The first pass's count, and its rejection of arrays that mix predicates with other values. |
| Predicates.ConvertPredicate | ext/client.c:566-618 | Writes exactly the slots that sizing set aside, each once, in bounds, and returns start plus estimate. |
| Predicates.ConvertPredicates | ext/client.c:620-673 | The whole compiled query, in an array with every slot written; the fill ends at the array's end. |
| Predicates.TwoPassAgreement | ext/client.c:644-672 | For every query that passes sizing and converts, the second pass emits as many checks as the first counted. |
| PredicateMeaning.CompilationPreservesMeaning | ext/client.c:566-673 | A query compiles exactly when its names and values convert, and the compiled checks select exactly the records that the query describes. |
| PredicateMeaning.ObjectCompiles | ext/client.c:774-894 | The checks that each class's initialize leaves mean, once compiled, what the class's name says; a Range is both bounds, the base class never compiles. |
| PredicateMeaning.MembersConcat | ext/client.c:594-607 | An array of predicates emits the concatenation of its members' checks, or the first failing member's exception. |
| PredicateMeaning.RangeIsTwoBounds | ext/client.c:834-844 | A Range compiles to what the array of GreaterEqual and LessEqual with its bounds compiles to. |
| Exceptions.QueryRaises | ext/client.c:525-673 | A query that is no hash or mixes predicates with other values is a TypeError before anything is converted; any other raises what its first failing conversion raises: entry by entry, the name and then the operands. |
| MapAttributes.FillInner | ext/client.c:497-512 | The inner loop with either guard: the records of one attribute in their slots, each written once, or the exception, or the overrun. |
| MapAttributes.ConvertMapAttributes | ext/client.c:439-514 | The flattened records, in an array with every slot written. |
| MapAttributes.AsWrittenCompletes | ext/client.c:497-497 | With the guard as it stands, conversion completes exactly when every inner hash is empty. |
| MapAttributes.AsWrittenOverruns | ext/client.c:497-497 | One entry is enough to run past the end; with the bound it converts. |
| Exceptions.AsWrittenEnds | ext/client.c:464-513 | With the guard as it stands, what is no hash of hashes is a TypeError, and else the first attribute with entries decides: its first failing conversion raises, and if none fails the loop overruns. |
| Exceptions.FlattenRaises | ext/client.c:490-513 | With the bound, the first failing conversion raises: entry by entry, the name, the key, the value. |
| MapAttributes.Placement | ext/client.c:464-513 | With the bound, entry (i, j) lands at the i-th prefix sum plus j, and the prefix sums account for every record. |
| MapAttributes.FlattensExactly | ext/client.c:490-513 | Flattening succeeds exactly when every entry's name, key and value convert. |
| MapAttributes.RegroupGivesNested | ext/client.c:490-513 | Regrouping the records by attribute gives the nested hash with names and values converted and attributes without entries left out. |
| MapAttributes.FlattenRegroup | ext/client.c:490-513 | For names and keys that stay apart, an attribute comes back exactly when it had entries, with exactly its keys and their values. |
| RubyValues.CString | ext/client.c:146-147 | A symbol's name ends at its first NUL. |
| RubyValues.NameOfExactly | ext/client.c:92-108 | A name is exactly what a symbol spells up to its first NUL, or a string without NUL; a string with one is an ArgumentError, and anything else a TypeError. |
| RubyValues.UnsignedExactly | ext/client.c:431-437 | A limit is a number without its fraction, modulo 2^64, from -2^63 up to 2^64; other numbers are out of range, and nothing else converts. |
| DataStructures.Builder.Insert | ext/client.c:112-128 | The assumed builder contract: mixed kinds and out-of-turn map insertions are refused without effect. |
| DataStructures.Cursor.Next | lib/hyperdex/ffi/ds.rb:52-72 | The assumed cursor contract: each element once with a positive result, then the final result for ever. |
| Encoder.ConvertElem | ext/client.c:130-180 | One container element converted and inserted, or the exception of its conversion or of the builder. |
| Encoder.ConvertItems | ext/client.c:201-208 | The list and set loops insert every element, stopping at the first exception. |
| Encoder.ConvertMap | ext/client.c:251-292 | The map loop alternates keys and values, so finalizing cannot fail. |
| Encoder.ConvertType | ext/client.c:294-375 | The typed value of every Ruby value, or its exception. |
| Encoder.EncodeExactly | ext/client.c:294-375 | Strings, symbols, integers in range, floats, and containers of one sort of them convert; an integer out of range, an object without a to_a and any other type raise RangeError, NoMethodError and TypeError. |
| Encoder.ContainerAccepts | ext/client.c:201-243 | List and set conversion succeed exactly when all elements are names, all integers in range or all floats, and then lose, add and reorder nothing. |
| Encoder.MapAccepts | ext/client.c:273-286 | Map conversion succeeds exactly when the keys are of one such sort and the values of one. |
| Encoder.MapNeverOutOfTurn | ext/client.c:278-285 | The wrong-state code is never returned: at every pair the map loop reaches, neither the key's insertion nor the value's after it is out of turn. |
| Encoder.ContainerRaises | ext/client.c:116-128 | The exception of a list is that of its first element out of range, of no scalar type, or of another sort than the first. |
| Encoder.MapRaises | ext/client.c:278-285 | The exception of a map is that of its first offending pair, and in it of the key before the value. |
| Encoder.NonSetAcceptance | ext/client.c:362-369 | An object that is no Set is accepted exactly when its to_a gives a homogeneous array. |
| Encoder.NonSetAccepted | ext/client.c:362-369 | Such an object. |
| Decoder.BuildList | lib/hyperdex/client.rb:52-100 | With the test in the loop or after it: the ServerError, or exactly the cursor's cells before its first non-positive result, in order, nil for a NULL string. |
| Decoder.BuildSet | lib/hyperdex/client.rb:102-150 | The same, with a set whose members are exactly the values of those cells. |
| Decoder.BuildMap | lib/hyperdex/client.rb:152-321 | The same, with a map of exactly those keys, each with its last value. |
| Decoder.BuildAttribute | lib/hyperdex/client.rb:18-327 | What the attribute is to be read as, or the ServerError, with the loops' test in either place. |
| Decoder.DecodesExactly | lib/hyperdex/client.rb:18-327 | Decoding gives what an attribute is to be read as and nothing else, and raises exactly on malformed numbers and documents and on types it has no case for. |
| Decoder.RowReads | lib/hyperdex/client.rb:6-12 | A row that decodes has exactly its attributes' names, each with what its last attribute is to be read as. |
| Decoder.MapHoldsKeys | lib/hyperdex/client.rb:159-171 | A decoded map holds exactly the cursor's keys. |
| Decoder.MapLastWriteWins | lib/hyperdex/client.rb:159-171 | Each key of a decoded map has the value of its last occurrence. |
| Decoder.TailNeverReported | lib/hyperdex/client.rb:58-62 | No container raises, and a malformed tail only cuts it short; with the test after the loop it raises exactly on a malformed tail, so the two agree exactly on the others. |
| Decoder.TailCutShort | lib/hyperdex/client.rb:75-79 | Such a value. |
| Decoder.RowDecodes | lib/hyperdex/client.rb:6-12 | A row decodes exactly when each of its attributes does. |
| Decoder.RowLastWriteWins | lib/hyperdex/client.rb:6-12 | A name in a row has the value of its last attribute. |
| Decoder.RowHoldsNames | lib/hyperdex/client.rb:6-12 | A row holds exactly its attributes' names. |
| RoundTrips.RoundTrip | ext/client.c:182-375 | Whatever order the server sends elements in, a converted value decodes exactly when it is no empty container, and then reads back: a list in order, a set as exactly its elements, a hash with all its keys and for each a value that was given for it. |
| RoundTrips.DistinctKeysReadBack | ext/client.c:273-286 | Keys that stay apart once symbols have become strings come back with their own values. |
| RoundTrips.PutThenGet | ext/client.c:409-417 | For every attribute hash that converts, whichever of several values put under one name the server keeps: the row decodes exactly when no value in it was an empty container, and then has exactly the names that the keys spell, each with a value put under it. |
| RoundTrips.GetReturnsWhatWasPut | lib/hyperdex/client/response.rb:54-59 | In every run the first wait on a get that was sent such a row returns what was put, or raises exactly when a value in the row was an empty container. |
| RoundTrips.AnswerReadsBack | lib/hyperdex/client/response.rb:54-59 | Whatever is to be given for such a row, and so what a wait gives, is what was put. |
| RoundTrips.NamedOnceReadsBack | ext/client.c:409-417 | An attribute named once comes back with its own value. |
| RoundTrips.RowRepresentable | ext/client.c:409-417 | Every attribute hash that converts can be sent back, so the previous two are never vacuous. |
| RoundTrips.EmptyArrayIsRefused | lib/hyperdex/client.rb:323-325 | An empty array converts, to a value that cannot be read back. |
| RoundTrips.Representable | ext/client.c:182-375 | Every converted value can be sent back, so the round trip is never vacuous. |

## Left out

- The C client library, the network and the servers: only the contract above.
- The byte layout of containers, packed numbers, floating-point bits (floats are reals) and JSON documents.
- Allocation failure, so the out-of-memory branches.
- The size cell beside the attribute pointer: a buffer carries its own length.
- Machines whose pointers are not eight bytes.
- RoundTrips.RoundTrip: of a hash key given twice once symbols have become strings, which of its values comes back is up to the library.
- DataStructures.Builder.Insert: never answers out-of-memory or string-too-long; both are limits of the library.
- What reading past the end of an array does: the overrun at `ext/client.c:500` is an outcome of its own, after which the model says nothing.
- Predicate objects are known by what they were made from, and their structs are built from that where the conversion looks at them (`StructOf`), so a predicate re-initialised while a query that holds it is being converted is not covered.
- The limit of a sorted search is converted as Ruby converts integers and floats; objects with a to_int of their own are not.
- The subclass relation of Deferred and Iterator is a constant of one Response class, as is their shared constructor.
- Error messages, and the lookup of exception classes by status: errors are status codes.
- The admin client, `poll_fd`, the loop timeout, garbage collection beyond reachability through the op table, and the one-line forwarders after `ext/definitions.c:456` other than the wait they share.
