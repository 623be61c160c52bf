/** The POSIX asynchronous socket reader: one read may be pending, and the completion
    callback may issue further reads before it returns. */
module AsyncRead {
  import opened Wrappers

  newtype Byte = b: int | 0 <= b < 256

  datatype Request = Request(buffer: nat, len: nat)

  /** A run of the completion callback: the buffer that was read into, and the bytes
      put there. Its argument is their number. */
  datatype Completion = Completion(buffer: nat, bytes: seq<Byte>)

  /** What read() does: hands over at most `count` bytes (none at the end of the
      stream), has nothing now, or fails. */
  datatype Syscall = Got(count: nat) | Again | Fail

  /** What the callback does next: it issues a read (on which the watch call and
      read() then behave as said), or returns. */
  datatype Action = Issue(request: Request, watchSucceeds: bool, outcome: Syscall) | ReturnFromCallback

  /** What happens in the message loop: the client reads, or the socket becomes readable;
      `actions` is what the callbacks do that run before the loop is back. */
  datatype Event =
    | ClientRead(request: Request, watchSucceeds: bool, outcome: Syscall, actions: seq<Action>)
    | Readable(outcome: Syscall, actions: seq<Action>)

  /** The reader, what the socket has given out of its stream (`taken`), the accepted
      reads and the runs of the callback, each in order. */
  datatype Reader = Reader(
    pending: Option<Request>,
    watching: bool,
    taken: nat,
    accepted: seq<Request>,
    completions: seq<Completion>)

  const IDLE := Reader(None, false, 0, [], [])

  // ----- The steps -----

  function Min(a: nat, b: nat): nat {
    if a <= b then a else b
  }

  /** The number of bytes read() returns when it succeeds. */
  function Count(stream: seq<Byte>, s: Reader, len: nat, outcome: Syscall): nat
    requires outcome.Got?
  {
    Min(outcome.count, Min(len, if s.taken <= |stream| then |stream| - s.taken else 0))
  }

  /** Bytes leave the stream for the buffer, and the callback starts. */
  function Complete(stream: seq<Byte>, s: Reader, buffer: nat, n: nat): Reader {
    var bytes := if s.taken + n <= |stream| then stream[s.taken..s.taken + n] else [];
    s.(taken := s.taken + n, completions := s.completions + [Completion(buffer, bytes)])
  }

  /** EnsureWatchingSocket. */
  function EnsureWatching(s: Reader, watchSucceeds: bool): Reader {
    if s.watching then s else s.(watching := watchSucceeds)
  }

  function Accept(s: Reader, request: Request): Reader {
    s.(accepted := s.accepted + [request])
  }

  /** Read, with the callbacks that run inside it; what is left of their actions. */
  function Read(stream: seq<Byte>, s: Reader, request: Request, watchSucceeds: bool, outcome: Syscall,
                actions: seq<Action>): (r: (Reader, seq<Action>))
    ensures |r.1| <= |actions|
    decreases |actions|, 1
  {
    var w := EnsureWatching(s, watchSucceeds);
    match outcome
    case Got(_) =>
      var n := Count(stream, w, request.len, outcome);
      Callback(stream, Complete(stream, Accept(w, request), request.buffer, n), actions)
    case Again => (Accept(w, request).(pending := Some(request)), actions)
    case Fail => (w, actions)
  }

  /** The rest of a callback: it issues reads, none while one is pending, until it returns. */
  function Callback(stream: seq<Byte>, s: Reader, actions: seq<Action>): (r: (Reader, seq<Action>))
    ensures |r.1| <= |actions|
    decreases |actions|, 0
  {
    if actions == [] then (s, [])
    else if actions[0].ReturnFromCallback? then (s, actions[1..])
    else if s.pending.Some? then Callback(stream, s, actions[1..])
    else
      var a := actions[0];
      var (s', rest) := Read(stream, s, a.request, a.watchSucceeds, a.outcome, actions[1..]);
      Callback(stream, s', rest)
  }

  /** OnFileCanReadWithoutBlocking. */
  function CanRead(stream: seq<Byte>, s: Reader, outcome: Syscall, actions: seq<Action>): Reader {
    if s.pending.None? then s.(watching := false)
    else
      var n := if outcome.Got? then Count(stream, s, s.pending.value.len, outcome) else 0;
      Callback(stream, Complete(stream, s.(pending := None), s.pending.value.buffer, n), actions).0
  }

  /** The client starts no second read, and the loop reports only a watched socket. */
  function Step(stream: seq<Byte>, s: Reader, e: Event): Reader {
    match e
    case ClientRead(request, ok, outcome, actions) =>
      if s.pending.Some? then s else Read(stream, s, request, ok, outcome, actions).0
    case Readable(outcome, actions) => if s.watching then CanRead(stream, s, outcome, actions) else s
  }

  function Run(stream: seq<Byte>, s: Reader, events: seq<Event>): Reader {
    if events == [] then s else Step(stream, Run(stream, s, events[..|events| - 1]), events[|events| - 1])
  }

  // ----- What every step keeps -----

  function Delivered(completions: seq<Completion>): seq<Byte> {
    if completions == [] then []
    else Delivered(completions[..|completions| - 1]) + completions[|completions| - 1].bytes
  }

  /** The i-th callback answers the i-th accepted read; only the last may be open, and
      it is the pending one; the bytes delivered are the stream so far. */
  ghost predicate Consistent(stream: seq<Byte>, s: Reader) {
    && s.taken <= |stream| && Delivered(s.completions) == stream[..s.taken]
    && |s.accepted| == |s.completions| + (if s.pending.Some? then 1 else 0)
    && (s.pending.Some? ==> s.accepted[|s.completions|] == s.pending.value)
    && (forall i :: 0 <= i < |s.completions| ==>
          s.completions[i].buffer == s.accepted[i].buffer && |s.completions[i].bytes| <= s.accepted[i].len)
  }

  /** The state when a callback starts. */
  lemma CompleteKeeps(stream: seq<Byte>, s: Reader, request: Request, n: nat)
    requires Consistent(stream, s.(pending := Some(request)))
    requires n <= request.len && s.taken + n <= |stream|
    ensures Consistent(stream, Complete(stream, s.(pending := None), request.buffer, n))
  {
    var s' := Complete(stream, s.(pending := None), request.buffer, n);
    assert s'.completions[..|s.completions|] == s.completions;
    assert stream[..s.taken] + stream[s.taken..s.taken + n] == stream[..s.taken + n];
  }

  lemma AcceptKeeps(stream: seq<Byte>, s: Reader, request: Request)
    requires Consistent(stream, s) && s.pending.None?
    ensures Consistent(stream, Accept(s, request).(pending := Some(request)))
  {
  }

  lemma {:induction false} ReadKeeps(stream: seq<Byte>, s: Reader, request: Request, watchSucceeds: bool,
                                     outcome: Syscall, actions: seq<Action>)
    requires Consistent(stream, s) && s.pending.None?
    ensures Consistent(stream, Read(stream, s, request, watchSucceeds, outcome, actions).0)
    decreases |actions|, 1
  {
    var w := EnsureWatching(s, watchSucceeds);
    assert Consistent(stream, w);
    AcceptKeeps(stream, w, request);
    hide Consistent;
    if outcome.Got? {
      var n := Count(stream, w, request.len, outcome);
      assert s.taken <= |stream| by { TakenInside(stream, s); }
      CompleteKeeps(stream, Accept(w, request), request, n);
      assert Accept(w, request).(pending := None) == Accept(w, request);
      CallbackKeeps(stream, Complete(stream, Accept(w, request), request.buffer, n), actions);
    }
  }

  lemma TakenInside(stream: seq<Byte>, s: Reader)
    requires Consistent(stream, s)
    ensures s.taken <= |stream|
  {
  }

  lemma {:induction false} CallbackKeeps(stream: seq<Byte>, s: Reader, actions: seq<Action>)
    requires Consistent(stream, s)
    ensures Consistent(stream, Callback(stream, s, actions).0)
    decreases |actions|, 0
  {
    hide Consistent;
    if actions == [] || actions[0].ReturnFromCallback? {
    } else if s.pending.Some? {
      CallbackKeeps(stream, s, actions[1..]);
    } else {
      var a := actions[0];
      ReadKeeps(stream, s, a.request, a.watchSucceeds, a.outcome, actions[1..]);
      var (s', rest) := Read(stream, s, a.request, a.watchSucceeds, a.outcome, actions[1..]);
      CallbackKeeps(stream, s', rest);
    }
  }

  lemma CanReadKeeps(stream: seq<Byte>, s: Reader, outcome: Syscall, actions: seq<Action>)
    requires Consistent(stream, s)
    ensures Consistent(stream, CanRead(stream, s, outcome, actions))
  {
    if s.pending.Some? {
      var request := s.pending.value;
      var n := if outcome.Got? then Count(stream, s, request.len, outcome) else 0;
      CompleteKeeps(stream, s, request, n);
      CallbackKeeps(stream, Complete(stream, s.(pending := None), request.buffer, n), actions);
    }
  }

  /** Over every run: as many callbacks as accepted reads, less the pending one, each
      answering its own read, and the bytes delivered so far are a prefix of the stream. */
  lemma {:induction false} RunKeeps(stream: seq<Byte>, events: seq<Event>)
    ensures Consistent(stream, Run(stream, IDLE, events))
  {
    if events == [] {
    } else {
      var s, e := Run(stream, IDLE, events[..|events| - 1]), events[|events| - 1];
      RunKeeps(stream, events[..|events| - 1]);
      match e
      case ClientRead(request, ok, outcome, actions) =>
        if s.pending.None? {
          ReadKeeps(stream, s, request, ok, outcome, actions);
        }
      case Readable(outcome, actions) => CanReadKeeps(stream, s, outcome, actions);
    }
  }

  // ----- What a read does at once -----

  /** A successful read() hands over as much as it offers, as the buffer takes, and as the
      stream still has: the least of the three. */
  lemma CountMeans(stream: seq<Byte>, s: Reader, len: nat, outcome: Syscall)
    requires outcome.Got? && s.taken <= |stream|
    ensures var n := Count(stream, s, len, outcome);
            && n <= outcome.count && n <= len && s.taken + n <= |stream|
            && (n == outcome.count || n == len || s.taken + n == |stream|)
  {
  }

  /** A read that is answered at once: it is accepted, and its callback has the next bytes. */
  lemma ReadAnswered(stream: seq<Byte>, s: Reader, request: Request, watchSucceeds: bool, count: nat,
                     actions: seq<Action>)
    requires Consistent(stream, s) && s.pending.None?
    ensures var s' := Read(stream, s, request, watchSucceeds, Got(count), actions).0;
            var n := Count(stream, s, request.len, Got(count));
            && s.taken + n <= |stream|
            && s.completions + [Completion(request.buffer, stream[s.taken..s.taken + n])] <= s'.completions
            && s.accepted + [request] <= s'.accepted
  {
    var w := EnsureWatching(s, watchSucceeds);
    var n := Count(stream, w, request.len, Got(count));
    var c := Complete(stream, Accept(w, request), request.buffer, n);
    assert c.completions == s.completions + [Completion(request.buffer, stream[s.taken..s.taken + n])];
    assert c.accepted == s.accepted + [request];
    CallbackContinues(stream, c, actions);
    assert Read(stream, s, request, watchSucceeds, Got(count), actions).0 == Callback(stream, c, actions).0;
    hide Callback, Read, Consistent, Count;
  }

  /** A read that has to wait is accepted and pending, and no callback runs; one that fails
      is not accepted. Both have made sure first that the socket is watched, if they can. */
  lemma ReadWaitsOrFails(stream: seq<Byte>, s: Reader, request: Request, watchSucceeds: bool, actions: seq<Action>)
    ensures Read(stream, s, request, watchSucceeds, Again, actions) ==
            (Reader(Some(request), s.watching || watchSucceeds, s.taken, s.accepted + [request], s.completions),
             actions)
    ensures Read(stream, s, request, watchSucceeds, Fail, actions) ==
            (Reader(s.pending, s.watching || watchSucceeds, s.taken, s.accepted, s.completions), actions)
  {
  }

  /** A readable socket that nobody reads from is not watched any more, and nothing else
      happens; the next read watches it again. */
  lemma IdleStopsWatching(stream: seq<Byte>, s: Reader, outcome: Syscall, actions: seq<Action>, request: Request)
    requires s.pending.None? && s.watching
    ensures var s' := Step(stream, s, Readable(outcome, actions));
            && !s'.watching && s'.pending.None?
            && s'.taken == s.taken && s'.accepted == s.accepted && s'.completions == s.completions
            && Step(stream, s', ClientRead(request, true, Again, [])).watching
  {
  }

  /** A callback may read more than once: its first read is answered at once, by a callback
      that returns; its second one has to wait. */
  lemma CallbackReadsTwice(stream: seq<Byte>, s: Reader, first: Request, second: Request, count: nat)
    requires s.pending.None?
    ensures var actions := [Issue(first, true, Got(count)), ReturnFromCallback, Issue(second, true, Again)];
            var s' := Callback(stream, s, actions).0;
            && s'.accepted == s.accepted + [first] + [second]
            && |s'.completions| == |s.completions| + 1 && s'.pending == Some(second)
  {
    var rest := [ReturnFromCallback, Issue(second, true, Again)];
    var actions := [Issue(first, true, Got(count))] + rest;
    assert actions == [Issue(first, true, Got(count)), ReturnFromCallback, Issue(second, true, Again)];
    assert actions[1..] == rest && rest[1..] == [Issue(second, true, Again)];
    var w := EnsureWatching(s, true);
    var c := Complete(stream, Accept(w, first), first.buffer, Count(stream, w, first.len, Got(count)));
    assert Read(stream, s, first, true, Got(count), rest) == Callback(stream, c, rest) == (c, rest[1..]);
    var d := Accept(EnsureWatching(c, true), second).(pending := Some(second));
    assert [Issue(second, true, Again)][1..] == [];
    assert Read(stream, c, second, true, Again, []) == (d, []);
    assert Callback(stream, c, rest[1..]) == Callback(stream, d, []) == (d, []);
  }

  // ----- Watching -----

  /** The watch call succeeds for every read that has to wait. */
  ghost predicate WatchesSucceed(actions: seq<Action>) {
    forall i :: 0 <= i < |actions| && actions[i].Issue? && actions[i].outcome.Again? ==> actions[i].watchSucceeds
  }

  /** No read waits on a socket that nobody watches. */
  predicate Attended(s: Reader) {
    s.pending.Some? ==> s.watching
  }

  /** A read that has to wait is attended exactly if the socket was watched already or
      the watch call succeeds. */
  lemma AttendedIff(stream: seq<Byte>, s: Reader, request: Request, watchSucceeds: bool, actions: seq<Action>)
    ensures Attended(Read(stream, s, request, watchSucceeds, Again, actions).0) <==> s.watching || watchSucceeds
  {
  }

  lemma {:induction false} ReadAttended(stream: seq<Byte>, s: Reader, request: Request, watchSucceeds: bool,
                                        outcome: Syscall, actions: seq<Action>)
    requires Attended(s) && WatchesSucceed(actions) && (outcome.Again? ==> watchSucceeds)
    ensures var r := Read(stream, s, request, watchSucceeds, outcome, actions);
            Attended(r.0) && WatchesSucceed(r.1)
    decreases |actions|, 1
  {
    if outcome.Got? {
      var w := EnsureWatching(s, watchSucceeds);
      var n := Count(stream, w, request.len, outcome);
      CallbackAttended(stream, Complete(stream, Accept(w, request), request.buffer, n), actions);
    }
  }

  lemma {:induction false} CallbackAttended(stream: seq<Byte>, s: Reader, actions: seq<Action>)
    requires WatchesSucceed(actions) && Attended(s)
    ensures var r := Callback(stream, s, actions);
            Attended(r.0) && WatchesSucceed(r.1)
    decreases |actions|, 0
  {
    if actions == [] || actions[0].ReturnFromCallback? {
    } else if s.pending.Some? {
      CallbackAttended(stream, s, actions[1..]);
    } else {
      var a := actions[0];
      ReadAttended(stream, s, a.request, a.watchSucceeds, a.outcome, actions[1..]);
      var (s', rest) := Read(stream, s, a.request, a.watchSucceeds, a.outcome, actions[1..]);
      CallbackAttended(stream, s', rest);
    }
  }

  ghost predicate EventWatches(e: Event) {
    (e.ClientRead? && e.outcome.Again? ==> e.watchSucceeds) && WatchesSucceed(e.actions)
  }

  /** Over every run in which the watch call succeeds for the reads that have to wait. */
  lemma {:induction false} RunAttended(stream: seq<Byte>, events: seq<Event>)
    requires forall i :: 0 <= i < |events| ==> EventWatches(events[i])
    ensures Attended(Run(stream, IDLE, events))
  {
    if events == [] {
    } else {
      var s, e := Run(stream, IDLE, events[..|events| - 1]), events[|events| - 1];
      RunAttended(stream, events[..|events| - 1]);
      assert EventWatches(e);
      match e
      case ClientRead(request, ok, outcome, actions) =>
        if s.pending.None? {
          ReadAttended(stream, s, request, ok, outcome, actions);
        }
      case Readable(outcome, actions) =>
        if s.watching && s.pending.Some? {
          var request := s.pending.value;
          var n := if outcome.Got? then Count(stream, s, request.len, outcome) else 0;
          CallbackAttended(stream, Complete(stream, s.(pending := None), request.buffer, n), actions);
        }
    }
  }

  /** `s'` continues the records of `s`. */
  ghost predicate Continues(s: Reader, s': Reader) {
    && |s.completions| <= |s'.completions| && s'.completions[..|s.completions|] == s.completions
    && |s.accepted| <= |s'.accepted| && s'.accepted[..|s.accepted|] == s.accepted
  }

  lemma {:induction false} ReadContinues(stream: seq<Byte>, s: Reader, request: Request, watchSucceeds: bool,
                                         outcome: Syscall, actions: seq<Action>)
    ensures Continues(s, Read(stream, s, request, watchSucceeds, outcome, actions).0)
    decreases |actions|, 1
  {
    if outcome.Got? {
      var w := EnsureWatching(s, watchSucceeds);
      var n := Count(stream, w, request.len, outcome);
      CallbackContinues(stream, Complete(stream, Accept(w, request), request.buffer, n), actions);
    }
  }

  lemma {:induction false} CallbackContinues(stream: seq<Byte>, s: Reader, actions: seq<Action>)
    ensures Continues(s, Callback(stream, s, actions).0)
    decreases |actions|, 0
  {
    if actions == [] || actions[0].ReturnFromCallback? {
    } else if s.pending.Some? {
      CallbackContinues(stream, s, actions[1..]);
    } else {
      var a := actions[0];
      ReadContinues(stream, s, a.request, a.watchSucceeds, a.outcome, actions[1..]);
      var (s', rest) := Read(stream, s, a.request, a.watchSucceeds, a.outcome, actions[1..]);
      CallbackContinues(stream, s', rest);
    }
  }

  /** A readable socket that is watched answers the pending read, with the next bytes of
      the stream, or with none if read() does not succeed after all. */
  lemma PendingAnswered(stream: seq<Byte>, s: Reader, outcome: Syscall, actions: seq<Action>)
    requires Consistent(stream, s) && s.pending.Some? && s.watching
    ensures var s', i := Step(stream, s, Readable(outcome, actions)), |s.completions|;
            && Continues(s, s') && i < |s'.completions|
            && s'.completions[i].buffer == s.pending.value.buffer
            && s'.completions[i].bytes <= stream[s.taken..]
            && |s'.completions[i].bytes| == if outcome.Got? then Count(stream, s, s.pending.value.len, outcome) else 0
  {
    var request, i := s.pending.value, |s.completions|;
    var n := if outcome.Got? then Count(stream, s, request.len, outcome) else 0;
    var c := Complete(stream, s.(pending := None), request.buffer, n);
    CallbackContinues(stream, c, actions);
    var s' := Step(stream, s, Readable(outcome, actions));
    assert s' == Callback(stream, c, actions).0;
    hide Callback, Read, Consistent;
    assert s'.completions[i] == s'.completions[..i + 1][i];
    assert s'.completions[..i] == s'.completions[..i + 1][..i];
  }

  /** A read that became pending after its watch call failed is never answered: whatever
      happens later, nothing changes. */
  lemma {:induction false} PendingStranded(stream: seq<Byte>, s: Reader, events: seq<Event>)
    requires s.pending.Some? && !s.watching
    ensures Run(stream, s, events) == s
  {
    if events == [] {
    } else {
      PendingStranded(stream, s, events[..|events| - 1]);
    }
  }

  /** One failing watch call is enough to get there: the first read that has to wait is
      then never answered. */
  lemma {:induction false} FirstReadStranded(stream: seq<Byte>, request: Request, events: seq<Event>)
    ensures var s := Run(stream, IDLE, [ClientRead(request, false, Again, [])]);
            s.pending == Some(request) && !s.watching && Run(stream, s, events) == s
  {
    var e := ClientRead(request, false, Again, []);
    assert [e][..0] == [];
    var s := Run(stream, IDLE, [e]);
    assert s == Step(stream, Run(stream, IDLE, []), e);
    PendingStranded(stream, s, events);
  }

  /** So a pending read can still be answered exactly when the socket is watched. */
  lemma {:induction false} AnswerableIffWatched(stream: seq<Byte>, s: Reader)
    requires Consistent(stream, s) && s.pending.Some?
    ensures (exists events :: |Run(stream, s, events).completions| > |s.completions|) <==> s.watching
  {
    if s.watching {
      var e := Readable(Again, []);
      PendingAnswered(stream, s, Again, []);
      assert [e][..0] == [];
      assert Run(stream, s, [e]) == Step(stream, Run(stream, s, []), e);
      assert |Run(stream, s, [e]).completions| > |s.completions|;
    } else if events :| |Run(stream, s, events).completions| > |s.completions| {
      PendingStranded(stream, s, events);
      assert false;
    }
  }
}
