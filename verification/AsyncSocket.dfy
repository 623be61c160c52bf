/** The handler object itself, refining the steps of AsyncRead. */
module AsyncSocket {
  import opened Wrappers
  import Spec = AsyncRead

  class AsyncSocketIoHandler {
    var pendingBuffer: Option<nat>
    var pendingBufferLen: nat
    var isWatching: bool

    // The socket, and what its client has seen.
    const stream: seq<Spec.Byte>
    var taken: nat
    var accepted: seq<Spec.Request>
    var completions: seq<Spec.Completion>

    function State(): Spec.Reader
      reads this
    {
      Spec.Reader(
        if pendingBuffer.Some? then Some(Spec.Request(pendingBuffer.value, pendingBufferLen)) else None,
        isWatching, taken, accepted, completions)
    }

    ghost predicate Valid()
      reads this
    {
      Spec.Consistent(stream, State())
    }

    constructor (stream: seq<Spec.Byte>)
      ensures Valid() && State() == Spec.IDLE && this.stream == stream
    {
      this.stream := stream;
      pendingBuffer, pendingBufferLen, isWatching := None, 0, false;
      taken, accepted, completions := 0, [], [];
    }

    method EnsureWatchingSocket(watchSucceeds: bool)
      modifies this`isWatching
      ensures State() == Spec.EnsureWatching(old(State()), watchSucceeds)
    {
      if !isWatching {
        isWatching := watchSucceeds;
      }
    }

    /** The value of the system call, as the environment decides it. */
    method SystemRead(len: nat, outcome: Spec.Syscall) returns (n: int)
      requires Valid()
      ensures n == if outcome.Got? then Spec.Count(stream, State(), len, outcome) else -1
      ensures n <= len && taken + n <= |stream|
    {
      n := if outcome.Got? then Spec.Count(stream, State(), len, outcome) else -1;
    }

    /** The bytes go to the buffer, and the callback learns their number. */
    method Hand(request: Spec.Request, n: nat)
      requires Spec.Consistent(stream, State().(pending := Some(request)))
      requires pendingBuffer.None? && n <= request.len && taken + n <= |stream|
      modifies this`taken, this`completions
      ensures Valid() && State() == Spec.Complete(stream, old(State()), request.buffer, n)
    {
      hide Spec.Consistent, Spec.Delivered;
      ghost var s := State();
      assert s.(pending := None) == s;
      Spec.CompleteKeeps(stream, s, request, n);
      completions := completions + [Spec.Completion(request.buffer, stream[taken..taken + n])];
      taken := taken + n;
      assert State() == Spec.Complete(stream, s, request.buffer, n);
    }

    method Read(request: Spec.Request, watchSucceeds: bool, outcome: Spec.Syscall, actions: seq<Spec.Action>)
      returns (ok: bool, rest: seq<Spec.Action>)
      requires Valid() && pendingBuffer.None?
      modifies this
      ensures Valid() && ok == !outcome.Fail?
      ensures (State(), rest) == Spec.Read(stream, old(State()), request, watchSucceeds, outcome, actions)
      decreases |actions|, 1
    {
      Spec.ReadKeeps(stream, State(), request, watchSucceeds, outcome, actions);
      EnsureWatchingSocket(watchSucceeds);
      ghost var w := State();
      assert Valid();
      hide Spec.Consistent, Spec.Callback, Spec.Count, Spec.Complete;
      var n := SystemRead(request.len, outcome);
      rest := actions;
      if n < 0 {
        if outcome.Fail? {
          return false, rest;
        }
        pendingBuffer, pendingBufferLen := Some(request.buffer), request.len;
        accepted := accepted + [request];
      } else {
        Spec.AcceptKeeps(stream, w, request);
        accepted := accepted + [request];
        Hand(request, n);
        rest := ReadComplete(actions);
      }
      return true, rest;
    }

    /** The client's callback: reads that it issues go back into the handler. */
    method ReadComplete(actions: seq<Spec.Action>) returns (rest: seq<Spec.Action>)
      requires Valid()
      modifies this
      ensures Valid()
      ensures (State(), rest) == Spec.Callback(stream, old(State()), actions)
      decreases |actions|, 0
    {
      if actions == [] {
        rest := [];
      } else if actions[0].ReturnFromCallback? {
        rest := actions[1..];
      } else if pendingBuffer.Some? {
        rest := ReadComplete(actions[1..]);
      } else {
        var a := actions[0];
        var _, left := Read(a.request, a.watchSucceeds, a.outcome, actions[1..]);
        rest := ReadComplete(left);
      }
    }

    method OnFileCanReadWithoutBlocking(outcome: Spec.Syscall, actions: seq<Spec.Action>)
      requires Valid()
      modifies this
      ensures Valid()
      ensures State() == Spec.CanRead(stream, old(State()), outcome, actions)
    {
      ghost var s := State();
      Spec.CanReadKeeps(stream, s, outcome, actions);
      hide Spec.Consistent, Spec.Callback, Spec.Count, Spec.Complete;
      if pendingBuffer.Some? {
        var request := Spec.Request(pendingBuffer.value, pendingBufferLen);
        var n := SystemRead(request.len, outcome);
        pendingBuffer, pendingBufferLen := None, 0;
        assert State().(pending := Some(request)) == s;
        Hand(request, if n > 0 then n else 0);
        var _ := ReadComplete(actions);
      } else {
        isWatching := false;
      }
    }
  }

  /** Any run of the message loop on a new handler is a run of the specification; the
      client starts no read while one is pending, and the loop reports only a socket that
      it watches. */
  method Replay(stream: seq<Spec.Byte>, events: seq<Spec.Event>) returns (handler: AsyncSocketIoHandler)
    ensures handler.State() == Spec.Run(stream, Spec.IDLE, events)
    ensures Spec.Consistent(stream, handler.State())
  {
    handler := new AsyncSocketIoHandler(stream);
    for i := 0 to |events|
      invariant fresh(handler) && handler.stream == stream && handler.Valid()
      invariant handler.State() == Spec.Run(stream, Spec.IDLE, events[..i])
    {
      hide Spec.Consistent, Spec.Read, Spec.CanRead;
      assert events[..i + 1][..i] == events[..i];
      match events[i]
      case ClientRead(request, watchSucceeds, outcome, actions) =>
        if handler.pendingBuffer.None? {
          var _, _ := handler.Read(request, watchSucceeds, outcome, actions);
        }
      case Readable(outcome, actions) =>
        if handler.isWatching {
          handler.OnFileCanReadWithoutBlocking(outcome, actions);
        }
    }
    assert events[..|events|] == events;
  }
}
