/**
 * One WebSocket client's send queue: any number of goroutines enqueue and close concurrently while one writer drains
 * it. enqueueDropSlow is one step; a closeWith call takes three, one per effect. Disabled actions change nothing.
 */
module SendQueue {
  type Frame = string
  type CloserId = nat

  const QUEUE_SIZE: nat := 64

  datatype CloserPc =
    | AtSwap    // about to swap the closed flag
    | AtChannel // won the swap; about to close the channel
    | AtConn    // about to close the connection
    | Returned

  datatype Writer =
    | Selecting(draining: bool)             // draining: the context is done
    | Writing(frame: Frame, draining: bool) // received a frame, about to write it
    | Exited(lost: seq<Frame>)              // lost: the frame whose write failed, if any

  /** The channel and its flags, with everything ever accepted and written; channelCloses counts close(c.send). */
  datatype State = State(buffer: seq<Frame>, closed: bool, channelCloses: nat, connOpen: bool,
                         accepted: seq<Frame>, written: seq<Frame>,
                         writer: Writer, contextDone: bool, closers: map<CloserId, CloserPc>)

  datatype Action =
    | Enqueue(frame: Frame, k: CloserId) // k runs the closeWith of an overflow
    | Close(k: CloserId)                 // some other caller of closeWith
    | CloserStep(k: CloserId)
    | Cancel
    | Receive
    | Write(ok: bool, pingOk: bool)
    | PingFails
    | Drain                              // the writer notices the context is done

  function Init(): State {
    State([], false, 0, true, [], [], Selecting(false), false, map[])
  }

  function Step(s: State, a: Action): State {
    match a
    case Enqueue(frame, k) =>
      if s.closed then s
      else if |s.buffer| < QUEUE_SIZE then s.(buffer := s.buffer + [frame], accepted := s.accepted + [frame])
      else if k in s.closers then s
      else s.(closed := true, closers := s.closers[k := AtChannel])
    case Close(k) => if k in s.closers then s else s.(closers := s.closers[k := AtSwap])
    case CloserStep(k) =>
      if k !in s.closers then s else
      (match s.closers[k]
       case AtSwap =>
         if s.closed then s.(closers := s.closers[k := Returned])
         else s.(closed := true, closers := s.closers[k := AtChannel])
       case AtChannel => s.(channelCloses := s.channelCloses + 1, closers := s.closers[k := AtConn])
       case AtConn => s.(connOpen := false, closers := s.closers[k := Returned])
       case Returned => s)
    case Cancel => s.(contextDone := true)
    case Drain => if s.writer == Selecting(false) && s.contextDone then s.(writer := Selecting(true)) else s
    case Receive =>
      if !s.writer.Selecting? then s
      else if s.buffer != [] then s.(buffer := s.buffer[1..], writer := Writing(s.buffer[0], s.writer.draining))
      else if s.channelCloses > 0 || s.writer.draining then s.(writer := Exited([]), contextDone := true)
      else s
    case Write(ok, pingOk) =>
      if !s.writer.Writing? then s
      else if !ok || !s.connOpen then s.(writer := Exited([s.writer.frame]), contextDone := true)
      else
        var s' := s.(written := s.written + [s.writer.frame]);
        if s.writer.draining || pingOk then s'.(writer := Selecting(s.writer.draining))
        else s'.(writer := Exited([]), contextDone := true)
    case PingFails =>
      if s.writer == Selecting(false) then s.(writer := Exited([]), contextDone := true) else s
  }

  function ExecFrom(s: State, acts: seq<Action>): State {
    if acts == [] then s else Step(ExecFrom(s, acts[..|acts| - 1]), acts[|acts| - 1])
  }

  function Exec(acts: seq<Action>): State {
    ExecFrom(Init(), acts)
  }

  /** Taken from the channel but not written: in the writer's hand, or lost with a failed write. */
  function InHand(w: Writer): seq<Frame> {
    match w
    case Writing(frame, _) => [frame]
    case Exited(lost) => lost
    case Selecting(_) => []
  }

  ghost predicate FramesConserved(s: State) {
    s.written + InHand(s.writer) + s.buffer == s.accepted && |s.buffer| <= QUEUE_SIZE
  }

  ghost predicate ClosedOnce(s: State) {
    && s.channelCloses <= 1
    && (!s.closed ==> s.channelCloses == 0 && s.connOpen && forall k :: k in s.closers ==> s.closers[k].AtSwap? )
    && (forall k :: k in s.closers && s.closers[k].AtChannel? ==> s.channelCloses == 0)
    && (forall k, k' :: k in s.closers && k' in s.closers && s.closers[k].AtChannel? && s.closers[k'].AtChannel? ==>
          k == k')
  }

  lemma Rearrange(w: seq<Frame>, h: seq<Frame>, b: seq<Frame>, f: Frame)
    ensures w + h + (b + [f]) == (w + h + b) + [f]
    ensures w + [] + ([f] + b) == w + [f] + b == (w + [f]) + [] + b
  {
  }

  lemma WriteKeepsFrames(s: State, a: Action)
    requires FramesConserved(s) && a.Write? && s.writer.Writing?
    ensures FramesConserved(Step(s, a))
  {
    Rearrange(s.written, [], s.buffer, s.writer.frame);
  }

  lemma FramesStep(s: State, a: Action)
    requires FramesConserved(s)
    ensures FramesConserved(Step(s, a))
  {
    var w, h, b := s.written, InHand(s.writer), s.buffer;
    if a.Enqueue? {
      Rearrange(w, h, b, a.frame);
    } else if a.Receive? && s.writer.Selecting? && b != [] {
      Rearrange(w, [], b[1..], b[0]);
      assert b == [b[0]] + b[1..];
    } else if a.Write? && s.writer.Writing? {
      WriteKeepsFrames(s, a);
    } else {
      assert InHand(Step(s, a).writer) == h;
    }
  }

  lemma ClosedOnceStep(s: State, a: Action)
    requires ClosedOnce(s)
    ensures ClosedOnce(Step(s, a))
  {
  }

  lemma {:induction false} Safe(acts: seq<Action>)
    ensures FramesConserved(Exec(acts)) && ClosedOnce(Exec(acts))
  {
    if acts != [] {
      Safe(acts[..|acts| - 1]);
      FramesStep(Exec(acts[..|acts| - 1]), acts[|acts| - 1]);
      ClosedOnceStep(Exec(acts[..|acts| - 1]), acts[|acts| - 1]);
    }
  }

  /**
   * In every interleaving the frames written are a prefix, in order, of those accepted; the buffer never exceeds its
   * size; and while the writer is between frames and has lost none, written and buffered make up everything accepted.
   */
  lemma WrittenIsPrefixOfAccepted(acts: seq<Action>)
    ensures var s := Exec(acts);
            && s.written <= s.accepted && |s.buffer| <= 64
            && s.written + InHand(s.writer) + s.buffer == s.accepted
            && (InHand(s.writer) == [] ==> s.written + s.buffer == s.accepted)
  {
    Safe(acts);
    var s := Exec(acts);
    assert InHand(s.writer) == [] ==> s.written + InHand(s.writer) == s.written;
  }

  /** The channel is closed at most once, whoever calls closeWith, and never before the flag that guards sends. */
  lemma ChannelClosedAtMostOnce(acts: seq<Action>)
    ensures Exec(acts).channelCloses <= 1 && (!Exec(acts).closed ==> Exec(acts).channelCloses == 0)
  {
    Safe(acts);
  }

  /** A full buffer closes the client instead of taking the frame. */
  lemma OverflowCloses(acts: seq<Action>, frame: Frame, k: CloserId)
    requires var s := Exec(acts); !s.closed && k !in s.closers
    ensures var (s, s') := (Exec(acts), Step(Exec(acts), Enqueue(frame, k)));
            && (|s.buffer| == 64 <==> s'.closed) && |s.buffer| <= 64
            && s'.accepted == s.accepted + (if s'.closed then [] else [frame])
  {
    Safe(acts);
  }

  /** Once closed, a client accepts nothing more, whatever runs afterwards. */
  lemma {:induction false} ClosedAcceptsNothing(s: State, acts: seq<Action>)
    requires s.closed
    ensures ExecFrom(s, acts).closed && ExecFrom(s, acts).accepted == s.accepted
  {
    if acts != [] {
      ClosedAcceptsNothing(s, acts[..|acts| - 1]);
    }
  }

  // ---- The writer gets through ----

  /** Receive and write, n times over, with every write and ping succeeding. */
  function Rounds(n: nat): seq<Action> {
    if n == 0 then [] else Rounds(n - 1) + [Receive, Write(true, true)]
  }

  /**
   * While the connection is open, a writer that is not stuck writes the whole buffer in as many rounds, draining or
   * not, and then waits for more.
   */
  lemma {:induction false} WriterGetsThrough(s: State, n: nat)
    requires s.connOpen && s.writer.Selecting? && n <= |s.buffer|
    ensures ExecFrom(s, Rounds(n)) == s.(written := s.written + s.buffer[..n], buffer := s.buffer[n..])
  {
    if n > 0 {
      var before := Rounds(n - 1);
      WriterGetsThrough(s, n - 1);
      var acts := Rounds(n);
      var mid := before + [Receive];
      assert acts[..|acts| - 1] == mid && mid[..|mid| - 1] == before;
      var t := ExecFrom(s, before);
      assert t.buffer[0] == s.buffer[n - 1] && t.buffer[1..] == s.buffer[n..];
      assert s.written + s.buffer[..n - 1] + [s.buffer[n - 1]] == s.written + s.buffer[..n];
      OneRound(t);
      hide Step;
      assert ExecFrom(s, acts) == Step(ExecFrom(s, mid), Write(true, true)) && ExecFrom(s, mid) == Step(t, Receive);
    }
  }

  lemma OneRound(t: State)
    requires t.connOpen && t.writer.Selecting? && t.buffer != []
    ensures Step(Step(t, Receive), Write(true, true))
         == t.(written := t.written + [t.buffer[0]], buffer := t.buffer[1..])
  {
  }

  /** When the context is done the writer turns to draining, writes without pings, and exits once nothing is left. */
  lemma WriterDrains(s: State)
    ensures s.contextDone && s.writer == Selecting(false) ==> Step(s, Drain) == s.(writer := Selecting(true))
    ensures s.writer == Selecting(true) && s.buffer == [] ==>
              Step(s, Receive) == s.(writer := Exited([]), contextDone := true)
    ensures forall ping :: s.writer.Writing? && s.writer.draining && s.connOpen ==>
              Step(s, Write(true, ping)) == s.(written := s.written + [s.writer.frame], writer := Selecting(true))
  {
  }

  /**
   * A failed write, a failed ping and a closed empty channel each end the writer, which ends the connection's context.
   */
  lemma WriterFails(s: State, ping: bool)
    ensures s.writer.Writing? ==>
              Step(s, Write(false, ping)) == s.(writer := Exited([s.writer.frame]), contextDone := true)
    ensures s.writer.Writing? && !s.writer.draining && s.connOpen ==>
              Step(s, Write(true, false)) == s.(written := s.written + [s.writer.frame], writer := Exited([]),
                                                contextDone := true)
    ensures s.writer == Selecting(false) ==> Step(s, PingFails) == s.(writer := Exited([]), contextDone := true)
    ensures s.writer.Selecting? && s.buffer == [] && s.channelCloses > 0 ==>
              Step(s, Receive) == s.(writer := Exited([]), contextDone := true)
    ensures s.writer.Selecting? && !s.writer.draining && s.buffer == [] && s.channelCloses == 0 ==>
              Step(s, Receive) == s
    ensures Step(s, Cancel) == s.(contextDone := true)
  {
  }

  // ---- Calls that run alone ----

  /** The part of the state that enqueueDropSlow and closeWith touch. */
  datatype Queue = Queue(buffer: seq<Frame>, closed: bool, channelClosed: bool, connOpen: bool, accepted: seq<Frame>)

  function QueueOf(s: State): Queue {
    Queue(s.buffer, s.closed, s.channelCloses > 0, s.connOpen, s.accepted)
  }

  function Closed(q: Queue): Queue {
    if q.closed then q else q.(closed := true, channelClosed := true, connOpen := false)
  }

  function Enqueued(q: Queue, frame: Frame): Queue {
    if q.closed then q
    else if |q.buffer| < QUEUE_SIZE then q.(buffer := q.buffer + [frame], accepted := q.accepted + [frame])
    else Closed(q)
  }

  function Closing(s: State, k: CloserId): State {
    Step(Step(Step(s, CloserStep(k)), CloserStep(k)), CloserStep(k))
  }

  /** Run without interruption, the steps add up to the whole call. */
  lemma CallsAddUp(acts: seq<Action>, frame: Frame, k: CloserId)
    requires k !in Exec(acts).closers
    ensures var s := Exec(acts);
            && QueueOf(Closing(Step(s, Close(k)), k)) == Closed(QueueOf(s))
            && QueueOf(Closing(Step(s, Enqueue(frame, k)), k)) == Enqueued(QueueOf(s), frame)
  {
    Safe(acts);
    var s := Exec(acts);
    hide ExecFrom;
    var s1 := Step(Step(s, Close(k)), CloserStep(k));
    if s.closed {
      assert s1.closers[k].Returned?;
    } else {
      assert s1 == s.(closed := true, closers := s.closers[k := AtChannel]);
    }
  }
}
