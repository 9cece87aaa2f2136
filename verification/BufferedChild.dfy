/** The bounded buffer between a client process and its caller (tmuxx/conformance/remote_c_control.py):
    two reader threads, a consumer, and one lock. */
module BufferedChild {
  import opened Basics

  const MAX_BACKLOG: nat := 8 * 1024 * 1024
  const CHUNK: nat := 65536
  const OVERFLOW: string := "C client output exceeded its bounded backlog"

  /** A missing and an empty message are both no failure to an `if`. */
  predicate Truthy(failure: Option<string>) {
    failure.Some? && failure.value != ""
  }

  // ----- What the lock protects -----

  datatype Outcome = Waits | Raises(message: string) | Returns(data: bytes, errors: bytes)

  datatype Buffer = Buffer(output: bytes, errors: bytes, eof: bool, failure: Option<string>)
  {
    predicate Overflows(data: bytes) { |output| + |errors| + |data| > MAX_BACKLOG }

    function Store(primary: bool, data: bytes): Buffer {
      if Overflows(data) then this.(failure := Some(OVERFLOW))
      else if primary then this.(output := output + data)
      else this.(errors := errors + data)
    }

    function Fail(message: string): Buffer { this.(failure := Some(message)) }

    function Finish(primary: bool): Buffer { if primary then this.(eof := true) else this }

    predicate Ready() { output != [] || eof || Truthy(failure) }

    /** A failure comes before data, and data before the end. */
    function Outcome(): Outcome {
      if !Ready() then Waits
      else if Truthy(failure) then Raises(failure.value)
      else Returns(if |output| <= CHUNK then output else output[..CHUNK], errors)
    }

    function Taken(): Buffer {
      if Outcome().Returns? then this.(output := output[|Outcome().data|..], errors := []) else this
    }

    /** The bytes of one stream that the caller has yet to get. */
    function Of(primary: bool): bytes { if primary then output else errors }
  }

  /** The object itself: each method is what happens under the lock. */
  class Child {
    var output: bytes
    var errors: bytes
    var eof: bool
    var failure: Option<string>

    function View(): Buffer
      reads this
    {
      Buffer(output, errors, eof, failure)
    }

    constructor ()
      ensures View() == Buffer([], [], false, None)
    {
      output, errors, eof, failure := [], [], false, None;
    }

    /** A reader has got data. The bound holds whatever it got, and on overflow it stops. */
    method Store(primary: bool, data: bytes) returns (stop: bool)
      requires |output| + |errors| <= MAX_BACKLOG
      modifies this
      ensures View() == old(View()).Store(primary, data)
      ensures |output| + |errors| <= MAX_BACKLOG
      ensures stop <==> |old(output)| + |old(errors)| + |data| > 8388608
      ensures stop ==>
        && failure == Some("C client output exceeded its bounded backlog")
        && output == old(output) && errors == old(errors)
      ensures !stop ==>
        && failure == old(failure)
        && output == (if primary then old(output) + data else old(output))
        && errors == (if primary then old(errors) else old(errors) + data)
      ensures eof == old(eof)
    {
      if |output| + |errors| + |data| > MAX_BACKLOG {
        failure := Some(OVERFLOW);
        return true;
      }
      if primary { output := output + data; } else { errors := errors + data; }
      return false;
    }

    method Fail(message: string)
      modifies this
      ensures View() == old(View()).Fail(message)
      ensures failure == Some(message) && output == old(output) && errors == old(errors) && eof == old(eof)
    {
      failure := Some(message);
    }

    method Finish(primary: bool)
      modifies this
      ensures View() == old(View()).Finish(primary)
      ensures eof == (old(eof) || primary) && failure == old(failure) && output == old(output) && errors == old(errors)
    {
      if primary { eof := true; }
    }

    /** One pass of the consumer; `Waits` is where it lets go of the lock. */
    method Read() returns (r: Outcome)
      modifies this
      ensures r == old(View()).Outcome() && View() == old(View()).Taken()
      ensures eof == old(eof) && failure == old(failure)
      ensures r.Raises? <==> old(failure).Some? && |old(failure).value| > 0
      ensures r.Raises? ==> failure == Some(r.message)
      ensures r.Waits? <==> (old(failure).Some? ==> |old(failure).value| == 0) && |old(output)| == 0 && !old(eof)
      ensures !r.Returns? ==> output == old(output) && errors == old(errors)
      ensures r.Returns? ==>
        && |r.data| == (if |old(output)| < 65536 then |old(output)| else 65536)
        && r.data + output == old(output) && r.errors == old(errors) && errors == []
    {
      if output == [] && !eof && !Truthy(failure) { return Waits; }
      if Truthy(failure) { return Raises(failure.value); }
      var data := if |output| <= CHUNK then output else output[..CHUNK];
      r := Returns(data, errors);
      output := output[|data|..];
      errors := [];
    }
  }

  // ----- All threads together -----

  datatype End = AtEof | Overflowed | Broke

  /** Where a reader thread is between two sections under the lock. */
  datatype Stage = Reading | Holding(data: bytes) | Failing(message: string) | Finishing(end: End) | Done(end: End)

  /** One stream: what the client wrote to it, how much its reader took, and what the caller got of it. */
  datatype Pipe = Pipe(written: bytes, closed: bool, taken: nat, stage: Stage, delivered: bytes)
  {
    function Held(): bytes { if stage.Holding? then stage.data else [] }

    predicate EndedWith(end: End) { stage == Finishing(end) || stage == Done(end) }
  }

  datatype World = World(buffer: Buffer, out: Pipe, err: Pipe, waiting: bool)
  {
    function Of(primary: bool): Pipe { if primary then out else err }

    function With(primary: bool, pipe: Pipe): World { if primary then this.(out := pipe) else this.(err := pipe) }

    function At(primary: bool, stage: Stage): World { With(primary, Of(primary).(stage := stage)) }

    /** All the client wrote to its standard output, and will ever write, has reached the caller. */
    predicate Complete() { out.closed && out.delivered == out.written }
  }

  datatype Action =
    | ClientWrites(primary: bool, data: bytes)
    | ClientCloses(primary: bool)
    | PipeGives(primary: bool, count: nat)
    | PipeEnds(primary: bool)
    | PipeBreaks(primary: bool, message: string)
    | ReaderStores(primary: bool)
    | ReaderFails(primary: bool)
    | ReaderFinishes(primary: bool)
    | ConsumerReads
    | ConsumerTimesOut

  const INITIAL: World :=
    var pipe := Pipe([], false, 0, Reading, []);
    World(Buffer([], [], false, None), pipe, pipe, false)

  /** What an action does; one whose turn it is not does nothing. */
  function Next(w: World, a: Action): World {
    match a
    case ClientWrites(primary, data) =>
      var p := w.Of(primary);
      if p.closed then w else w.With(primary, p.(written := p.written + data))
    case ClientCloses(primary) =>
      w.With(primary, w.Of(primary).(closed := true))
    case PipeGives(primary, count) =>
      var p := w.Of(primary);
      if p.stage == Reading && 0 < count <= CHUNK && p.taken + count <= |p.written| then
        w.With(primary, p.(taken := p.taken + count, stage := Holding(p.written[p.taken..p.taken + count])))
      else w
    case PipeEnds(primary) =>
      var p := w.Of(primary);
      if p.stage == Reading && p.closed && p.taken == |p.written| then w.At(primary, Finishing(AtEof)) else w
    case PipeBreaks(primary, message) =>
      if w.Of(primary).stage == Reading then w.At(primary, Failing(message)) else w
    case ReaderStores(primary) =>
      var stage := w.Of(primary).stage;
      if stage.Holding? then
        w.At(primary, if w.buffer.Overflows(stage.data) then Finishing(Overflowed) else Reading)
         .(buffer := w.buffer.Store(primary, stage.data), waiting := false)
      else w
    case ReaderFails(primary) =>
      var stage := w.Of(primary).stage;
      if stage.Failing? then w.At(primary, Finishing(Broke)).(buffer := w.buffer.Fail(stage.message)) else w
    case ReaderFinishes(primary) =>
      var stage := w.Of(primary).stage;
      if stage.Finishing? then
        w.At(primary, Done(stage.end)).(buffer := w.buffer.Finish(primary), waiting := false)
      else w
    case ConsumerReads =>
      if w.waiting then w
      else
        var outcome := w.buffer.Outcome();
        var w' := w.(buffer := w.buffer.Taken(), waiting := outcome.Waits?);
        if outcome.Returns? then
          w'.(out := w.out.(delivered := w.out.delivered + outcome.data),
              err := w.err.(delivered := w.err.delivered + outcome.errors))
        else w'
    case ConsumerTimesOut =>
      w.(waiting := false)
  }

  function After(run: seq<Action>): World {
    if run == [] then INITIAL else Next(After(run[..|run| - 1]), run[|run| - 1])
  }

  // ----- What every step keeps -----

  /** A stream is delivered in order: what the caller got, what is buffered and what the reader holds come one
      after the other, and only a reader that overflowed has dropped anything. */
  ghost predicate InOrder(p: Pipe, buffered: bytes) {
    var got := p.delivered + buffered;
    && |got| + |p.Held()| <= p.taken <= |p.written|
    && got + p.Held() == p.written[..|got| + |p.Held()|]
    && (!p.EndedWith(Overflowed) ==> |got| + |p.Held()| == p.taken)
    && (p.EndedWith(AtEof) ==> p.closed && p.taken == |p.written|)
  }

  ghost predicate Invariant(w: World) {
    && |w.buffer.output| + |w.buffer.errors| <= MAX_BACKLOG
    && InOrder(w.out, w.buffer.output) && InOrder(w.err, w.buffer.errors)
    && (w.buffer.eof <==> w.out.stage.Done?)
  }

  /** A consumer that sleeps is woken up: there is nothing for it, or a reader is about to notify it. */
  ghost predicate WillWake(w: World) {
    w.waiting && w.buffer.Ready() ==> w.out.stage.Finishing? || w.err.stage.Finishing?
  }

  lemma InOrderAppend(p: Pipe, buffered: bytes, data: bytes)
    requires InOrder(p, buffered) && !p.closed
    ensures InOrder(p.(written := p.written + data), buffered)
  {}

  lemma InOrderGive(p: Pipe, buffered: bytes, count: nat)
    requires InOrder(p, buffered) && p.stage == Reading && 0 < count && p.taken + count <= |p.written|
    ensures InOrder(p.(taken := p.taken + count, stage := Holding(p.written[p.taken..p.taken + count])), buffered)
  {}

  lemma InOrderStore(p: Pipe, buffered: bytes)
    requires InOrder(p, buffered) && p.stage.Holding?
    ensures InOrder(p.(stage := Reading), buffered + p.stage.data)
    ensures InOrder(p.(stage := Finishing(Overflowed)), buffered)
  {
    var got, data := p.delivered + buffered, p.stage.data;
    assert p.delivered + (buffered + data) == got + data;
    assert got == (got + data)[..|got|];
  }

  lemma InOrderTake(p: Pipe, data: bytes, rest: bytes)
    requires InOrder(p, data + rest)
    ensures InOrder(p.(delivered := p.delivered + data), rest)
  {
    assert p.delivered + (data + rest) == (p.delivered + data) + rest;
  }

  /** A reader that holds nothing moves on. */
  lemma InOrderMove(p: Pipe, buffered: bytes, stage: Stage)
    requires InOrder(p, buffered) && !p.stage.Holding? && !stage.Holding?
    requires p.EndedWith(Overflowed) ==> stage == Done(Overflowed)
    requires stage == Finishing(AtEof) || stage == Done(AtEof) ==> p.closed && p.taken == |p.written|
    ensures InOrder(p.(stage := stage), buffered)
  {}

  lemma InOrderClose(p: Pipe, buffered: bytes)
    requires InOrder(p, buffered)
    ensures InOrder(p.(closed := true), buffered)
    ensures p.EndedWith(AtEof) ==> p.closed && p.taken == |p.written|
  {}

  lemma StepOfClient(w: World, primary: bool, data: bytes)
    requires Invariant(w)
    ensures Invariant(Next(w, ClientWrites(primary, data))) && Invariant(Next(w, ClientCloses(primary)))
  {
    hide InOrder;
    var p, buffered := w.Of(primary), w.buffer.Of(primary);
    if !p.closed { InOrderAppend(p, buffered, data); }
    InOrderClose(p, buffered);
  }

  lemma StepOfPipe(w: World, primary: bool, count: nat, message: string)
    requires Invariant(w)
    ensures Invariant(Next(w, PipeGives(primary, count))) && Invariant(Next(w, PipeEnds(primary)))
    ensures Invariant(Next(w, PipeBreaks(primary, message)))
  {
    hide InOrder;
    var p, buffered := w.Of(primary), w.buffer.Of(primary);
    if p.stage == Reading {
      if 0 < count && p.taken + count <= |p.written| { InOrderGive(p, buffered, count); }
      if p.closed && p.taken == |p.written| { InOrderMove(p, buffered, Finishing(AtEof)); }
      InOrderMove(p, buffered, Failing(message));
    }
  }

  lemma StepOfReader(w: World, primary: bool)
    requires Invariant(w)
    ensures Invariant(Next(w, ReaderStores(primary))) && Invariant(Next(w, ReaderFails(primary)))
    ensures Invariant(Next(w, ReaderFinishes(primary)))
  {
    hide InOrder;
    var p, buffered := w.Of(primary), w.buffer.Of(primary);
    InOrderClose(p, buffered);
    match p.stage
    case Holding(_) => InOrderStore(p, buffered);
    case Failing(_) => InOrderMove(p, buffered, Finishing(Broke));
    case Finishing(end) => InOrderMove(p, buffered, Done(end));
    case _ =>
  }

  /** Every step keeps the invariant. */
  lemma StepKeepsInvariant(w: World, a: Action)
    requires Invariant(w)
    ensures Invariant(Next(w, a))
  {
    match a
    case ClientWrites(primary, data) => hide *; StepOfClient(w, primary, data);
    case ClientCloses(primary) => hide *; StepOfClient(w, primary, []);
    case PipeGives(primary, count) => hide *; StepOfPipe(w, primary, count, "");
    case PipeEnds(primary) => hide *; StepOfPipe(w, primary, 0, "");
    case PipeBreaks(primary, message) => hide *; StepOfPipe(w, primary, 0, message);
    case ReaderStores(primary) => hide *; StepOfReader(w, primary);
    case ReaderFails(primary) => hide *; StepOfReader(w, primary);
    case ReaderFinishes(primary) => hide *; StepOfReader(w, primary);
    case ConsumerReads => hide *; StepOfConsumer(w);
    case ConsumerTimesOut =>
  }

  lemma StepOfConsumer(w: World)
    requires Invariant(w)
    ensures Invariant(Next(w, ConsumerReads))
  {
    hide InOrder;
    var outcome := w.buffer.Outcome();
    if !w.waiting && outcome.Returns? {
      assert w.buffer.output == outcome.data + w.buffer.Taken().output;
      assert w.buffer.errors == outcome.errors + [];
      InOrderTake(w.out, outcome.data, w.buffer.Taken().output);
      InOrderTake(w.err, outcome.errors, []);
    }
  }

  // ----- Every run -----

  lemma {:induction false} RunKeepsInvariant(run: seq<Action>)
    ensures Invariant(After(run))
  {
    if run != [] {
      RunKeepsInvariant(run[..|run| - 1]);
      hide *;
      StepKeepsInvariant(After(run[..|run| - 1]), run[|run| - 1]);
      LastStep(run);
    }
  }

  lemma LastStep(run: seq<Action>)
    requires run != []
    ensures After(run) == Next(After(run[..|run| - 1]), run[|run| - 1])
  {}

  lemma StepKeepsWakeUp(w: World, a: Action)
    requires WillWake(w)
    ensures WillWake(Next(w, a))
  {}

  /** No wake-up is lost, although a reader that fails does not notify before it finishes. */
  lemma {:induction false} NoLostWakeUp(run: seq<Action>)
    ensures WillWake(After(run))
  {
    if run != [] {
      NoLostWakeUp(run[..|run| - 1]);
      hide *;
      StepKeepsWakeUp(After(run[..|run| - 1]), run[|run| - 1]);
      LastStep(run);
    }
  }

  /** What a read returns comes next in each stream, and the buffers never exceed their bound. */
  lemma ReadsContinueTheStreams(run: seq<Action>)
    ensures var w := After(run); var r := w.buffer.Outcome();
      && |w.buffer.output| + |w.buffer.errors| <= MAX_BACKLOG
      && w.out.delivered <= w.out.written && w.err.delivered <= w.err.written
      && (r.Returns? ==> w.out.delivered + r.data <= w.out.written && w.err.delivered + r.errors <= w.err.written)
  {
    RunKeepsInvariant(run);
    var w := After(run);
    hide After;
    IsDelivered(w.out, w.buffer.output);
    IsDelivered(w.err, w.buffer.errors);
    var r := w.buffer.Outcome();
    if r.Returns? {
      assert w.buffer.output == r.data + w.buffer.Taken().output;
      assert w.out.delivered + w.buffer.output == (w.out.delivered + r.data) + w.buffer.Taken().output;
    }
  }

  lemma IsDelivered(p: Pipe, buffered: bytes)
    requires InOrder(p, buffered)
    ensures p.delivered <= p.written && p.delivered + buffered <= p.written
  {
    var got := p.delivered + buffered;
    var n := |got| + |p.Held()|;
    assert got == (got + p.Held())[..|got|] == p.written[..n][..|got|] == p.written[..|got|];
    assert p.delivered == got[..|p.delivered|] == p.written[..|p.delivered|];
  }

  // ----- What an empty read means -----

  /** A read that returns no output without failing says that the client has said all it had to say. */
  ghost predicate Honest(w: World) {
    !w.waiting && w.buffer.Outcome().Returns? && w.buffer.Outcome().data == [] ==> w.Complete()
  }

  /** The messages that failed reads come with. */
  ghost predicate Uses(run: seq<Action>, messages: set<string>) {
    forall a :: a in run && a.PipeBreaks? ==> a.message in messages
  }

  /** A reader that ended badly has left its mark. */
  ghost predicate FailureShows(w: World) {
    && (w.buffer.failure.Some? ==> Truthy(w.buffer.failure))
    && PipeShows(w.out, w.buffer.failure) && PipeShows(w.err, w.buffer.failure)
  }

  ghost predicate PipeShows(p: Pipe, failure: Option<string>) {
    && (p.stage.Failing? ==> p.stage.message != "")
    && (p.EndedWith(Overflowed) || p.EndedWith(Broke) ==> failure.Some?)
  }

  lemma StepShowsFailure(w: World, a: Action)
    requires FailureShows(w) && (a.PipeBreaks? ==> a.message != "")
    ensures FailureShows(Next(w, a))
  {}

  lemma {:induction false} RunShowsFailure(run: seq<Action>, messages: set<string>)
    requires "" !in messages && Uses(run, messages)
    ensures FailureShows(After(run))
  {
    if run != [] {
      RunShowsFailure(run[..|run| - 1], messages);
      assert run[|run| - 1] in run;
      hide After, Next, FailureShows;
      StepShowsFailure(After(run[..|run| - 1]), run[|run| - 1]);
      LastStep(run);
    }
  }

  lemma ShownIsHonest(w: World)
    requires Invariant(w) && FailureShows(w)
    ensures Honest(w)
  {
    if !w.waiting && w.buffer.Outcome().Returns? && w.buffer.Outcome().data == [] {
      assert w.buffer.output == [] && w.out.stage.Done? && w.out.EndedWith(w.out.stage.end);
      assert !w.out.EndedWith(Overflowed) && !w.out.EndedWith(Broke);
      assert w.out.stage.end == AtEof;
      assert w.out.delivered + [] + [] == w.out.delivered;
      assert w.out.written[..|w.out.written|] == w.out.written;
    }
  }

  /** Why messages must not be empty: one that is would be taken for none, output lost, and the end reported
      nevertheless. The error of a failed read carries the text of its number, so this run does not happen. */
  lemma EmptyMessageHidesLoss()
    ensures var run := [ClientWrites(true, [1]), PipeBreaks(true, ""), ReaderFails(true), ReaderFinishes(true)];
      After(run).buffer.Outcome() == Returns([], []) && After(run).out.delivered == [] && After(run).out.written == [1]
      && !After(run).waiting
  {
    var a, b, c, d := ClientWrites(true, [1]), PipeBreaks(true, ""), ReaderFails(true), ReaderFinishes(true);
    assert [a, b, c, d][..3] == [a, b, c] && [a, b, c][..2] == [a, b] && [a, b][..1] == [a] && [a][..0] == [];
    assert After([a]) == Next(INITIAL, a);
    assert After([a, b]) == Next(After([a]), b);
    assert After([a, b, c]) == Next(After([a, b]), c);
    assert After([a, b, c, d]) == Next(After([a, b, c]), d);
  }

  /** An empty read means the end in every run exactly if no failed read can have an empty message. */
  lemma EmptyReadIsTheEnd(messages: set<string>)
    ensures (forall run :: Uses(run, messages) ==> Honest(After(run))) <==> "" !in messages
  {
    if "" !in messages {
      forall run | Uses(run, messages) ensures Honest(After(run)) {
        RunKeepsInvariant(run);
        RunShowsFailure(run, messages);
        hide *;
        ShownIsHonest(After(run));
      }
    } else {
      EmptyMessageHidesLoss();
      var run := [ClientWrites(true, [1]), PipeBreaks(true, ""), ReaderFails(true), ReaderFinishes(true)];
      assert Uses(run, messages);
      hide After;
      assert !Honest(After(run));
    }
  }

  /** The end of the output is not that of the errors: those may follow a read that said there is no more. */
  lemma ErrorsMayFollowTheEnd()
    ensures var run := [ClientCloses(true), PipeEnds(true), ReaderFinishes(true), ClientWrites(false, [1])];
      After(run).buffer.Outcome() == Returns([], []) && After(run).err.delivered == [] && After(run).err.written == [1]
  {
    var a, b, c, d := ClientCloses(true), PipeEnds(true), ReaderFinishes(true), ClientWrites(false, [1]);
    assert [a, b, c, d][..3] == [a, b, c] && [a, b, c][..2] == [a, b] && [a, b][..1] == [a] && [a][..0] == [];
    assert After([a]) == Next(INITIAL, a);
    assert After([a, b]) == Next(After([a]), b);
    assert After([a, b, c]) == Next(After([a, b]), c);
    assert After([a, b, c, d]) == Next(After([a, b, c]), d);
  }

  // ----- What a failure and an overflow mean -----

  /** A reader overflowed or broke, and has recorded it. */
  ghost predicate HasFailed(w: World) {
    exists end :: end != AtEof && (w.out.EndedWith(end) || w.err.EndedWith(end))
  }

  lemma StepDeliversNothing(w: World, a: Action)
    requires FailureShows(w) && HasFailed(w)
    ensures HasFailed(Next(w, a))
    ensures Next(w, a).out.delivered == w.out.delivered && Next(w, a).err.delivered == w.err.delivered
  {
    var end :| end != AtEof && (w.out.EndedWith(end) || w.err.EndedWith(end));
    assert Truthy(w.buffer.failure) by { assert end == Overflowed || end == Broke; }
    var w' := Next(w, a);
    assert w'.out.EndedWith(end) || w'.err.EndedWith(end);
  }

  /** Once a reader has recorded its failure, nothing of either stream is delivered any more. */
  lemma {:induction false} FailureStopsDelivery(run: seq<Action>, more: seq<Action>, messages: set<string>)
    requires "" !in messages && Uses(run + more, messages) && HasFailed(After(run))
    ensures HasFailed(After(run + more))
    ensures After(run + more).out.delivered == After(run).out.delivered
    ensures After(run + more).err.delivered == After(run).err.delivered
    decreases more
  {
    hide After, Next, HasFailed, FailureShows;
    if more == [] {
      assert run + more == run;
    } else {
      var less, whole := more[..|more| - 1], run + more;
      assert whole[..|whole| - 1] == run + less && whole[|whole| - 1] == more[|more| - 1];
      assert Uses(run + less, messages);
      FailureStopsDelivery(run, less, messages);
      RunShowsFailure(run + less, messages);
      StepDeliversNothing(After(run + less), more[|more| - 1]);
      LastStep(whole);
    }
  }

  lemma StepOverflowsLate(w: World, a: Action)
    requires Invariant(w)
    requires !w.out.EndedWith(Overflowed) && !w.err.EndedWith(Overflowed)
    ensures |w.out.written| <= |Next(w, a).out.written| && |w.err.written| <= |Next(w, a).err.written|
    ensures |w.out.written| + |w.err.written| <= 8388608 ==>
      !Next(w, a).out.EndedWith(Overflowed) && !Next(w, a).err.EndedWith(Overflowed)
  {
    assert |w.out.delivered + w.buffer.output| + |w.out.Held()| <= |w.out.written|;
    assert |w.err.delivered + w.buffer.errors| + |w.err.Held()| <= |w.err.written|;
    hide InOrder;
  }

  /** A client that writes no more than 8 MiB never overflows, however slow its reader. */
  lemma {:induction false} OverflowNeedsData(run: seq<Action>)
    ensures var w := After(run);
      w.out.EndedWith(Overflowed) || w.err.EndedWith(Overflowed) ==> |w.out.written| + |w.err.written| > 8388608
  {
    if run != [] {
      var before, a := run[..|run| - 1], run[|run| - 1];
      OverflowNeedsData(before);
      RunKeepsInvariant(before);
      LastStep(run);
      hide After, Next, Invariant;
      if !After(before).out.EndedWith(Overflowed) && !After(before).err.EndedWith(Overflowed) {
        StepOverflowsLate(After(before), a);
      } else {
        StepWrites(After(before), a);
      }
    }
  }

  lemma StepWrites(w: World, a: Action)
    ensures |w.out.written| <= |Next(w, a).out.written| && |w.err.written| <= |Next(w, a).err.written|
  {}

  // ----- Draining -----

  function Reads(w: World, n: nat): World
    decreases n
  {
    if n == 0 then w else Reads(Next(w, ConsumerReads), n - 1)
  }

  /** Once the output has ended without a failure, enough reads deliver all of it, 65536 bytes at a time. */
  lemma {:induction false} ReadsDrain(w: World, n: nat)
    requires Invariant(w) && w.out.stage == Done(AtEof) && !Truthy(w.buffer.failure) && !w.waiting
    requires |w.buffer.output| <= n * CHUNK
    ensures var w' := Reads(w, n);
      w'.Complete() && w'.buffer.Outcome().Returns? && w'.buffer.Outcome().data == [] && !w'.waiting
    decreases n
  {
    if n > 0 {
      StepOfConsumer(w);
      assert |Next(w, ConsumerReads).buffer.output| <= (n - 1) * CHUNK;
      ReadsDrain(Next(w, ConsumerReads), n - 1);
    } else {
      assert w.out.delivered + [] + [] == w.out.delivered;
      assert w.out.written[..|w.out.written|] == w.out.written;
    }
  }

  // ----- Writing -----

  datatype WriteResult = Written | TooLarge | Failed | Exited | TimedOut

  /** The client's standard input: a pipe that takes what it has room for, possibly nothing. A steady client does
      not fail or exit, takes at least a byte at a time, and loses no more than one tick over it. */
  class Input {
    var accepted: bytes
    const steady: bool

    constructor (steady: bool)
      ensures accepted == [] && this.steady == steady
    {
      this.steady := steady;
      accepted := [];
    }

    /** Until the deadline the client may fail or exit between any two writes. */
    method Ready(remaining: nat) returns (r: WriteResult, left: nat)
      ensures r.Written? ==> left < remaining
      ensures !r.TooLarge?
      ensures steady && remaining > 0 ==> r.Written? && left == remaining - 1
    {
      if steady && remaining > 0 { return Written, remaining - 1; }
      r, left := *, *;
      if r.TooLarge? || (r.Written? && left >= remaining) { r := TimedOut; }
    }

    method WriteSome(data: bytes) returns (n: nat)
      modifies this
      ensures n <= |data| && accepted == old(accepted) + data[..n]
      ensures steady && data != [] ==> n > 0
    {
      var least := if steady && data != [] then 1 else 0;
      n :| least <= n <= |data|;
      accepted := accepted + data[..n];
    }

    /** What is written is a prefix of the data, and all of it on normal return, which a steady client that is
        given the time can rely on. */
    method Write(data: bytes, timeout: nat) returns (r: WriteResult)
      modifies this
      ensures r.TooLarge? <==> |data| > 8388608
      ensures r.TooLarge? ==> accepted == old(accepted)
      ensures r.Written? ==> accepted == old(accepted) + data
      ensures exists n :: 0 <= n <= |data| && accepted == old(accepted) + data[..n]
      ensures steady && timeout >= |data| && |data| <= 8388608 ==> r.Written?
    {
      if |data| > MAX_BACKLOG {
        assert accepted == old(accepted) + data[..0];
        return TooLarge;
      }
      var remaining: nat := timeout;
      var offset := 0;
      while offset < |data|
        invariant 0 <= offset <= |data|
        invariant accepted == old(accepted) + data[..offset]
        invariant steady && timeout >= |data| ==> remaining >= |data| - offset
        decreases remaining
      {
        var ready;
        ready, remaining := Ready(remaining);
        if !ready.Written? { return ready; }
        var n := WriteSome(data[offset..]);
        assert data[..offset] + data[offset..][..n] == data[..offset + n];
        offset := offset + n;
      }
      assert data[..offset] == data;
      return Written;
    }
  }
}
