/** The echo service: a reader that queues what a client sends and a writer that sends it
    back, with one mutex, one condition variable and a queue that makes the reader wait. A
    step is one section under the mutex, ended by an unlock or a wait, or one write. */
module EchoQueue {

  import opened Bytes

  const BUF_SIZE := 4096
  const WAIT_IF := 2 * 1024 * 1024
  const CONT_IF := 1024 * 1024

  /** A thread waiting on the condition variable sleeps until it is signalled. */
  datatype Reader = Reading | ReaderSleeps | ReaderSignalled | ReaderDone
  datatype Writer = AtLock | WriterSleeps | WriterSignalled | Writing | Leaving | WriterDone

  datatype State = State(
    bufs: seq<seq<byte>>,     // received and not yet taken by the writer
    numQueuedBytes: int,      // what the threads think is allocated
    inHand: seq<byte>,        // taken by the writer and not yet written
    popped: bool,             // a taken buffer is not yet credited
    isClosed: bool, isWriteActive: bool, isReaderWaiting: bool,
    reader: Reader, writer: Writer,
    read: seq<byte>,          // trace: everything read from the client
    accepted: seq<byte>,      // trace: everything queued
    written: seq<byte>)       // trace: everything sent back

  datatype Event =
    | Receives(data: seq<byte>)
    | ReaderWakes
    | ReaderStops(closes: bool)
    | WriterEnters
    | WriterWakes
    | Writes(ok: bool, goesOn: bool)
    | WriterLeaves

  /** Threads may also wake up without a signal. */
  predicate Enabled(s: State, e: Event) {
    match e
    case Receives(_) => s.reader.Reading?
    case ReaderWakes => s.reader.ReaderSignalled? || s.reader.ReaderSleeps?
    case ReaderStops(_) => s.reader.Reading?
    case WriterEnters => s.writer.AtLock?
    case WriterWakes => s.writer.WriterSignalled? || s.writer.WriterSleeps?
    case Writes(_, _) => s.writer.Writing?
    case WriterLeaves => s.writer.Leaving?
  }

  function SignalWriter(w: Writer): Writer { if w.WriterSleeps? then WriterSignalled else w }

  function SignalReader(r: Reader): Reader { if r.ReaderSleeps? then ReaderSignalled else r }

  /** The reader's waiting loop, from its test on. */
  function WaitLoop(s: State): State {
    if s.isWriteActive && s.numQueuedBytes > CONT_IF then s.(isReaderWaiting := true, reader := ReaderSleeps)
    else s.(isReaderWaiting := false, reader := Reading)
  }

  function Receive(s: State, data: seq<byte>): State {
    var s0 := s.(read := s.read + data);
    var s1 := if s.isWriteActive
              then s0.(bufs := s.bufs + [data], numQueuedBytes := s.numQueuedBytes + BUF_SIZE, accepted := s.accepted + data)
              else s0;
    var s2 := s1.(writer := SignalWriter(s1.writer));
    if s2.numQueuedBytes > WAIT_IF then WaitLoop(s2) else s2
  }

  /** The writer's waiting loop, and what follows it. */
  function TakeNext(s: State): State {
    if !s.isClosed && s.bufs == [] then s.(writer := WriterSleeps)
    else if s.isClosed then s.(writer := Leaving)
    else s.(inHand := s.bufs[0], bufs := s.bufs[1..], popped := true, writer := Writing)
  }

  function Credit(s: State): State {
    s.(numQueuedBytes := s.numQueuedBytes - (if s.popped then BUF_SIZE else 0), popped := false)
  }

  function EnterWriter(s: State): State {
    var s1 := Credit(s);
    TakeNext(if s1.isReaderWaiting && s1.numQueuedBytes < CONT_IF then s1.(reader := SignalReader(s1.reader)) else s1)
  }

  function Next(s: State, e: Event): State {
    match e
    case Receives(data) => Receive(s, data)
    case ReaderWakes => WaitLoop(s)
    case ReaderStops(closes) =>
      if closes then s.(isClosed := true, writer := SignalWriter(s.writer), reader := ReaderDone) else s.(reader := ReaderDone)
    case WriterEnters => EnterWriter(s)
    case WriterWakes => TakeNext(s)
    case Writes(ok, goesOn) =>
      if ok then s.(written := s.written + s.inHand, inHand := [], writer := if goesOn then AtLock else Leaving)
      else s.(writer := Leaving)
    case WriterLeaves =>
      Credit(s).(isWriteActive := false, reader := SignalReader(s.reader), writer := WriterDone)
  }

  // ---------------------------------------------------------------- the invariant

  /** The counter is the allocated bytes: of the queued buffers and the one not credited. */
  predicate Counted(s: State) {
    s.numQueuedBytes == BUF_SIZE * (|s.bufs| + (if s.popped then 1 else 0))
  }

  /** Nothing is lost or reordered. */
  predicate Conserved(s: State) {
    s.accepted == s.written + s.inHand + Concat(s.bufs)
  }

  /** All that is read is queued, as long as there is a writer. */
  predicate Queued(s: State) {
    s.accepted <= s.read && (s.isWriteActive ==> s.accepted == s.read)
  }

  predicate Bounded(s: State) {
    && s.numQueuedBytes <= WAIT_IF + BUF_SIZE
    && (s.reader.Reading? && s.isWriteActive ==> s.numQueuedBytes <= WAIT_IF)
  }

  /** Who sleeps has a reason to: no signal was missed. */
  predicate SleepersHaveCause(s: State) {
    && (s.writer.WriterSleeps? ==> s.bufs == [] && !s.isClosed && !s.popped)
    && (s.reader.ReaderSleeps? ==> s.isReaderWaiting && s.isWriteActive && s.numQueuedBytes >= CONT_IF)
  }

  predicate InStep(s: State) {
    && (s.isWriteActive <==> !s.writer.WriterDone?)
    && (s.writer.WriterSleeps? || s.writer.WriterSignalled? || s.writer.WriterDone? ==> !s.popped)
    && (s.writer.AtLock? || s.writer.WriterSleeps? || s.writer.WriterSignalled? ==> s.inHand == [])
    && (s.writer.Writing? ==> s.popped)
    && (s.isReaderWaiting ==> s.reader.ReaderSleeps? || s.reader.ReaderSignalled?)
  }

  predicate Inv(s: State) {
    Counted(s) && Conserved(s) && Queued(s) && Bounded(s) && SleepersHaveCause(s) && InStep(s)
  }

  /** The threads start with nothing queued, or with the first message when that turned out
      to be no command; in one kind of test there is no writer. */
  function Initial(first: seq<seq<byte>>, echo: bool): State
    requires |first| <= 1
  {
    State(first, BUF_SIZE * |first|, [], false, false, echo, false, Reading, if echo then AtLock else WriterDone, Concat(first), Concat(first), [])
  }

  lemma WaitLoopKeepsInv(s: State)
    requires Counted(s) && Conserved(s) && Queued(s) && s.numQueuedBytes <= WAIT_IF + BUF_SIZE
    requires InStep(s.(isReaderWaiting := false)) && SleepersHaveCause(s.(reader := Reading))
    ensures Inv(WaitLoop(s))
  {
  }

  lemma ReceiveKeepsInv(s: State, data: seq<byte>)
    requires Inv(s) && s.reader.Reading?
    ensures Inv(Receive(s, data))
  {
    ConcatAppend(s.bufs, data);
    assert s.written + s.inHand + (Concat(s.bufs) + data) == s.written + s.inHand + Concat(s.bufs) + data;
  }

  lemma TakeNextKeepsInv(s: State)
    requires Inv(s) && !s.popped && s.inHand == [] && s.isWriteActive
    ensures Inv(TakeNext(s))
  {
  }

  lemma EnterKeepsInv(s: State)
    requires Inv(s) && s.writer.AtLock?
    ensures Inv(EnterWriter(s))
  {
    hide TakeNext;
    var s1 := Credit(s);
    TakeNextKeepsInv(if s1.isReaderWaiting && s1.numQueuedBytes < CONT_IF then s1.(reader := SignalReader(s1.reader)) else s1);
  }

  lemma WritesKeepsInv(s: State, ok: bool, goesOn: bool)
    requires Inv(s) && s.writer.Writing?
    ensures Inv(Next(s, Writes(ok, goesOn)))
  {
    assert s.written + s.inHand + [] == s.written + s.inHand;
  }

  lemma LeavesKeepsInv(s: State)
    requires Inv(s) && s.writer.Leaving?
    ensures Inv(Next(s, WriterLeaves))
  {
  }

  lemma StopsKeepsInv(s: State, closes: bool)
    requires Inv(s) && s.reader.Reading?
    ensures Inv(Next(s, ReaderStops(closes)))
  {
  }

  lemma StepKeepsInv(s: State, e: Event)
    requires Inv(s) && Enabled(s, e)
    ensures Inv(Next(s, e))
  {
    match e
    case Receives(data) => ReceiveKeepsInv(s, data);
    case ReaderWakes => WaitLoopKeepsInv(s);
    case ReaderStops(closes) => StopsKeepsInv(s, closes);
    case WriterEnters => EnterKeepsInv(s);
    case WriterWakes => TakeNextKeepsInv(s);
    case Writes(ok, goesOn) => WritesKeepsInv(s, ok, goesOn);
    case WriterLeaves => LeavesKeepsInv(s);
  }

  predicate Possible(s: State, es: seq<Event>)
    decreases es
  {
    es == [] || (Enabled(s, es[0]) && Possible(Next(s, es[0]), es[1..]))
  }

  function Run(s: State, es: seq<Event>): State
    decreases es
  {
    if es == [] then s else Run(Next(s, es[0]), es[1..])
  }

  lemma {:induction false} RunKeepsInv(s: State, es: seq<Event>)
    requires Inv(s) && Possible(s, es)
    ensures Inv(Run(s, es))
    decreases es
  {
    hide Inv, Next;
    if es != [] {
      StepKeepsInv(s, es[0]);
      RunKeepsInv(Next(s, es[0]), es[1..]);
    }
  }

  // ---------------------------------------------------------------- main results

  /** However the threads interleave: the counter is exact and bounded, what is sent back is a
      prefix of what was read, in order, and as long as there is a writer the rest of it is in
      hand or in the queue. */
  lemma EchoIsFaithful(first: seq<seq<byte>>, echo: bool, es: seq<Event>)
    requires |first| <= 1 && Possible(Initial(first, echo), es)
    ensures var s := Run(Initial(first, echo), es);
            && s.numQueuedBytes == BUF_SIZE * (|s.bufs| + (if s.popped then 1 else 0))
            && 0 <= s.numQueuedBytes <= WAIT_IF + BUF_SIZE
            && s.written <= s.read && (s.isWriteActive ==> s.read == s.written + s.inHand + Concat(s.bufs))
            && s.written <= s.accepted <= s.read && s.accepted == s.written + s.inHand + Concat(s.bufs)
  {
    InitialInv(first, echo);
    RunKeepsInv(Initial(first, echo), es);
    var s := Run(Initial(first, echo), es);
    assert s.accepted == s.written + (s.inHand + Concat(s.bufs));
  }

  lemma InitialInv(first: seq<seq<byte>>, echo: bool)
    requires |first| <= 1
    ensures Inv(Initial(first, echo))
  {
    assert [] + [] + Concat(first) == Concat(first);
  }

  /** Is the thread asleep with nobody having signalled it? */
  predicate BothAsleep(s: State) {
    s.reader.ReaderSleeps? && s.writer.WriterSleeps?
  }

  /** No signal is lost and nothing deadlocks: the writer never sleeps on an empty queue while
      the reader sleeps, nor after the reader has closed; and a sleeping reader has a writer
      that is awake and has something to do, which will bring the counter down. */
  lemma NobodySleepsForever(first: seq<seq<byte>>, echo: bool, es: seq<Event>)
    requires |first| <= 1 && Possible(Initial(first, echo), es)
    ensures var s := Run(Initial(first, echo), es);
            && !BothAsleep(s)
            && (s.writer.WriterSleeps? ==> s.bufs == [] && !s.isClosed && s.numQueuedBytes == 0)
            && (s.reader.ReaderSleeps? ==> s.isWriteActive && (s.popped || s.bufs != []))
  {
    InitialInv(first, echo);
    RunKeepsInv(Initial(first, echo), es);
  }

  /** The reader is let go on only after the queue has shrunk to the lower mark, or the writer
      has gone; and it is woken as soon as the queue falls below that mark. */
  lemma ReaderResumesAtTheLowerMark(s: State, e: Event)
    requires Inv(s) && Enabled(s, e)
    ensures !s.reader.Reading? && Next(s, e).reader.Reading? ==> !s.isWriteActive || s.numQueuedBytes <= CONT_IF
    ensures var t := Next(s, e);
            s.reader.ReaderSleeps? && e.WriterEnters? && t.numQueuedBytes < CONT_IF ==> t.reader.ReaderSignalled?
  {
  }

  // ---------------------------------------------------------------- what the steps achieve

  /** What is read goes to the writer while there is one, who is then not asleep; the reader goes
      on reading up to the upper mark, and beyond it waits, if the writer is there, above the
      lower one. */
  lemma ReceiveAnswers(s: State, data: seq<byte>)
    requires Inv(s) && s.reader.Reading?
    ensures var t := Next(s, Receives(data));
            && t.read == s.read + data && t.written == s.written && !t.writer.WriterSleeps?
            && (s.isWriteActive ==> t.bufs == s.bufs + [data] && t.numQueuedBytes == s.numQueuedBytes + 4096)
            && (!s.isWriteActive ==> t.bufs == s.bufs && t.numQueuedBytes == s.numQueuedBytes)
            && (t.reader.ReaderSleeps? <==> s.isWriteActive && t.numQueuedBytes > 2097152)
            && (!t.reader.ReaderSleeps? ==> t.reader.Reading?)
  {
  }

  /** The writer takes the oldest buffer when there is one and the client has not gone; it leaves
      when the client has gone; and else it sleeps. */
  lemma EnterAnswers(s: State)
    requires Inv(s) && s.writer.AtLock?
    ensures var t := Next(s, WriterEnters);
            && (s.isClosed ==> t.writer.Leaving? && t.bufs == s.bufs)
            && (!s.isClosed && s.bufs != [] ==> t.writer.Writing? && t.inHand == s.bufs[0] && t.bufs == s.bufs[1..])
            && (!s.isClosed && s.bufs == [] ==> t.writer.WriterSleeps?)
            && (s.isReaderWaiting && s.reader.ReaderSleeps? ==>
                  (t.reader.ReaderSignalled? <==> s.numQueuedBytes - (if s.popped then 4096 else 0) < 1048576))
            && t.written == s.written
  {
  }

  /** Woken, it does the same. */
  lemma WakeAnswers(s: State)
    requires Inv(s) && (s.writer.WriterSleeps? || s.writer.WriterSignalled?)
    ensures var t := Next(s, WriterWakes);
            && (s.isClosed ==> t.writer.Leaving?)
            && (!s.isClosed && s.bufs != [] ==> t.writer.Writing? && t.inHand == s.bufs[0])
            && (!s.isClosed && s.bufs == [] ==> t.writer.WriterSleeps?)
  {
  }

  /** A write that succeeds sends back all that is in hand, and then the writer goes on or leaves;
      one that fails sends back nothing more, and it leaves. */
  lemma WriteAnswers(s: State, ok: bool, goesOn: bool)
    requires Inv(s) && s.writer.Writing?
    ensures var t := Next(s, Writes(ok, goesOn));
            && t.written == (if ok then s.written + s.inHand else s.written)
            && (if ok && goesOn then t.writer.AtLock? else t.writer.Leaving?)
            && t.bufs == s.bufs && t.isClosed == s.isClosed && t.reader == s.reader
  {
  }

  /** A reader that stops because the client has gone wakes the writer, who then leaves; and a
      writer that leaves wakes the reader, who then queues nothing more. */
  lemma StopAnswers(s: State, closes: bool)
    requires Inv(s)
    ensures s.reader.Reading? ==>
              var t := Next(s, ReaderStops(closes));
              t.reader.ReaderDone? && t.isClosed == (s.isClosed || closes) && (closes ==> !t.writer.WriterSleeps?)
              && t.bufs == s.bufs && t.written == s.written
    ensures s.writer.Leaving? ==>
              var t := Next(s, WriterLeaves);
              && t.writer.WriterDone? && !t.isWriteActive && !t.reader.ReaderSleeps? && !t.popped
              && t.numQueuedBytes == s.numQueuedBytes - (if s.popped then 4096 else 0)
  {
  }

  /** A reader that wakes up goes back to sleep exactly when there is a writer and the queue is
      still above the lower mark; else it reads on. */
  lemma ReaderWakeAnswers(s: State)
    requires Inv(s) && (s.reader.ReaderSleeps? || s.reader.ReaderSignalled?)
    ensures var t := Next(s, ReaderWakes);
            && (t.reader.ReaderSleeps? <==> s.isWriteActive && s.numQueuedBytes > 1048576)
            && (!t.reader.ReaderSleeps? ==> t.reader.Reading? && !t.isReaderWaiting)
            && t.bufs == s.bufs && t.writer == s.writer && t.read == s.read
  {
  }

  /** In the beginning nobody sleeps or has left, the writer owes no credit and nothing is sent;
      a first buffer is queued, and counts. */
  lemma StartAnswers(first: seq<seq<byte>>, echo: bool)
    requires |first| <= 1
    ensures var s := Initial(first, echo);
            && s.reader.Reading? && !s.isReaderWaiting && !s.isClosed && !s.popped
            && (s.isWriteActive <==> echo) && (echo ==> s.writer.AtLock?)
            && s.bufs == first && s.numQueuedBytes == 4096 * |first| && s.inHand == [] && s.written == []
  {
  }
}
