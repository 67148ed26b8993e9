/** Sending responses to a client connection (`vss_client`): a queue of responses, the first
    of which may be partly sent, filled by many threads while one is in the middle of a send. */
module SendQueues {
  import opened Bytes
  import opened VssTypes

  /** A response is as long as its own header says. */
  predicate WellFormed(resp: seq<byte>) {
    |resp| >= HEADER_SIZE && |resp| == DataLength(resp) + HEADER_SIZE
  }

  /** What is left to send of a queue whose first response is sent up to `sentSoFar`. */
  function Unsent(q: seq<seq<byte>>, sentSoFar: nat): seq<byte>
    requires q == [] ==> sentSoFar == 0
    requires q != [] ==> sentSoFar <= |q[0]|
  {
    if q == [] then [] else q[0][sentSoFar..] + Concat(q[1..])
  }

  lemma UnsentGrows(q: seq<seq<byte>>, k: nat, r: seq<byte>)
    requires if q == [] then k == 0 else k <= |q[0]|
    ensures Unsent(q + [r], k) == Unsent(q, k) + r
  {
    if q == [] {
      assert q + [r] == [r] && Concat([r][1..]) == [];
    } else {
      ConcatAppend(q[1..], r);
      assert (q + [r])[1..] == q[1..] + [r];
      assert q[0][k..] + (Concat(q[1..]) + r) == q[0][k..] + Concat(q[1..]) + r;
    }
  }

  lemma UnsentAdvances(q: seq<seq<byte>>, k: nat, n: nat)
    requires q != [] && k + n <= |q[0]|
    ensures Unsent(q, k) == q[0][k..k + n] + Unsent(q, k + n)
    ensures k + n == |q[0]| ==> Unsent(q, k + n) == Unsent(q[1..], 0)
  {
    assert q[0][k..] == q[0][k..k + n] + q[0][k + n..];
    assert q[0][k..k + n] + (q[0][k + n..] + Concat(q[1..])) == q[0][k..] + Concat(q[1..]);
    if k + n == |q[0]| {
      assert q[0][k + n..] == [];
    }
  }

  /** The socket's answer to a send of the rest of one response. */
  datatype Answer = Sent(n: nat) | Again | Failed

  // ---------------------------------------------------------------- the queue as a value

  datatype State = State(
    queue: seq<seq<byte>>,
    sentSoFar: nat,          // of the first response
    sending: bool, disconnected: bool, recvError: bool,
    pendingCmds: int,
    busy: bool,              // the sender is between its two sections under the mutex
    receiving: bool,
    objects: set<ObjectId>,  // associated with the connection
    sent: seq<byte>)         // trace: bytes the socket has accepted

  const EMPTY := State([], 0, false, false, false, 0, false, true, {}, [])

  /** `do_send` has two sections under the mutex; anything may happen between them. When it
      fails, it disconnects. */
  datatype Event =
    | Put(resp: seq<byte>, unsolicited: bool)
    | BeginSend
    | EndSend(answer: Answer)
    | Disconnect
    | RecvFails
    | Receives(on: bool)                       // the receiving side pauses or goes on
    | Associate(client: ObjectId, with: bool)  // an object comes or goes

  function DoPut(s: State, resp: seq<byte>, unsolicited: bool): State {
    var s1 := if unsolicited then s else s.(pendingCmds := s.pendingCmds - 1);
    if s.disconnected then s1 else s1.(queue := s.queue + [resp], sending := true)
  }

  /** The socket took `n` more bytes of the first response. */
  function Advance(s: State, n: nat): State
    requires s.queue != [] && s.sentSoFar + n <= |s.queue[0]|
  {
    var front, k := s.queue[0], s.sentSoFar;
    var s1 := s.(sent := s.sent + front[k..k + n], sentSoFar := k + n);
    if k + n == |front| then s1.(queue := s.queue[1..], sentSoFar := 0) else s1
  }

  predicate AnswerFits(s: State, answer: Answer) {
    s.busy && answer.Sent? ==> s.queue != [] && s.sentSoFar + answer.n <= |s.queue[0]|
  }

  /** When nothing was to be sent, the answer is not looked at. */
  function DoEnd(s: State, answer: Answer): (State, bool)
    requires AnswerFits(s, answer)
  {
    var s1 := (if s.busy && answer.Sent? then Advance(s, answer.n) else s).(busy := false);
    var failed := s.busy && (answer.Failed? || (answer.Sent? && answer.n == 0));
    if s1.queue == [] then (s1.(sending := false), failed || s.recvError) else (s1, failed)
  }

  predicate Possible(s: State, e: Event) {
    match e
    case Put(resp, _) => WellFormed(resp)
    case BeginSend => !s.busy
    case EndSend(answer) => AnswerFits(s, answer)
    case _ => true
  }

  function Next(s: State, e: Event): State {
    match e
    case Put(resp, unsolicited) => DoPut(s, resp, unsolicited)
    case BeginSend => s.(busy := s.queue != [])
    case EndSend(answer) => if AnswerFits(s, answer) then DoEnd(s, answer).0 else s
    case Disconnect => s.(disconnected := true, sending := false, receiving := false, objects := {})
    case RecvFails => s.(recvError := true)
    case Receives(on) => s.(receiving := on)
    case Associate(client, with) => s.(objects := if with then s.objects + {client} else s.objects - {client})
  }

  function Run(s: State, es: seq<Event>): State
    decreases es
  {
    if es == [] then s else Run(Next(s, es[0]), es[1..])
  }

  predicate AllPossible(s: State, es: seq<Event>)
    decreases es
  {
    es == [] || (Possible(s, es[0]) && AllPossible(Next(s, es[0]), es[1..]))
  }

  /** What is to be sent: the responses put before the first disconnect, one after the other. */
  function PutWhileConnected(es: seq<Event>): seq<byte>
    decreases es
  {
    if es == [] || es[0].Disconnect? then []
    else (if es[0].Put? then es[0].resp else []) + PutWhileConnected(es[1..])
  }

  predicate Inv(s: State) {
    && (forall r | r in s.queue :: WellFormed(r))
    && (if s.queue == [] then s.sentSoFar == 0 && !s.busy else s.sentSoFar < |s.queue[0]|)
    && (s.queue != [] ==> s.sending || s.disconnected)
  }

  lemma AdvanceKeepsInv(s: State, n: nat)
    requires Inv(s) && s.queue != [] && s.sentSoFar + n <= |s.queue[0]|
    ensures Inv(Advance(s, n).(busy := false))
    ensures Advance(s, n).sent + Unsent(Advance(s, n).queue, Advance(s, n).sentSoFar) == s.sent + Unsent(s.queue, s.sentSoFar)
  {
    hide Unsent;
    UnsentAdvances(s.queue, s.sentSoFar, n);
    var front, k := s.queue[0], s.sentSoFar;
    assert s.sent + (front[k..k + n] + Unsent(s.queue, k + n)) == s.sent + front[k..k + n] + Unsent(s.queue, k + n);
    assert forall r | r in s.queue[1..] :: r in s.queue;
    assert k + n == |front| && s.queue[1..] != [] ==> WellFormed(s.queue[1..][0]);
  }

  lemma EndKeepsInv(s: State, answer: Answer)
    requires Inv(s) && AnswerFits(s, answer)
    ensures Inv(DoEnd(s, answer).0)
    ensures var t := DoEnd(s, answer).0; t.sent + Unsent(t.queue, t.sentSoFar) == s.sent + Unsent(s.queue, s.sentSoFar)
  {
    hide Unsent, Advance, WellFormed;
    if s.busy && answer.Sent? {
      AdvanceKeepsInv(s, answer.n);
    }
  }

  /** No step loses, doubles or reorders a byte: a response put while connected comes last. */
  lemma StepConserves(s: State, e: Event)
    requires Inv(s) && Possible(s, e)
    ensures Inv(Next(s, e))
    ensures var t := Next(s, e);
            t.sent + Unsent(t.queue, t.sentSoFar)
              == s.sent + Unsent(s.queue, s.sentSoFar) + (if e.Put? && !s.disconnected then e.resp else [])
  {
    hide Unsent, DoEnd;
    if e.EndSend? {
      EndKeepsInv(s, e.answer);
    } else if e.Put? && !s.disconnected {
      UnsentGrows(s.queue, s.sentSoFar, e.resp);
      var u := Unsent(s.queue, s.sentSoFar);
      assert s.sent + (u + e.resp) == s.sent + u + e.resp;
    }
  }

  lemma OnlyDisconnectDisconnects(s: State, e: Event)
    ensures Next(s, e).disconnected == (s.disconnected || e.Disconnect?)
  {
    if e.EndSend? && AnswerFits(s, e.answer) && s.busy && e.answer.Sent? {
      assert Advance(s, e.answer.n).disconnected == s.disconnected;
    }
  }

  lemma NothingTaken(s: State)
    requires Inv(s)
    ensures s.queue != [] ==> Advance(s, 0) == s
  {
    assert s.queue != [] ==> s.sent + s.queue[0][s.sentSoFar..s.sentSoFar] == s.sent;
  }

  lemma SendFits(s: State)
    requires Inv(s)
    ensures if s.queue == [] then s.sentSoFar == 0 else s.sentSoFar <= |s.queue[0]|
  {
  }

  lemma {:induction false} RunConserves(s: State, es: seq<Event>)
    requires Inv(s) && AllPossible(s, es)
    ensures Inv(Run(s, es))
    ensures var t := Run(s, es);
            t.sent + Unsent(t.queue, t.sentSoFar)
              == s.sent + Unsent(s.queue, s.sentSoFar) + (if s.disconnected then [] else PutWhileConnected(es))
    decreases es
  {
    hide Unsent, Inv, Next, Possible;
    if es != [] {
      var s1 := Next(s, es[0]);
      StepConserves(s, es[0]);
      OnlyDisconnectDisconnects(s, es[0]);
      RunConserves(s1, es[1..]);
      var p := if es[0].Put? then es[0].resp else [];
      SendFits(s);
      var u := s.sent + Unsent(s.queue, s.sentSoFar);
      assert u + p + PutWhileConnected(es[1..]) == u + (p + PutWhileConnected(es[1..]));
    }
  }

  /** Main result: after any sequence of puts, partial sends and disconnects, what was sent,
      followed by what is left in the queue, is exactly what was put while connected, in order;
      so what was sent is a beginning of it, and all of it once the queue is empty. */
  lemma NothingLostOrReordered(es: seq<Event>)
    requires AllPossible(EMPTY, es)
    ensures var t := Run(EMPTY, es);
            && (t.queue == [] ==> t.sentSoFar == 0) && (t.queue != [] ==> t.sentSoFar < |t.queue[0]|)
            && t.sent + Unsent(t.queue, t.sentSoFar) == PutWhileConnected(es)
            && t.sent <= PutWhileConnected(es) && (t.queue == [] ==> t.sent == PutWhileConnected(es))
  {
    RunConserves(EMPTY, es);
  }

  /** A send ends the connection exactly when the socket fails or takes nothing, or when reading
      has failed and everything is sent; when everything is sent, the sender rests. */
  lemma EndFailsIff(s: State, answer: Answer)
    requires Inv(s) && AnswerFits(s, answer)
    ensures var (t, failed) := DoEnd(s, answer);
            && (failed <==> (s.busy && (answer == Failed || answer == Sent(0))) || (s.recvError && t.queue == []))
            && !t.busy && (t.queue == [] ==> !t.sending) && (t.queue != [] ==> t.sending == s.sending)
            && t.pendingCmds == s.pendingCmds && t.disconnected == s.disconnected && t.recvError == s.recvError
  {
  }

  /** The socket's answer moves exactly the bytes it took; a response that is taken whole leaves
      the queue. */
  lemma EndMoves(s: State, answer: Answer)
    requires Inv(s) && AnswerFits(s, answer)
    ensures var t, n := DoEnd(s, answer).0, if s.busy && answer.Sent? then answer.n else 0;
            && |t.sent| == |s.sent| + n && s.sent <= t.sent
            && (n == 0 ==> t.queue == s.queue && t.sentSoFar == s.sentSoFar)
            && (n > 0 && s.sentSoFar + n < |s.queue[0]| ==> t.queue == s.queue && t.sentSoFar == s.sentSoFar + n)
            && (n > 0 && s.sentSoFar + n == |s.queue[0]| ==> t.queue == s.queue[1..] && t.sentSoFar == 0)
  {
  }

  /** A response answers one pending command unless it is unsolicited, also when it can no longer
      be sent; and while connected it sets the sender to work. */
  lemma PutAnswers(s: State, resp: seq<byte>, unsolicited: bool)
    ensures var t := DoPut(s, resp, unsolicited);
            && t.pendingCmds == s.pendingCmds - (if unsolicited then 0 else 1)
            && (if s.disconnected then t.queue == s.queue && t.sending == s.sending else t.queue == s.queue + [resp] && t.sending)
            && t.sent == s.sent && t.sentSoFar == s.sentSoFar && t.busy == s.busy
  {
  }

  /** The length a response announces counts what follows its 48 bytes of header. */
  lemma WellFormedIff(resp: seq<byte>)
    ensures WellFormed(resp) <==>
              |resp| >= 48 &&
              var a: nat, b: nat, c: nat, d: nat := resp[24], resp[25], resp[26], resp[27];
              |resp| == 48 + 0x100_0000 * a + 0x1_0000 * b + 0x100 * c + d
  {
  }

  /** An object is associated from its coming until it goes or the connection is given up; the
      connection receives from the last time it is told to, until it is told not to or given up. */
  lemma ConnectionAnswers(s: State, e: Event, client: ObjectId)
    requires Possible(s, e)
    ensures var t := Next(s, e);
            && (client in t.objects <==> !e.Disconnect? && e != Associate(client, false)
                                         && (client in s.objects || e == Associate(client, true)))
            && (t.receiving <==> e == Receives(true) || (s.receiving && !e.Disconnect? && e != Receives(false)))
            && (t.disconnected <==> s.disconnected || e.Disconnect?)
            && (t.recvError <==> s.recvError || e.RecvFails?)
            && (t.busy <==> (e.BeginSend? && s.queue != []) || (s.busy && !e.BeginSend? && !e.EndSend?))
            && (e.Disconnect? ==> !t.sending)
            && (!e.Disconnect? && !e.Put? && !e.EndSend? ==> t.sending == s.sending)
  {
    hide WellFormed, DataLength;
  }

  // ---------------------------------------------------------------- the connection

  class SendQueue {
    var sendQueue: seq<seq<byte>>
    var sentSoFar: nat
    var sending: bool
    var disconnected: bool
    var recvError: bool
    var pendingCmds: int
    var busy: bool
    var receiving: bool
    var objects: set<ObjectId>
    var sent: seq<byte>

    ghost function View(): State
      reads this
    {
      State(sendQueue, sentSoFar, sending, disconnected, recvError, pendingCmds, busy, receiving, objects, sent)
    }

    ghost predicate Valid()
      reads this
    {
      Inv(View())
    }

    constructor ()
      ensures Valid() && View() == EMPTY
    {
      sendQueue, sentSoFar, sending, disconnected, recvError, pendingCmds, busy := [], 0, false, false, false, 0, false;
      receiving, objects, sent := true, {}, [];
    }

    /** A response is queued, also in the middle of a send, unless the connection is gone. */
    method PutResponse(resp: seq<byte>, unsolicited: bool)
      requires Valid() && WellFormed(resp)
      modifies this
      ensures Valid() && View() == Next(old(View()), Put(resp, unsolicited))
    {
      StepConserves(View(), Put(resp, unsolicited));
      if !unsolicited {
        pendingCmds := pendingCmds - 1;
      }
      if !disconnected {
        sendQueue := sendQueue + [resp];
        if !sending {
          sending := true;
        }
      }
    }

    /** First section of `do_send`: what to send, read under the mutex. */
    method StartSend() returns (some: bool, rest: seq<byte>)
      requires Valid() && !busy
      modifies this`busy
      ensures Valid() && View() == Next(old(View()), BeginSend) && some == busy
      ensures some ==> rest == sendQueue[0][sentSoFar..] && rest <= Unsent(sendQueue, sentSoFar)
    {
      StepConserves(View(), BeginSend);
      some, rest := sendQueue != [], [];
      if some {
        rest := sendQueue[0][sentSoFar..];
      }
      busy := some;
    }

    /** The socket has taken `n` bytes. */
    method Take(n: nat)
      requires sendQueue != [] && sentSoFar + n <= |sendQueue[0]|
      modifies this`sendQueue, this`sentSoFar, this`sent
      ensures View() == Advance(old(View()), n)
    {
      sent := sent + sendQueue[0][sentSoFar..sentSoFar + n];
      sentSoFar := sentSoFar + n;
      if sentSoFar == |sendQueue[0]| {
        sendQueue, sentSoFar := sendQueue[1..], 0;
      }
    }

    /** Last section of `do_send`, after the socket has answered. */
    method FinishSend(some: bool, answer: Answer) returns (failed: bool)
      requires Valid() && some == busy && AnswerFits(View(), answer)
      modifies this
      ensures Valid() && View() == Next(old(View()), EndSend(answer))
      ensures failed == DoEnd(old(View()), answer).1
    {
      hide WellFormed, Unsent, Advance;
      StepConserves(View(), EndSend(answer));
      SendFits(View());
      assert some && answer.Sent? && answer.n == 0 ==> Advance(View(), 0) == View() by { NothingTaken(View()); }
      failed := false;
      if some {
        match answer
        case Sent(n) =>
          if n > 0 {
            Take(n);
          } else {
            failed := true;
          }
        case Again =>
        case Failed => failed := true;
      }
      busy := false;
      if sendQueue == [] {
        sending := false;
        if recvError {
          failed := true;
        }
      }
    }

    /** The connection is given up: nothing more is sent or received, and the objects are
        released one by one, each by a call that takes it out of the set. What was queued stays
        where it is. */
    method GiveUp()
      requires Valid()
      modifies this`disconnected, this`sending, this`receiving, this`objects
      ensures Valid() && View() == Next(old(View()), Disconnect)
    {
      disconnected, sending, receiving := true, false, false;
      while objects != {}
        decreases |objects|
        modifies this`objects
      {
        var o :| o in objects;
        Disassociate(o);
      }
    }

    method AssociateObject(client: ObjectId)
      modifies this`objects
      ensures View() == Next(old(View()), Associate(client, true))
    {
      objects := objects + {client};
    }

    method Disassociate(client: ObjectId)
      modifies this`objects
      ensures View() == Next(old(View()), Associate(client, false))
    {
      objects := objects - {client};
    }
  }
}
