/** The error pump of historyarchive/util.go: a goroutine that takes errors from one channel into
    unbounded memory and hands them to a consumer.  Its select loop is driven here by a schedule,
    the list of things producers and consumer offer to do; an offer whose channel operation is not
    ready is not taken.  Every interleaving is some schedule. */
module ErrorPump {
  import opened Wrappers

  datatype Offer<E> = Send(err: E) | CloseInput | Receive

  datatype State<E> = State(receiving: bool, buf: seq<E>, next: Option<E>, sending: bool, delivered: seq<E>) {
    /** The loop has ended and the output channel is closed. */
    predicate Closed() {
      !receiving && !sending
    }
  }

  // ----- What the producers did -----

  /** The errors sent before the input channel was closed. */
  ghost function Sent<E>(schedule: seq<Offer<E>>): seq<E> {
    if schedule == [] then [] else
    var before, last := schedule[..|schedule| - 1], schedule[|schedule| - 1];
    if last.Send? && CloseInput !in before then Sent(before) + [last.err] else Sent(before)
  }

  // ----- The select loop -----

  /** The statements after the select: the output is enabled exactly while something is buffered. */
  function Refresh<E>(s: State<E>): State<E> {
    if |s.buf| > 0 then s.(sending := true, next := Some(s.buf[0])) else s.(sending := false, next := None)
  }

  function Select<E>(s: State<E>, offer: Offer<E>): State<E>
    requires s.sending ==> s.next.Some? && s.buf != []
  {
    match offer
    case Send(e) => if s.receiving then Refresh(s.(buf := s.buf + [e])) else s
    case CloseInput => if s.receiving then Refresh(s.(receiving := false)) else s
    case Receive =>
      if s.sending then Refresh(s.(delivered := s.delivered + [s.next.value], buf := s.buf[1..])) else s
  }

  ghost function Serve<E>(schedule: seq<Offer<E>>): (s: State<E>)
    ensures s.sending ==> s.next.Some? && s.buf != []
  {
    if schedule == [] then State(true, [], None, false, [])
    else Select(Serve(schedule[..|schedule| - 1]), schedule[|schedule| - 1])
  }

  /** Nothing is lost, duplicated or reordered: what was delivered and what is buffered are together
      exactly what was sent.  The output is enabled exactly while something is buffered, always with
      the oldest undelivered error.  A producer never waits for the consumer: while the input is open a
      send is taken whatever is buffered. */
  lemma {:induction false} NothingLost<E(!new)>(schedule: seq<Offer<E>>)
    ensures var s := Serve(schedule);
      && s.delivered + s.buf == Sent(schedule)
      && (s.sending <==> s.buf != [])
      && s.next == (if s.buf != [] then Some(s.buf[0]) else None)
      && (s.receiving <==> CloseInput !in schedule)
      && (s.receiving ==> forall e :: Select(s, Send(e)).buf == s.buf + [e])
  {
    if schedule != [] {
      var before, last := schedule[..|schedule| - 1], schedule[|schedule| - 1];
      assert schedule == before + [last];
      NothingLost(before);
    }
  }

  /** The output is closed only, and as soon as, the input is closed and everything was delivered. */
  lemma ClosedExactlyWhenDone<E(!new)>(schedule: seq<Offer<E>>)
    ensures var s := Serve(schedule);
      s.Closed() <==> CloseInput in schedule && s.delivered == Sent(schedule)
  {
    NothingLost(schedule);
  }

  /** What was delivered stays delivered, in order: an earlier output is a prefix of a later one. */
  lemma {:induction false} DeliveredGrows<E>(schedule: seq<Offer<E>>, more: seq<Offer<E>>)
    ensures Serve(schedule).delivered <= Serve(schedule + more).delivered
  {
    if more == [] {
      assert schedule + more == schedule;
    } else {
      var before, last := more[..|more| - 1], more[|more| - 1];
      DeliveredGrows(schedule, before);
      assert schedule + more == (schedule + before) + [last];
      assert (schedule + more)[..|schedule + more| - 1] == schedule + before;
    }
  }

  function Receives<E>(n: nat): seq<Offer<E>> {
    seq(n, _ => Receive)
  }

  lemma ServeSnoc<E>(schedule: seq<Offer<E>>, offer: Offer<E>)
    ensures Serve(schedule + [offer]) == Select(Serve(schedule), offer)
  {
    assert (schedule + [offer])[..|schedule|] == schedule;
  }

  /** A receive takes the oldest buffered error, if there is one. */
  lemma ReceiveTakesOldest<E(!new)>(schedule: seq<Offer<E>>)
    ensures var s, t := Serve(schedule), Serve(schedule + [Receive]);
      if s.buf == [] then t == s
      else t.delivered == s.delivered + [s.buf[0]] && t.buf == s.buf[1..]
  {
    NothingLost(schedule);
    ServeSnoc(schedule, Receive);
  }

  /** A consumer that keeps receiving gets one more error for every receive, until all are out. */
  lemma {:induction false} ReceivingDrains<E(!new)>(schedule: seq<Offer<E>>, n: nat)
    ensures var s, t := Serve(schedule), Serve(schedule + Receives(n));
      var m := if n < |s.buf| then n else |s.buf|;
      && t.delivered == s.delivered + s.buf[..m]
      && t.buf == s.buf[m..]
  {
    hide Serve;
    if n == 0 {
      assert schedule + Receives(n) == schedule;
    } else {
      ReceivingDrains(schedule, n - 1);
      var before := schedule + Receives(n - 1);
      assert schedule + Receives(n) == before + [Receive];
      ReceiveTakesOldest(before);
    }
  }

  /** Once the input is closed, as many receives as there are buffered errors deliver everything
      that was sent and close the output. */
  lemma DrainingCloses<E(!new)>(schedule: seq<Offer<E>>, n: nat)
    requires CloseInput in schedule && n >= |Serve(schedule).buf|
    ensures Serve(schedule + Receives(n)).Closed()
    ensures Serve(schedule + Receives(n)).delivered == Sent(schedule)
  {
    NothingLost(schedule);
    ReceivingDrains(schedule, n);
    SentIgnoresReceives(schedule, n);
    ClosedExactlyWhenDone(schedule + Receives(n));
  }

  lemma {:induction false} SentIgnoresReceives<E>(schedule: seq<Offer<E>>, n: nat)
    ensures Sent(schedule + Receives(n)) == Sent(schedule)
  {
    if n == 0 {
      assert schedule + Receives(n) == schedule;
    } else {
      SentIgnoresReceives(schedule, n - 1);
      var before := schedule + Receives(n - 1);
      assert schedule + Receives(n) == before + [Receive];
      assert (schedule + Receives(n))[..|before|] == before;
    }
  }

  // ----- The goroutine -----

  lemma ServeStep<E>(schedule: seq<Offer<E>>, k: nat)
    requires k < |schedule|
    ensures Serve(schedule[..k + 1]) == Select(Serve(schedule[..k]), schedule[k])
  {
    assert schedule[..k + 1][..k] == schedule[..k];
  }

  /** Once closed the pump takes no further offer. */
  lemma {:induction false} ClosedIsFinal<E>(schedule: seq<Offer<E>>, k: nat)
    requires k <= |schedule| && Serve(schedule[..k]).Closed()
    ensures Serve(schedule) == Serve(schedule[..k])
    decreases |schedule| - k
  {
    if k == |schedule| {
      assert schedule[..k] == schedule;
    } else {
      ServeStep(schedule, k);
      ClosedIsFinal(schedule, k + 1);
    }
  }

  method Pump<E(!new)>(schedule: seq<Offer<E>>) returns (delivered: seq<E>, buf: seq<E>, closed: bool)
    ensures delivered + buf == Sent(schedule)
    ensures closed <==> CloseInput in schedule && delivered == Sent(schedule)
    ensures delivered == Serve(schedule).delivered
  {
    var input, output := true, false;
    var next: Option<E> := None;
    buf, delivered := [], [];
    var k := 0;
    while (input || output) && k < |schedule|
      invariant k <= |schedule|
      invariant Serve(schedule[..k]) == State(input, buf, next, output, delivered)
      decreases |schedule| - k
    {
      ServeStep(schedule, k);
      var taken := false;
      match schedule[k] {
        case Send(err) =>
          if input {
            buf, taken := buf + [err], true;
          }
        case CloseInput =>
          if input {
            input, taken := false, true;
          }
        case Receive =>
          if output {
            delivered, buf, taken := delivered + [next.value], buf[1..], true;
          }
      }
      if taken {
        if |buf| > 0 {
          output, next := true, Some(buf[0]);
        } else {
          output, next := false, None;
        }
      }
      k := k + 1;
    }
    closed := !input && !output;
    assert schedule[..|schedule|] == schedule;
    if closed {
      ClosedIsFinal(schedule, k);
    }
    NothingLost(schedule);
    ClosedExactlyWhenDone(schedule);
  }
}
