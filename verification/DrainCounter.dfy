/** A byte counter of a connection record (types.rs): adders race with drainers that move one of two cursors by a
    compare-and-swap loop. The atomic steps of all parties interleave freely; every load, addition and exchange is
    one step, and a weak exchange may fail for no reason. */
module DrainCounter {
  import opened MachineInts
  import opened Wrappers

  /** Each counter has two consumers that never share a cursor. */
  datatype Cursor = Drained | Folded

  datatype Cursors = Cursors(drained: u64, folded: u64) {
    function Of(c: Cursor): u64 {
      if c == Drained then drained else folded
    }

    function Moved(c: Cursor, n: u64): Cursors {
      if c == Drained then this.(drained := n) else this.(folded := n)
    }
  }

  /** Where a call of `drain_one` stands: about to load the counter, or about to exchange. */
  datatype Pc = Loaded(prev: u64) | Seen(prev: u64, now: u64)

  datatype Call = Call(cursor: Cursor, pc: Pc)

  datatype Payment = Payment(cursor: Cursor, amount: u64)

  /** `adds` and `payments` record what was passed to `add` and returned by `drain_one`, in order. */
  datatype State = State(cur: u64, last: Cursors, calls: map<nat, Call>,
                         adds: seq<u64>, payments: seq<Payment>)

  datatype Event =
    | Add(n: u64)
    | Enter(tid: nat, cursor: Cursor)
    | LoadCurrent(tid: nat)
    | ExchangeOk(tid: nat)
    | ExchangeFails(tid: nat)

  const INIT := State(0, Cursors(0, 0), map[], [], [])

  /** One atomic step, if the event can happen in this state. */
  function Next(s: State, e: Event): Option<State>
  {
    match e
    case Add(n) => Some(s.(cur := (s.cur as int + n) % TWO_64, adds := s.adds + [n]))
    case Enter(tid, c) =>
      if tid in s.calls then None else Some(s.(calls := s.calls[tid := Call(c, Loaded(s.last.Of(c)))]))
    case LoadCurrent(tid) =>
      if tid !in s.calls || !s.calls[tid].pc.Loaded? then None
      else
        var c, prev := s.calls[tid].cursor, s.calls[tid].pc.prev;
        if s.cur <= prev then Some(s.(calls := s.calls - {tid}, payments := s.payments + [Payment(c, 0)]))
        else Some(s.(calls := s.calls[tid := Call(c, Seen(prev, s.cur))]))
    case ExchangeOk(tid) =>
      if tid !in s.calls || !s.calls[tid].pc.Seen? then None
      else
        var c, prev, now := s.calls[tid].cursor, s.calls[tid].pc.prev, s.calls[tid].pc.now;
        if s.last.Of(c) != prev || now < prev then None
        else Some(s.(last := s.last.Moved(c, now), calls := s.calls - {tid},
                     payments := s.payments + [Payment(c, now - prev)]))
    case ExchangeFails(tid) =>
      if tid !in s.calls || !s.calls[tid].pc.Seen? then None
      else
        var c := s.calls[tid].cursor;
        Some(s.(calls := s.calls[tid := Call(c, Loaded(s.last.Of(c)))]))
  }

  /** The state a run of events leads to; events that cannot happen end the run. */
  function Run(events: seq<Event>): Option<State>
  {
    if events == [] then Some(INIT)
    else match Run(events[..|events| - 1])
      case None => None
      case Some(s) => Next(s, events[|events| - 1])
  }

  lemma RunSnoc(events: seq<Event>, e: Event)
    ensures Run(events + [e]) == match Run(events) case None => None case Some(s) => Next(s, e)
  {
    assert (events + [e])[..|events|] == events;
  }

  function Sum(ns: seq<u64>): nat {
    if ns == [] then 0 else Sum(ns[..|ns| - 1]) + ns[|ns| - 1]
  }

  /** Everything returned to the users of a cursor so far. */
  function Paid(ps: seq<Payment>, c: Cursor): nat {
    if ps == [] then 0
    else Paid(ps[..|ps| - 1], c) + if ps[|ps| - 1].cursor == c then ps[|ps| - 1].amount else 0
  }

  lemma SumSnoc(ns: seq<u64>, n: u64)
    ensures Sum(ns + [n]) == Sum(ns) + n
  {
    assert (ns + [n])[..|ns|] == ns;
  }

  lemma PaidSnoc(ps: seq<Payment>, p: Payment, c: Cursor)
    ensures Paid(ps + [p], c) == Paid(ps, c) + if p.cursor == c then p.amount else 0
  {
    assert (ps + [p])[..|ps|] == ps;
  }

  /** What every step keeps, however the additions wrap: each cursor stands at the total paid out for it, the
      counter at the total added modulo 2^64, and no pending call is ahead of its cursor. */
  ghost predicate Conserved(s: State) {
    && s.cur == Sum(s.adds) % TWO_64
    && (forall c :: s.last.Of(c) == Paid(s.payments, c))
    && (forall t :: t in s.calls ==> s.calls[t].pc.prev <= s.last.Of(s.calls[t].cursor))
    && (forall t :: t in s.calls && s.calls[t].pc.Seen? ==> s.calls[t].pc.prev < s.calls[t].pc.now)
  }

  /** What every step keeps besides while the total added fits 64 bits. */
  ghost predicate NeverAhead(s: State)
  {
    && Sum(s.adds) < TWO_64
    && (forall c :: s.last.Of(c) <= s.cur)
    && (forall t :: t in s.calls && s.calls[t].pc.Seen? ==> s.calls[t].pc.now <= s.cur)
  }

  lemma AddConserves(s: State, n: u64)
    requires Conserved(s)
    ensures Conserved(Next(s, Add(n)).value)
  {
    hide Sum, Paid;
    SumSnoc(s.adds, n);
    ModAdd(Sum(s.adds), n, TWO_64);
  }

  /** Paying what a cursor moves by. */
  lemma PaymentConserves(s: State, call: Call, amount: u64, s': State)
    requires forall c :: s.last.Of(c) == Paid(s.payments, c)
    requires s'.payments == s.payments + [Payment(call.cursor, amount)]
    requires forall c :: s'.last.Of(c) == s.last.Of(c) + if c == call.cursor then amount else 0
    ensures forall c :: s'.last.Of(c) == Paid(s'.payments, c)
  {
    hide Paid;
    forall c {
      PaidSnoc(s.payments, Payment(call.cursor, amount), c);
    }
  }

  lemma StepConserves(s: State, e: Event)
    requires Conserved(s) && Next(s, e).Some?
    ensures Conserved(Next(s, e).value)
  {
    hide Sum, Paid;
    match e
    case Add(n) => AddConserves(s, n);
    case Enter(tid, c) =>
    case LoadCurrent(tid) =>
      if s.cur <= s.calls[tid].pc.prev {
        PaymentConserves(s, s.calls[tid], 0, Next(s, e).value);
      }
    case ExchangeOk(tid) =>
      var call := s.calls[tid];
      PaymentConserves(s, call, call.pc.now - call.pc.prev, Next(s, e).value);
    case ExchangeFails(tid) =>
  }

  lemma StepNeverAhead(s: State, e: Event)
    requires Conserved(s) && NeverAhead(s) && Next(s, e).Some? && Sum(Next(s, e).value.adds) < TWO_64
    ensures NeverAhead(Next(s, e).value)
  {
    match e
    case Add(n) =>
      SumSnoc(s.adds, n);
      DivUnique(Sum(s.adds), 0, TWO_64, Sum(s.adds));
      DivUnique(Sum(s.adds) + n, 0, TWO_64, Sum(s.adds) + n);
    case Enter(_, _) =>
    case LoadCurrent(_) =>
    case ExchangeOk(tid) =>
      var s' := Next(s, e).value;
      forall c ensures s'.last.Of(c) <= s'.cur {
        assert s.last.Of(c) <= s.cur;
      }
    case ExchangeFails(_) =>
  }

  lemma {:induction false} RunConserves(events: seq<Event>)
    requires Run(events).Some?
    ensures Conserved(Run(events).value)
    ensures Sum(Run(events).value.adds) < TWO_64 ==> NeverAhead(Run(events).value)
  {
    if events != [] {
      var s, e := Run(events[..|events| - 1]).value, events[|events| - 1];
      RunConserves(events[..|events| - 1]);
      StepConserves(s, e);
      if e.Add? {
        SumSnoc(s.adds, e.n);
      }
      if Sum(Run(events).value.adds) < TWO_64 {
        StepNeverAhead(s, e);
      }
    }
  }

  /** In every interleaving of adders, drainers and folders: what the users of a cursor were paid is where the cursor
      stands, and paid plus pending is exactly what was added — as long as the total fits 64 bits, and only then. */
  lemma NothingLostNorPaidTwice(events: seq<Event>, c: Cursor)
    requires Run(events).Some?
    ensures var s := Run(events).value;
            && Paid(s.payments, c) == s.last.Of(c)
            && (Paid(s.payments, c) + (s.cur as int - s.last.Of(c)) == Sum(s.adds) <==> Sum(s.adds) < TWO_64)
            && (Sum(s.adds) < TWO_64 ==> s.last.Of(c) <= s.cur)
  {
    RunConserves(events);
    var s := Run(events).value;
    if Sum(s.adds) < TWO_64 {
      DivUnique(Sum(s.adds), 0, TWO_64, Sum(s.adds));
    }
  }

  /** A step moves its cursor by what it pays and no other, and pays zero only at an instant when nothing is pending.
      While the total fits 64 bits it pays at most what is pending at that instant. */
  lemma PaymentsAreTimely(events: seq<Event>, e: Event)
    requires Run(events).Some? && Next(Run(events).value, e).Some?
    ensures var s, s' := Run(events).value, Next(Run(events).value, e).value;
            s'.payments != s.payments ==>
              && |s'.payments| == |s.payments| + 1
              && var p := s'.payments[|s.payments|];
              && s'.cur == s.cur
              && (forall c :: s'.last.Of(c) == s.last.Of(c) + if c == p.cursor then p.amount else 0)
              && (p.amount == 0 ==> s.cur <= s.last.Of(p.cursor))
              && (Sum(s.adds) < TWO_64 ==>
                    && p.amount <= s.cur as int - s.last.Of(p.cursor)
                    && (s.cur == s.last.Of(p.cursor) ==> p.amount == 0))
  {
    RunConserves(events);
  }

  lemma EnterStep(events: seq<Event>, s: State, tid: nat, c: Cursor)
    requires Run(events) == Some(s) && tid !in s.calls
    ensures Run(events + [Enter(tid, c)]) == Some(s.(calls := s.calls[tid := Call(c, Loaded(s.last.Of(c)))]))
  {
    RunSnoc(events, Enter(tid, c));
  }

  lemma LoadStep(events: seq<Event>, s: State, tid: nat, c: Cursor, prev: u64)
    requires Run(events) == Some(s.(calls := s.calls[tid := Call(c, Loaded(prev))])) && tid !in s.calls
    ensures Run(events + [LoadCurrent(tid)]) ==
            Some(if s.cur <= prev then s.(payments := s.payments + [Payment(c, 0)])
                 else s.(calls := s.calls[tid := Call(c, Seen(prev, s.cur))]))
  {
    RunSnoc(events, LoadCurrent(tid));
    assert s.calls[tid := Call(c, Loaded(prev))] - {tid} == s.calls;
    assert s.calls[tid := Call(c, Loaded(prev))][tid := Call(c, Seen(prev, s.cur))]
        == s.calls[tid := Call(c, Seen(prev, s.cur))];
  }

  lemma ExchangeStep(events: seq<Event>, s: State, tid: nat, c: Cursor, now: u64)
    requires tid !in s.calls && s.last.Of(c) <= now
    requires Run(events) == Some(s.(calls := s.calls[tid := Call(c, Seen(s.last.Of(c), now))]))
    ensures Run(events + [ExchangeOk(tid)]) ==
            Some(s.(last := s.last.Moved(c, now), payments := s.payments + [Payment(c, now - s.last.Of(c))]))
  {
    RunSnoc(events, ExchangeOk(tid));
    assert s.calls[tid := Call(c, Seen(s.last.Of(c), now))] - {tid} == s.calls;
  }

  lemma AddStep(events: seq<Event>, s: State, n: u64)
    requires Run(events) == Some(s)
    ensures Run(events + [Add(n)]) == Some(s.(cur := (s.cur as int + n) % TWO_64, adds := s.adds + [n]))
  {
    RunSnoc(events, Add(n));
  }

  /** The steps of a call with no rival: load the cursor, load the counter, exchange if there is anything to take. */
  function Alone(s: State, tid: nat, c: Cursor): seq<Event> {
    [Enter(tid, c), LoadCurrent(tid)] + if s.cur > s.last.Of(c) then [ExchangeOk(tid)] else []
  }

  /** A call that runs alone without spurious failures takes everything pending, whatever other calls are caught
      half-way, and nothing if the counter has wrapped below its cursor. */
  lemma SoloDrainTakesAll(events: seq<Event>, tid: nat, c: Cursor)
    requires Run(events).Some? && tid !in Run(events).value.calls
    ensures var s := Run(events).value;
            var s' := Run(events + Alone(s, tid, c));
            if s.last.Of(c) <= s.cur
            then s' == Some(s.(last := s.last.Moved(c, s.cur),
                               payments := s.payments + [Payment(c, s.cur - s.last.Of(c))]))
            else s' == Some(s.(payments := s.payments + [Payment(c, 0)])) && Sum(s.adds) >= TWO_64
  {
    hide Next, Run;
    RunConserves(events);
    var s := Run(events).value;
    EnterStep(events, s, tid, c);
    LoadStep(events + [Enter(tid, c)], s, tid, c, s.last.Of(c));
    var entered := events + [Enter(tid, c)] + [LoadCurrent(tid)];
    if s.cur > s.last.Of(c) {
      ExchangeStep(entered, s, tid, c, s.cur);
      assert entered + [ExchangeOk(tid)] == events + Alone(s, tid, c);
    } else {
      assert entered == events + Alone(s, tid, c);
      assert s.cur == s.last.Of(c) ==> s.last.Moved(c, s.cur) == s.last;
    }
  }

  /** An exchange that fails for a reason hands the call a strictly newer cursor value: some other call on the same
      cursor got through since. */
  lemma HonestFailureMeansProgress(events: seq<Event>, tid: nat)
    requires Run(events).Some? && tid in Run(events).value.calls && Run(events).value.calls[tid].pc.Seen?
    requires var s := Run(events).value; var call := s.calls[tid]; s.last.Of(call.cursor) != call.pc.prev
    ensures var s := Run(events).value;
            var s' := Next(s, ExchangeFails(tid)).value;
            && Next(s, ExchangeOk(tid)) == None
            && s'.calls[tid].pc.prev > s.calls[tid].pc.prev
            && s'.payments == s.payments && s'.last == s.last
  {
    RunConserves(events);
  }

  /** Past 64 bits the law fails: after the counter wraps, a call that finds new bytes is paid nothing. */
  lemma WrapLosesBytes()
    ensures var events := [Add(TWO_64 - 1), Enter(0, Drained), LoadCurrent(0), ExchangeOk(0),
                           Add(1), Enter(0, Drained), LoadCurrent(0)];
            var s := Run(events);
            && s.Some?
            && Sum(s.value.adds) == TWO_64
            && Paid(s.value.payments, Drained) == TWO_64 - 1
            && s.value.cur == 0 && s.value.calls == map[]
  {
    hide Next, Run;
    var e := [Add(TWO_64 - 1), Enter(0, Drained), LoadCurrent(0), ExchangeOk(0),
              Add(1), Enter(0, Drained), LoadCurrent(0)];
    var s1 := INIT.(cur := TWO_64 - 1, adds := [TWO_64 - 1]);
    assert Run([]) == Some(INIT) by { RunNothing(); }
    AddStep([], INIT, TWO_64 - 1);
    assert [] + [e[0]] == e[..1] && INIT.adds + [TWO_64 - 1] == [TWO_64 - 1];
    EnterStep(e[..1], s1, 0, Drained);
    assert e[..1] + [e[1]] == e[..2];
    LoadStep(e[..2], s1, 0, Drained, 0);
    assert e[..2] + [e[2]] == e[..3];
    ExchangeStep(e[..3], s1, 0, Drained, TWO_64 - 1);
    assert e[..3] + [e[3]] == e[..4];
    var s4 := s1.(last := Cursors(TWO_64 - 1, 0), payments := [] + [Payment(Drained, TWO_64 - 1)]);
    AddStep(e[..4], s4, 1);
    assert e[..4] + [e[4]] == e[..5];
    var s5 := s4.(cur := 0, adds := s4.adds + [1]);
    EnterStep(e[..5], s5, 0, Drained);
    assert e[..5] + [e[5]] == e[..6];
    LoadStep(e[..6], s5, 0, Drained, TWO_64 - 1);
    assert e[..6] + [e[6]] == e;
    SumSnoc([], TWO_64 - 1);
    SumSnoc([TWO_64 - 1], 1);
    PaidSnoc([], Payment(Drained, TWO_64 - 1), Drained);
    PaidSnoc(s4.payments, Payment(Drained, 0), Drained);
  }

  lemma RunNothing()
    ensures Run([]) == Some(INIT)
  {
  }
}
