/** The log queue of `common/log.cpp`: a growing ring that callers fill and a worker thread empties. Every step is
    atomic, as the code runs it under the mutex (or on data of the worker alone). */
module LogRing {
  import opened Wrappers

  /** What is printed for an entry. */
  datatype Msg = Msg(level: int, prefix: bool, timestamp: int, text: string)

  datatype Entry = Entry(msg: Msg, isEnd: bool)

  const BLANK := Entry(Msg(0, false, 0, ""), false)

  /** The worker thread: none, waiting for an entry, or holding one that it took out. */
  datatype Worker = NoThread | Waiting | Holding(cur: Entry)

  /** `joining`: a call of `pause` waits for the worker to end. `accepted`: the messages taken while running.
      `printed`: the messages written, in order. */
  datatype State = State(
    ring: seq<Entry>, head: nat, tail: nat, running: bool,
    worker: Worker, joining: bool,
    accepted: seq<Msg>, printed: seq<Msg>)

  /** The steps. `Pop` and `Finish` are the worker's: it takes an entry out, and then prints it or ends. `Join` is the
      return of a waiting `pause`. */
  datatype Event = Add(msg: Msg) | Resume | Pause | Pop | Finish | Join

  // ---------------------------------------------------------------------------------- the ring

  predicate RingOk(s: State) {
    s.head < |s.ring| && s.tail < |s.ring|
  }

  /** The entries from `head` to `tail`. */
  function Queue(s: State): seq<Entry>
    requires RingOk(s)
  {
    if s.head <= s.tail then s.ring[s.head..s.tail] else s.ring[s.head..] + s.ring[..s.tail]
  }

  function Blanks(n: nat): (r: seq<Entry>)
    ensures |r| == n
  {
    seq(n, _ => BLANK)
  }

  /** The full ring in order, followed by as many free places. */
  function Grown(ring: seq<Entry>, head: nat): seq<Entry>
    requires head < |ring|
  {
    ring[head..] + ring[..head] + Blanks(|ring|)
  }

  function Next(i: nat, n: nat): (r: nat)
    requires i < n
    ensures r < n
  {
    (i + 1) % n
  }

  lemma NextIs(i: nat, n: nat)
    requires i < n
    ensures Next(i, n) == if i + 1 == n then 0 else i + 1
  {
  }

  function AfterAdd(s: State, msg: Msg): State
    requires RingOk(s)
  {
    if !s.running then s
    else
      var ring := s.ring[s.tail := Entry(msg, false)];
      var tail := Next(s.tail, |ring|);
      var s' := s.(accepted := s.accepted + [msg]);
      if tail == s.head then s'.(ring := Grown(ring, s.head), head := 0, tail := |ring|)
      else s'.(ring := ring, tail := tail)
  }

  /** The entry that tells the worker to end is put into the ring without looking whether the ring is full. */
  function AfterPause(s: State): State
    requires RingOk(s)
  {
    if !s.running then s
    else
      s.(running := false, joining := true,
         ring := s.ring[s.tail := s.ring[s.tail].(isEnd := true)], tail := Next(s.tail, |s.ring|))
  }

  function AfterFinish(s: State): State
    requires s.worker.Holding?
  {
    if s.worker.cur.isEnd then s.(worker := NoThread)
    else s.(worker := Waiting, printed := s.printed + [s.worker.cur.msg])
  }

  /** One step; `None` when it cannot happen now. Starting a thread over one that was not joined ends the program. */
  function Step(s: State, e: Event): (r: Option<State>)
    requires RingOk(s)
    ensures r.Some? ==> RingOk(r.value)
  {
    match e
    case Add(msg) => Some(AfterAdd(s, msg))
    case Resume =>
      if s.running then Some(s)
      else if s.worker.NoThread? && !s.joining then Some(s.(running := true, worker := Waiting))
      else None
    case Pause => Some(AfterPause(s))
    case Pop =>
      if s.worker.Waiting? && s.head != s.tail then
        Some(s.(worker := Holding(s.ring[s.head]), head := Next(s.head, |s.ring|)))
      else None
    case Finish => if s.worker.Holding? then Some(AfterFinish(s)) else None
    case Join => if s.joining && s.worker.NoThread? then Some(s.(joining := false)) else None
  }

  // -------------------------------------------------------------------------- steps of the ring

  /** Adding appends to the queue, whether the ring grows or not, and the queue never looks empty afterwards. */
  lemma AddAppends(s: State, msg: Msg)
    requires RingOk(s) && s.running
    ensures var s' := AfterAdd(s, msg);
            RingOk(s') && s'.head != s'.tail && Queue(s') == Queue(s) + [Entry(msg, false)] && |s'.ring| >= |s.ring|
  {
    NextIs(s.tail, |s.ring|);
    var ring := s.ring[s.tail := Entry(msg, false)];
    if Next(s.tail, |ring|) == s.head {
      GrowKeeps(s.ring, s.head, s.tail, Entry(msg, false));
    } else {
      PlaceKeeps(s.ring, s.head, s.tail, Entry(msg, false));
    }
  }

  /** Growth keeps the entries and their order. */
  lemma GrowKeeps(ring: seq<Entry>, head: nat, tail: nat, e: Entry)
    requires head < |ring| && tail < |ring| && (head == tail + 1 || (head == 0 && tail == |ring| - 1))
    ensures Grown(ring[tail := e], head)[..|ring|] == (if head <= tail then ring[head..tail] else ring[head..] + ring[..tail]) + [e]
  {
  }

  lemma PlaceKeeps(ring: seq<Entry>, head: nat, tail: nat, e: Entry)
    requires head < |ring| && tail < |ring| && head != tail + 1
    ensures head <= tail ==> ring[tail := e][head..tail + 1] == ring[head..tail] + [e]
    ensures head > tail ==> ring[tail := e][head..] + ring[tail := e][..tail + 1] == ring[head..] + ring[..tail] + [e]
    ensures tail == |ring| - 1 ==> ring[tail := e][head..] + [] == ring[head..tail] + [e]
  {
  }

  lemma PopTakesFirst(s: State)
    requires RingOk(s)
    ensures s.head != s.tail <==> Queue(s) != []
    ensures s.head != s.tail ==>
              var s' := s.(head := Next(s.head, |s.ring|));
              RingOk(s') && s.ring[s.head] == Queue(s)[0] && Queue(s') == Queue(s)[1..]
  {
    NextIs(s.head, |s.ring|);
  }

  /** The end entry is appended when two places are free; with one free place the queue looks empty. */
  lemma PauseAppends(s: State)
    requires RingOk(s) && s.running
    ensures var s' := AfterPause(s);
            && RingOk(s') && |Queue(s)| <= |s.ring| - 1
            && (|Queue(s)| <= |s.ring| - 2 ==> Queue(s') == Queue(s) + [s.ring[s.tail].(isEnd := true)])
            && (|Queue(s)| == |s.ring| - 1 ==> Queue(s') == [])
  {
    NextIs(s.tail, |s.ring|);
  }

  // --------------------------------------------------------------------------------- invariant

  predicate NoEnd(q: seq<Entry>) {
    forall i :: 0 <= i < |q| ==> !q[i].isEnd
  }

  /** The messages in front of the first end entry. */
  function Msgs(q: seq<Entry>): seq<Msg> {
    if q == [] || q[0].isEnd then [] else [q[0].msg] + Msgs(q[1..])
  }

  /** The message that the worker has taken out and not yet printed. */
  function Held(w: Worker): seq<Msg> {
    if w.Holding? && !w.cur.isEnd then [w.cur.msg] else []
  }

  /** A pause is under way, and the worker will find the end entry behind everything that was accepted. */
  predicate Draining(s: State)
    requires RingOk(s)
  {
    && s.joining && !s.running
    && s.accepted == s.printed + Held(s.worker) + Msgs(Queue(s))
    && if s.worker.NoThread? || (s.worker.Holding? && s.worker.cur.isEnd) then Queue(s) == []
       else
         var q := Queue(s);
         q != [] && q[|q| - 1].isEnd && NoEnd(q[..|q| - 1])
  }

  /** A pause is under way, and the worker will wait for ever. */
  predicate Stuck(s: State)
    requires RingOk(s)
  {
    && s.joining && !s.running && Queue(s) == []
    && !s.worker.NoThread? && (s.worker.Holding? ==> !s.worker.cur.isEnd)
    && s.printed + Held(s.worker) <= s.accepted
  }

  predicate Active(s: State)
    requires RingOk(s)
  {
    && s.running && !s.joining && !s.worker.NoThread? && NoEnd(Queue(s))
    && (s.worker.Holding? ==> !s.worker.cur.isEnd)
    && s.accepted == s.printed + Held(s.worker) + Msgs(Queue(s))
  }

  predicate Stopped(s: State)
    requires RingOk(s)
  {
    !s.running && !s.joining && s.worker.NoThread? && Queue(s) == [] && s.accepted == s.printed
  }

  predicate Inv(s: State) {
    RingOk(s) && (Active(s) || Draining(s) || Stuck(s) || Stopped(s))
  }

  lemma {:induction false} MsgsSnoc(q: seq<Entry>, e: Entry)
    requires NoEnd(q)
    ensures Msgs(q + [e]) == if e.isEnd then Msgs(q) else Msgs(q) + [e.msg]
  {
    if q == [] {
      assert q + [e] == [e] && [e][1..] == [];
    } else {
      assert (q + [e])[1..] == q[1..] + [e];
      MsgsSnoc(q[1..], e);
    }
  }

  lemma AddKeeps(s: State, msg: Msg)
    requires Inv(s)
    ensures Inv(AfterAdd(s, msg))
  {
    hide Msgs;
    if s.running {
      var s' := AfterAdd(s, msg);
      AddAppends(s, msg);
      MsgsSnoc(Queue(s), Entry(msg, false));
      hide Queue;
      Append3(s.printed + Held(s.worker), Msgs(Queue(s)), [msg]);
    }
  }

  lemma Append3<T>(a: seq<T>, b: seq<T>, c: seq<T>)
    ensures a + b + c == a + (b + c)
  {
  }

  /** What a pause leads to depends on the free places only. */
  lemma PauseLeadsTo(s: State)
    requires RingOk(s) && Active(s)
    ensures var s' := AfterPause(s);
            && RingOk(s') && s'.accepted == s.accepted
            && (|Queue(s)| <= |s.ring| - 2 ==> Draining(s'))
            && (|Queue(s)| > |s.ring| - 2 ==> Stuck(s'))
  {
    hide Msgs;
    PauseAppends(s);
    var e := s.ring[s.tail].(isEnd := true);
    MsgsSnoc(Queue(s), e);
    hide Queue;
    assert (Queue(s) + [e])[..|Queue(s)|] == Queue(s);
  }

  lemma PopKeeps(s: State)
    requires Inv(s) && Step(s, Pop).Some?
    ensures Inv(Step(s, Pop).value)
    ensures Draining(s) ==> Draining(Step(s, Pop).value)
  {
    hide Msgs;
    PopTakesFirst(s);
    if Active(s) { PopActive(s); } else { PopDraining(s); }
  }

  lemma MsgsTail(q: seq<Entry>)
    requires q != []
    ensures Msgs(q) == if q[0].isEnd then [] else [q[0].msg] + Msgs(q[1..])
  {
  }

  lemma PopActive(s: State)
    requires RingOk(s) && Active(s) && Step(s, Pop).Some?
    ensures RingOk(Step(s, Pop).value) && Active(Step(s, Pop).value)
  {
    hide Msgs;
    PopTakesFirst(s);
    var s', q := Step(s, Pop).value, Queue(s);
    assert Queue(s') == q[1..];
    hide Queue;
    MsgsTail(q);
    assert !q[0].isEnd;
    assert s.printed + [] == s.printed;
    Append3(s.printed, [q[0].msg], Msgs(q[1..]));
  }

  lemma PopDraining(s: State)
    requires RingOk(s) && Draining(s) && Step(s, Pop).Some?
    ensures RingOk(Step(s, Pop).value) && Draining(Step(s, Pop).value)
  {
    hide Msgs, NoEnd;
    PopTakesFirst(s);
    var s', q := Step(s, Pop).value, Queue(s);
    assert Queue(s') == q[1..];
    hide Queue;
    assert s.printed + [] == s.printed;
    DrainingTail(q);
    Append3(s.printed, Held(s'.worker), Msgs(q[1..]));
  }

  /** What is left of a queue that ends with the end entry when its first entry is taken. */
  lemma DrainingTail(q: seq<Entry>)
    requires q != [] && q[|q| - 1].isEnd && NoEnd(q[..|q| - 1])
    ensures q[0].isEnd <==> q[1..] == []
    ensures q[1..] != [] ==> q[1..][|q| - 2].isEnd && NoEnd(q[1..][..|q| - 2])
    ensures Msgs(q) == Held(Holding(q[0])) + Msgs(q[1..])
  {
    hide Msgs;
    MsgsTail(q);
    if |q| > 1 {
      assert q[0] == q[..|q| - 1][0];
      assert q[1..][..|q| - 2] == q[..|q| - 1][1..];
    } else {
      assert q[1..] == [];
      NoMsgs();
    }
  }

  lemma NoMsgs()
    ensures Msgs([]) == []
  {
  }

  lemma FinishKeeps(s: State)
    requires Inv(s) && Step(s, Finish).Some?
    ensures Inv(Step(s, Finish).value)
    ensures Draining(s) ==> Draining(Step(s, Finish).value)
  {
    hide Msgs;
    var s' := Step(s, Finish).value;
    assert Queue(s') == Queue(s);
    hide Queue;
    assert s'.printed + [] == s.printed + Held(s.worker);
  }

  lemma StepKeeps(s: State, e: Event)
    requires Inv(s) && Step(s, e).Some?
    ensures Inv(Step(s, e).value)
  {
    match e
    case Add(msg) => AddKeeps(s, msg);
    case Resume => assert Queue(Step(s, e).value) == Queue(s);
    case Pause => if s.running { PauseLeadsTo(s); }
    case Pop => PopKeeps(s);
    case Finish => FinishKeeps(s);
    case Join => assert Queue(Step(s, e).value) == Queue(s);
  }

  // --------------------------------------------------------------------------------------- runs

  /** The state after the constructor, which also starts the worker. */
  function Init(capacity: nat): State {
    State(Blanks(capacity), 0, 0, true, Waiting, false, [], [])
  }

  /** The state after a run; `None` when one of its steps cannot happen. */
  function Run(s: State, es: seq<Event>): (r: Option<State>)
    requires RingOk(s)
    ensures r.Some? ==> RingOk(r.value)
    decreases |es|
  {
    if es == [] then Some(s)
    else
      match Step(s, es[0])
      case None => None
      case Some(t) => Run(t, es[1..])
  }

  /** Every run keeps the invariant. */
  lemma {:induction false} RunKeeps(s: State, es: seq<Event>)
    requires Inv(s)
    ensures Run(s, es).Some? ==> Inv(Run(s, es).value)
    decreases |es|
  {
    assert RingOk(s);
    hide Step, Inv;
    if es != [] && Step(s, es[0]).Some? {
      StepKeeps(s, es[0]);
      RunKeeps(Step(s, es[0]).value, es[1..]);
    }
  }

  lemma InitInv(capacity: nat)
    requires capacity > 0
    ensures Inv(Init(capacity))
  {
  }

  /** THE LOG IS FIRST-IN FIRST-OUT. In every run, what has been printed is a prefix of what was accepted; nothing is
      missing but what the worker holds and what is queued, unless a pause has run into a full ring. */
  lemma Fifo(capacity: nat, es: seq<Event>)
    requires capacity > 0
    ensures RingOk(Init(capacity))
    ensures var r := Run(Init(capacity), es);
            r.Some? ==>
              && r.value.printed <= r.value.accepted
              && (Stuck(r.value) || r.value.accepted == r.value.printed + Held(r.value.worker) + Msgs(Queue(r.value)))
  {
    InitInv(capacity);
    RunKeeps(Init(capacity), es);
  }

  // -------------------------------------------------------------------------------------- pause

  /** The steps that the worker still has to take. */
  function Work(s: State): nat
    requires RingOk(s)
  {
    2 * |Queue(s)| + if s.worker.Holding? then 1 else 0
  }

  /** While a pause drains, the worker can always take a step, every step brings it nearer to the end, and the steps
      of the others change nothing; when the worker has ended, everything accepted is printed. */
  lemma DrainingStep(s: State, e: Event)
    requires RingOk(s) && Draining(s) && e != Join && Step(s, e).Some?
    ensures var s' := Step(s, e).value;
            && RingOk(s') && Draining(s') && s'.accepted == s.accepted
            && (if e in {Pop, Finish} then Work(s') == Work(s) - 1 else s' == s)
  {
    hide Msgs;
    match e
    case Pop =>
      PopTakesFirst(s);
      PopKeeps(s);
    case Finish => FinishKeeps(s);
    case _ =>
  }

  /** `t` is in the middle of the pause that began in `s`: nothing more was accepted, and it is drained or the worker
      can go on. */
  predicate OnTheWay(s: State, t: State) {
    && RingOk(t) && t.joining && t.accepted == s.accepted
    && (t.worker.NoThread? ==> t.printed == s.accepted)
    && (!t.worker.NoThread? ==> Step(t, if t.worker.Waiting? then Pop else Finish).Some?)
  }

  lemma DrainingOnTheWay(s: State, t: State)
    requires RingOk(t) && Draining(t) && t.accepted == s.accepted
    ensures OnTheWay(s, t)
  {
    PopTakesFirst(t);
    if t.worker.NoThread? { assert t.printed + [] + [] == t.printed; }
  }

  /** Whatever happens until the pause returns, and however the steps interleave, it stays on the way. */
  lemma {:induction false} DrainingRun(s: State, t: State, es: seq<Event>)
    requires Inv(t) && Draining(t) && t.accepted == s.accepted && Join !in es && Run(t, es).Some?
    ensures OnTheWay(s, Run(t, es).value) && Draining(Run(t, es).value)
    ensures Work(Run(t, es).value) <= Work(t)
    decreases |es|
  {
    hide Draining, Msgs, Queue, Step, OnTheWay;
    if es == [] {
      DrainingOnTheWay(s, t);
    } else {
      var e := es[0];
      assert e in es;
      var t' := Step(t, e).value;
      DrainingStep(t, e);
      assert forall x :: x in es[1..] ==> x in es;
      DrainingRun(s, t', es[1..]);
    }
  }

  /** The worker's own steps lead to the end. */
  lemma {:induction false} WorkerDrains(t: State) returns (es: seq<Event>)
    requires Inv(t) && Draining(t)
    ensures Join !in es && Run(t, es).Some? && Run(t, es).value.worker.NoThread? && Draining(Run(t, es).value)
    decreases Work(t)
  {
    hide Draining, Msgs, Queue, Step;
    if t.worker.NoThread? {
      es := [];
    } else {
      var e := if t.worker.Waiting? then Pop else Finish;
      DrainingOnTheWay(t, t);
      WorkerCan(t, t);
      DrainingStep(t, e);
      var rest := WorkerDrains(Step(t, e).value);
      es := [e] + rest;
      assert es[1..] == rest;
    }
  }

  lemma WorkerCan(s: State, t: State)
    requires OnTheWay(s, t) && !t.worker.NoThread?
    ensures Step(t, if t.worker.Waiting? then Pop else Finish).Some?
  {
  }

  lemma {:induction false} StuckRun(t: State, es: seq<Event>)
    requires Inv(t) && Stuck(t) && Run(t, es).Some?
    ensures var u := Run(t, es).value;
            Stuck(u) && u.accepted == t.accepted && u.printed + Held(u.worker) == t.printed + Held(t.worker)
    decreases |es|
  {
    if es != [] {
      var t' := Step(t, es[0]).value;
      PopTakesFirst(t);
      assert RingOk(t');
      assert Queue(t') == Queue(t);
      assert t'.printed + Held(t'.worker) == t.printed + Held(t.worker);
      StuckRun(t', es[1..]);
    }
  }

  /** A run of the pause that was begun in `s` ends with its return, everything accepted printed. */
  ghost predicate CanReturn(s: State)
    requires Inv(s) && s.running
  {
    StepKeeps(s, Pause);
    exists es :: Join !in es && Run(AfterPause(s), es).Some? &&
                 Step(Run(AfterPause(s), es).value, Join).Some? && Run(AfterPause(s), es).value.printed == s.accepted
  }

  /** THE EXACT CONDITION FOR A PAUSE. With at most capacity - 2 entries pending it stays on the way in every run, and
      can return with everything accepted printed; with more, it returns in no run. */
  lemma PauseExact(s: State)
    requires Inv(s) && s.running
    ensures Inv(AfterPause(s))
    ensures CanReturn(s) <==> |Queue(s)| <= |s.ring| - 2
    ensures |Queue(s)| <= |s.ring| - 2 ==>
              forall es :: Join !in es && Run(AfterPause(s), es).Some? ==> OnTheWay(s, Run(AfterPause(s), es).value)
    ensures |Queue(s)| > |s.ring| - 2 ==>
              forall es :: Run(AfterPause(s), es).Some? ==> Stuck(Run(AfterPause(s), es).value)
  {
    hide Queue, Msgs, Step, Draining, Stuck, OnTheWay;
    StepIsPause(s);
    StepKeeps(s, Pause);
    var t := AfterPause(s);
    PauseLeadsTo(s);
    if |Queue(s)| <= |s.ring| - 2 {
      forall es | Join !in es && Run(t, es).Some? ensures OnTheWay(s, Run(t, es).value) {
        DrainingRun(s, t, es);
      }
      var es := WorkerDrains(t);
      DrainingRun(s, t, es);
      Returns(s, Run(t, es).value);
    } else {
      forall es | Run(t, es).Some? ensures Stuck(Run(t, es).value) {
        StuckRun(t, es);
      }
      forall es | Run(t, es).Some? ensures Step(Run(t, es).value, Join).None? {
        StuckRun(t, es);
        NoReturn(Run(t, es).value);
      }
    }
  }

  lemma StepIsPause(s: State)
    requires Inv(s) && s.running
    ensures Active(s) && Step(s, Pause) == Some(AfterPause(s))
  {
  }

  lemma Returns(s: State, t: State)
    requires OnTheWay(s, t) && t.worker.NoThread?
    ensures Step(t, Join).Some? && t.printed == s.accepted
  {
  }

  lemma NoReturn(t: State)
    requires RingOk(t) && Stuck(t)
    ensures Step(t, Join).None?
  {
  }

  function Adds(n: nat, msg: Msg): (es: seq<Event>)
    ensures |es| == n
  {
    if n == 0 then [] else [Add(msg)] + Adds(n - 1, msg)
  }

  /** While there is room, the ring does not grow. */
  lemma {:induction false} AddsFill(s: State, n: nat, msg: Msg)
    requires Inv(s) && s.running && s.head == 0 && s.tail + n < |s.ring|
    ensures var r := Run(s, Adds(n, msg));
            r.Some? && r.value.running && r.value.head == 0 && r.value.tail == s.tail + n && |r.value.ring| == |s.ring|
    decreases n
  {
    if n > 0 {
      var t := AfterAdd(s, msg);
      NextIs(s.tail, |s.ring|);
      StepKeeps(s, Add(msg));
      assert Adds(n, msg)[1..] == Adds(n - 1, msg);
      AddsFill(t, n - 1, msg);
    }
  }

  /** A log of any capacity reaches a pause that returns in no run: the one taken when all places but one are in use. */
  lemma PauseCanHang(capacity: nat, msg: Msg)
    requires capacity > 0
    ensures RingOk(Init(capacity))
    ensures var r := Run(Init(capacity), Adds(capacity - 1, msg));
            r.Some? && Inv(r.value) && r.value.running && !CanReturn(r.value)
  {
    InitInv(capacity);
    RunKeeps(Init(capacity), Adds(capacity - 1, msg));
    AddsFill(Init(capacity), capacity - 1, msg);
    PauseExact(Run(Init(capacity), Adds(capacity - 1, msg)).value);
  }

  // ---------------------------------------------------------------------------- the log itself

  lemma GrownIs(ring: seq<Entry>, head: nat, s: seq<Entry>)
    requires head < |ring| && |s| == 2 * |ring|
    requires forall k :: 0 <= k < |ring| ==> s[k] == ring[if head + k < |ring| then head + k else head + k - |ring|]
    requires forall k :: |ring| <= k < |s| ==> s[k] == BLANK
    ensures s == Grown(ring, head)
  {
  }

  class CommonLog {
    var entries: array<Entry>
    var head: nat
    var tail: nat
    var running: bool
    var worker: Worker
    var printed: seq<Msg>
    ghost var joining: bool
    ghost var accepted: seq<Msg>

    ghost function Abs(): State
      reads this, entries
    {
      State(entries[..], head, tail, running, worker, joining, accepted, printed)
    }

    constructor (capacity: nat)
      requires capacity > 0
      ensures Abs() == Init(capacity) && fresh(entries)
    {
      entries := new Entry[capacity](_ => BLANK);
      head, tail := 0, 0;
      running, worker, printed := true, Waiting, [];
      joining, accepted := false, [];
      new;
      assert entries[..] == Blanks(capacity);
    }

    method AddEntry(msg: Msg)
      requires RingOk(Abs())
      modifies this, entries
      ensures Abs() == AfterAdd(old(Abs()), msg)
      ensures entries == old(entries) || fresh(entries)
    {
      if !running { return; }
      accepted := accepted + [msg];
      entries[tail] := Entry(msg, false);
      tail := (tail + 1) % entries.Length;
      if tail == head {
        var newEntries := new Entry[2 * entries.Length](_ => BLANK);
        MoveEntries(newEntries);
        entries := newEntries;
      }
    }

    /** The loop that moves the entries of the full ring to the front of a larger one. */
    method MoveEntries(newEntries: array<Entry>)
      requires RingOk(Abs()) && head == tail && newEntries != entries
      requires newEntries.Length == 2 * entries.Length && forall k :: 0 <= k < newEntries.Length ==> newEntries[k] == BLANK
      modifies this`head, this`tail, newEntries
      ensures newEntries[..] == Grown(entries[..], old(head)) && head == 0 && tail == entries.Length
    {
      hide Next, Grown;
      var n, newTail := entries.Length, 0;
      while true
        invariant newTail < n && tail == old(tail)
        invariant head == if old(head) + newTail < n then old(head) + newTail else old(head) + newTail - n
        invariant forall k :: 0 <= k < newTail ==>
                    newEntries[k] == entries[if old(head) + k < n then old(head) + k else old(head) + k - n]
        invariant forall k :: newTail <= k < newEntries.Length ==> newEntries[k] == BLANK
        decreases n - newTail
      {
        newEntries[newTail] := entries[head];
        NextIs(head, n);
        head := Next(head, n);
        newTail := newTail + 1;
        if head == tail { break; }
      }
      head := 0;
      tail := newTail;
      GrownIs(entries[..], old(head), newEntries[..]);
    }

    method ResumeLog()
      requires RingOk(Abs()) && Step(Abs(), Resume).Some?
      modifies this
      ensures Abs() == Step(old(Abs()), Resume).value
    {
      if running { return; }
      running := true;
      worker := Waiting;
    }

    /** The part of `pause` before the thread is joined; it answers whether there is a thread to wait for. */
    method PauseLog() returns (wait: bool)
      requires RingOk(Abs())
      modifies this, entries
      ensures Abs() == AfterPause(old(Abs())) && entries == old(entries)
      ensures wait == old(running)
    {
      if !running { return false; }
      running := false;
      entries[tail] := entries[tail].(isEnd := true);
      tail := (tail + 1) % entries.Length;
      joining := true;
      wait := true;
    }

    /** The worker's part under the mutex, once there is something to take. */
    method WorkerPop()
      requires RingOk(Abs()) && Step(Abs(), Pop).Some?
      modifies this
      ensures Abs() == Step(old(Abs()), Pop).value
    {
      worker := Holding(entries[head]);
      head := (head + 1) % entries.Length;
    }

    /** The worker prints what it took, or ends. */
    method WorkerFinish() returns (ended: bool)
      requires RingOk(Abs()) && worker.Holding?
      modifies this
      ensures Abs() == AfterFinish(old(Abs())) && ended == worker.NoThread?
    {
      ended := worker.cur.isEnd;
      if ended {
        worker := NoThread;
      } else {
        printed := printed + [worker.cur.msg];
        worker := Waiting;
      }
    }
  }
}
