/**
 * The hand-off of packets from the SDK's threads to the publishing thread (lds.cpp, lddc.cpp,
 * semaphore.cpp), as interleaved atomic steps of any number of producers and one consumer.
 */
module Handoff {
  import opened Options

  /** A packet, by its identity. */
  type Packet = nat

  /**
   * Where a producer stands: between frames, behind the full test, behind the push, before reading the
   * count, before signalling.
   */
  datatype Producer = Idle | HasRoom(lidar: nat, packet: Packet) | Pushed(lidar: nat) | Counting | Signalling

  /** Where the consumer stands: in the semaphore, before a lidar, in its polling loop, before a pop. */
  datatype Consumer = Waiting | AtLidar(i: nat) | Polling(i: nat) | Popping(i: nat)

  /** `accepted` and `popped` are histories; a lidar's connect state matters only as sampling or not. */
  datatype State = State(
    queues: seq<seq<Packet>>,
    sampling: seq<bool>,
    producers: seq<Producer>,
    consumer: Consumer,
    count: int,
    exiting: bool,
    accepted: seq<seq<Packet>>,
    popped: seq<seq<Packet>>)

  /** The size of the point queues; the IMU queues are lists without a bound. */
  datatype Config = Config(capacity: Option<nat>)

  datatype Step =
    | Begin(p: nat, lidar: nat, packet: Packet)
    | Push(p: nat)
    | TestEmpty(p: nat)
    | ReadCount(p: nat)
    | Signal(p: nat)
    | Wait
    | Look
    | Poll
    | Pop
    | SetSampling(lidar: nat, on: bool)
    | RequestExit

  predicate Full(c: Config, q: seq<Packet>) {
    c.capacity.Some? && |q| >= c.capacity.value
  }

  function ProducerAt(s: State, p: nat): Option<Producer> {
    if p < |s.producers| then Some(s.producers[p]) else None
  }

  function Move(s: State, p: nat, to: Producer): State
    requires p < |s.producers|
  {
    s.(producers := s.producers[p := to])
  }

  /** A step of a producer: PushLidarData and StorageImuData cut at their accesses to shared state. */
  function ProducerStep(c: Config, s: State, step: Step): Option<State>
    requires step.Begin? || step.Push? || step.TestEmpty? || step.ReadCount? || step.Signal?
    requires |s.accepted| == |s.queues|
  {
    var at := ProducerAt(s, step.p);
    if at.None? then None
    else if step.Begin? then
      if at.value != Idle || step.lidar >= |s.queues| then None
      else Some(Move(s, step.p, if Full(c, s.queues[step.lidar]) then Counting else HasRoom(step.lidar, step.packet)))
    else if step.Push? then
      if !at.value.HasRoom? || at.value.lidar >= |s.queues| then None
      else
        var l := at.value.lidar;
        Some(Move(s, step.p, Pushed(l)).(
          queues := s.queues[l := s.queues[l] + [at.value.packet]],
          accepted := s.accepted[l := s.accepted[l] + [at.value.packet]]))
    else if step.TestEmpty? then
      if !at.value.Pushed? || at.value.lidar >= |s.queues| then None
      else Some(Move(s, step.p, if s.queues[at.value.lidar] == [] then Idle else Counting))
    else if step.ReadCount? then
      if at.value != Counting then None else Some(Move(s, step.p, if s.count <= 0 then Signalling else Idle))
    else
      if at.value != Signalling then None else Some(Move(s, step.p, Idle).(count := s.count + 1))
  }

  /** A step of the consumer: DistributePointCloudData and DistributeImuData with their polling loops. */
  function ConsumerStep(s: State, step: Step): Option<State>
    requires step.Wait? || step.Look? || step.Poll? || step.Pop?
    requires |s.sampling| == |s.popped| == |s.queues|
  {
    match step
    case Wait =>
      if s.consumer != Waiting || s.count <= 0 then None
      else Some(s.(count := s.count - 1, consumer := AtLidar(0)))
    case Look =>
      if !s.consumer.AtLidar? then None
      else
        var i := s.consumer.i;
        if i >= |s.queues| then Some(s.(consumer := Waiting))
        else Some(s.(consumer := if s.sampling[i] then Polling(i) else AtLidar(i + 1)))
    case Poll =>
      if !s.consumer.Polling? || s.consumer.i >= |s.queues| then None
      else
        var i := s.consumer.i;
        Some(s.(consumer := if s.exiting || s.queues[i] == [] then AtLidar(i + 1) else Popping(i)))
    case Pop =>
      if !s.consumer.Popping? || s.consumer.i >= |s.queues| || s.queues[s.consumer.i] == [] then None
      else
        var i := s.consumer.i;
        Some(s.(consumer := Polling(i), queues := s.queues[i := s.queues[i][1..]],
                popped := s.popped[i := s.popped[i] + [s.queues[i][0]]]))
  }

  function Next(c: Config, s: State, step: Step): Option<State>
    requires Shaped(s)
  {
    match step
    case SetSampling(l, on) => if l >= |s.sampling| then None else Some(s.(sampling := s.sampling[l := on]))
    case RequestExit => Some(s.(exiting := true))
    case Wait | Look | Poll | Pop => ConsumerStep(s, step)
    case _ => ProducerStep(c, s, step)
  }

  // ----- what every step keeps

  predicate Shaped(s: State) {
    |s.sampling| == |s.accepted| == |s.popped| == |s.queues|
  }

  /** Indices in range, and a consumer about to pop has something to pop. */
  predicate Placed(s: State)
    requires Shaped(s)
  {
    && s.count >= 0
    && (forall p | 0 <= p < |s.producers| :: s.producers[p].HasRoom? ==> s.producers[p].lidar < |s.queues|)
    && (forall p | 0 <= p < |s.producers| :: s.producers[p].Pushed? ==> s.producers[p].lidar < |s.queues|)
    && (s.consumer.AtLidar? ==> s.consumer.i <= |s.queues|)
    && (s.consumer.Polling? ==> s.consumer.i < |s.queues|)
    && (s.consumer.Popping? ==> s.consumer.i < |s.queues| && s.queues[s.consumer.i] != [])
  }

  /** Every accepted packet is queued or popped, once and in order. */
  predicate InOrder(s: State)
    requires Shaped(s)
  {
    forall l | 0 <= l < |s.queues| :: s.accepted[l] == s.popped[l] + s.queues[l]
  }

  function Signallers(ps: seq<Producer>): nat {
    if ps == [] then 0 else Signallers(ps[..|ps| - 1]) + (if ps[|ps| - 1] == Signalling then 1 else 0)
  }

  /** The semaphore never counts further than the number of producers. */
  predicate TokensBounded(s: State) {
    s.count + Signallers(s.producers) <= |s.producers|
  }

  predicate Good(s: State) {
    Shaped(s) && Placed(s) && InOrder(s) && TokensBounded(s)
  }

  lemma {:induction false} SignallersMove(ps: seq<Producer>, p: nat, to: Producer)
    requires p < |ps|
    ensures
      Signallers(ps[p := to])
        == Signallers(ps) - (if ps[p] == Signalling then 1 else 0) + (if to == Signalling then 1 else 0)
    decreases |ps|
  {
    var qs := ps[p := to];
    if p < |ps| - 1 {
      assert qs[..|qs| - 1] == ps[..|ps| - 1][p := to];
      SignallersMove(ps[..|ps| - 1], p, to);
    } else {
      assert qs[..|qs| - 1] == ps[..|ps| - 1];
    }
  }

  lemma {:induction false} SignallersBounded(ps: seq<Producer>)
    ensures Signallers(ps) <= |ps|
    ensures (exists p :: 0 <= p < |ps| && ps[p] != Signalling) ==> Signallers(ps) < |ps|
    decreases |ps|
  {
    if ps != [] {
      var init := ps[..|ps| - 1];
      SignallersBounded(init);
      if p :| 0 <= p < |ps| && ps[p] != Signalling && p < |ps| - 1 {
        assert init[p] != Signalling;
      }
    }
  }

  lemma {:induction false} ProducerKeepsGood(c: Config, s: State, step: Step)
    requires Good(s)
    requires step.Begin? || step.Push? || step.TestEmpty? || step.ReadCount? || step.Signal?
    requires ProducerStep(c, s, step).Some?
    ensures Good(ProducerStep(c, s, step).value)
  {
    hide Signallers;
    var t := ProducerStep(c, s, step).value;
    SignallersMove(s.producers, step.p, t.producers[step.p]);
    if step.ReadCount? {
      SignallersBounded(s.producers);
    }
    if step.Push? {
      var l := s.producers[step.p].lidar;
      assert t.accepted[l] == t.popped[l] + t.queues[l];
    }
  }

  lemma {:induction false} ConsumerKeepsGood(s: State, step: Step)
    requires Good(s)
    requires step.Wait? || step.Look? || step.Poll? || step.Pop?
    requires ConsumerStep(s, step).Some?
    ensures Good(ConsumerStep(s, step).value)
  {
    var t := ConsumerStep(s, step).value;
    if step.Pop? {
      var i := s.consumer.i;
      assert t.accepted[i] == t.popped[i] + t.queues[i];
    }
  }

  /** Every step keeps the order of packets, the bound on the semaphore and the ranges. */
  lemma {:induction false} StepKeepsGood(c: Config, s: State, step: Step)
    requires Good(s) && Next(c, s, step).Some?
    ensures Good(Next(c, s, step).value)
  {
    hide ProducerStep, ConsumerStep;
    if step.Wait? || step.Look? || step.Poll? || step.Pop? {
      ConsumerKeepsGood(s, step);
    } else if !step.SetSampling? && !step.RequestExit? {
      ProducerKeepsGood(c, s, step);
    }
  }

  // ----- no wake-up is lost

  /** A producer that will still make sure of a signal on behalf of lidar `l`. */
  predicate WillSignal(p: Producer, l: nat) {
    p == Pushed(l) || p == Counting || p == Signalling
  }

  /** The consumer is going to look at lidar `l` before it waits again. */
  predicate NotPast(k: Consumer, l: nat) {
    !k.Waiting? && k.i <= l
  }

  /** Somebody will see to the packets of lidar `l`. */
  predicate Covered(s: State, l: nat) {
    s.count > 0 || NotPast(s.consumer, l) || exists p :: 0 <= p < |s.producers| && WillSignal(s.producers[p], l)
  }

  predicate NoneLost(s: State)
    requires Shaped(s)
  {
    forall l | 0 <= l < |s.queues| :: s.sampling[l] && s.queues[l] != [] ==> Covered(s, l)
  }

  /**
   * The one way to lose a wake-up: a lidar starts to sample while packets wait in its queue, the
   * semaphore is at zero, the consumer waits or is past the lidar, and each producer is idle, before a
   * push, or behind a push to another lidar.
   */
  predicate LateSwitch(s: State, step: Step)
    requires Shaped(s)
  {
    && step.SetSampling? && step.on && step.lidar < |s.queues| && s.queues[step.lidar] != []
    && s.count <= 0 && (s.consumer.Waiting? || s.consumer.i > step.lidar)
    && forall p | 0 <= p < |s.producers| ::
         || s.producers[p].Idle? || s.producers[p].HasRoom?
         || (s.producers[p].Pushed? && s.producers[p].lidar != step.lidar)
  }

  lemma {:induction false} ProducerCovers(c: Config, s: State, step: Step, l: nat)
    requires Good(s) && l < |s.queues|
    requires step.Begin? || step.Push? || step.TestEmpty? || step.ReadCount? || step.Signal?
    requires ProducerStep(c, s, step).Some?
    requires s.queues[l] != [] ==> !s.sampling[l] || Covered(s, l)
    ensures
      var t := ProducerStep(c, s, step).value;
      t.queues[l] != [] ==> !t.sampling[l] || Covered(t, l)
  {
    hide Signallers;
    var t := ProducerStep(c, s, step).value;
    if t.queues[l] != [] && t.sampling[l] {
      if WillSignal(t.producers[step.p], l) {
      } else if s.queues[l] != [] && s.count <= 0 && !NotPast(s.consumer, l) {
        var p :| 0 <= p < |s.producers| && WillSignal(s.producers[p], l);
        if p != step.p {
          assert t.producers[p] == s.producers[p];
        }
      }
    }
  }

  lemma {:induction false} ConsumerCovers(s: State, step: Step, l: nat)
    requires Good(s) && l < |s.queues| && !s.exiting
    requires step.Wait? || step.Look? || step.Poll? || step.Pop?
    requires ConsumerStep(s, step).Some?
    requires s.queues[l] != [] ==> !s.sampling[l] || Covered(s, l)
    ensures
      var t := ConsumerStep(s, step).value;
      t.queues[l] != [] ==> !t.sampling[l] || Covered(t, l)
  {
    var t := ConsumerStep(s, step).value;
    assert t.producers == s.producers;
  }

  /**
   * No lost wake-up, exactly: before exit is requested, a step from a state in which every packet of
   * a sampling lidar is seen to leads to such a state, unless it is a late switch, and a late switch
   * never does.
   */
  lemma {:induction false} WakeUpKept(c: Config, s: State, step: Step)
    requires Good(s) && !s.exiting && NoneLost(s) && Next(c, s, step).Some?
    ensures NoneLost(Next(c, s, step).value) <==> !LateSwitch(s, step)
  {
    hide ProducerStep, ConsumerStep, Covered;
    var t := Next(c, s, step).value;
    StepKeepsGood(c, s, step);
    StepSize(c, s, step);
    if step.SetSampling? {
      SwitchCovers(c, s, step);
    } else {
      forall l | 0 <= l < |t.queues| ensures t.sampling[l] && t.queues[l] != [] ==> Covered(t, l) {
        StepCovers(c, s, step, l);
      }
    }
  }

  lemma {:induction false} SwitchCovers(c: Config, s: State, step: Step)
    requires Good(s) && NoneLost(s) && step.SetSampling? && step.lidar < |s.queues|
    ensures NoneLost(Next(c, s, step).value) <==> !LateSwitch(s, step)
  {
    var t := Next(c, s, step).value;
    assert t.queues == s.queues && t.producers == s.producers && t.consumer == s.consumer && t.count == s.count;
    forall l | 0 <= l < |s.queues| ensures Covered(t, l) == Covered(s, l) {
    }
    var l := step.lidar;
    if !Covered(s, l) {
      forall p | 0 <= p < |s.producers|
        ensures s.producers[p].Idle? || s.producers[p].HasRoom? || (s.producers[p].Pushed? && s.producers[p].lidar != l)
      {
        assert !WillSignal(s.producers[p], l);
      }
    }
  }

  lemma {:induction false} StepCovers(c: Config, s: State, step: Step, l: nat)
    requires Good(s) && !s.exiting && NoneLost(s) && Next(c, s, step).Some? && !step.SetSampling?
    requires l < |s.queues|
    ensures
      var t := Next(c, s, step).value;
      Shaped(t) && |t.queues| == |s.queues| && (t.sampling[l] && t.queues[l] != [] ==> Covered(t, l))
  {
    hide ProducerStep, ConsumerStep;
    StepKeepsGood(c, s, step);
    StepSize(c, s, step);
    if step.Wait? || step.Look? || step.Poll? || step.Pop? {
      ConsumerCovers(s, step, l);
    } else if !step.RequestExit? {
      ProducerCovers(c, s, step, l);
    } else {
      assert Covered(Next(c, s, step).value, l) == Covered(s, l);
    }
  }

  lemma {:induction false} StepSize(c: Config, s: State, step: Step)
    requires Shaped(s) && Next(c, s, step).Some?
    ensures |Next(c, s, step).value.queues| == |s.queues|
  {
  }

  // ----- whole runs

  /** The state after a run of steps, if each of them can be taken. */
  function Run(c: Config, s: State, steps: seq<Step>): (r: Option<State>)
    requires Shaped(s)
    ensures r.Some? ==> Shaped(r.value)
    decreases |steps|
  {
    if steps == [] then Some(s)
    else
      var t := Next(c, s, steps[0]);
      if t.None? then None
      else
        NextShaped(c, s, steps[0]);
        Run(c, t.value, steps[1..])
  }

  lemma {:induction false} NextShaped(c: Config, s: State, step: Step)
    requires Shaped(s) && Next(c, s, step).Some?
    ensures Shaped(Next(c, s, step).value)
  {
  }

  /** No step of the run is a late switch, and exit is not requested. */
  predicate Careful(c: Config, s: State, steps: seq<Step>)
    requires Shaped(s)
    decreases |steps|
  {
    steps == []
    || (!LateSwitch(s, steps[0]) && !steps[0].RequestExit? && Next(c, s, steps[0]).Some?
        && (NextShaped(c, s, steps[0]); Careful(c, Next(c, s, steps[0]).value, steps[1..])))
  }

  function Initial(lidars: nat, producers: nat, sampling: seq<bool>): State
    requires |sampling| == lidars
  {
    State(seq(lidars, _ => []), sampling, seq(producers, _ => Idle), AtLidar(lidars), 0, false,
          seq(lidars, _ => []), seq(lidars, _ => []))
  }

  lemma {:induction false} InitialGood(lidars: nat, producers: nat, sampling: seq<bool>)
    requires |sampling| == lidars
    ensures Good(Initial(lidars, producers, sampling)) && NoneLost(Initial(lidars, producers, sampling))
  {
    SignallersBounded(Initial(lidars, producers, sampling).producers);
    NoSignallers(producers);
  }

  lemma {:induction false} NoSignallers(n: nat)
    ensures Signallers(seq(n, _ => Idle)) == 0
    decreases n
  {
    if n > 0 {
      var ps := seq(n, _ => Idle);
      assert ps[..n - 1] == seq(n - 1, _ => Idle);
      NoSignallers(n - 1);
    }
  }

  /** Along every run packets stay in order and the semaphore bounded, whatever the interleaving. */
  lemma {:induction false} RunKeepsGood(c: Config, s: State, steps: seq<Step>)
    requires Good(s) && Run(c, s, steps).Some?
    ensures Good(Run(c, s, steps).value)
    decreases |steps|
  {
    hide Next, Good;
    if steps != [] {
      GoodShaped(s);
      StepKeepsGood(c, s, steps[0]);
      RunKeepsGood(c, Next(c, s, steps[0]).value, steps[1..]);
    }
  }

  lemma {:induction false} GoodShaped(s: State)
    requires Good(s)
    ensures Shaped(s)
  {
  }

  /** Along every run without a late switch, and before exit is requested, no wake-up is lost. */
  lemma {:induction false} RunLosesNone(c: Config, s: State, steps: seq<Step>)
    requires Good(s) && NoneLost(s) && !s.exiting && Careful(c, s, steps)
    ensures Run(c, s, steps).Some? && NoneLost(Run(c, s, steps).value) && !Run(c, s, steps).value.exiting
    decreases |steps|
  {
    hide NoneLost, LateSwitch;
    if steps != [] {
      StepKeepsGood(c, s, steps[0]);
      WakeUpKept(c, s, steps[0]);
      StaysOpen(c, s, steps[0]);
      RunLosesNone(c, Next(c, s, steps[0]).value, steps[1..]);
    }
  }

  lemma {:induction false} StaysOpen(c: Config, s: State, step: Step)
    requires Shaped(s) && !s.exiting && !step.RequestExit? && Next(c, s, step).Some?
    ensures !Next(c, s, step).value.exiting
  {
  }

  /**
   * When the consumer is blocked in the semaphore and no producer is in the middle of a hand-over,
   * every sampling lidar has been drained, and all that was accepted from it was popped.
   */
  lemma {:induction false} BlockedMeansDrained(s: State)
    requires Good(s) && NoneLost(s) && s.consumer == Waiting && s.count == 0
    requires forall p | 0 <= p < |s.producers| :: s.producers[p].Idle? || s.producers[p].HasRoom?
    ensures forall l | 0 <= l < |s.queues| && s.sampling[l] :: s.queues[l] == [] && s.popped[l] == s.accepted[l]
  {
    forall l | 0 <= l < |s.queues| && s.sampling[l] ensures s.queues[l] == [] && s.popped[l] == s.accepted[l] {
      assert !Covered(s, l);
      assert s.popped[l] + [] == s.popped[l];
    }
  }

  /** With one producer the semaphore is a flag: it is never above one. */
  lemma {:induction false} OneProducerFlag(s: State)
    requires Good(s) && |s.producers| == 1
    ensures 0 <= s.count <= 1
  {
    SignallersBounded(s.producers);
  }

  /**
   * A late switch does happen: a lidar that is not sampling yet gets a packet, the consumer is woken,
   * skips the lidar and waits again; when the lidar then starts to sample, its packet lies there with
   * nobody to see to it.
   */
  lemma {:induction false} LateSwitchHappens()
    ensures
      var s := Initial(1, 1, [false]);
      var before := [Begin(0, 0, 7), Push(0), TestEmpty(0), Look, ReadCount(0), Signal(0), Wait, Look, Look];
      var t := Run(Config(Some(4)), s, before);
      && Shaped(s) && t.Some? && Good(t.value) && NoneLost(t.value) && LateSwitch(t.value, SetSampling(0, true))
      && t.value.consumer == Waiting && t.value.count == 0 && t.value.queues == [[7]]
  {
    hide Next, Run;
    var c := Config(Some(4));
    LateRun();
    InitialGood(1, 1, [false]);
    assert Initial(1, 1, [false]) == Late([], Idle, AtLidar(1), 0);
    RunKeepsGood(c, Late([], Idle, AtLidar(1), 0), LateSteps());
  }

  /** One lidar that is not sampling, one producer. */
  function Late(q: seq<Packet>, p: Producer, k: Consumer, count: int): State {
    State([q], [false], [p], k, count, false, [q], [[]])
  }

  function LateSteps(): seq<Step> {
    [Begin(0, 0, 7), Push(0), TestEmpty(0), Look, ReadCount(0), Signal(0), Wait, Look, Look]
  }

  lemma {:induction false} LateRun()
    ensures Run(Config(Some(4)), Late([], Idle, AtLidar(1), 0), LateSteps()) == Some(Late([7], Idle, Waiting, 0))
  {
    hide Next;
    LatePush();
    LateSignal();
    LateWait();
    RunNine(Config(Some(4)), Late([], Idle, AtLidar(1), 0), Late([], HasRoom(0, 7), AtLidar(1), 0),
            Late([7], Pushed(0), AtLidar(1), 0), Late([7], Counting, AtLidar(1), 0), Late([7], Counting, Waiting, 0),
            Late([7], Signalling, Waiting, 0), Late([7], Idle, Waiting, 1), Late([7], Idle, AtLidar(0), 0),
            Late([7], Idle, AtLidar(1), 0), Late([7], Idle, Waiting, 0), LateSteps());
  }

  lemma {:induction false} LatePush()
    ensures
      var c := Config(Some(4));
      && Next(c, Late([], Idle, AtLidar(1), 0), Begin(0, 0, 7)) == Some(Late([], HasRoom(0, 7), AtLidar(1), 0))
      && Next(c, Late([], HasRoom(0, 7), AtLidar(1), 0), Push(0)) == Some(Late([7], Pushed(0), AtLidar(1), 0))
      && Next(c, Late([7], Pushed(0), AtLidar(1), 0), TestEmpty(0)) == Some(Late([7], Counting, AtLidar(1), 0))
  {
    assert [] + [7] == [7] && [[]][0 := [7]] == [[7]];
    Single(Idle, HasRoom(0, 7));
    Single(HasRoom(0, 7), Pushed(0));
    Single(Pushed(0), Counting);
  }

  lemma {:induction false} LateSignal()
    ensures
      var c := Config(Some(4));
      && Next(c, Late([7], Counting, AtLidar(1), 0), Look) == Some(Late([7], Counting, Waiting, 0))
      && Next(c, Late([7], Counting, Waiting, 0), ReadCount(0)) == Some(Late([7], Signalling, Waiting, 0))
      && Next(c, Late([7], Signalling, Waiting, 0), Signal(0)) == Some(Late([7], Idle, Waiting, 1))
  {
    Single(Counting, Signalling);
    Single(Signalling, Idle);
  }

  lemma {:induction false} LateWait()
    ensures
      var c := Config(Some(4));
      && Next(c, Late([7], Idle, Waiting, 1), Wait) == Some(Late([7], Idle, AtLidar(0), 0))
      && Next(c, Late([7], Idle, AtLidar(0), 0), Look) == Some(Late([7], Idle, AtLidar(1), 0))
      && Next(c, Late([7], Idle, AtLidar(1), 0), Look) == Some(Late([7], Idle, Waiting, 0))
  {
  }

  lemma {:induction false} Single(a: Producer, b: Producer)
    ensures [a][0 := b] == [b]
  {
  }

  lemma {:induction false} RunOne(c: Config, s: State, t: State, steps: seq<Step>, k: nat)
    requires Shaped(s) && k < |steps| && Next(c, s, steps[k]) == Some(t)
    ensures Shaped(t) && Run(c, s, steps[k..]) == Run(c, t, steps[k + 1..])
  {
    hide Next;
    NextShaped(c, s, steps[k]);
    assert steps[k..][1..] == steps[k + 1..];
  }

  lemma {:induction false} RunNine(c: Config, s0: State, s1: State, s2: State, s3: State, s4: State, s5: State,
                                   s6: State, s7: State, s8: State, s9: State, steps: seq<Step>)
    requires |steps| == 9 && Shaped(s0)
    requires Shaped(s1) && Shaped(s2) && Shaped(s3) && Shaped(s4)
    requires Shaped(s5) && Shaped(s6) && Shaped(s7) && Shaped(s8)
    requires Next(c, s0, steps[0]) == Some(s1) && Next(c, s1, steps[1]) == Some(s2) && Next(c, s2, steps[2]) == Some(s3)
    requires Next(c, s3, steps[3]) == Some(s4) && Next(c, s4, steps[4]) == Some(s5) && Next(c, s5, steps[5]) == Some(s6)
    requires Next(c, s6, steps[6]) == Some(s7) && Next(c, s7, steps[7]) == Some(s8) && Next(c, s8, steps[8]) == Some(s9)
    ensures Run(c, s0, steps) == Some(s9)
  {
    hide Next, Run;
    RunOne(c, s0, s1, steps, 0);
    RunOne(c, s1, s2, steps, 1);
    RunOne(c, s2, s3, steps, 2);
    RunOne(c, s3, s4, steps, 3);
    RunOne(c, s4, s5, steps, 4);
    RunOne(c, s5, s6, steps, 5);
    RunOne(c, s6, s7, steps, 6);
    RunOne(c, s7, s8, steps, 7);
    RunOne(c, s8, s9, steps, 8);
    assert steps[0..] == steps && steps[9..] == [];
    RunNothing(c, s9);
  }

  lemma {:induction false} RunNothing(c: Config, s: State)
    requires Shaped(s)
    ensures Run(c, s, []) == Some(s)
  {
  }

  // ----- bounded queues

  /** No two producers are between the full test and the push of one lidar. */
  predicate OneWriter(s: State) {
    forall p, q | 0 <= p < q < |s.producers| ::
      s.producers[p].HasRoom? && s.producers[q].HasRoom? ==> s.producers[p].lidar != s.producers[q].lidar
  }

  predicate WithinCapacity(c: Config, s: State)
    requires Shaped(s)
  {
    c.capacity.Some? ==>
      && (forall l | 0 <= l < |s.queues| :: |s.queues[l]| <= c.capacity.value)
      && (forall p | 0 <= p < |s.producers| ::
            s.producers[p].HasRoom? && s.producers[p].lidar < |s.queues| ==> !Full(c, s.queues[s.producers[p].lidar]))
  }

  /** As long as each lidar has one writer at a time, no queue ever holds more than its size. */
  lemma {:induction false} CapacityKept(c: Config, s: State, step: Step)
    requires Good(s) && OneWriter(s) && WithinCapacity(c, s) && Next(c, s, step).Some?
    ensures
      var t := Next(c, s, step).value;
      Shaped(t) && WithinCapacity(c, t)
  {
    hide Signallers;
    NextShaped(c, s, step);
    var t := Next(c, s, step).value;
    if c.capacity.Some? {
      forall p | 0 <= p < |t.producers| && t.producers[p].HasRoom? && t.producers[p].lidar < |t.queues|
        ensures !Full(c, t.queues[t.producers[p].lidar])
      {
        if step.Push? && p != step.p {
          assert t.producers[p] == s.producers[p];
          if p < step.p {
            assert s.producers[p].lidar != s.producers[step.p].lidar;
          } else {
            assert s.producers[step.p].lidar != s.producers[p].lidar;
          }
        }
      }
    }
  }

  /** Along the run each lidar has one writer at a time. */
  predicate OneWriterRun(c: Config, s: State, steps: seq<Step>)
    requires Shaped(s)
    decreases |steps|
  {
    OneWriter(s)
    && (steps == []
        || (Next(c, s, steps[0]).Some?
            && (NextShaped(c, s, steps[0]); OneWriterRun(c, Next(c, s, steps[0]).value, steps[1..]))))
  }

  /** Along every run in which each lidar has one writer at a time, no queue ever holds more than its size. */
  lemma {:induction false} RunKeepsCapacity(c: Config, s: State, steps: seq<Step>)
    requires Good(s) && WithinCapacity(c, s) && OneWriterRun(c, s, steps)
    ensures Run(c, s, steps).Some? && WithinCapacity(c, Run(c, s, steps).value)
    decreases |steps|
  {
    hide Next, WithinCapacity, OneWriter;
    if steps != [] {
      StepKeepsGood(c, s, steps[0]);
      CapacityKept(c, s, steps[0]);
      RunKeepsCapacity(c, Next(c, s, steps[0]).value, steps[1..]);
    }
  }

  // ----- who may write where

  /** Which lidars each producer writes to. */
  type Assignment = seq<set<nat>>

  /** The producers of a run keep to the assignment. */
  predicate Keeps(a: Assignment, steps: seq<Step>) {
    forall k | 0 <= k < |steps| :: steps[k].Begin? ==> steps[k].p < |a| && steps[k].lidar in a[steps[k].p]
  }

  /** No lidar has two writers. */
  ghost predicate SingleWriters(a: Assignment, lidars: nat) {
    forall p, q, l: nat | 0 <= p < q < |a| && l < lidars :: !(l in a[p] && l in a[q])
  }

  /** Frames that are under way go to lidars of their producers. */
  predicate Assigned(a: Assignment, s: State) {
    |s.producers| == |a| && forall p | 0 <= p < |a| :: s.producers[p].HasRoom? ==> s.producers[p].lidar in a[p]
  }

  lemma {:induction false} StepAssigned(c: Config, a: Assignment, s: State, step: Step)
    requires Shaped(s) && Assigned(a, s) && Next(c, s, step).Some?
    requires step.Begin? ==> step.p < |a| && step.lidar in a[step.p]
    ensures Assigned(a, Next(c, s, step).value)
  {
  }

  lemma {:induction false} AssignedOneWriter(a: Assignment, s: State)
    requires Good(s) && Assigned(a, s) && SingleWriters(a, |s.queues|)
    ensures OneWriter(s)
  {
  }

  lemma {:induction false} AssignedWithin(c: Config, a: Assignment, s: State, steps: seq<Step>)
    requires Good(s) && WithinCapacity(c, s) && Assigned(a, s) && SingleWriters(a, |s.queues|)
    requires Keeps(a, steps) && Run(c, s, steps).Some?
    ensures WithinCapacity(c, Run(c, s, steps).value)
    decreases |steps|
  {
    hide Next, WithinCapacity, OneWriter, Good, SingleWriters, Assigned;
    GoodShaped(s);
    if steps != [] {
      AssignedOneWriter(a, s);
      StepAssigned(c, a, s, steps[0]);
      StepKeepsGood(c, s, steps[0]);
      StepSize(c, s, steps[0]);
      CapacityKept(c, s, steps[0]);
      AssignedWithin(c, a, Next(c, s, steps[0]).value, steps[1..]);
    }
  }

  lemma {:induction false} RunAppend(c: Config, s: State, a: seq<Step>, b: seq<Step>)
    requires Shaped(s)
    ensures Run(c, s, a + b) == (var t := Run(c, s, a); if t.None? then None else Run(c, t.value, b))
    decreases |a|
  {
    hide Next;
    if a == [] {
      assert a + b == b;
    } else {
      assert (a + b)[1..] == a[1..] + b;
      if Next(c, s, a[0]).Some? {
        NextShaped(c, s, a[0]);
        RunAppend(c, Next(c, s, a[0]).value, a[1..], b);
      }
    }
  }

  /** A state in which one lidar has `k` packets, all that were ever pushed. */
  function Pile(sampling: seq<bool>, ps: seq<Producer>, l: nat, k: nat, count: int): (s: State)
    ensures Shaped(s)
  {
    var queues := seq(|sampling|, i => if i == l then Zeros(k) else []);
    State(queues, sampling, ps, AtLidar(|sampling|), count, false, queues, seq(|sampling|, _ => []))
  }

  function Zeros(k: nat): (q: seq<Packet>)
    ensures |q| == k
  {
    seq(k, _ => 0)
  }

  lemma {:induction false} PileBegin(c: Config, sampling: seq<bool>, ps: seq<Producer>, l: nat, k: nat, count: int,
                                     p: nat)
    requires l < |sampling| && p < |ps| && ps[p] == Idle && c.capacity.Some? && k < c.capacity.value
    ensures Next(c, Pile(sampling, ps, l, k, count), Begin(p, l, 0))
         == Some(Pile(sampling, ps[p := HasRoom(l, 0)], l, k, count))
  {
  }

  lemma {:induction false} PilePush(c: Config, sampling: seq<bool>, ps: seq<Producer>, l: nat, k: nat, count: int,
                                    p: nat)
    requires l < |sampling| && p < |ps| && ps[p] == HasRoom(l, 0)
    ensures Next(c, Pile(sampling, ps, l, k, count), Push(p))
         == Some(Pile(sampling, ps[p := Pushed(l)], l, k + 1, count))
  {
    var s, t := Pile(sampling, ps, l, k, count), Pile(sampling, ps[p := Pushed(l)], l, k + 1, count);
    assert Zeros(k) + [0] == Zeros(k + 1);
    assert s.queues[l := s.queues[l] + [0]] == t.queues;
  }

  lemma {:induction false} PileSignal(c: Config, sampling: seq<bool>, ps: seq<Producer>, l: nat, k: nat, count: int,
                                      p: nat)
    requires l < |sampling| && p < |ps|
    ensures ps[p] == Pushed(l) && k > 0 ==>
      Next(c, Pile(sampling, ps, l, k, count), TestEmpty(p)) == Some(Pile(sampling, ps[p := Counting], l, k, count))
    ensures ps[p] == Counting ==>
      Next(c, Pile(sampling, ps, l, k, count), ReadCount(p))
      == Some(Pile(sampling, ps[p := if count <= 0 then Signalling else Idle], l, k, count))
    ensures ps[p] == Signalling ==>
      Next(c, Pile(sampling, ps, l, k, count), Signal(p)) == Some(Pile(sampling, ps[p := Idle], l, k, count + 1))
  {
  }

  /** All that a producer does for one frame while nobody else moves. */
  function Round(p: nat, l: nat, signal: bool): seq<Step> {
    [Begin(p, l, 0), Push(p), TestEmpty(p), ReadCount(p)] + (if signal then [Signal(p)] else [])
  }

  lemma {:induction false} RoundPiles(c: Config, sampling: seq<bool>, ps: seq<Producer>, l: nat, k: nat, count: int,
                                      p: nat)
    requires l < |sampling| && p < |ps| && ps[p] == Idle && c.capacity.Some? && k < c.capacity.value && 0 <= count <= 1
    ensures Run(c, Pile(sampling, ps, l, k, count), Round(p, l, count == 0)) == Some(Pile(sampling, ps, l, k + 1, 1))
  {
    hide Next, Run, Pile;
    var steps := Round(p, l, count == 0);
    var room, pushed, counting := ps[p := HasRoom(l, 0)], ps[p := Pushed(l)], ps[p := Counting];
    var signalling := ps[p := Signalling];
    assert room[p := Pushed(l)] == pushed && pushed[p := Counting] == counting;
    assert counting[p := Idle] == ps && counting[p := Signalling] == signalling && signalling[p := Idle] == ps;
    PileBegin(c, sampling, ps, l, k, count, p);
    PilePush(c, sampling, room, l, k, count, p);
    PileSignal(c, sampling, pushed, l, k + 1, count, p);
    PileSignal(c, sampling, counting, l, k + 1, count, p);
    RunOne(c, Pile(sampling, ps, l, k, count), Pile(sampling, room, l, k, count), steps, 0);
    RunOne(c, Pile(sampling, room, l, k, count), Pile(sampling, pushed, l, k + 1, count), steps, 1);
    RunOne(c, Pile(sampling, pushed, l, k + 1, count), Pile(sampling, counting, l, k + 1, count), steps, 2);
    if count == 0 {
      PileSignal(c, sampling, signalling, l, k + 1, count, p);
      RunOne(c, Pile(sampling, counting, l, k + 1, count), Pile(sampling, signalling, l, k + 1, count), steps, 3);
      RunOne(c, Pile(sampling, signalling, l, k + 1, count), Pile(sampling, ps, l, k + 1, 1), steps, 4);
    } else {
      RunOne(c, Pile(sampling, counting, l, k + 1, count), Pile(sampling, ps, l, k + 1, count), steps, 3);
    }
    assert steps[0..] == steps && steps[|steps|..] == [];
    RunNothing(c, Pile(sampling, ps, l, k + 1, 1));
  }

  /** The steps that bring `k` packets into the queue of a lidar. */
  function Filling(p: nat, l: nat, k: nat): seq<Step> {
    if k == 0 then [] else Filling(p, l, k - 1) + Round(p, l, k == 1)
  }

  lemma {:induction false} FillingPiles(c: Config, sampling: seq<bool>, ps: seq<Producer>, l: nat, k: nat, p: nat)
    requires l < |sampling| && p < |ps| && ps[p] == Idle && c.capacity.Some? && k <= c.capacity.value
    ensures Run(c, Pile(sampling, ps, l, 0, 0), Filling(p, l, k))
         == Some(Pile(sampling, ps, l, k, if k == 0 then 0 else 1))
    decreases k
  {
    hide Next, Pile, Round;
    if k > 0 {
      FillingPiles(c, sampling, ps, l, k - 1, p);
      RoundPiles(c, sampling, ps, l, k - 1, if k == 1 then 0 else 1, p);
      RunAppend(c, Pile(sampling, ps, l, 0, 0), Filling(p, l, k - 1), Round(p, l, k == 1));
    }
  }

  lemma {:induction false} FillingKeeps(a: Assignment, p: nat, l: nat, k: nat)
    requires p < |a| && l in a[p]
    ensures Keeps(a, Filling(p, l, k))
    decreases k
  {
    if k > 0 {
      FillingKeeps(a, p, l, k - 1);
    }
  }

  /** Two writers that both pass the full test at the last free place. */
  function Overfilling(p: nat, q: nat, l: nat): seq<Step> {
    [Begin(p, l, 0), Begin(q, l, 0), Push(p), Push(q)]
  }

  lemma {:induction false} OverfillingPiles(c: Config, sampling: seq<bool>, ps: seq<Producer>, l: nat, k: nat,
                                            count: int, p: nat, q: nat)
    requires l < |sampling| && p < q < |ps| && ps[p] == ps[q] == Idle && c.capacity.Some? && k < c.capacity.value
    ensures
      var t := Run(c, Pile(sampling, ps, l, k, count), Overfilling(p, q, l));
      t.Some? && l < |t.value.queues| && |t.value.queues[l]| == k + 2
  {
    hide Next, Run, Pile;
    var steps := Overfilling(p, q, l);
    var one := ps[p := HasRoom(l, 0)];
    var two := one[q := HasRoom(l, 0)];
    var three := two[p := Pushed(l)];
    var four := three[q := Pushed(l)];
    PileBegin(c, sampling, ps, l, k, count, p);
    PileBegin(c, sampling, one, l, k, count, q);
    PilePush(c, sampling, two, l, k, count, p);
    PilePush(c, sampling, three, l, k + 1, count, q);
    RunOne(c, Pile(sampling, ps, l, k, count), Pile(sampling, one, l, k, count), steps, 0);
    RunOne(c, Pile(sampling, one, l, k, count), Pile(sampling, two, l, k, count), steps, 1);
    RunOne(c, Pile(sampling, two, l, k, count), Pile(sampling, three, l, k + 1, count), steps, 2);
    RunOne(c, Pile(sampling, three, l, k + 1, count), Pile(sampling, four, l, k + 2, count), steps, 3);
    assert steps[0..] == steps && steps[4..] == [];
    RunNothing(c, Pile(sampling, four, l, k + 2, count));
    PileSize(sampling, four, l, k + 2, count);
  }

  lemma {:induction false} PileSize(sampling: seq<bool>, ps: seq<Producer>, l: nat, k: nat, count: int)
    requires l < |sampling|
    ensures
      var s := Pile(sampling, ps, l, k, count);
      l < |s.queues| && |s.queues[l]| == k
  {
  }

  /** Two writers of one lidar can fill its queue one beyond its size, whatever the size. */
  lemma {:induction false} TwoWritersOverfill(a: Assignment, sampling: seq<bool>, capacity: nat, p: nat, q: nat, l: nat)
      returns (steps: seq<Step>)
    requires capacity > 0 && l < |sampling| && p < q < |a| && l in a[p] && l in a[q]
    ensures Keeps(a, steps)
    ensures
      var t := Run(Config(Some(capacity)), Initial(|sampling|, |a|, sampling), steps);
      t.Some? && l < |t.value.queues| && |t.value.queues[l]| == capacity + 1
  {
    hide Next, Run, Pile, Filling, Overfilling;
    var c, ps := Config(Some(capacity)), seq(|a|, _ => Idle);
    InitialPile(sampling, |a|, l);
    FillingPiles(c, sampling, ps, l, capacity - 1, p);
    FillingKeeps(a, p, l, capacity - 1);
    OverfillingKeeps(a, p, q, l);
    OverfillingPiles(c, sampling, ps, l, capacity - 1, if capacity == 1 then 0 else 1, p, q);
    RunAppend(c, Pile(sampling, ps, l, 0, 0), Filling(p, l, capacity - 1), Overfilling(p, q, l));
    steps := Filling(p, l, capacity - 1) + Overfilling(p, q, l);
  }

  lemma {:induction false} OverfillingKeeps(a: Assignment, p: nat, q: nat, l: nat)
    requires p < |a| && q < |a| && l in a[p] && l in a[q]
    ensures Keeps(a, Overfilling(p, q, l))
  {
  }

  lemma {:induction false} InitialPile(sampling: seq<bool>, producers: nat, l: nat)
    ensures Initial(|sampling|, producers, sampling) == Pile(sampling, seq(producers, _ => Idle), l, 0, 0)
  {
    var s, t := Initial(|sampling|, producers, sampling), Pile(sampling, seq(producers, _ => Idle), l, 0, 0);
    assert s.queues == t.queues && s.accepted == t.accepted && s.popped == t.popped;
  }

  /** No run from the start that keeps to the assignment takes a queue beyond its size. */
  ghost predicate AlwaysWithin(capacity: nat, a: Assignment, sampling: seq<bool>) {
    forall steps | Keeps(a, steps) ::
      var t := Run(Config(Some(capacity)), Initial(|sampling|, |a|, sampling), steps);
      t.Some? ==> forall l | 0 <= l < |t.value.queues| :: |t.value.queues[l]| <= capacity
  }

  /**
   * For every size of the queues, the runs that keep to an assignment of producers to lidars never
   * take a queue beyond its size if and only if no lidar has two writers.
   */
  lemma {:induction false} CapacityNeedsSingleWriters(capacity: nat, a: Assignment, sampling: seq<bool>)
    requires capacity > 0
    ensures AlwaysWithin(capacity, a, sampling) <==> SingleWriters(a, |sampling|)
  {
    hide Run, Next, Keeps;
    var c, s := Config(Some(capacity)), Initial(|sampling|, |a|, sampling);
    InitialGood(|sampling|, |a|, sampling);
    if SingleWriters(a, |sampling|) {
      forall steps | Keeps(a, steps) && Run(c, s, steps).Some?
        ensures
          var t := Run(c, s, steps).value;
          forall l | 0 <= l < |t.queues| :: |t.queues[l]| <= capacity
      {
        AssignedWithin(c, a, s, steps);
      }
    } else {
      var p, q, l: nat :| 0 <= p < q < |a| && l < |sampling| && l in a[p] && l in a[q];
      var steps := TwoWritersOverfill(a, sampling, capacity, p, q, l);
    }
  }

  // ----- the consumer comes back

  function Total(queues: seq<seq<Packet>>): nat {
    if queues == [] then 0 else |queues[|queues| - 1]| + Total(queues[..|queues| - 1])
  }

  lemma {:induction false} TotalUpdate(queues: seq<seq<Packet>>, l: nat, q: seq<Packet>)
    requires l < |queues|
    ensures Total(queues[l := q]) == Total(queues) - |queues[l]| + |q|
    decreases |queues|
  {
    var us := queues[l := q];
    if l < |queues| - 1 {
      assert us[..|us| - 1] == queues[..|queues| - 1][l := q];
      TotalUpdate(queues[..|queues| - 1], l, q);
    } else {
      assert us[..|us| - 1] == queues[..|queues| - 1];
    }
  }

  /** How far the consumer is from waiting again, were nothing pushed any more. */
  function Distance(s: State): int {
    var n := |s.queues|;
    match s.consumer
    case Waiting => 0
    case AtLidar(i) => 2 * Total(s.queues) + 2 * (n - i) + 1
    case Polling(i) => 2 * Total(s.queues) + 2 * (n - i)
    case Popping(i) => 2 * Total(s.queues) + 2 * (n - i) - 1
  }

  /**
   * Each step of a consumer that is awake brings it nearer to waiting, a push takes it two steps
   * further away, and no other step of the others matters: it always comes back unless the
   * producers keep pushing.
   */
  lemma {:induction false} ConsumerReturns(c: Config, s: State, step: Step)
    requires Good(s) && s.consumer != Waiting && Next(c, s, step).Some?
    ensures
      var t := Next(c, s, step).value;
      && Distance(s) > 0
      && (step.Look? || step.Poll? || step.Pop? ==> 0 <= Distance(t) < Distance(s))
      && (step.Push? ==> Distance(t) == Distance(s) + 2)
      && (!step.Look? && !step.Poll? && !step.Pop? && !step.Push? && !step.Wait? ==> Distance(t) == Distance(s))
  {
    hide Total, Signallers;
    if step.Pop? {
      TotalUpdate(s.queues, s.consumer.i, s.queues[s.consumer.i][1..]);
    } else if step.Push? {
      var at := s.producers[step.p];
      TotalUpdate(s.queues, at.lidar, s.queues[at.lidar] + [at.packet]);
    }
  }

  /** The one step an awake consumer can take. */
  function ConsumerMove(s: State): Step {
    if s.consumer.AtLidar? then Look else if s.consumer.Polling? then Poll else Pop
  }

  /** An awake consumer is never stuck. */
  lemma {:induction false} ConsumerNeverStuck(c: Config, s: State)
    requires Good(s) && s.consumer != Waiting
    ensures Next(c, s, ConsumerMove(s)).Some?
  {
  }

  predicate Moves(step: Step) {
    step.Look? || step.Poll? || step.Pop?
  }

  /** Left alone, the awake consumer reaches the semaphore again, in as many steps as its distance at most. */
  lemma {:induction false} ConsumerReachesWaiting(c: Config, s: State) returns (steps: seq<Step>)
    requires Good(s) && s.consumer != Waiting
    ensures |steps| <= Distance(s) && forall k | 0 <= k < |steps| :: Moves(steps[k])
    ensures Run(c, s, steps).Some? && Run(c, s, steps).value.consumer == Waiting
    decreases Distance(s)
  {
    hide Next, Distance, Good;
    GoodShaped(s);
    var step := ConsumerMove(s);
    ConsumerNeverStuck(c, s);
    ConsumerReturns(c, s, step);
    StepKeepsGood(c, s, step);
    var t := Next(c, s, step).value;
    var rest := [];
    if t.consumer != Waiting {
      rest := ConsumerReachesWaiting(c, t);
    } else {
      GoodShaped(t);
    }
    steps := [step] + rest;
    assert steps[1..] == rest;
  }

  /** The run is free of pushes and never has the consumer waiting. */
  predicate AwakeRun(c: Config, s: State, steps: seq<Step>)
    requires Shaped(s)
    decreases |steps|
  {
    s.consumer != Waiting
    && (steps == []
        || (!steps[0].Push? && Next(c, s, steps[0]).Some?
            && (NextShaped(c, s, steps[0]); AwakeRun(c, Next(c, s, steps[0]).value, steps[1..]))))
  }

  function MoveCount(steps: seq<Step>): nat {
    if steps == [] then 0 else (if Moves(steps[0]) then 1 else 0) + MoveCount(steps[1..])
  }

  /**
   * However the steps of the others are interleaved, the consumer comes back unless there is a push:
   * a run without one in which the consumer is awake all the time has fewer of its steps than its
   * distance says, and at the end of the run the consumer can take another one.
   */
  lemma {:induction false} AwakeRunsEnd(c: Config, s: State, steps: seq<Step>)
    requires Good(s) && AwakeRun(c, s, steps)
    ensures MoveCount(steps) < Distance(s)
    ensures Run(c, s, steps).Some? && Next(c, Run(c, s, steps).value, ConsumerMove(Run(c, s, steps).value)).Some?
    decreases |steps|
  {
    hide Next, Distance, Good;
    GoodShaped(s);
    ConsumerNeverStuck(c, s);
    ConsumerReturns(c, s, ConsumerMove(s));
    if steps != [] {
      StepKeepsGood(c, s, steps[0]);
      ConsumerReturns(c, s, steps[0]);
      NoWait(c, s, steps[0]);
      AwakeRunsEnd(c, Next(c, s, steps[0]).value, steps[1..]);
    }
  }

  lemma {:induction false} NoWait(c: Config, s: State, step: Step)
    requires Shaped(s) && s.consumer != Waiting && Next(c, s, step).Some?
    ensures !step.Wait?
  {
  }
}
