/**
 The hand-shake of analysis servers and their clients: stages of a server pass manager against the socket calls of
 client passes, for one connection. A request blocks the client until the server has answered it.
 */
module Handshake {

  // ---------- The two parties ----------

  /** `AnalysisSocket::wait`, a request for data, `AnalysisSocket::release`. */
  datatype Op = Wait | Query | Release

  datatype Kind = Notify | Data | Invalid

  /** A server pass that answers requests, after `work` steps in which it and the passes before it do not listen. */
  datatype Stage = NotifyClient(work: nat) | Respond(work: nat)

  datatype Channel = Idle | Asked(op: Op) | Answered(kind: Kind)

  /**
   What is left to do for the client, which closes the connection at the end, and for the server. `failed` is set
   where the program has reached a place marked unreachable or a failing assertion, `cut` when a stage has ended
   because the connection was closed.
   */
  datatype State = State(ops: seq<Op>, isOpen: bool, channel: Channel, stages: seq<Stage>, failed: bool, cut: bool)

  function Start(stages: seq<Stage>, ops: seq<Op>): State {
    State(ops, true, Idle, stages, false, false)
  }

  predicate Finished(s: State) {
    !s.failed && !s.isOpen && s.ops == [] && s.stages == []
  }

  /** What a listening stage answers, and whether it ends. */
  datatype Reply = Reply(kind: Kind, ends: bool)

  function Response(stage: Stage, op: Op): Reply {
    match stage
    case NotifyClient(_) => if op == Wait then Reply(Notify, true) else Reply(Invalid, false)
    case Respond(_) =>
      if op == Release then Reply(Notify, true) else if op == Query then Reply(Data, false) else Reply(Invalid, false)
  }

  datatype Step = Send | Receive | Close | Work | Answer | SeeClosed

  predicate Enabled(s: State, step: Step) {
    && !s.failed
    && match step
       case Send => s.isOpen && s.channel == Idle && s.ops != []
       case Receive => s.channel.Answered? && s.ops != []
       case Close => s.isOpen && s.channel == Idle && s.ops == []
       case Work => s.stages != [] && s.stages[0].work > 0
       case Answer => s.channel.Asked? && s.stages != [] && s.stages[0].work == 0
       case SeeClosed => !s.isOpen && s.stages != [] && s.stages[0].work == 0
  }

  function Do(s: State, step: Step): State
    requires Enabled(s, step)
  {
    match step
    case Send => s.(channel := Asked(s.ops[0]))
    case Receive =>
      // A wait and a release are repeated until the server notifies; a request asserts that it gets data.
      if s.ops[0] == Query then
        if s.channel.kind == Data then s.(channel := Idle, ops := s.ops[1..]) else s.(failed := true)
      else if s.channel.kind == Notify then s.(channel := Idle, ops := s.ops[1..])
      else s.(channel := Idle)
    case Close => s.(isOpen := false)
    case Work => s.(stages := [s.stages[0].(work := s.stages[0].work - 1)] + s.stages[1..])
    case Answer =>
      var r := Response(s.stages[0], s.channel.op);
      if r.kind == Invalid then s.(failed := true)
      else s.(channel := Answered(r.kind), stages := if r.ends then s.stages[1..] else s.stages)
    case SeeClosed => s.(stages := s.stages[1..], cut := true)
  }

  predicate Possible(s: State, run: seq<Step>)
    decreases |run|
  {
    run == [] || (Enabled(s, run[0]) && Possible(Do(s, run[0]), run[1..]))
  }

  function After(s: State, run: seq<Step>): State
    requires Possible(s, run)
    decreases |run|
  {
    if run == [] then s else After(Do(s, run[0]), run[1..])
  }

  predicate Stuck(s: State) {
    forall step :: !Enabled(s, step)
  }

  /** No interleaving fails, none stops before both sides have finished, and none goes on for ever. */
  ghost predicate Safe(s: State) {
    && (forall run :: Possible(s, run) ==> !After(s, run).failed && (Stuck(After(s, run)) ==> Finished(After(s, run))))
    && exists bound: nat :: NoLonger(s, bound)
  }

  ghost predicate NoLonger(s: State, bound: nat) {
    forall run :: Possible(s, run) ==> |run| <= bound
  }

  // ---------- Scripts and stages that fit ----------

  /** Every operation of the client is one that the stage then listening answers. */
  predicate Fits(stages: seq<Stage>, ops: seq<Op>) {
    ops == []
    || (stages != [] && Response(stages[0], ops[0]).kind != Invalid
        && Fits(if Response(stages[0], ops[0]).ends then stages[1..] else stages, ops[1..]))
  }

  /** The client answers for each stage: a wait for a notification, and requests up to a release for a response. */
  predicate Dual(stages: seq<Stage>, ops: seq<Op>) {
    if ops == [] then stages == []
    else stages != [] && Response(stages[0], ops[0]).kind != Invalid
         && Dual(if Response(stages[0], ops[0]).ends then stages[1..] else stages, ops[1..])
  }

  lemma {:induction false} DualFits(stages: seq<Stage>, ops: seq<Op>)
    requires Dual(stages, ops)
    ensures Fits(stages, ops)
    decreases ops
  {
    if ops != [] {
      DualFits(if Response(stages[0], ops[0]).ends then stages[1..] else stages, ops[1..]);
    }
  }

  /** The work in front of a stage does not matter. */
  lemma {:induction false} WorkIrrelevant(stage: Stage, other: Stage, rest: seq<Stage>, ops: seq<Op>)
    requires stage.NotifyClient? == other.NotifyClient?
    ensures Fits([stage] + rest, ops) == Fits([other] + rest, ops)
    ensures Dual([stage] + rest, ops) == Dual([other] + rest, ops)
    decreases ops
  {
    assert ([stage] + rest)[1..] == rest && ([other] + rest)[1..] == rest;
    if ops != [] {
      WorkIrrelevant(stage, other, rest, ops[1..]);
    }
  }

  // ---------- What every step keeps ----------

  ghost predicate Invariant(s: State) {
    && !s.failed
    && (!s.isOpen ==> s.channel == Idle && s.ops == [])
    && match s.channel
       case Idle => Fits(s.stages, s.ops)
       case Asked(op) => s.ops != [] && s.ops[0] == op && Fits(s.stages, s.ops)
       case Answered(kind) =>
         s.ops != [] && kind == (if s.ops[0] == Query then Data else Notify) && Fits(s.stages, s.ops[1..])
  }

  /** With a dual script no stage is cut: when the connection is closed the server has ended. */
  ghost predicate Served(s: State) {
    && !s.cut
    && (!s.isOpen ==> s.stages == [])
    && if s.channel.Answered? then s.ops != [] && Dual(s.stages, s.ops[1..]) else Dual(s.stages, s.ops)
  }

  function TotalWork(stages: seq<Stage>): nat {
    if stages == [] then 0 else 1 + stages[0].work + TotalWork(stages[1..])
  }

  /** How many steps are left at most. */
  function Measure(s: State): nat {
    3 * |s.ops| + TotalWork(s.stages) + (if s.isOpen then 1 else 0)
    + match s.channel case Idle => 2 case Asked(_) => 1 case Answered(_) => 0
  }

  lemma StepKeeps(s: State, step: Step)
    requires Invariant(s) && Enabled(s, step)
    ensures Invariant(Do(s, step)) && Measure(Do(s, step)) < Measure(s)
    ensures Served(s) ==> Served(Do(s, step))
  {
    match step
    case Work =>
      var stage := s.stages[0];
      assert s.stages == [stage] + s.stages[1..];
      var less := stage.(work := stage.work - 1);
      WorkIrrelevant(stage, less, s.stages[1..], s.ops);
      if s.ops != [] {
        WorkIrrelevant(stage, less, s.stages[1..], s.ops[1..]);
      }
      assert ([less] + s.stages[1..])[1..] == s.stages[1..];
    case _ =>
  }

  /** When the invariant holds there is a step unless both sides have finished. */
  lemma Progress(s: State) returns (step: Step)
    requires Invariant(s) && !Finished(s)
    ensures Enabled(s, step)
  {
    if s.stages != [] && s.stages[0].work > 0 {
      step := Work;
    } else if !s.isOpen {
      step := SeeClosed;
    } else {
      match s.channel
      case Idle => step := if s.ops == [] then Close else Send;
      case Asked(_) => step := Answer;
      case Answered(_) => step := Receive;
    }
  }

  lemma {:induction false} RunKeeps(s: State, run: seq<Step>)
    requires Invariant(s) && Possible(s, run)
    ensures Invariant(After(s, run)) && |run| + Measure(After(s, run)) <= Measure(s)
    ensures Served(s) ==> Served(After(s, run))
    decreases |run|
  {
    if run != [] {
      StepKeeps(s, run[0]);
      RunKeeps(Do(s, run[0]), run[1..]);
    }
  }

  /** A script that does not fit has a run that fails or stops too early. */
  lemma {:induction false} BadRun(s: State) returns (run: seq<Step>)
    requires s.isOpen && s.channel == Idle && !s.failed && !Fits(s.stages, s.ops)
    ensures Possible(s, run) && (After(s, run).failed || (Stuck(After(s, run)) && !Finished(After(s, run))))
    decreases |s.ops|, TotalWork(s.stages)
  {
    if s.stages == [] {
      var t := Do(s, Send);
      run := [Send];
      assert Possible(t, run[1..]);
      assert Stuck(t);
    } else if s.stages[0].work > 0 {
      var t := Do(s, Work);
      assert s.stages == [s.stages[0]] + s.stages[1..];
      WorkIrrelevant(s.stages[0], t.stages[0], s.stages[1..], s.ops);
      assert t.stages[1..] == s.stages[1..];
      var rest := BadRun(t);
      run := [Work] + rest;
      assert run[1..] == rest;
    } else {
      var t := Do(s, Send);
      var u := Do(t, Answer);
      if Response(s.stages[0], s.ops[0]).kind == Invalid {
        run := [Send, Answer];
        assert run[1..] == [Answer] && [Answer][1..] == [];
        assert Possible(u, []);
        assert Possible(t, [Answer]);
      } else {
        var v := Do(u, Receive);
        var rest := BadRun(v);
        run := [Send, Answer, Receive] + rest;
        assert run[1..] == [Answer, Receive] + rest;
        assert ([Answer, Receive] + rest)[1..] == [Receive] + rest;
        assert ([Receive] + rest)[1..] == rest;
        assert Possible(u, [Receive] + rest) && After(u, [Receive] + rest) == After(v, rest);
        assert Possible(t, [Answer, Receive] + rest);
      }
    }
  }

  /**
   All interleavings are safe exactly when the script fits the stages: nothing unknown is ever asked, there is no
   deadlock, and both sides finish.
   */
  lemma SafeExactlyWhenFitting(stages: seq<Stage>, ops: seq<Op>)
    ensures Safe(Start(stages, ops)) <==> Fits(stages, ops)
  {
    var s := Start(stages, ops);
    if Fits(stages, ops) {
      forall run | Possible(s, run)
        ensures !After(s, run).failed && (Stuck(After(s, run)) ==> Finished(After(s, run))) && |run| <= Measure(s)
      {
        RunKeeps(s, run);
        if !Finished(After(s, run)) {
          var step := Progress(After(s, run));
        }
      }
      assert NoLonger(s, Measure(s));
    } else {
      var run := BadRun(s);
      assert Possible(s, run);
    }
  }

  /** A client whose script is dual to the stages is safe, and the server ends every stage before the connection is closed. */
  lemma DualIsSafe(stages: seq<Stage>, ops: seq<Op>)
    requires Dual(stages, ops)
    ensures Safe(Start(stages, ops))
    ensures forall run :: Possible(Start(stages, ops), run) ==> !After(Start(stages, ops), run).cut
  {
    DualFits(stages, ops);
    SafeExactlyWhenFitting(stages, ops);
    forall run | Possible(Start(stages, ops), run)
      ensures !After(Start(stages, ops), run).cut
    {
      RunKeeps(Start(stages, ops), run);
    }
  }

  // ---------- The scripts of the repository ----------

  /** `AnalysisServer::runOnModule`: a notification after the initialization, the passes of the server, and a last notification. */
  function ServerStages(initialization: nat, added: seq<Stage>, closing: nat): seq<Stage> {
    [NotifyClient(initialization)] + added + [NotifyClient(closing)]
  }

  /** `DVMHMemoryServer::addServerPasses`. */
  function DVMHPasses(first: nat, second: nat, third: nat, fourth: nat): seq<Stage> {
    [NotifyClient(first), Respond(second), NotifyClient(third), Respond(fourth)]
  }

  function Queries(n: nat): seq<Op> {
    if n == 0 then [] else [Query] + Queries(n - 1)
  }

  /** `AnalysisCloseConnectionPass` waits before it closes the connection. */
  const CloseConnection: seq<Op> := [Wait]

  /** `addBeforePass` of the DVMH writer, with `n` and `m` requests of the passes in front of the two releases. */
  function DVMHClient(n: nat, m: nat): seq<Op> {
    [Wait, Wait] + (Queries(n) + ([Release] + ([Wait] + (Queries(m) + ([Release] + CloseConnection)))))
  }

  /** A window of requests up to the release answers for a responding stage. */
  lemma {:induction false} Window(w: nat, rest: seq<Stage>, n: nat, ops: seq<Op>)
    ensures Dual([Respond(w)] + rest, Queries(n) + ([Release] + ops)) == Dual(rest, ops)
  {
    var stages := [Respond(w)] + rest;
    assert stages[1..] == rest;
    var script := Queries(n) + ([Release] + ops);
    if n == 0 {
      assert script == [Release] + ops;
      assert script[1..] == ops;
    } else {
      Window(w, rest, n - 1, ops);
      assert script == [Query] + (Queries(n - 1) + ([Release] + ops));
      assert script[1..] == Queries(n - 1) + ([Release] + ops);
    }
  }

  lemma Notification(w: nat, rest: seq<Stage>, ops: seq<Op>)
    ensures Dual([NotifyClient(w)] + rest, [Wait] + ops) == Dual(rest, ops)
  {
    assert ([NotifyClient(w)] + rest)[1..] == rest && ([Wait] + ops)[1..] == ops;
  }

  /** The DVMH client answers for its server whatever the number of requests and the work of the server. */
  lemma DVMHIsDual(initialization: nat, first: nat, second: nat, third: nat, fourth: nat, closing: nat, n: nat, m: nat)
    ensures Dual(ServerStages(initialization, DVMHPasses(first, second, third, fourth), closing), DVMHClient(n, m))
  {
    var last := [NotifyClient(closing)];
    var s3 := [Respond(fourth)] + last;
    var s2 := [NotifyClient(third)] + s3;
    var s1 := [Respond(second)] + s2;
    var s0 := [NotifyClient(first)] + s1;
    var stages := ServerStages(initialization, DVMHPasses(first, second, third, fourth), closing);
    assert stages == [NotifyClient(initialization)] + s0;
    var o3 := Queries(m) + ([Release] + CloseConnection);
    var o2 := [Wait] + o3;
    var o1 := Queries(n) + ([Release] + o2);
    assert DVMHClient(n, m) == [Wait] + ([Wait] + o1);
    Notification(initialization, s0, [Wait] + o1);
    Notification(first, s1, o1);
    Window(second, s2, n, o2);
    Notification(third, s3, o3);
    Window(fourth, last, m, CloseConnection);
    assert last == last + [] && CloseConnection == [Wait] + [];
    Notification(closing, [], []);
  }

  /** The hand-shake of the DVMH writer is safe, and its server ends every stage before the connection is closed. */
  lemma DVMHIsSafe(initialization: nat, first: nat, second: nat, third: nat, fourth: nat, closing: nat, n: nat, m: nat)
    ensures var s := Start(ServerStages(initialization, DVMHPasses(first, second, third, fourth), closing), DVMHClient(n, m));
            Safe(s) && forall run :: Possible(s, run) ==> !After(s, run).cut
  {
    DVMHIsDual(initialization, first, second, third, fourth, closing, n, m);
    DualIsSafe(ServerStages(initialization, DVMHPasses(first, second, third, fourth), closing), DVMHClient(n, m));
  }

  /** The hand-shake of the shared-memory parallelization with its memory server, which responds once. */
  lemma SharedMemoryIsSafe(initialization: nat, first: nat, second: nat, closing: nat, n: nat)
    ensures var client := [Wait, Wait] + (Queries(n) + ([Release] + CloseConnection));
            var s := Start(ServerStages(initialization, [NotifyClient(first), Respond(second)], closing), client);
            Safe(s) && forall run :: Possible(s, run) ==> !After(s, run).cut
  {
    var client := [Wait, Wait] + (Queries(n) + ([Release] + CloseConnection));
    var stages := ServerStages(initialization, [NotifyClient(first), Respond(second)], closing);
    var last := [NotifyClient(closing)];
    var s1 := [Respond(second)] + last;
    var o1 := Queries(n) + ([Release] + CloseConnection);
    assert stages == [NotifyClient(initialization)] + ([NotifyClient(first)] + s1) && client == [Wait] + ([Wait] + o1);
    Notification(initialization, [NotifyClient(first)] + s1, [Wait] + o1);
    Notification(first, s1, o1);
    Window(second, last, n, CloseConnection);
    assert last == last + [] && CloseConnection == [Wait] + [];
    Notification(closing, [], []);
    DualIsSafe(stages, client);
  }
}
