/** How a related chain of requests is answered ([MS-SMB2] section 3.3.5.2.7): the receiver and the dispatcher
    of server/conn.go and server/server.go, interleaved step by step. The receiver hands members over an
    unbuffered channel, so it is at most one member ahead. */
module CompoundProtocol {
  import opened Bytes
  import Compound

  /** A response: to which member, with which status, and whether a handler ran. */
  datatype Response = Response(member: nat, status: nat, dispatched: bool)

  /** In the split loop the receiver looks at a member (AtSplit), puts it into the requests map (AtSet) and
      offers its id on the channel (AtOffer). */
  datatype Phase = AtSplit | AtSet | AtOffer

  /** The dispatcher waits in pop, has an id from the channel, or handles a member. When pop finds no request for
      an id it goes back to the channel with its deferred Unlock still to come: it waits there holding the
      mutex of the requests map (Holding), and with the next id it blocks on that mutex itself (Blocked). */
  datatype Dispatcher = Waiting | Got(msgId: nat) | Handling(member: nat) | Holding | Blocked

  predicate Stuck(d: Dispatcher) { d.Holding? || d.Blocked? }

  datatype State = State(
    next: nat, phase: Phase,              // the receiver
    requests: map<nat, nat>,              // outstandingRequests: message id to member
    dispatcher: Dispatcher,
    lastMsgId: nat, lastStatus: nat, rsp: seq<Response>,  // compoundContext
    written: seq<seq<Response>>)          // the buffers sent

  datatype Event = Mark | Register | Handoff | Take | Answer(status: nat)

  const INITIAL := State(0, AtSplit, map[], Waiting, 0, 0, [], [])

  /** The dispatcher's reply to member m and sendPacket's decision whether the chain is complete. A tree
      command after a failed one gets the same status without its handler being run. */
  function Answered(ids: seq<nat>, s: State, m: nat, status: nat): State
    requires m < |ids|
  {
    var dispatched := s.lastStatus == 0;
    var st := if dispatched then status else s.lastStatus;
    var rsp := s.rsp + [Response(m, st, dispatched)];
    s.(dispatcher := Waiting, lastStatus := st, rsp := rsp,
       written := if ids[m] != s.lastMsgId then s.written else s.written + [rsp])
  }

  /** One step, if it is possible. ids are the message ids of the members. */
  function Step(ids: seq<nat>, s: State, e: Event): Option<State> {
    match e
    case Mark =>
      if s.next < |ids| && s.phase == AtSplit then
        Some(s.(phase := AtSet, lastMsgId := if s.next == |ids| - 1 then ids[s.next] else s.lastMsgId))
      else None
    case Register =>
      if s.next < |ids| && s.phase == AtSet && !Stuck(s.dispatcher) then
        Some(s.(phase := AtOffer, requests := s.requests[ids[s.next] := s.next]))
      else None
    case Handoff =>
      if s.next < |ids| && s.phase == AtOffer && (s.dispatcher == Waiting || s.dispatcher == Holding) then
        Some(s.(next := s.next + 1, phase := AtSplit,
                dispatcher := if s.dispatcher == Waiting then Got(ids[s.next]) else Blocked))
      else None
    case Take =>
      if !s.dispatcher.Got? then None
      else
        var id := s.dispatcher.msgId;
        if id in s.requests then Some(s.(requests := s.requests - {id}, dispatcher := Handling(s.requests[id])))
        else Some(s.(dispatcher := Holding))
    case Answer(status) =>
      if s.dispatcher.Handling? && s.dispatcher.member < |ids| then Some(Answered(ids, s, s.dispatcher.member, status)) else None
  }

  /** A schedule from the start. */
  function Exec(ids: seq<nat>, es: seq<Event>): Option<State> {
    if es == [] then Some(INITIAL)
    else
      var s := Exec(ids, es[..|es| - 1]);
      if s.None? then None else Step(ids, s.value, es[|es| - 1])
  }

  // ----- what should hold -----

  /** Responses are in request order, and if anything is written it is one buffer with all of them. */
  predicate Correct(ids: seq<nat>, s: State) {
    && (forall j :: 0 <= j < |s.rsp| ==> s.rsp[j].member == j)
    && (s.written == [] || (|s.rsp| == |ids| && s.written == [s.rsp]))
  }

  /** After a failed member every later one has the same status and was not dispatched; before it all were. */
  predicate Propagated(rsp: seq<Response>) {
    && (rsp != [] ==> rsp[0].dispatched)
    && forall j :: 0 < j < |rsp| ==>
         if rsp[j - 1].status == 0 then rsp[j].dispatched
         else !rsp[j].dispatched && rsp[j].status == rsp[j - 1].status
  }

  /** Nothing can happen any more. */
  ghost predicate Finished(ids: seq<nat>, s: State) {
    forall e :: Step(ids, s, e).None?
  }

  /** The condition on the chain: no member but the last has id zero or the id of its successor. */
  predicate GoodIds(ids: seq<nat>) {
    forall i :: 0 <= i < |ids| - 1 ==> ids[i] != 0 && ids[i] != ids[i + 1]
  }

  /** No two neighbours have the same id. */
  predicate NoTwins(ids: seq<nat>) {
    forall i :: 0 <= i < |ids| - 1 ==> ids[i] != ids[i + 1]
  }

  // ----- the invariant -----

  /** The receiver is done with the last member's mark. */
  predicate LastSeen(ids: seq<nat>, s: State) {
    s.next == |ids| || (s.next == |ids| - 1 && s.phase != AtSplit)
  }

  function Expected(ids: seq<nat>, s: State): map<nat, nat>
    requires s.next <= |ids| && (s.phase == AtOffer ==> s.next < |ids|)
  {
    var got: map<nat, nat> := if s.dispatcher.Got? && s.next > 0 then map[ids[s.next - 1] := s.next - 1] else map[];
    if s.phase == AtOffer then got[ids[s.next] := s.next] else got
  }

  /** What holds without twins: the requests map holds just the members on their way, and the members handed
      over are answered in order, but for the one the dispatcher has. */
  predicate InOrder(ids: seq<nat>, s: State) {
    && s.next <= |ids| && (s.phase != AtSplit ==> s.next < |ids|)
    && s.requests == Expected(ids, s)
    && !Stuck(s.dispatcher)
    && (s.dispatcher != Waiting ==> s.next > 0)
    && |s.rsp| == (if s.dispatcher == Waiting then s.next else s.next - 1)
    && (s.dispatcher.Got? ==> s.dispatcher.msgId == ids[s.next - 1])
    && (s.dispatcher.Handling? ==> s.dispatcher.member == s.next - 1)
    && (forall j :: 0 <= j < |s.rsp| ==> s.rsp[j].member == j)
  }

  predicate Inv(ids: seq<nat>, s: State) {
    && InOrder(ids, s)
    && s.lastMsgId == (if LastSeen(ids, s) && ids != [] then ids[|ids| - 1] else 0)
    && s.written == (if |s.rsp| == |ids| && ids != [] then [s.rsp] else [])
  }

  lemma StepKeepsOrder(ids: seq<nat>, s: State, e: Event)
    requires NoTwins(ids) && InOrder(ids, s) && Step(ids, s, e).Some?
    ensures InOrder(ids, Step(ids, s, e).value)
  {
    var s' := Step(ids, s, e).value;
    if e.Take? { TakeFinds(ids, s); }
    assert s'.requests == Expected(ids, s');
  }

  /** The id that the dispatcher got is still registered for the member it was sent for. */
  lemma TakeFinds(ids: seq<nat>, s: State)
    requires NoTwins(ids) && InOrder(ids, s) && s.dispatcher.Got?
    ensures var i := s.next - 1; ids[i] in s.requests && s.requests[ids[i]] == i
  {
    if s.phase == AtOffer { assert ids[s.next - 1] != ids[s.next]; }
  }

  lemma StepKeepsInv(ids: seq<nat>, s: State, e: Event)
    requires GoodIds(ids) && ids != [] && Inv(ids, s) && Step(ids, s, e).Some?
    ensures Inv(ids, Step(ids, s, e).value)
  {
    assert NoTwins(ids);
    StepKeepsOrder(ids, s, e);
    hide InOrder;
    if e.Answer? { AnswerCompletes(ids, s, e.status); }
  }

  /** Only the last member's answer completes the chain. */
  lemma AnswerCompletes(ids: seq<nat>, s: State, status: nat)
    requires GoodIds(ids) && ids != [] && Inv(ids, s) && s.dispatcher.Handling?
    ensures Step(ids, s, Answer(status)).Some?
    ensures var s' := Step(ids, s, Answer(status)).value; s'.written == if |s'.rsp| == |ids| then [s'.rsp] else []
  {
    var m := s.next - 1;
    if m < |ids| - 1 { assert ids[m] != 0 && ids[m] != ids[m + 1]; }
  }

  // ----- the protocol -----

  lemma {:induction false} RunsStayInOrder(ids: seq<nat>, es: seq<Event>)
    requires NoTwins(ids) && Exec(ids, es).Some?
    ensures InOrder(ids, Exec(ids, es).value)
  {
    hide InOrder, Step;
    if es == [] {
      InitialInv(ids);
    } else {
      RunsStayInOrder(ids, es[..|es| - 1]);
      StepKeepsOrder(ids, Exec(ids, es[..|es| - 1]).value, es[|es| - 1]);
    }
  }

  lemma {:induction false} RunsKeepInv(ids: seq<nat>, es: seq<Event>)
    requires GoodIds(ids) && ids != [] && Exec(ids, es).Some?
    ensures Inv(ids, Exec(ids, es).value)
  {
    hide Inv, Step;
    if es == [] {
      InitialInv(ids);
    } else {
      RunsKeepInv(ids, es[..|es| - 1]);
      StepKeepsInv(ids, Exec(ids, es[..|es| - 1]).value, es[|es| - 1]);
    }
  }

  lemma InitialInv(ids: seq<nat>)
    ensures InOrder(ids, INITIAL) && (ids != [] ==> Inv(ids, INITIAL))
  {
  }

  /** Statuses propagate in every run, whatever the ids. */
  lemma {:induction false} RunsPropagate(ids: seq<nat>, es: seq<Event>)
    requires Exec(ids, es).Some?
    ensures var s := Exec(ids, es).value;
            Propagated(s.rsp) && s.lastStatus == if s.rsp == [] then 0 else s.rsp[|s.rsp| - 1].status
  {
    if es != [] { RunsPropagate(ids, es[..|es| - 1]); }
  }

  /** What the handlers answered, in order. (The answer for a member that is not dispatched is not looked at.) */
  function Statuses(es: seq<Event>): seq<nat> {
    if es == [] then []
    else
      var init, e := Statuses(es[..|es| - 1]), es[|es| - 1];
      if e.Answer? then init + [e.status] else init
  }

  /** k is the first of the first n answers that is not a success. */
  predicate FailsFirst(st: seq<nat>, k: nat, n: nat) {
    k < n <= |st| && st[k] != 0 && forall i :: 0 <= i < k ==> st[i] == 0
  }

  /** Up to the first failure each response has the handler's status, and every one behind it has the status of
      that failure and no handler was run for it. */
  ghost predicate Reported(st: seq<nat>, rsp: seq<Response>) {
    && |rsp| == |st|
    && (forall j :: 0 <= j < |rsp| && (forall i :: 0 <= i < j ==> st[i] == 0) ==> rsp[j].dispatched && rsp[j].status == st[j])
    && (forall j: nat, k: nat :: j < |rsp| && FailsFirst(st, k, j) ==> !rsp[j].dispatched && rsp[j].status == st[k])
  }

  /** lastStatus is that of the first failure, if there is one. */
  ghost predicate Carries(st: seq<nat>, last: nat) {
    && ((forall i :: 0 <= i < |st| ==> st[i] == 0) ==> last == 0)
    && forall k: nat :: FailsFirst(st, k, |st|) ==> last == st[k]
  }

  /** In every run, whatever the ids: what is recorded is what the handlers answered, and a failure is all that
      the members behind it get. */
  lemma {:induction false} RunsReport(ids: seq<nat>, es: seq<Event>)
    requires Exec(ids, es).Some?
    ensures Reported(Statuses(es), Exec(ids, es).value.rsp)
    ensures Carries(Statuses(es), Exec(ids, es).value.lastStatus)
  {
    hide Reported, Carries;
    NothingReported();
    if es != [] {
      var init, e := es[..|es| - 1], es[|es| - 1];
      RunsReport(ids, init);
      if e.Answer? { ReportMore(Statuses(init), e.status, Exec(ids, init).value, Exec(ids, es).value); }
    }
  }

  lemma NothingReported()
    ensures Reported([], []) && Carries([], 0)
  {
  }

  lemma ReportMore(st: seq<nat>, status: nat, s: State, s': State)
    requires Reported(st, s.rsp) && Carries(st, s.lastStatus)
    requires s.dispatcher.Handling?
    requires var r := Response(s.dispatcher.member, if s.lastStatus == 0 then status else s.lastStatus, s.lastStatus == 0);
             s'.rsp == s.rsp + [r] && s'.lastStatus == r.status
    ensures Reported(st + [status], s'.rsp) && Carries(st + [status], s'.lastStatus)
  {
    var now := st + [status];
    if exists i :: 0 <= i < |st| && st[i] != 0 {
      var f := FirstFailure(st, |st|);
      assert now[f] == st[f];
      forall k: nat, n: nat | FailsFirst(now, k, n) ensures k == f { assert now[f] == st[f]; }
      forall j: nat, k: nat | j < |s'.rsp| && FailsFirst(now, k, j) ensures !s'.rsp[j].dispatched && s'.rsp[j].status == now[k] {
        if j < |st| { assert FailsFirst(st, k, j); }
      }
    } else {
      forall k: nat, n: nat | FailsFirst(now, k, n) ensures k == |st| {}
      assert s.lastStatus == 0;
      if forall i :: 0 <= i < |now| ==> now[i] == 0 { assert now[|st|] == status; }
    }
    forall j | 0 <= j < |s'.rsp| && (forall i :: 0 <= i < j ==> now[i] == 0) ensures s'.rsp[j].dispatched && s'.rsp[j].status == now[j] {
      forall i | 0 <= i < j ensures st[i] == 0 { assert now[i] == st[i]; }
    }
  }

  lemma {:induction false} FirstFailure(st: seq<nat>, n: nat) returns (k: nat)
    requires n <= |st| && exists i :: 0 <= i < n && st[i] != 0
    ensures FailsFirst(st, k, n)
  {
    if exists i :: 0 <= i < n - 1 && st[i] != 0 { k := FirstFailure(st, n - 1); } else { k := n - 1; }
  }

  /** Nothing can happen any more exactly when the receiver has handed over all members and the dispatcher
      waits, with the mutex or without, or the dispatcher is stuck and the receiver cannot go on: it needs the
      mutex, or nobody takes its next id. */
  lemma FinishedIff(ids: seq<nat>, s: State)
    requires s.next <= |ids| && (s.phase != AtSplit ==> s.next < |ids|)
    requires s.dispatcher.Handling? ==> s.dispatcher.member < |ids|
    ensures Finished(ids, s) <==>
            || (s.next == |ids| && (s.dispatcher == Waiting || Stuck(s.dispatcher)))
            || (s.next < |ids| && s.phase == AtSet && Stuck(s.dispatcher))
            || (s.next < |ids| && s.phase == AtOffer && s.dispatcher.Blocked?)
  {
    if Finished(ids, s) {
      assert Step(ids, s, Mark).None? && Step(ids, s, Register).None? && Step(ids, s, Handoff).None?;
      assert Step(ids, s, Take).None? && Step(ids, s, Answer(0)).None?;
    }
  }

  /** A stuck dispatcher stays stuck, and nothing is answered or sent any more. */
  lemma {:induction false} StuckForGood(ids: seq<nat>, es: seq<Event>, more: seq<Event>)
    requires Exec(ids, es).Some? && Stuck(Exec(ids, es).value.dispatcher) && Exec(ids, es + more).Some?
    ensures var s, s' := Exec(ids, es).value, Exec(ids, es + more).value;
            Stuck(s'.dispatcher) && s'.rsp == s.rsp && s'.written == s.written
  {
    if more == [] {
      assert es + more == es;
    } else {
      var init := more[..|more| - 1];
      assert (es + more)[..|es + more| - 1] == es + init;
      StuckForGood(ids, es, init);
    }
  }

  /** With good ids, however the two interleave: the responses are in request order, nothing is written before
      the last one, and when nothing can happen any more exactly one buffer was written, with a response to
      every member, failures propagated. */
  lemma Protocol(ids: seq<nat>, es: seq<Event>)
    requires GoodIds(ids) && ids != [] && Exec(ids, es).Some?
    ensures var s := Exec(ids, es).value;
            && Correct(ids, s) && Propagated(s.rsp)
            && (s.written != [] ==> |s.rsp| == |ids|)
            && (Finished(ids, s) ==> |s.rsp| == |ids| && s.written == [s.rsp])
  {
    RunsKeepInv(ids, es);
    RunsPropagate(ids, es);
    FinishedIff(ids, Exec(ids, es).value);
  }

  /** Without twins, whatever else the ids are: nothing can happen any more only when every member has been
      answered, in request order, and the dispatcher waits without the mutex. */
  lemma NoDeadlock(ids: seq<nat>, es: seq<Event>)
    requires NoTwins(ids) && Exec(ids, es).Some?
    ensures var s := Exec(ids, es).value;
            && !Stuck(s.dispatcher)
            && (Finished(ids, s) ==> s.dispatcher == Waiting && |s.rsp| == |ids| && forall j :: 0 <= j < |ids| ==> s.rsp[j].member == j)
  {
    RunsStayInOrder(ids, es);
    FinishedIff(ids, Exec(ids, es).value);
  }

  /** Steps left, at most. */
  function StepsLeft(ids: seq<nat>, s: State): int {
    5 * (|ids| - s.next) - (if s.phase == AtSplit then 0 else if s.phase == AtSet then 1 else 2)
    + (if s.dispatcher.Got? then 2 else if s.dispatcher.Handling? then 1 else 0)
  }

  /** Every run ends: five steps for each member at most. */
  lemma {:induction false} RunsEnd(ids: seq<nat>, es: seq<Event>)
    requires Exec(ids, es).Some?
    ensures var s := Exec(ids, es).value;
            s.next <= |ids| && (s.phase != AtSplit ==> s.next < |ids|) && |es| + StepsLeft(ids, s) <= 5 * |ids|
    ensures |es| <= 5 * |ids|
  {
    if es != [] { RunsEnd(ids, es[..|es| - 1]); }
  }

  // ----- the condition is exact -----

  lemma ExecMore(ids: seq<nat>, es: seq<Event>, e: Event)
    requires Exec(ids, es).Some?
    ensures Exec(ids, es + [e]) == Step(ids, Exec(ids, es).value, e)
  {
    assert (es + [e])[..|es|] == es;
  }

  function Successes(n: nat): (r: seq<Response>)
    ensures |r| == n
  {
    seq(n, j requires 0 <= j < n => Response(j, 0, true))
  }

  /** The state after the first i members were answered one by one. */
  function OneByOne(i: nat): State { State(i, AtSplit, map[], Waiting, 0, 0, Successes(i), []) }

  /** As long as ids are not zero and the last member is not reached, members can be answered one by one. */
  lemma {:induction false} AnswerOneByOne(ids: seq<nat>, i: nat) returns (es: seq<Event>)
    requires i < |ids| && forall j :: 0 <= j < i ==> ids[j] != 0
    ensures Exec(ids, es) == Some(OneByOne(i))
  {
    if i == 0 {
      es := [];
    } else {
      var before := AnswerOneByOne(ids, i - 1);
      es := HandOver(ids, before, OneByOne(i - 1), i - 1);
      var s := Exec(ids, es).value;
      ExecMore(ids, es, Take);
      es := es + [Take];
      assert Exec(ids, es).value.requests == map[];
      ExecMore(ids, es, Answer(0));
      es := es + [Answer(0)];
      assert Exec(ids, es).value.rsp == Successes(i);
    }
  }

  /** Member i, not the last, is marked, registered and handed over. */
  lemma HandOver(ids: seq<nat>, before: seq<Event>, s: State, i: nat) returns (es: seq<Event>)
    requires i + 1 < |ids| && s == OneByOne(i) && Exec(ids, before) == Some(s)
    ensures Exec(ids, es) == Some(s.(next := i + 1, requests := map[ids[i] := i], dispatcher := Got(ids[i])))
  {
    ExecMore(ids, before, Mark);
    ExecMore(ids, before + [Mark], Register);
    ExecMore(ids, before + [Mark] + [Register], Handoff);
    es := before + [Mark] + [Register] + [Handoff];
  }

  /** A zero id in front of the last member: its answer is taken for the last one and written early. */
  lemma ZeroIdWritesEarly(ids: seq<nat>, i: nat) returns (es: seq<Event>)
    requires i + 1 < |ids| && ids[i] == 0 && forall j :: 0 <= j < i ==> ids[j] != 0
    ensures Exec(ids, es).Some? && !Correct(ids, Exec(ids, es).value)
  {
    es := AnswerOneByOne(ids, i);
    es := HandOver(ids, es, OneByOne(i), i);
    ExecMore(ids, es, Take);
    es := es + [Take];
    ExecMore(ids, es, Answer(0));
    es := es + [Answer(0)];
  }

  /** Two neighbours with the same id: the receiver registers the second before the dispatcher takes the
      first, which is then never answered. */
  lemma EqualIdsLoseAMember(ids: seq<nat>, i: nat) returns (es: seq<Event>)
    requires i + 1 < |ids| && ids[i] == ids[i + 1] && forall j :: 0 <= j < i ==> ids[j] != 0
    ensures Exec(ids, es).Some? && !Correct(ids, Exec(ids, es).value)
  {
    es := AnswerOneByOne(ids, i);
    es := HandOver(ids, es, OneByOne(i), i);
    ExecMore(ids, es, Mark);
    es := es + [Mark];
    ExecMore(ids, es, Register);
    es := es + [Register];
    assert Exec(ids, es).value.requests[ids[i]] == i + 1;
    ExecMore(ids, es, Take);
    es := es + [Take];
    ExecMore(ids, es, Answer(0));
    es := es + [Answer(0)];
    var rsp := Exec(ids, es).value.rsp;
    assert rsp[i].member == i + 1;
  }

  /** The state when i members were answered one by one: whatever their ids, nothing is on its way. */
  ghost predicate Idle(ids: seq<nat>, es: seq<Event>, i: nat) {
    Exec(ids, es).Some? &&
    var s := Exec(ids, es).value;
    s.next == i && s.phase == AtSplit && s.requests == map[] && s.dispatcher == Waiting
  }

  lemma {:induction false} IdleAfter(ids: seq<nat>, i: nat) returns (es: seq<Event>)
    requires i < |ids|
    ensures Idle(ids, es, i)
  {
    if i == 0 {
      es := [];
    } else {
      es := IdleAfter(ids, i - 1);
      es := Offered(ids, es, i - 1);
      var s := Exec(ids, es).value;
      ExecMore(ids, es, Take);
      es := es + [Take];
      assert Exec(ids, es).value.requests == map[];
      ExecMore(ids, es, Answer(0));
      es := es + [Answer(0)];
    }
  }

  /** The next member is marked, registered and handed over. */
  lemma Offered(ids: seq<nat>, before: seq<Event>, i: nat) returns (es: seq<Event>)
    requires i < |ids| && Idle(ids, before, i)
    ensures Exec(ids, es).Some?
    ensures var s := Exec(ids, es).value;
            s.next == i + 1 && s.phase == AtSplit && s.requests == map[ids[i] := i] && s.dispatcher == Got(ids[i])
  {
    ExecMore(ids, before, Mark);
    ExecMore(ids, before + [Mark], Register);
    ExecMore(ids, before + [Mark] + [Register], Handoff);
    es := before + [Mark] + [Register] + [Handoff];
  }

  /** Two neighbours with one id: the second is registered over the first before that is taken, so its own id
      finds nothing, and the dispatcher is stuck. */
  lemma TwinsDeadlock(ids: seq<nat>, i: nat) returns (es: seq<Event>)
    requires i + 1 < |ids| && ids[i] == ids[i + 1]
    ensures Exec(ids, es).Some? && Exec(ids, es).value.dispatcher == Holding
    ensures Exec(ids, es).value.next == i + 2 && Exec(ids, es).value.phase == AtSplit
  {
    es := IdleAfter(ids, i);
    es := Offered(ids, es, i);
    ExecMore(ids, es, Mark);
    es := es + [Mark];
    ExecMore(ids, es, Register);
    es := es + [Register];
    ExecMore(ids, es, Take);
    es := es + [Take];
    assert Exec(ids, es).value.requests == map[];
    ExecMore(ids, es, Answer(0));
    es := es + [Answer(0)];
    ExecMore(ids, es, Handoff);
    es := es + [Handoff];
    ExecMore(ids, es, Take);
    es := es + [Take];
  }

  /** Some schedule leaves the dispatcher stuck if and only if two neighbours have the same id. */
  lemma DeadlockIffTwins(ids: seq<nat>)
    ensures (exists es :: Exec(ids, es).Some? && Stuck(Exec(ids, es).value.dispatcher)) <==> !NoTwins(ids)
  {
    if NoTwins(ids) {
      forall es | Exec(ids, es).Some? ensures !Stuck(Exec(ids, es).value.dispatcher) { NoDeadlock(ids, es); }
    } else {
      var i :| 0 <= i < |ids| - 1 && ids[i] == ids[i + 1];
      var es := TwinsDeadlock(ids, i);
    }
  }

  /** If a member follows the twins, it is never answered: the receiver blocks in set, for the mutex. */
  lemma TwinsBlockTheReceiver(ids: seq<nat>, i: nat) returns (es: seq<Event>)
    requires i + 2 < |ids| && ids[i] == ids[i + 1]
    ensures Exec(ids, es).Some? && Finished(ids, Exec(ids, es).value)
    ensures Exec(ids, es).value.next == i + 2 && Exec(ids, es).value.phase == AtSet
  {
    es := TwinsDeadlock(ids, i);
    ExecMore(ids, es, Mark);
    es := es + [Mark];
    FinishedIff(ids, Exec(ids, es).value);
  }

  lemma {:induction false} FirstBad(ids: seq<nat>, n: nat) returns (i: nat)
    requires n <= |ids| - 1 && exists j :: 0 <= j < n && (ids[j] == 0 || ids[j] == ids[j + 1])
    ensures i < n && (ids[i] == 0 || ids[i] == ids[i + 1]) && forall j :: 0 <= j < i ==> ids[j] != 0
  {
    if exists j :: 0 <= j < n - 1 && (ids[j] == 0 || ids[j] == ids[j + 1]) {
      i := FirstBad(ids, n - 1);
    } else {
      i := n - 1;
      forall j | 0 <= j < i ensures ids[j] != 0 {
        assert !(0 <= j < n - 1 && (ids[j] == 0 || ids[j] == ids[j + 1]));
      }
    }
  }

  /** All schedules answer a chain correctly if and only if its ids are good. */
  lemma CorrectIffGoodIds(ids: seq<nat>)
    requires ids != []
    ensures (forall es :: Exec(ids, es).Some? ==> Correct(ids, Exec(ids, es).value)) <==> GoodIds(ids)
  {
    if GoodIds(ids) {
      forall es | Exec(ids, es).Some? ensures Correct(ids, Exec(ids, es).value) { Protocol(ids, es); }
    } else {
      var i := FirstBad(ids, |ids| - 1);
      if ids[i] == 0 {
        var es := ZeroIdWritesEarly(ids, i);
      } else {
        var es := EqualIdsLoseAMember(ids, i);
      }
    }
  }

  // ----- the buffer on the wire -----

  /** The packets of the responses; packet gives the encoding of each. */
  function Encoded(rsp: seq<Response>, packet: Response -> Bytes): (ps: seq<Bytes>)
    ensures |ps| == |rsp| && forall j :: 0 <= j < |ps| ==> ps[j] == packet(rsp[j])
  {
    seq(|rsp|, j requires 0 <= j < |rsp| => packet(rsp[j]))
  }

  /** When a run is over, the one buffer written, encoded as a chain, is split by the client into one packet for
      each member, in request order, each the response to that member. */
  lemma ClientGetsTheResponses(ids: seq<nat>, es: seq<Event>, packet: Response -> Bytes)
    requires GoodIds(ids) && ids != [] && Exec(ids, es).Some? && Finished(ids, Exec(ids, es).value)
    requires forall j :: 0 <= j < |Exec(ids, es).value.rsp| ==> Compound.Plain(packet(Exec(ids, es).value.rsp[j]))
    ensures var s := Exec(ids, es).value;
            && |s.written| == 1
            && var ps := Encoded(s.written[0], packet);
               && |ps| == |ids| && Compound.AllPlain(ps) && Compound.Packets(ps)
               && Compound.Receive(Compound.Chain(ps), false) ==
                    (if Compound.Related(ps[0]) then (Compound.Members(ps)[..|ids| - 1], Compound.Panicked)
                     else (Compound.Members(ps), Compound.Ended))
               && forall j :: 0 <= j < |ids| ==>
                    s.written[0][j].member == j && Compound.IsMember(Compound.Members(ps)[j], packet(s.written[0][j]), j, |ids|)
  {
    hide Exec, Step, Finished, Compound.Plain, Compound.IsMember, Compound.Receive, Compound.Chain, Compound.Related;
    Protocol(ids, es);
    var ps := Encoded(Exec(ids, es).value.rsp, packet);
    Compound.RoundTrip(ps);
  }
}
