/** The worker: what its message handlers reply, and how deliveries are settled. */
module Worker {
  import opened Wrappers

  // ----- the handlers

  /** A value of the scripting language, as far as the handlers tell values apart. */
  datatype Js = Undefined | Code(n: int) | ErrorObject

  /** What a call, awaited or not, ends with. */
  datatype Call = Returns(code: int) | Throws(e: Js)

  const CRASH: int := 12
  const LICENCE_INVALID: Js := Code(36)

  /** A reply is a progress status or a result; an undefined value does not appear in the reply. */
  datatype Reply = Processing | Result(value: Js)

  predicate CarriesValue(r: Reply) {
    r.Result? && r.value != Undefined
  }

  /** A message as a handler meets it: whether it has a correlation identifier, the error code of decoding
      it, whether it names a configuration file, whether it is about a PDF, and how the calls end. */
  datatype Job = Job(
    correlated: bool, errorCode: Option<int>, configFile: bool, pdf: bool,
    stat: Call, svg: Call, run: Call)

  /** How a handler ends: the replies it has sent, and whether its promise is resolved or rejected. */
  datatype Episode = Episode(replies: seq<Reply>, resolved: bool)

  function Values(replies: seq<Reply>): (n: nat) {
    if replies == [] then 0
    else Values(replies[..|replies| - 1]) + if CarriesValue(replies[|replies| - 1]) then 1 else 0
  }

  /** One value is sent when the promise is resolved, and none when it is rejected. */
  ghost predicate ExactlyOnce(e: Episode) {
    Values(e.replies) == if e.resolved then 1 else 0
  }

  lemma ValuesOfOne(r: Reply)
    ensures Values([r]) == (if CarriesValue(r) then 1 else 0)
    ensures Values([Processing, r]) == (if CarriesValue(r) then 1 else 0)
    ensures Values([Processing]) == 0
  {
    assert [r][..0] == [] && [Processing][..0] == [];
    assert [Processing, r][..1] == [Processing];
    assert Values([Processing, r]) == Values([Processing, r][..1]) + if CarriesValue(r) then 1 else 0;
  }

  /** What a handler that retries on an invalid licence does with an error of a decoded message: it refuses
      the message for 36, and for an undefined error, whose message cannot be read; any other error is
      reported as it is, or as 12 when it is zero. */
  ghost predicate FailsWith(e: Episode, err: Js) {
    if err == Code(36) || err == Undefined then e == Episode([Processing], false)
    else e == Episode([Processing, Result(if err == Code(0) then Code(12) else err)], true)
  }

  /** What happens before a decoded message is processed. */
  ghost predicate Declines(e: Episode, job: Job) {
    if !job.correlated then e == Episode([], false)
    else job.errorCode.Some? && e == Episode([Result(Code(job.errorCode.value))], true)
  }

  /** Decoding ended with an error code that does not count as false. */
  predicate Erroneous(job: Job) {
    job.errorCode.Some? && job.errorCode.value != 0
  }

  ghost predicate Decoded(job: Job) {
    job.correlated && (job.errorCode == None || job.errorCode == Some(0))
  }

  /** The file is looked up before the command runs; the code of the command is reported. */
  method ModelHandler(job: Job) returns (e: Episode)
    ensures ExactlyOnce(e)
    ensures !Decoded(job) ==> Declines(e, job)
    ensures Decoded(job) && job.stat.Throws? ==> FailsWith(e, job.stat.e)
    ensures Decoded(job) && job.stat.Returns? && job.run.Throws? ==> FailsWith(e, job.run.e)
    ensures Decoded(job) && job.stat.Returns? && job.run.Returns? ==>
              e == Episode([Processing, Result(Code(job.run.code))], true)
  {
    if !job.correlated {
      return Episode([], false);
    }
    if Erroneous(job) {
      e := Refused(job.errorCode.value);
      return;
    }
    var replies := [Processing];
    if job.stat.Throws? {
      e := Caught(replies, job.stat.e);
      return;
    }
    e := Ran(replies, job.run);
  }

  /** A PDF is converted before the command runs, whose code is reported. */
  method DrawingHandler(job: Job) returns (e: Episode)
    ensures ExactlyOnce(e)
    ensures !Decoded(job) ==> Declines(e, job)
    ensures Decoded(job) && job.pdf && job.svg.Throws? ==> FailsWith(e, job.svg.e)
    ensures Decoded(job) && (job.pdf ==> job.svg.Returns?) && job.run.Throws? ==> FailsWith(e, job.run.e)
    ensures Decoded(job) && (job.pdf ==> job.svg.Returns?) && job.run.Returns? ==>
              e == Episode([Processing, Result(Code(job.run.code))], true)
  {
    if !job.correlated {
      return Episode([], false);
    }
    if Erroneous(job) {
      e := Refused(job.errorCode.value);
      return;
    }
    var replies := [Processing];
    if job.pdf && job.svg.Throws? {
      e := Caught(replies, job.svg.e);
      return;
    }
    e := Ran(replies, job.run);
  }

  /** A message that could not be decoded is answered with the error code. */
  method Refused(code: int) returns (e: Episode)
    ensures ExactlyOnce(e) && e == Episode([Result(Code(code))], true)
  {
    ValuesOfOne(Result(Code(code)));
    e := Episode([Result(Code(code))], true);
  }

  method Ran(replies: seq<Reply>, run: Call) returns (e: Episode)
    requires replies == [Processing]
    ensures ExactlyOnce(e)
    ensures if run.Throws? then FailsWith(e, run.e) else e == Episode(replies + [Result(Code(run.code))], true)
  {
    if run.Throws? {
      e := Caught(replies, run.e);
      return;
    }
    ValuesOfOne(Result(Code(run.code)));
    e := Episode(replies + [Result(Code(run.code))], true);
  }

  /** The catch clause. */
  method Caught(replies: seq<Reply>, err: Js) returns (e: Episode)
    requires replies == [Processing]
    ensures ExactlyOnce(e) && FailsWith(e, err)
  {
    ValuesOfOne(Processing);
    if err == LICENCE_INVALID || err == Undefined {
      return Episode(replies, false);
    }
    var value := if err == Code(0) then Code(CRASH) else err;  // zero counts as false
    ValuesOfOne(Result(value));
    e := Episode(replies + [Result(value)], true);
  }

  /** The clash handler reports every error, an invalid licence too; it gives up only when there is no
      configuration file to derive the path of the results from, or when nothing at all is thrown. */
  method ClashHandler(job: Job) returns (e: Episode)
    ensures ExactlyOnce(e)
    ensures !Decoded(job) ==> Declines(e, job)
    ensures Decoded(job) ==>
              e == if !job.configFile || job.run == Throws(Undefined) then Episode([Processing], false)
                   else Episode([Processing, Result(if job.run.Returns? then Code(job.run.code) else job.run.e)], true)
  {
    if !job.correlated {
      return Episode([], false);
    }
    if Erroneous(job) {
      e := Refused(job.errorCode.value);
      return;
    }
    var replies := [Processing];
    ValuesOfOne(Processing);
    if !job.configFile {
      return Episode(replies, false);
    }
    var value := Code(0);
    match job.run {
      case Returns(code) => value := Code(code);
      case Throws(err) =>
        if err == Undefined {
          return Episode(replies, false);
        }
        value := err;
    }
    ValuesOfOne(Result(value));
    e := Episode(replies + [Result(value)], true);
  }

  // ----- deliveries

  datatype Act = Send(reply: Reply) | Ack | Nack

  /** What becomes visible of a delivery: its replies, then an acknowledgement or its refusal. */
  function Acts(e: Episode): (r: seq<Act>)
    ensures |r| == |e.replies| + 1
    ensures r[|e.replies|] == if e.resolved then Ack else Nack
    ensures forall i :: 0 <= i < |e.replies| ==> r[i] == Send(e.replies[i])
  {
    seq(|e.replies|, i requires 0 <= i < |e.replies| => Send(e.replies[i])) + [if e.resolved then Ack else Nack]
  }

  datatype Delivery = Delivery(message: int, episode: Episode)
  datatype Flight = Flight(delivery: nat, done: nat)
  datatype Event = Event(delivery: nat, act: Act)

  /** Deliveries are numbered by their place in `history`; `active` are the unsettled ones. `arrived` and
      `acked` count messages. */
  datatype State = State(
    waiting: seq<int>, active: seq<Flight>, history: seq<Delivery>, log: seq<Event>,
    arrived: multiset<int>, acked: multiset<int>)

  datatype Move = Arrive(message: int) | Deliver(episode: Episode) | Advance(i: nat)

  const INITIAL: State := State([], [], [], [], multiset{}, multiset{})

  /** The broker holds back further deliveries: `prefetch` of them are unsettled. Zero means no limit. */
  predicate Saturated(s: State, prefetch: nat) {
    prefetch != 0 && |s.active| >= prefetch
  }

  /**
   * The broker delivers while it is not saturated; handlers advance in any order. A move that is not enabled
   * changes nothing.
   */
  function Step(s: State, prefetch: nat, move: Move): (r: State) {
    match move
    case Arrive(m) => s.(waiting := s.waiting + [m], arrived := s.arrived + multiset{m})
    case Deliver(e) =>
      if s.waiting == [] || Saturated(s, prefetch) then s
      else s.(waiting := s.waiting[1..], active := s.active + [Flight(|s.history|, 0)],
              history := s.history + [Delivery(s.waiting[0], e)])
    case Advance(i) =>
      if i >= |s.active| || s.active[i].delivery >= |s.history| then s
      else
        var Flight(d, done) := s.active[i];
        var Delivery(m, e) := s.history[d];
        if done > |e.replies| then s
        else if done < |e.replies| then
          s.(active := s.active[i := Flight(d, done + 1)], log := s.log + [Event(d, Acts(e)[done])])
        else
          s.(active := s.active[..i] + s.active[i + 1..], log := s.log + [Event(d, Acts(e)[done])],
             waiting := if e.resolved then s.waiting else s.waiting + [m],
             acked := if e.resolved then s.acked + multiset{m} else s.acked)
  }

  function Run(s: State, prefetch: nat, moves: seq<Move>): (r: State) {
    if moves == [] then s else Step(Run(s, prefetch, moves[..|moves| - 1]), prefetch, moves[|moves| - 1])
  }

  /** The acts of one delivery in the log. */
  function Trace(log: seq<Event>, d: nat): (r: seq<Act>) {
    if log == [] then []
    else
      var last := log[|log| - 1];
      Trace(log[..|log| - 1], d) + if last.delivery == d then [last.act] else []
  }

  lemma {:induction false} TraceAppend(log: seq<Event>, e: Event, d: nat)
    ensures Trace(log + [e], d) == Trace(log, d) + if e.delivery == d then [e.act] else []
  {
    assert (log + [e])[..|log|] == log;
  }

  function InFlight(active: seq<Flight>, history: seq<Delivery>): (r: seq<int>)
    requires forall i :: 0 <= i < |active| ==> active[i].delivery < |history|
  {
    seq(|active|, i requires 0 <= i < |active| => history[active[i].delivery].message)
  }

  ghost predicate IsActive(s: State, d: nat) {
    exists i :: 0 <= i < |s.active| && s.active[i].delivery == d
  }

  ghost predicate FlightsValid(s: State) {
    && (forall i :: 0 <= i < |s.active| ==>
          && s.active[i].delivery < |s.history|
          && s.active[i].done <= |s.history[s.active[i].delivery].episode.replies|)
    && forall i, j :: 0 <= i < j < |s.active| ==> s.active[i].delivery != s.active[j].delivery
  }

  ghost predicate LogKnown(s: State) {
    forall i :: 0 <= i < |s.log| ==> s.log[i].delivery < |s.history|
  }

  /** A flight has shown the acts that it has done. */
  ghost predicate Shown(s: State, f: Flight)
    requires f.delivery < |s.history| && f.done <= |s.history[f.delivery].episode.replies|
  {
    Trace(s.log, f.delivery) == Acts(s.history[f.delivery].episode)[..f.done]
  }

  ghost predicate Finished(s: State, d: nat)
    requires d < |s.history|
  {
    Trace(s.log, d) == Acts(s.history[d].episode)
  }

  /** An unsettled delivery has shown a proper part of its acts, a settled one all of them. */
  ghost predicate TracesValid(s: State)
    requires FlightsValid(s)
  {
    && LogKnown(s)
    && (forall i :: 0 <= i < |s.active| ==> Shown(s, s.active[i]))
    && forall d :: 0 <= d < |s.history| && !IsActive(s, d) ==> Finished(s, d)
  }

  /** No message is lost or made up: each waits, is being handled, or has been acknowledged. */
  ghost predicate Conserved(s: State)
    requires FlightsValid(s)
  {
    s.arrived == multiset(s.waiting) + multiset(InFlight(s.active, s.history)) + s.acked
  }

  ghost predicate Inv(s: State, prefetch: nat) {
    && (prefetch != 0 ==> |s.active| <= prefetch) && FlightsValid(s) && TracesValid(s) && Conserved(s)
    && forall d :: 0 <= d < |s.history| ==> ExactlyOnce(s.history[d].episode)
  }

  ghost predicate Allowed(move: Move) {
    move.Deliver? ==> ExactlyOnce(move.episode)
  }

  lemma {:induction false} TraceOfStranger(log: seq<Event>, d: nat)
    requires forall i :: 0 <= i < |log| ==> log[i].delivery != d
    ensures Trace(log, d) == []
  {
    if log != [] {
      TraceOfStranger(log[..|log| - 1], d);
    }
  }

  lemma ArriveKeeps(s: State, prefetch: nat, m: int)
    requires Inv(s, prefetch)
    ensures Inv(Step(s, prefetch, Arrive(m)), prefetch)
  {
    var s' := Step(s, prefetch, Arrive(m));
    assert forall d: nat :: IsActive(s', d) <==> IsActive(s, d);
    assert multiset(s'.waiting) == multiset(s.waiting) + multiset{m};
  }

  lemma DeliverKeeps(s: State, prefetch: nat, e: Episode)
    requires Inv(s, prefetch) && ExactlyOnce(e) && s.waiting != [] && !Saturated(s, prefetch)
    ensures Inv(Step(s, prefetch, Deliver(e)), prefetch)
  {
    var s' := Step(s, prefetch, Deliver(e));
    assert FlightsValid(s');
    DeliverTraces(s, prefetch, e);
    DeliverConserves(s, prefetch, e);
  }

  lemma DeliverConserves(s: State, prefetch: nat, e: Episode)
    requires FlightsValid(s) && Conserved(s) && s.waiting != [] && !Saturated(s, prefetch)
    requires FlightsValid(Step(s, prefetch, Deliver(e)))
    ensures Conserved(Step(s, prefetch, Deliver(e)))
  {
    var s' := Step(s, prefetch, Deliver(e));
    assert s.waiting == [s.waiting[0]] + s'.waiting;
    assert InFlight(s'.active, s'.history) == InFlight(s.active, s.history) + [s.waiting[0]];
  }

  lemma DeliverTraces(s: State, prefetch: nat, e: Episode)
    requires FlightsValid(s) && TracesValid(s) && s.waiting != [] && !Saturated(s, prefetch)
    requires FlightsValid(Step(s, prefetch, Deliver(e)))
    ensures TracesValid(Step(s, prefetch, Deliver(e)))
  {
    var s' := Step(s, prefetch, Deliver(e));
    var n := |s.history|;
    forall i | 0 <= i < |s'.active| ensures Shown(s', s'.active[i]) {
      if i < |s.active| {
        assert s'.active[i] == s.active[i] && Shown(s, s.active[i]);
      } else {
        TraceOfStranger(s.log, n);
      }
    }
    assert s'.active[|s.active|].delivery == n;
    forall d | 0 <= d < |s'.history| && !IsActive(s', d) ensures Finished(s', d) {
      assert !IsActive(s, d) by {
        assert forall i :: 0 <= i < |s.active| ==> s'.active[i] == s.active[i];
      }
      assert Finished(s, d);
    }
  }

  /** What one more act does to the traces. */
  lemma {:induction false} ActShows(s: State, s': State, d: nat, act: Act)
    requires s'.log == s.log + [Event(d, act)]
    ensures Trace(s'.log, d) == Trace(s.log, d) + [act]
    ensures forall c: nat :: c != d ==> Trace(s'.log, c) == Trace(s.log, c)
  {
    TraceAppend(s.log, Event(d, act), d);
    forall c: nat | c != d ensures Trace(s'.log, c) == Trace(s.log, c) {
      TraceAppend(s.log, Event(d, act), c);
    }
  }

  lemma SendKeeps(s: State, prefetch: nat, i: nat)
    requires Inv(s, prefetch) && i < |s.active|
    requires s.active[i].done < |s.history[s.active[i].delivery].episode.replies|
    ensures Inv(Step(s, prefetch, Advance(i)), prefetch)
  {
    var s' := Step(s, prefetch, Advance(i));
    assert FlightsValid(s');
    SendTraces(s, prefetch, i);
    assert InFlight(s'.active, s'.history) == InFlight(s.active, s.history);
  }

  lemma SendTraces(s: State, prefetch: nat, i: nat)
    requires FlightsValid(s) && TracesValid(s) && i < |s.active|
    requires s.active[i].done < |s.history[s.active[i].delivery].episode.replies|
    requires FlightsValid(Step(s, prefetch, Advance(i)))
    ensures TracesValid(Step(s, prefetch, Advance(i)))
  {
    var s' := Step(s, prefetch, Advance(i));
    var Flight(d, done) := s.active[i];
    var acts := Acts(s.history[d].episode);
    ActShows(s, s', d, acts[done]);
    assert Shown(s, s.active[i]);
    assert acts[..done + 1] == acts[..done] + [acts[done]];
    forall j | 0 <= j < |s'.active| ensures Shown(s', s'.active[j]) {
      assert j != i ==> s'.active[j] == s.active[j] && Shown(s, s.active[j]) && s.active[j].delivery != d;
    }
    forall c | 0 <= c < |s'.history| && !IsActive(s', c) ensures Finished(s', c) {
      assert s'.active[i].delivery == d;
      assert !IsActive(s, c) by {
        assert forall j :: 0 <= j < |s.active| ==> s'.active[j].delivery == s.active[j].delivery;
      }
      assert Finished(s, c);
    }
  }

  lemma SettleKeeps(s: State, prefetch: nat, i: nat)
    requires Inv(s, prefetch) && i < |s.active|
    requires s.active[i].done == |s.history[s.active[i].delivery].episode.replies|
    ensures Inv(Step(s, prefetch, Advance(i)), prefetch)
  {
    var s' := Step(s, prefetch, Advance(i));
    assert FlightsValid(s');
    SettleTraces(s, prefetch, i);
    SettleConserves(s, prefetch, i);
  }

  lemma SettleTraces(s: State, prefetch: nat, i: nat)
    requires FlightsValid(s) && TracesValid(s) && i < |s.active|
    requires s.active[i].done == |s.history[s.active[i].delivery].episode.replies|
    requires FlightsValid(Step(s, prefetch, Advance(i)))
    ensures TracesValid(Step(s, prefetch, Advance(i)))
  {
    var s' := Step(s, prefetch, Advance(i));
    var Flight(d, done) := s.active[i];
    var acts := Acts(s.history[d].episode);
    ActShows(s, s', d, acts[done]);
    assert Shown(s, s.active[i]);
    assert acts == acts[..done] + [acts[done]];
    assert Finished(s', d);
    forall j | 0 <= j < |s'.active| ensures Shown(s', s'.active[j]) {
      OtherFlight(s, i, j, s');
    }
    forall c | 0 <= c < |s'.history| && !IsActive(s', c) ensures Finished(s', c) {
      if c != d {
        StillActive(s.active, i, c);
        assert Finished(s, c);
      }
    }
  }

  /** A flight that is left when another one is settled. */
  lemma OtherFlight(s: State, i: nat, j: nat, s': State)
    requires FlightsValid(s) && TracesValid(s) && i < |s.active| && FlightsValid(s')
    requires s'.active == s.active[..i] + s.active[i + 1..] && j < |s'.active| && s'.history == s.history
    requires forall c: nat :: c != s.active[i].delivery ==> Trace(s'.log, c) == Trace(s.log, c)
    ensures Shown(s', s'.active[j])
  {
    var k := if j < i then j else j + 1;
    assert s'.active[j] == s.active[k] && Shown(s, s.active[k]);
  }

  lemma StillActive(active: seq<Flight>, i: nat, c: nat)
    requires i < |active| && active[i].delivery != c
    ensures (exists j :: 0 <= j < |active| && active[j].delivery == c)
        ==> var rest := active[..i] + active[i + 1..]; exists j :: 0 <= j < |rest| && rest[j].delivery == c
  {
    var rest := active[..i] + active[i + 1..];
    if j :| 0 <= j < |active| && active[j].delivery == c {
      assert rest[if j < i then j else j - 1] == active[j];
    }
  }

  lemma SettleConserves(s: State, prefetch: nat, i: nat)
    requires FlightsValid(s) && Conserved(s) && i < |s.active|
    requires s.active[i].done == |s.history[s.active[i].delivery].episode.replies|
    requires FlightsValid(Step(s, prefetch, Advance(i)))
    ensures Conserved(Step(s, prefetch, Advance(i)))
  {
    var s' := Step(s, prefetch, Advance(i));
    var Delivery(m, e) := s.history[s.active[i].delivery];
    InFlightWithout(s.active, s.history, i);
    assert multiset(s.waiting + [m]) == multiset(s.waiting) + multiset{m};
  }

  lemma InFlightWithout(active: seq<Flight>, history: seq<Delivery>, i: nat)
    requires i < |active| && forall j :: 0 <= j < |active| ==> active[j].delivery < |history|
    ensures multiset(InFlight(active, history))
         == multiset(InFlight(active[..i] + active[i + 1..], history)) + multiset{history[active[i].delivery].message}
  {
    RemovalOfOne(InFlight(active, history), i, InFlight(active[..i] + active[i + 1..], history));
  }

  lemma RemovalOfOne(xs: seq<int>, i: nat, ys: seq<int>)
    requires i < |xs| && ys == xs[..i] + xs[i + 1..]
    ensures multiset(xs) == multiset(ys) + multiset{xs[i]}
  {
    assert xs == xs[..i] + [xs[i]] + xs[i + 1..];
  }

  /** Every run keeps the invariant, however the handlers interleave. */
  lemma {:induction false} RunKeeps(prefetch: nat, moves: seq<Move>)
    requires forall i :: 0 <= i < |moves| ==> Allowed(moves[i])
    ensures Inv(Run(INITIAL, prefetch, moves), prefetch)
    decreases |moves|
  {
    if moves != [] {
      RunKeeps(prefetch, moves[..|moves| - 1]);
      StepKeeps(Run(INITIAL, prefetch, moves[..|moves| - 1]), prefetch, moves[|moves| - 1]);
    }
  }

  lemma StepKeeps(s: State, prefetch: nat, move: Move)
    requires Inv(s, prefetch) && Allowed(move)
    ensures Inv(Step(s, prefetch, move), prefetch)
  {
    match move
    case Arrive(m) => ArriveKeeps(s, prefetch, m);
    case Deliver(e) =>
      if s.waiting != [] && !Saturated(s, prefetch) {
        DeliverKeeps(s, prefetch, e);
      }
    case Advance(i) =>
      if i < |s.active| {
        if s.active[i].done < |s.history[s.active[i].delivery].episode.replies| {
          SendKeeps(s, prefetch, i);
        } else {
          SettleKeeps(s, prefetch, i);
        }
      }
  }

  // ----- what the invariant means for a delivery

  function Settlements(acts: seq<Act>): (n: nat) {
    if acts == [] then 0 else Settlements(acts[..|acts| - 1]) + if acts[|acts| - 1].Send? then 0 else 1
  }

  function ValuesSent(acts: seq<Act>): (n: nat) {
    if acts == [] then 0
    else
      var last := acts[|acts| - 1];
      ValuesSent(acts[..|acts| - 1]) + if last.Send? && CarriesValue(last.reply) then 1 else 0
  }

  /** Before it is settled, a delivery shows replies only. */
  lemma {:induction false} PartOfActs(e: Episode, n: nat)
    requires n <= |e.replies|
    ensures var part := Acts(e)[..n];
            Settlements(part) == 0 && ValuesSent(part) == Values(e.replies[..n]) && Ack !in part && Nack !in part
    decreases n
  {
    if n > 0 {
      PartOfActs(e, n - 1);
      assert Acts(e)[..n] == Acts(e)[..n - 1] + [Acts(e)[n - 1]];
      assert e.replies[..n][..n - 1] == e.replies[..n - 1];
    }
  }

  lemma AllActs(e: Episode)
    ensures Settlements(Acts(e)) == 1 && ValuesSent(Acts(e)) == Values(e.replies)
    ensures (Ack in Acts(e) <==> e.resolved) && (Nack in Acts(e) <==> !e.resolved)
  {
    var n := |e.replies|;
    PartOfActs(e, n);
    assert Acts(e) == Acts(e)[..n] + [Acts(e)[n]];
    assert e.replies[..n] == e.replies;
  }

  /** In every run a delivery is settled once it is no longer active and never twice; it is acknowledged
      exactly when one value was sent for it, and refused exactly when none was. */
  lemma {:induction false} SettledExactlyOnce(prefetch: nat, moves: seq<Move>, d: nat)
    requires forall i :: 0 <= i < |moves| ==> Allowed(moves[i])
    requires d < |Run(INITIAL, prefetch, moves).history|
    ensures Settlement(Run(INITIAL, prefetch, moves), d)
  {
    RunKeeps(prefetch, moves);
    var s := Run(INITIAL, prefetch, moves);
    var e := s.history[d].episode;
    if IsActive(s, d) {
      var i :| 0 <= i < |s.active| && s.active[i].delivery == d;
      assert Shown(s, s.active[i]);
      PartOfActs(e, s.active[i].done);
    } else {
      assert Finished(s, d);
      AllActs(e);
    }
  }

  ghost predicate Settlement(s: State, d: nat) {
    var trace, settled := Trace(s.log, d), !IsActive(s, d);
    && Settlements(trace) == (if settled then 1 else 0)
    && (Ack in trace <==> settled && ValuesSent(trace) == 1)
    && (Nack in trace <==> settled && ValuesSent(trace) == 0)
  }

  // ----- a limited number of tasks

  /** The world around the k-th poll: messages that arrive before it, how the handling of a message taken
      by it ends, and by how much more than the least time the clock advances. */
  datatype World = World(arrivals: nat -> seq<int>, outcome: nat -> Episode, delay: nat -> nat)

  /** Messages that were taken from the queue. */
  function Taken(moves: seq<Move>): (n: nat) {
    if moves == [] then 0 else Taken(moves[..|moves| - 1]) + if moves[|moves| - 1].Deliver? then 1 else 0
  }

  ghost predicate AllAllowed(moves: seq<Move>) {
    forall i :: 0 <= i < |moves| ==> Allowed(moves[i])
  }

  /** A state that is reached by a known sequence of moves. */
  ghost predicate Reached(s: State, prefetch: nat, moves: seq<Move>) {
    AllAllowed(moves) && s == Run(INITIAL, prefetch, moves)
  }

  lemma {:induction false} OneMore(s: State, prefetch: nat, moves: seq<Move>, move: Move)
    requires Reached(s, prefetch, moves) && Allowed(move)
    ensures Reached(Step(s, prefetch, move), prefetch, moves + [move])
    ensures Taken(moves + [move]) == Taken(moves) + if move.Deliver? then 1 else 0
  {
    assert (moves + [move])[..|moves|] == moves;
  }

  method Receive(s: State, messages: seq<int>, ghost moves: seq<Move>) returns (s': State, ghost moves': seq<Move>)
    requires Reached(s, 1, moves)
    ensures Reached(s', 1, moves') && Taken(moves') == Taken(moves)
    ensures s'.active == s.active && s'.waiting == s.waiting + messages && s'.history == s.history
  {
    s', moves' := s, moves;
    var i := 0;
    while i < |messages|
      invariant i <= |messages| && Reached(s', 1, moves') && Taken(moves') == Taken(moves)
      invariant s'.active == s.active && s'.waiting == s.waiting + messages[..i] && s'.history == s.history
    {
      OneMore(s', 1, moves', Arrive(messages[i]));
      moves' := moves' + [Arrive(messages[i])];
      s' := Step(s', 1, Arrive(messages[i]));
      assert messages[..i + 1] == messages[..i] + [messages[i]];
      i := i + 1;
    }
    assert messages[..|messages|] == messages;
  }

  /** What goes back to the queue: a refused message. */
  function Returned(e: Episode, message: int): (r: seq<int>) {
    if e.resolved then [] else [message]
  }

  /** The only delivery is handled: `done` of its acts have become visible. */
  ghost predicate Handling(s: State, e: Episode, s': State, done: nat) {
    && s.waiting != [] && done <= |e.replies| + 1
    && s'.history == s.history + [Delivery(s.waiting[0], e)]
    && s'.active == (if done <= |e.replies| then [Flight(|s.history|, done)] else [])
    && s'.waiting == s.waiting[1..] + if done <= |e.replies| then [] else Returned(e, s.waiting[0])
  }

  lemma {:induction false} HandlingBegins(s: State, e: Episode)
    requires s.active == [] && s.waiting != []
    ensures Handling(s, e, Step(s, 1, Deliver(e)), 0)
  {
  }

  lemma {:induction false} HandlingStep(s: State, e: Episode, s': State, done: nat)
    requires Handling(s, e, s', done) && done <= |e.replies|
    ensures Handling(s, e, Step(s', 1, Advance(0)), done + 1)
  {
    assert s'.active[..0] + s'.active[1..] == [];
    assert s'.waiting == s.waiting[1..];
  }

  /** Take a message and await its handler and its settlement. */
  method Handle(s: State, e: Episode, ghost moves: seq<Move>) returns (s': State, ghost moves': seq<Move>)
    requires Reached(s, 1, moves) && s.active == [] && s.waiting != [] && ExactlyOnce(e)
    ensures Reached(s', 1, moves') && s'.active == [] && Taken(moves') == Taken(moves) + 1
    ensures s'.history == s.history + [Delivery(s.waiting[0], e)]
    ensures s'.waiting == s.waiting[1..] + Returned(e, s.waiting[0])
  {
    OneMore(s, 1, moves, Deliver(e));
    HandlingBegins(s, e);
    moves' := moves + [Deliver(e)];
    s' := Step(s, 1, Deliver(e));
    var done := 0;
    while done <= |e.replies|
      invariant Handling(s, e, s', done) && Reached(s', 1, moves') && Taken(moves') == Taken(moves) + 1
      decreases |e.replies| - done
    {
      OneMore(s', 1, moves', Advance(0));
      HandlingStep(s, e, s', done);
      moves' := moves' + [Advance(0)];
      s' := Step(s', 1, Advance(0));
      done := done + 1;
    }
  }

  /** A poll: when it was made, and whether it took a message. */
  datatype Poll = Poll(time: nat, took: bool)

  /** When the poll behind the given ones is made: handling a message takes some time, and after a poll in
      vain the worker sleeps for the interval, or longer. */
  function Clock(polls: seq<Poll>, interval: nat, world: World): (t: nat) {
    if polls == [] then 0
    else
      var k := |polls| - 1;
      polls[k].time + world.delay(k) + if polls[k].took then 0 else interval
  }

  /** When the last message was settled, or the start. */
  function LastActive(polls: seq<Poll>, world: World): (t: nat) {
    if polls == [] then 0
    else
      var k := |polls| - 1;
      if polls[k].took then polls[k].time + world.delay(k) else LastActive(polls[..k], world)
  }

  function Idle(polls: seq<Poll>, interval: nat, world: World): (t: int) {
    Clock(polls, interval, world) - LastActive(polls, world)
  }

  function Successes(polls: seq<Poll>): (n: nat) {
    if polls == [] then 0 else Successes(polls[..|polls| - 1]) + if polls[|polls| - 1].took then 1 else 0
  }

  /** The polls of a run, each at its time; no poll in vain was followed by another one when the waiting
      time was over. */
  ghost predicate Patient(polls: seq<Poll>, maxWait: int, interval: nat, world: World) {
    forall k {:trigger Due(polls, k, maxWait, interval, world)} :: 0 <= k < |polls| ==>
      Due(polls, k, maxWait, interval, world)
  }

  ghost predicate Due(polls: seq<Poll>, k: nat, maxWait: int, interval: nat, world: World)
    requires k < |polls|
  {
    && polls[k].time == Clock(polls[..k], interval, world)
    && (polls[k].took || Idle(polls[..k], interval, world) <= maxWait)
  }

  lemma {:induction false} PollAppend(polls: seq<Poll>, p: Poll, maxWait: int, interval: nat, world: World)
    requires Patient(polls, maxWait, interval, world) && p.time == Clock(polls, interval, world)
    requires p.took || Idle(polls, interval, world) <= maxWait
    ensures Patient(polls + [p], maxWait, interval, world)
    ensures Clock(polls + [p], interval, world) == p.time + world.delay(|polls|) + if p.took then 0 else interval
    ensures LastActive(polls + [p], world) == if p.took then p.time + world.delay(|polls|) else LastActive(polls, world)
    ensures Successes(polls + [p]) == Successes(polls) + if p.took then 1 else 0
  {
    var more := polls + [p];
    assert more[..|polls|] == polls;
    forall k | 0 <= k < |more| ensures Due(more, k, maxWait, interval, world) {
      assert k < |polls| ==> more[..k] == polls[..k] && Due(polls, k, maxWait, interval, world);
    }
  }

  /** What the k-th poll finds: what the poll before has left, and what has arrived since. */
  ghost function Offered(world: World, k: nat): (q: seq<int>) {
    Queue(world, k) + world.arrivals(k)
  }

  /** What is left to the k-th poll: the one before has taken the first message, if there was one, and if
      that was refused it has gone to the end. */
  ghost function Queue(world: World, k: nat): (q: seq<int>)
    decreases k, 0
  {
    if k == 0 then []
    else
      var q := Queue(world, k - 1) + world.arrivals(k - 1);
      if q == [] then [] else q[1..] + Returned(world.outcome(k - 1), q[0])
  }

  /** The messages that the first k polls take, with the outcome of each. */
  ghost function Handled(world: World, k: nat): (r: seq<Delivery>) {
    if k == 0 then []
    else
      var q := Offered(world, k - 1);
      Handled(world, k - 1) + if q == [] then [] else [Delivery(q[0], world.outcome(k - 1))]
  }

  /** A poll takes a message exactly when it is offered one. */
  ghost predicate TakesOffers(polls: seq<Poll>, world: World) {
    forall k {:trigger TakesOffer(polls[k], world, k)} :: 0 <= k < |polls| ==> TakesOffer(polls[k], world, k)
  }

  ghost predicate TakesOffer(p: Poll, world: World, k: nat) {
    p.took <==> Offered(world, k) != []
  }

  /** What has been taken and what is waiting behind the given polls. */
  ghost predicate Polled(
    waiting: seq<int>, history: seq<Delivery>, polls: seq<Poll>, maxWait: int, interval: nat, world: World)
  {
    && Patient(polls, maxWait, interval, world) && TakesOffers(polls, world)
    && history == Handled(world, |polls|) && waiting == Queue(world, |polls|) && |history| == Successes(polls)
  }

  lemma {:induction false} PolledOnce(
    history: seq<Delivery>, polls: seq<Poll>, maxWait: int, interval: nat, world: World,
    p: Poll, more: seq<Poll>)
    requires Polled(Queue(world, |polls|), history, polls, maxWait, interval, world)
    requires p.time == Clock(polls, interval, world) && TakesOffer(p, world, |polls|) && more == polls + [p]
    requires p.took || Idle(polls, interval, world) <= maxWait
    ensures |more| == |polls| + 1
    ensures Polled(Queue(world, |polls| + 1), Handled(world, |polls| + 1), more, maxWait, interval, world)
    ensures Clock(more, interval, world) == p.time + world.delay(|polls|) + if p.took then 0 else interval
    ensures LastActive(more, world) == if p.took then p.time + world.delay(|polls|) else LastActive(polls, world)
  {
    PollAppend(polls, p, maxWait, interval, world);
    OffersAppend(polls, p, world);
    HistoryGrows(world, |polls|, p);
  }

  lemma {:induction false} HistoryGrows(world: World, k: nat, p: Poll)
    requires TakesOffer(p, world, k)
    ensures |Handled(world, k + 1)| == |Handled(world, k)| + if p.took then 1 else 0
  {
  }

  lemma {:induction false} OffersAppend(polls: seq<Poll>, p: Poll, world: World)
    requires TakesOffers(polls, world) && (p.took <==> Offered(world, |polls|) != [])
    ensures TakesOffers(polls + [p], world)
  {
    var more := polls + [p];
    forall k | 0 <= k < |more| ensures TakesOffer(more[k], world, k) {
      assert k < |polls| ==> more[k] == polls[k] && TakesOffer(polls[k], world, k);
    }
  }

  lemma {:induction false} QueueStep(world: World, k: nat)
    ensures var q := Offered(world, k);
            && Queue(world, k + 1) == (if q == [] then [] else q[1..] + Returned(world.outcome(k), q[0]))
            && Handled(world, k + 1)
            == Handled(world, k) + if q == [] then [] else [Delivery(q[0], world.outcome(k))]
  {
  }

  /** Receive what has arrived and handle the first message, if there is one. */
  method TakeOne(s: State, ghost moves: seq<Move>, world: World, k: nat)
    returns (s': State, ghost moves': seq<Move>, took: bool)
    requires Reached(s, 1, moves) && s.active == [] && ExactlyOnce(world.outcome(k))
    requires s.waiting == Queue(world, k) && s.history == Handled(world, k)
    ensures Reached(s', 1, moves') && s'.active == [] && Taken(moves') == Taken(moves) + if took then 1 else 0
    ensures s'.waiting == Queue(world, k + 1) && s'.history == Handled(world, k + 1)
    ensures took <==> Offered(world, k) != []
  {
    QueueStep(world, k);
    s', moves' := Receive(s, world.arrivals(k), moves);
    took := s'.waiting != [];
    if took {
      s', moves' := Handle(s', world.outcome(k), moves');
    }
  }

  /** Poll the queue until enough tasks are done or nothing has come for too long: the worker gives up
      exactly when a poll finds nothing and the time since it was last active exceeds the limit. Messages are
      taken in the order in which they are offered. At no time is more than one unsettled, and in the end
      none is. */
  method ExecuteTasks(nTasks: nat, maxWait: int, interval: nat, world: World)
    returns (s: State, timedOut: bool, ghost moves: seq<Move>, ghost polls: seq<Poll>)
    requires interval > 0 && forall k :: ExactlyOnce(world.outcome(k))
    ensures Reached(s, 1, moves) && s.active == [] && Taken(moves) == |s.history| <= nTasks
    ensures Polled(s.waiting, s.history, polls, maxWait, interval, world)
    ensures timedOut <==> |s.history| < nTasks
    ensures timedOut ==> Idle(polls, interval, world) > maxWait && Offered(world, |polls|) == []
    ensures forall n :: 0 <= n <= |moves| ==> |Run(INITIAL, 1, moves[..n]).active| <= 1
    ensures forall d :: 0 <= d < |s.history| ==> Settlements(Trace(s.log, d)) == 1 && Settlement(s, d)
    ensures s.arrived == multiset(s.waiting) + s.acked
  {
    s, moves, polls, timedOut := INITIAL, [], [], false;
    var k, clock, lastActive, currentTask := 0, 0, 0, 1;
    while currentTask <= nTasks
      invariant 1 <= currentTask == |s.history| + 1 <= nTasks + 1 && |polls| == k
      invariant Reached(s, 1, moves) && s.active == [] && Taken(moves) == |s.history|
      invariant Polled(s.waiting, s.history, polls, maxWait, interval, world)
      invariant clock == Clock(polls, interval, world) && lastActive == LastActive(polls, world)
      decreases nTasks - currentTask, maxWait - (clock - lastActive)
    {
      var s', took;
      ghost var moves';
      s', moves', took := TakeOne(s, moves, world, k);
      if !took && clock - lastActive > maxWait {
        AllSettled(s, moves);
        timedOut := true;
        return;
      }
      PolledOnce(s.history, polls, maxWait, interval, world, Poll(clock, took), polls + [Poll(clock, took)]);
      s, moves, polls := s', moves', polls + [Poll(clock, took)];
      if took {
        clock := clock + world.delay(k);
        lastActive := clock;
        currentTask := currentTask + 1;
      } else {
        clock := clock + interval + world.delay(k);
      }
      k := k + 1;
    }
    AllSettled(s, moves);
  }

  lemma AllSettled(s: State, moves: seq<Move>)
    requires Reached(s, 1, moves) && s.active == []
    ensures forall n :: 0 <= n <= |moves| ==> |Run(INITIAL, 1, moves[..n]).active| <= 1
    ensures forall d :: 0 <= d < |s.history| ==> Settlements(Trace(s.log, d)) == 1 && Settlement(s, d)
    ensures s.arrived == multiset(s.waiting) + s.acked
  {
    forall n | 0 <= n <= |moves| ensures |Run(INITIAL, 1, moves[..n]).active| <= 1 {
      RunKeeps(1, moves[..n]);
    }
    forall d | 0 <= d < |s.history| ensures Settlements(Trace(s.log, d)) == 1 && Settlement(s, d) {
      SettledExactlyOnce(1, moves, d);
    }
    RunKeeps(1, moves);
    assert InFlight(s.active, s.history) == [];
  }
}
