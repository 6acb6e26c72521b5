/** One session of the relay inside a run of the whole system: what the client's loop reports and sends is
    what the system records, and it is a gapless piece of the log. */
module RelaySessions {
  import opened Wrappers
  import opened RelayModel
  import opened RelayProofs

  /** The actions that a session survives. */
  predicate Within(actions: seq<Action>) {
    forall i :: 0 <= i < |actions| ==> !actions[i].Start? && !actions[i].Crash?
  }

  /** The clock reading and the message of a loop step. */
  function Tick(w: World, a: Action): seq<(nat, Event)> {
    if a.Loop? && w.session.Some? && EventOf(w.log, w.session.value, a.incoming).Some?
    then [(a.now, EventOf(w.log, w.session.value, a.incoming).value)] else []
  }

  /** What the client's loop gets to see. */
  function Ticks(w: World, actions: seq<Action>): seq<(nat, Event)>
    decreases |actions|
  {
    if actions == [] then []
    else
      match Step(w, actions[0])
      case Some(w') => Tick(w, actions[0]) + Ticks(w', actions[1..])
      case None => []
  }

  /** The ordinal of the next insert to be streamed. */
  function Position(w: World): nat {
    match w.session
    case Some(s) => |Inserts(w.log[..if s.txn <= |w.log| then s.txn else |w.log|])| + s.next
    case None => 0
  }

  // ----- one step

  lemma {:induction false} ListenMore(c: Client, tick: seq<(nat, Event)>, rest: seq<(nat, Event)>)
    requires |tick| <= 1
    ensures tick == [] ==> tick + rest == rest
    ensures |tick| == 1 ==>
              var o := Iterate(c, tick[0].0, tick[0].1);
              var r, later := Listen(c, tick + rest), Listen(o.client, rest);
              o.alive ==>
                && r.client == later.client
                && r.reports == ToSeq(o.report) + later.reports && r.attempts == ToSeq(o.attempt) + later.attempts
  {
    hide Iterate;
    if |tick| == 1 {
      assert (tick + rest)[1..] == rest;
    }
  }

  /** A step within a session: the session goes on, and what the loop does is what the system records. */
  lemma StepListens(w: World, a: Action)
    requires Inv(w) && w.session.Some? && !a.Start? && !a.Crash? && Step(w, a).Some?
    ensures var w' := Step(w, a).value;
            && w'.session.Some?
            && (Tick(w, a) == [] ==>
                  && w'.session.value.client == w.session.value.client
                  && w'.reports == w.reports && w'.sent == w.sent)
            && (Tick(w, a) != [] ==>
                  var o := Iterate(w.session.value.client, Tick(w, a)[0].0, Tick(w, a)[0].1);
                  && |Tick(w, a)| == 1 && o.alive && w'.session.value.client == o.client
                  && w'.reports == w.reports + ToSeq(o.report) && w'.sent == w.sent + ToSeq(o.attempt))
  {
    hide Inserts, NoReplays, Range, CountUpTo, InsertsUpTo, Inv;
    if a.Loop? {
      LoopKeeps(w, a.now, a.incoming);
    }
  }

  lemma StepMoves(w: World, a: Action)
    requires Inv(w) && w.session.Some? && !a.Start? && !a.Crash? && Step(w, a).Some?
    ensures var w' := Step(w, a).value;
            && Position(w) <= Position(w')
            && w'.attempts == w.attempts + Range(Position(w), Position(w') - Position(w))
  {
    hide Inserts, NoReplays, Range, CountUpTo, InsertsUpTo;
    var w' := Step(w, a).value;
    var s := w.session.value;
    RangeNone(Position(w));
    match a
    case Loop(now, incoming) =>
      LoopMoves(w, now, incoming);
    case Commit(txn) =>
      assert w'.log[..s.txn] == w.log[..s.txn];
    case Deliver =>
  }

  lemma RangeNone(from: nat)
    ensures Range(from, 0) == [] && Range(from, 1) == [from]
  {
  }

  lemma LoopMoves(w: World, now: nat, incoming: Incoming)
    requires Inv(w) && w.session.Some? && Step(w, Loop(now, incoming)).Some?
    ensures var w' := Step(w, Loop(now, incoming)).value;
            && Position(w) <= Position(w')
            && w'.attempts == w.attempts + Range(Position(w), Position(w') - Position(w))
  {
    hide Inserts, NoReplays, Range, CountUpTo, InsertsUpTo, Inv;
    LoopKeeps(w, now, incoming);
    SessionFacts(w);
    var s := w.session.value;
    RangeNone(Position(w));
    if s.txn < |w.log| {
      InsertsNext(w.log, s.txn);
    }
  }

  // ----- whole sessions

  /** A run within a session is a run of the client's loop: same position, relations and deadline at the end,
      same reports, and the inserts handed to the producer are those the loop attempted. */
  lemma {:induction false} SessionListens(w: World, actions: seq<Action>)
    requires Inv(w) && w.session.Some? && Within(actions) && Run(w, actions).Some?
    ensures var w', r := Run(w, actions).value, Listen(w.session.value.client, Ticks(w, actions));
            && w'.session.Some? && w'.session.value.client == r.client
            && w'.reports == w.reports + r.reports && w'.sent == w.sent + r.attempts
    decreases |actions|
  {
    hide Inv, Step, Iterate, Listen;
    if actions == [] {
      ListenNone(w.session.value.client);
    } else {
      var w1 := Step(w, actions[0]).value;
      StepKeeps(w, actions[0]);
      StepListens(w, actions[0]);
      SessionListens(w1, actions[1..]);
      assert Ticks(w, actions) == Tick(w, actions[0]) + Ticks(w1, actions[1..]);
      hide Ticks, Tick, Run;
      ListenMore(w.session.value.client, Tick(w, actions[0]), Ticks(w1, actions[1..]));
    }
  }

  lemma {:induction false} ListenNone(c: Client)
    ensures Listen(c, []) == Listened(c, [], [])
  {
  }

  lemma {:induction false} SessionMoves(w: World, actions: seq<Action>)
    requires Inv(w) && w.session.Some? && Within(actions) && Run(w, actions).Some?
    ensures var w' := Run(w, actions).value;
            && Inv(w') && w'.session.Some? && Position(w) <= Position(w')
            && w'.attempts == w.attempts + Range(Position(w), Position(w') - Position(w))
    decreases |actions|
  {
    hide Inv, Step, Position, Range;
    if actions == [] {
      RangeNone(Position(w));
    } else {
      var w1 := Step(w, actions[0]).value;
      var w2 := Run(w, actions).value;
      StepKeeps(w, actions[0]);
      StepListens(w, actions[0]);
      StepMoves(w, actions[0]);
      SessionMoves(w1, actions[1..]);
      RangeJoins(Position(w), Position(w1) - Position(w), Position(w2) - Position(w1));
    }
  }

  lemma RangeJoins(from: nat, m: nat, n: nat)
    ensures Range(from, m) + Range(from + m, n) == Range(from, m + n)
  {
  }

  /** Up to a position that the log has reached, it does not change any more. */
  lemma {:induction false} LogSettles(w: World, actions: seq<Action>, lsn: nat)
    requires Run(w, actions).Some? && lsn <= Top(w.log, w.origin)
    ensures var w' := Run(w, actions).value;
            InsertsUpTo(w'.log, lsn) == InsertsUpTo(w.log, lsn) && lsn <= Top(w'.log, w'.origin)
    decreases |actions|
  {
    hide InsertsUpTo, CountUpTo, Inserts;
    if actions != [] {
      var w1 := Step(w, actions[0]).value;
      if actions[0].Commit? {
        CommitBeyond(w.log, actions[0].txn, lsn);
      }
      LogSettles(w1, actions[1..], lsn);
    }
  }

  /** Whatever a session reports, it has by then sent everything before it that was not confirmed when it
      began. */
  lemma {:induction false} SessionReports(w: World, actions: seq<Action>)
    requires Inv(w) && w.session.Some? && Within(actions) && Run(w, actions).Some?
    ensures var w' := Run(w, actions).value;
            && w.reports <= w'.reports
            && forall i :: |w.reports| <= i < |w'.reports| ==> InsertsUpTo(w'.log, w'.reports[i]) <= Position(w')
    decreases |actions|
  {
    hide Inv, Step, Position, InsertsUpTo, Top, Reports;
    if actions != [] {
      var a := actions[0];
      var w1, w2 := Step(w, a).value, Run(w, actions).value;
      StepKeeps(w, a);
      StepListens(w, a);
      StepReports(w, a);
      SessionReports(w1, actions[1..]);
      SessionMoves(w, actions);
      LogSettles(w, actions, w.session.value.client.lsn);
      forall i | |w.reports| <= i < |w2.reports| ensures InsertsUpTo(w2.log, w2.reports[i]) <= Position(w2) {
        if i < |w1.reports| {
          assert w2.reports[i] == w1.reports[i] == w.session.value.client.lsn;
        }
      }
    }
  }

  lemma StepReports(w: World, a: Action)
    requires Inv(w) && w.session.Some? && !a.Start? && !a.Crash? && Step(w, a).Some?
    ensures Step(w, a).value.reports == w.reports + Report(w, a)
    ensures var lsn := w.session.value.client.lsn;
            lsn <= Top(w.log, w.origin) && InsertsUpTo(w.log, lsn) <= Position(w)
  {
    hide Inserts, NoReplays, Range, CountUpTo, Inv;
    SessionFacts(w);
    if a.Loop? {
      PositionAdvances(w, a.now, a.incoming);
    }
  }

  /** From any reachable state without a session, a client that starts at the confirmed position and listens
      leaves behind what the system records. It sends a gapless piece of the log from that position on, and
      with every position it reports, everything up to there. */
  lemma {:induction false} SessionSendsPieceOfLog(log: Log, origin: nat, before: seq<Action>, start: nat,
      actions: seq<Action>)
    requires LogOk(log) && Run(Initial(log, origin), before).Some?
    requires var w := Run(Initial(log, origin), before).value;
             w.session.None? && Within(actions) && Run(Step(w, Start(start)).value, actions).Some?
    ensures var w := Run(Initial(log, origin), before).value;
            var w1 := Step(w, Start(start)).value;
            var w' := Run(w1, actions).value;
            var r := Listen(Client(w.confirmed, {}, start + STANDBY_TIMEOUT), Ticks(w1, actions));
            var from := InsertsUpTo(w'.log, w.confirmed);
            && w'.reports == w.reports + r.reports && w'.sent == w.sent + r.attempts
            && from + |r.attempts| <= |Inserts(w'.log)|
            && r.attempts == Inserts(w'.log)[from..from + |r.attempts|]
            && forall p :: p in r.reports ==> InsertsUpTo(w'.log, p) <= from + |r.attempts|
  {
    hide Inv, Run, Inserts, Listen, Ticks;
    var w := Run(Initial(log, origin), before).value;
    InitialInv(log, origin);
    RunKeeps(Initial(log, origin), before);
    StartKeeps(w, start);
    SessionFrom(w, start, actions);
  }

  lemma {:induction false} SessionFrom(w: World, start: nat, actions: seq<Action>)
    requires Inv(w) && w.session.None? && Within(actions)
    requires Inv(Step(w, Start(start)).value) && Run(Step(w, Start(start)).value, actions).Some?
    ensures var w1 := Step(w, Start(start)).value;
            var w' := Run(w1, actions).value;
            var r := Listen(Client(w.confirmed, {}, start + STANDBY_TIMEOUT), Ticks(w1, actions));
            var from := InsertsUpTo(w'.log, w.confirmed);
            && w'.reports == w.reports + r.reports && w'.sent == w.sent + r.attempts
            && from + |r.attempts| <= |Inserts(w'.log)|
            && r.attempts == Inserts(w'.log)[from..from + |r.attempts|]
            && forall p :: p in r.reports ==> InsertsUpTo(w'.log, p) <= from + |r.attempts|
  {
    hide Run, Inserts, CountUpTo, NoReplays, Range, Listen, Ticks;
    var w1 := Step(w, Start(start)).value;
    var w' := Run(w1, actions).value;
    var r := Listen(Client(w.confirmed, {}, start + STANDBY_TIMEOUT), Ticks(w1, actions));
    SessionListens(w1, actions);
    SessionMoves(w1, actions);
    SessionReports(w1, actions);
    LogSettles(w1, actions, w.confirmed);
    var from := Position(w1);
    SentIs(w', |w.sent|, from, Position(w') - from);
    assert w'.sent[|w.sent|..] == r.attempts;
    forall p | p in r.reports ensures InsertsUpTo(w'.log, p) <= Position(w') {
      var i :| 0 <= i < |r.reports| && r.reports[i] == p;
      assert w'.reports[|w.reports| + i] == p;
    }
  }

  /** Consecutive ordinals stand for a piece of the log. */
  lemma SentIs(w: World, m: nat, from: nat, n: nat)
    requires Inv(w) && m <= |w.attempts| && w.attempts[m..] == Range(from, n)
    ensures from + n <= |Inserts(w.log)| || n == 0
    ensures n > 0 ==> w.sent[m..] == Inserts(w.log)[from..from + n]
  {
    hide Inserts, NoReplays, CountUpTo;
    assert forall i :: 0 <= i < n ==> w.attempts[m + i] == w.attempts[m..][i] == from + i;
    if n > 0 {
      assert w.attempts[m + (n - 1)] == from + n - 1;
    }
  }

  // ----- keeping the server informed

  /** A request for a reply is answered at the very next iteration, whenever that is and whatever it receives. */
  lemma PingIsAnswered(c: Client, t0: nat, t1: nat, e: Event)
    ensures Iterate(Iterate(c, t0, Keepalive(true)).client, t1, e).report == Some(c.lsn)
  {
  }

  /** Without one, the next report is due when more than ten seconds have passed since the last one. */
  lemma ReportsWhenDue(c: Client, t0: nat, e0: Event, t1: nat, e1: Event)
    requires Iterate(c, t0, e0).report.Some? && e0 != Keepalive(true)
    ensures var next := Iterate(Iterate(c, t0, e0).client, t1, e1);
            next.report == if t1 > t0 + 10 then Some(Iterate(c, t0, e0).client.lsn) else None
  {
  }

  /** Nothing happens but the report that is due, if no message arrives, or one of no concern. */
  lemma QuietIteration(c: Client, now: nat, e: Event)
    requires e == Timeout || e == Unexpected || e == Keepalive(false) || e == XLogData(OtherMessage)
    ensures var o := Iterate(c, now, e);
            && o.alive && o.attempt == None
            && o.client.lsn == c.lsn && o.client.relations == c.relations
            && (now > c.deadline ==> o.report == Some(c.lsn) && o.client.deadline == now + 10)
            && (now <= c.deadline ==> o.report == None && o.client.deadline == c.deadline)
  {
  }

  /** A message that cannot be read, or an insert of an unknown relation. */
  predicate Fatal(c: Client, e: Event) {
    e == Broken || (e.XLogData? && e.message.InsertMessage? && e.message.insert.relation !in c.relations)
  }

  /** The process stops exactly at a fatal message, and then sends no insert; a report that was due is still sent. */
  lemma StopsIff(c: Client, now: nat, e: Event)
    ensures var o := Iterate(c, now, e);
            && (o.alive <==> !Fatal(c, e)) && (!o.alive ==> o.attempt == None)
            && (o.report.Some? <==> now > c.deadline)
  {
  }

  /** Once it stops, nothing more happens. */
  lemma {:induction false} NothingAfterStop(c: Client, ticks: seq<(nat, Event)>, later: seq<(nat, Event)>)
    requires Stops(c, ticks)
    ensures Listen(c, ticks + later) == Listen(c, ticks)
    decreases |ticks|
  {
    hide Iterate;
    var o := Iterate(c, ticks[0].0, ticks[0].1);
    assert (ticks + later)[1..] == ticks[1..] + later;
    if o.alive {
      NothingAfterStop(o.client, ticks[1..], later);
    }
  }

  predicate Stops(c: Client, ticks: seq<(nat, Event)>)
    decreases |ticks|
  {
    ticks != [] &&
    var o := Iterate(c, ticks[0].0, ticks[0].1);
    !o.alive || Stops(o.client, ticks[1..])
  }

  /** In the system: after a request for a reply, and whatever happens besides the client's loop, its next iteration
      appends its position to the reports. */
  lemma {:induction false} PingAppendsReport(w: World, t0: nat, others: seq<Action>, t1: nat, incoming: Incoming)
    requires w.session.Some? && Within(others) && forall i :: 0 <= i < |others| ==> !others[i].Loop?
    requires var w1 := Step(w, Loop(t0, Ping(true)));
             w1.Some? && Run(w1.value, others).Some? && Step(Run(w1.value, others).value, Loop(t1, incoming)).Some?
    ensures var w2 := Run(Step(w, Loop(t0, Ping(true))).value, others).value;
            Step(w2, Loop(t1, incoming)).value.reports == w2.reports + [w.session.value.client.lsn]
  {
    var w1 := Step(w, Loop(t0, Ping(true))).value;
    assert w1.session.Some? && w1.session.value.client.deadline == ZERO_TIME;
    OthersLeaveClient(w1, others);
    NextReports(Run(w1, others).value, t1, incoming);
  }

  lemma {:induction false} OthersLeaveClient(w: World, others: seq<Action>)
    requires w.session.Some? && Within(others) && forall i :: 0 <= i < |others| ==> !others[i].Loop?
    requires Run(w, others).Some?
    ensures var w' := Run(w, others).value; w'.session.Some? && w'.session.value.client == w.session.value.client
    decreases |others|
  {
    hide CountUpTo, Inserts;
    if others != [] {
      OthersLeaveClient(Step(w, others[0]).value, others[1..]);
    }
  }

  lemma NextReports(w: World, now: nat, incoming: Incoming)
    requires w.session.Some? && w.session.value.client.deadline == ZERO_TIME
    requires Step(w, Loop(now, incoming)).Some?
    ensures Step(w, Loop(now, incoming)).value.reports == w.reports + [w.session.value.client.lsn]
  {
    hide Inserts, Process;
  }

  /** What streaming does: the next insert is sent and the position stays, or the position moves to the end of the
      transaction whose inserts have all been streamed. */
  lemma NextMoves(w: World, now: nat)
    requires Inv(w) && w.session.Some? && Step(w, Loop(now, Next)).Some?
    ensures var s, w' := w.session.value, Step(w, Loop(now, Next)).value;
            && s.txn < |w.log| && w'.session.Some?
            && (s.next < |w.log[s.txn].inserts| ==>
                  && w'.sent == w.sent + [w.log[s.txn].inserts[s.next]]
                  && w'.session.value.client.lsn == s.client.lsn)
            && (s.next == |w.log[s.txn].inserts| ==>
                  w'.sent == w.sent && w'.session.value.client.lsn == w.log[s.txn].endLSN)
  {
    hide Inserts, NoReplays, Range, CountUpTo, InsertsUpTo, Covered;
    LoopKeeps(w, now, Next);
    SessionFacts(w);
  }

  /** Once everything has been streamed, the client stands at the end of the log, and reports that position when the
      server asks for it. */
  lemma {:induction false} CaughtUpReportsTop(log: Log, origin: nat, actions: seq<Action>, t0: nat, t1: nat,
      incoming: Incoming)
    requires LogOk(log) && Run(Initial(log, origin), actions).Some?
    requires var w := Run(Initial(log, origin), actions).value;
             && w.session.Some? && w.session.value.txn == |w.log|
             && Step(w, Loop(t0, Ping(true))).Some?
             && Step(Step(w, Loop(t0, Ping(true))).value, Loop(t1, incoming)).Some?
    ensures var w := Run(Initial(log, origin), actions).value;
            var w1 := Step(w, Loop(t0, Ping(true))).value;
            && w.session.value.client.lsn == Top(w.log, origin)
            && Step(w1, Loop(t1, incoming)).value.reports == w1.reports + [Top(w.log, origin)]
  {
    hide Inserts, NoReplays, Range, InsertsUpTo, Step;
    var w := Run(Initial(log, origin), actions).value;
    InitialInv(log, origin);
    RunKeeps(Initial(log, origin), actions);
    SessionFacts(w);
    CountIsPrefix(w.log, w.session.value.client.lsn);
    hide Run, Inv;
    var w1 := Step(w, Loop(t0, Ping(true))).value;
    RunNothing(w1);
    PingAppendsReport(w, t0, [], t1, incoming);
  }

  lemma {:induction false} RunNothing(w: World)
    ensures Run(w, []) == Some(w)
  {
  }

  /** The first report of a session is due when more than ten seconds have passed since it began. */
  lemma FirstReportWhenDue(w: World, start: nat, now: nat, incoming: Incoming)
    requires w.session.None? && Step(Step(w, Start(start)).value, Loop(now, incoming)).Some?
    ensures Step(Step(w, Start(start)).value, Loop(now, incoming)).value.reports ==
            w.reports + if now > start + 10 then [w.confirmed] else []
  {
    hide Inserts, CountUpTo;
    var w1 := Step(w, Start(start)).value;
    assert w1.session.Some? && w1.session.value.client == Client(w.confirmed, {}, start + STANDBY_TIMEOUT);
    assert w1.reports == w.reports;
    var s := w1.session.value;
    var o := Iterate(s.client, now, EventOf(w1.log, s, incoming).value);
    assert o.report == if now > start + 10 then Some(w.confirmed) else None;
    assert Step(w1, Loop(now, incoming)).value.reports == w1.reports + ToSeq(o.report);
  }
}
