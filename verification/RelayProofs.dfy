/** What the relay guarantees over every run, with any number of crashes and restarts. */
module RelayProofs {
  import opened Wrappers
  import opened RelayModel

  // ----- the log

  lemma {:induction false} CountIsPrefix(log: Log, lsn: nat)
    requires LogOk(log)
    ensures forall i :: 0 <= i < |log| ==> (log[i].endLSN <= lsn <==> i < CountUpTo(log, lsn))
  {
    if log != [] && log[|log| - 1].endLSN > lsn {
      CountIsPrefix(log[..|log| - 1], lsn);
    }
  }

  lemma {:induction false} CountMonotone(log: Log, a: nat, b: nat)
    requires LogOk(log) && a <= b
    ensures CountUpTo(log, a) <= CountUpTo(log, b)
  {
    CountIsPrefix(log, a);
    CountIsPrefix(log, b);
    var n := CountUpTo(log, a);
    if n > 0 {
      assert log[n - 1].endLSN <= a;
    }
  }

  lemma {:induction false} InsertsPrefix(log: Log, n: nat)
    requires n <= |log|
    ensures Inserts(log[..n]) <= Inserts(log)
    decreases |log|
  {
    if n == |log| {
      assert log[..n] == log;
    } else {
      var init := log[..|log| - 1];
      InsertsPrefix(init, n);
      assert init[..n] == log[..n];
    }
  }

  lemma InsertsMonotone(log: Log, m: nat, n: nat)
    requires m <= n <= |log|
    ensures |Inserts(log[..m])| <= |Inserts(log[..n])|
  {
    InsertsPrefix(log[..n], m);
    assert log[..n][..m] == log[..m];
  }

  lemma InsertsNext(log: Log, t: nat)
    requires t < |log|
    ensures Inserts(log[..t + 1]) == Inserts(log[..t]) + log[t].inserts
  {
    assert log[..t + 1][..t] == log[..t];
  }

  /** The insert at a position of the log, by its ordinal. */
  lemma {:induction false} InsertAt(log: Log, t: nat, k: nat)
    requires t < |log| && k < |log[t].inserts|
    ensures |Inserts(log[..t])| + k < |Inserts(log)|
    ensures Inserts(log)[|Inserts(log[..t])| + k] == log[t].inserts[k]
  {
    InsertsNext(log, t);
    InsertsPrefix(log, t + 1);
  }

  /** A commit beyond a position changes nothing up to that position. */
  lemma {:induction false} CommitBeyond(log: Log, txn: Txn, lsn: nat)
    requires txn.endLSN > lsn
    ensures CountUpTo(log + [txn], lsn) == CountUpTo(log, lsn)
    ensures InsertsUpTo(log + [txn], lsn) == InsertsUpTo(log, lsn)
    ensures Inserts(log + [txn]) == Inserts(log) + txn.inserts
  {
    assert (log + [txn])[..|log|] == log;
    assert (log + [txn])[..CountUpTo(log, lsn)] == log[..CountUpTo(log, lsn)];
  }

  // ----- attempts without replays

  lemma {:induction false} NoReplaysMembers(attempts: seq<nat>)
    ensures forall a :: a in NoReplays(attempts) ==> a in attempts
    ensures forall a :: a in attempts ==> a in NoReplays(attempts)
  {
    if attempts != [] {
      var init, last := attempts[..|attempts| - 1], attempts[|attempts| - 1];
      NoReplaysMembers(init);
      assert attempts == init + [last];
    }
  }

  lemma RangeMembers(from: nat, n: nat)
    ensures forall a: nat :: a in Range(from, n) ==> from <= a < from + n
    ensures forall a: nat :: from <= a < from + n ==> a in Range(from, n)
  {
    forall a: nat | from <= a < from + n ensures a in Range(from, n) {
      assert Range(from, n)[a - from] == a;
    }
  }

  /** The first ordinal of the slot: inserts committed before its origin are none of its business. */
  function Base(w: World): nat {
    InsertsUpTo(w.log, w.origin)
  }

  /** All ordinals from the base up to here have been attempted. */
  function High(w: World): nat {
    Base(w) + |NoReplays(w.attempts)|
  }

  lemma {:induction false} NoReplaysSnoc(attempts: seq<nat>, a: nat)
    ensures NoReplays(attempts + [a]) == if a in attempts then NoReplays(attempts) else NoReplays(attempts) + [a]
  {
  }

  // ----- the invariant

  /** A position that may be reported: every insert of the slot committed up to it has been attempted. */
  predicate Covered(w: World, lsn: nat) {
    w.origin <= lsn <= Top(w.log, w.origin) && InsertsUpTo(w.log, lsn) <= High(w)
  }

  predicate SessionOk(w: World, s: Session) {
    && s.txn == CountUpTo(w.log, s.client.lsn)
    && (s.txn < |w.log| ==> s.next <= |w.log[s.txn].inserts|) && (s.txn == |w.log| ==> s.next == 0)
    && |Inserts(w.log[..s.txn])| + s.next <= High(w)
    && Covered(w, s.client.lsn)
    && s.announced == s.client.relations
    && Sorted(s.inflight)
    && (forall r :: r in s.inflight ==> w.confirmed <= r <= s.client.lsn && Covered(w, r))
    && w.confirmed <= s.client.lsn
  }

  ghost predicate Inv(w: World) {
    && LogOk(w.log)
    && NoReplays(w.attempts) == Range(Base(w), |NoReplays(w.attempts)|)
    && High(w) <= |Inserts(w.log)|
    && |w.sent| == |w.attempts|
    && (forall i :: 0 <= i < |w.attempts| ==> w.attempts[i] < High(w) && w.sent[i] == Inserts(w.log)[w.attempts[i]])
    && Covered(w, w.confirmed)
    && (forall r :: r in w.reports ==> Covered(w, r))
    && (w.session.Some? ==> SessionOk(w, w.session.value))
  }

  lemma InitialInv(log: Log, origin: nat)
    requires LogOk(log)
    ensures Inv(Initial(log, origin))
  {
    var w := Initial(log, origin);
    InsertsPrefix(log, CountUpTo(log, origin));
    assert Range(Base(w), 0) == [];
  }

  lemma TopBounds(log: Log, origin: nat)
    requires LogOk(log)
    ensures forall i :: 0 <= i < |log| ==> log[i].endLSN <= Top(log, origin)
  {
  }

  lemma CommitKeeps(w: World, txn: Txn)
    requires Inv(w) && txn.endLSN > Top(w.log, w.origin)
    ensures Inv(w.(log := w.log + [txn]))
  {
    hide Inserts, NoReplays, Range, CountUpTo, InsertsUpTo;
    var w' := w.(log := w.log + [txn]);
    TopBounds(w.log, w.origin);
    CommitBeyond(w.log, txn, w.origin);
    assert High(w') == High(w);
    forall lsn | Covered(w, lsn) ensures Covered(w', lsn) {
      CommitBeyond(w.log, txn, lsn);
    }
    if w.session.Some? {
      var s := w.session.value;
      CommitBeyond(w.log, txn, s.client.lsn);
      assert w'.log[..s.txn] == w.log[..s.txn];
    }
  }

  lemma StartKeeps(w: World, now: nat)
    requires Inv(w) && w.session.None?
    ensures Inv(Step(w, Start(now)).value)
  {
  }

  lemma DeliverKeeps(w: World)
    requires Inv(w) && Step(w, Deliver).Some?
    ensures Inv(Step(w, Deliver).value)
  {
    hide Inserts, NoReplays, Range, CountUpTo, InsertsUpTo;
    var w', s := Step(w, Deliver).value, w.session.value;
    assert s.inflight[0] in s.inflight;
    forall r | r in s.inflight[1..] ensures s.inflight[0] <= r && r in s.inflight {
      var i :| 0 <= i < |s.inflight| - 1 && s.inflight[1..][i] == r;
      assert s.inflight[i + 1] == r;
    }
    assert High(w') == High(w);
    assert forall lsn :: Covered(w, lsn) ==> Covered(w', lsn);
  }

  /** A message that sends nothing: the session may move on and a position may be reported. */
  lemma QuietKeeps(w: World, w': World, s': Session, report: Option<nat>)
    requires Inv(w) && w.session.Some?
    requires w' == w.(session := Some(s'), reports := w.reports + ToSeq(report))
    requires report.Some? ==> report.value == w.session.value.client.lsn
    requires s'.inflight == w.session.value.inflight + ToSeq(report)
    requires s'.announced == s'.client.relations && w.session.value.client.lsn <= s'.client.lsn
    requires s'.txn == CountUpTo(w.log, s'.client.lsn) && Covered(w, s'.client.lsn)
    requires (s'.txn < |w.log| ==> s'.next <= |w.log[s'.txn].inserts|) && (s'.txn == |w.log| ==> s'.next == 0)
    requires |Inserts(w.log[..s'.txn])| + s'.next <= High(w)
    ensures Inv(w')
  {
    hide Inserts, NoReplays, Range, CountUpTo, InsertsUpTo;
    assert High(w') == High(w);
    assert forall lsn :: Covered(w, lsn) ==> Covered(w', lsn);
    var s := w.session.value;
    forall i, j | 0 <= i < j < |s'.inflight| ensures s'.inflight[i] <= s'.inflight[j] {
      if j == |s.inflight| {
        assert s.inflight[i] in s.inflight;
      }
    }
  }

  /** Sending the next insert of the stream: a replay, or exactly the next new one. */
  lemma AttemptKeeps(w: World, report: Option<nat>, client: Client)
    requires Inv(w) && w.session.Some?
    requires var s := w.session.value; s.txn < |w.log| && s.next < |w.log[s.txn].inserts|
    requires report.Some? ==> report.value == w.session.value.client.lsn
    requires client.lsn == w.session.value.client.lsn && client.relations == w.session.value.client.relations
    ensures var s := w.session.value;
            Inv(w.(session := Some(s.(next := s.next + 1, client := client, inflight := s.inflight + ToSeq(report))),
                   attempts := w.attempts + [|Inserts(w.log[..s.txn])| + s.next],
                   sent := w.sent + [w.log[s.txn].inserts[s.next]],
                   reports := w.reports + ToSeq(report)))
  {
    hide Inserts, NoReplays, Range, CountUpTo, InsertsUpTo;
    var s := w.session.value;
    var a := |Inserts(w.log[..s.txn])| + s.next;
    var w1 := w.(attempts := w.attempts + [a], sent := w.sent + [w.log[s.txn].inserts[s.next]]);
    InsertAt(w.log, s.txn, s.next);
    SessionBase(w);
    AttemptExtends(w, a);
    AttemptInv(w, w1, a, w.log[s.txn].inserts[s.next]);
    var s' := s.(next := s.next + 1, client := client, inflight := s.inflight + ToSeq(report));
    QuietKeeps(w1, w1.(session := Some(s'), reports := w.reports + ToSeq(report)), s', report);
  }

  /** An ordinal within or just at the end of the attempted range leaves a range, now including it. */
  lemma AttemptExtends(w: World, a: nat)
    requires NoReplays(w.attempts) == Range(Base(w), |NoReplays(w.attempts)|) && Base(w) <= a <= High(w)
    ensures var n := |NoReplays(w.attempts)|;
            NoReplays(w.attempts + [a]) == Range(Base(w), if a == High(w) then n + 1 else n)
  {
    var n := |NoReplays(w.attempts)|;
    hide NoReplays, Base;
    NoReplaysSnoc(w.attempts, a);
    NoReplaysMembers(w.attempts);
    RangeMembers(Base(w), n);
    assert Range(Base(w), n + 1) == Range(Base(w), n) + [Base(w) + n];
  }

  lemma AttemptInv(w: World, w1: World, a: nat, i: Insert)
    requires Inv(w) && Base(w) <= a <= High(w) && a < |Inserts(w.log)| && i == Inserts(w.log)[a]
    requires w1 == w.(attempts := w.attempts + [a], sent := w.sent + [i])
    requires var n := |NoReplays(w.attempts)|;
             NoReplays(w1.attempts) == Range(Base(w), if a == High(w) then n + 1 else n)
    ensures Inv(w1) && a < High(w1) && High(w) <= High(w1)
  {
    hide Inserts, NoReplays, Range, CountUpTo, InsertsUpTo;
    assert Base(w1) == Base(w);
    assert forall lsn :: Covered(w, lsn) ==> Covered(w1, lsn);
  }

  lemma SessionBase(w: World)
    requires Inv(w) && w.session.Some?
    ensures Base(w) <= |Inserts(w.log[..w.session.value.txn])|
  {
    hide Inserts, NoReplays, Range, CountUpTo;
    var s := w.session.value;
    CountMonotone(w.log, w.origin, s.client.lsn);
    InsertsMonotone(w.log, CountUpTo(w.log, w.origin), s.txn);
  }

  // ----- every step keeps the invariant

  /** A commit message: everything of its transaction has been sent, so its end may be reported. */
  lemma CommitMessageFacts(w: World)
    requires Inv(w) && w.session.Some?
    requires var s := w.session.value; s.txn < |w.log| && s.next == |w.log[s.txn].inserts|
    ensures var s := w.session.value;
            var end := w.log[s.txn].endLSN;
            && CountUpTo(w.log, end) == s.txn + 1 && s.client.lsn <= end && Covered(w, end)
            && |Inserts(w.log[..s.txn + 1])| <= High(w)
  {
    var s := w.session.value;
    var end := w.log[s.txn].endLSN;
    CountIsPrefix(w.log, end);
    CountIsPrefix(w.log, s.client.lsn);
    InsertsNext(w.log, s.txn);
    TopBounds(w.log, w.origin);
    var n := CountUpTo(w.log, end);
    assert s.txn + 1 < |w.log| ==> w.log[s.txn + 1].endLSN > end;
  }

  lemma LoopKeeps(w: World, now: nat, incoming: Incoming)
    requires Inv(w) && Step(w, Loop(now, incoming)).Some?
    ensures Inv(Step(w, Loop(now, incoming)).value)
    ensures Step(w, Loop(now, incoming)).value.session.Some?
  {
    hide Inserts, NoReplays, Range, CountUpTo, InsertsUpTo, SessionOk, Covered, High;
    var s := w.session.value;
    var o := Iterate(s.client, now, EventOf(w.log, s, incoming).value);
    var s' := Advance(w.log, s, incoming).(client := o.client, inflight := s.inflight + ToSeq(o.report));
    var w' := Step(w, Loop(now, incoming)).value;
    SessionFacts(w);
    if incoming.Next? && s.next < |w.log[s.txn].inserts| {
      AttemptKeeps(w, o.report, o.client);
    } else {
      if incoming.Next? {
        CommitMessageFacts(w);
      }
      NothingSent(w, w', s', o);
      QuietKeeps(w, w', s', o.report);
    }
  }

  lemma NothingSent(w: World, w': World, s': Session, o: Outcome)
    requires o.attempt.None?
    requires w' == w.(session := Some(s'),
                      attempts := w.attempts + [],
                      sent := w.sent + ToSeq(o.attempt),
                      reports := w.reports + ToSeq(o.report))
    ensures w' == w.(session := Some(s'), reports := w.reports + ToSeq(o.report))
  {
  }

  lemma SessionFacts(w: World)
    requires Inv(w) && w.session.Some?
    ensures SessionOk(w, w.session.value)
    ensures var s := w.session.value;
            && s.txn == CountUpTo(w.log, s.client.lsn) && Covered(w, s.client.lsn)
            && (s.txn < |w.log| ==> s.next <= |w.log[s.txn].inserts|) && (s.txn == |w.log| ==> s.next == 0)
            && |Inserts(w.log[..s.txn])| + s.next <= High(w)
            && s.announced == s.client.relations
  {
  }

  lemma StepKeeps(w: World, a: Action)
    requires Inv(w) && Step(w, a).Some?
    ensures Inv(Step(w, a).value)
    ensures Step(w, a).value.confirmed >= w.confirmed && Step(w, a).value.origin == w.origin
  {
    hide Inserts, NoReplays, Range, CountUpTo, InsertsUpTo;
    match a
    case Commit(txn) => CommitKeeps(w, txn);
    case Start(now) => StartKeeps(w, now);
    case Loop(now, incoming) => LoopKeeps(w, now, incoming);
    case Deliver =>
      DeliverKeeps(w);
      assert w.session.value.inflight[0] in w.session.value.inflight;
    case Crash =>
  }

  lemma {:induction false} RunKeeps(w: World, actions: seq<Action>)
    requires Inv(w) && Run(w, actions).Some?
    ensures Inv(Run(w, actions).value)
    ensures Run(w, actions).value.confirmed >= w.confirmed && Run(w, actions).value.origin == w.origin
    decreases |actions|
  {
    hide Inv, Step;
    if actions != [] {
      StepKeeps(w, actions[0]);
      RunKeeps(Step(w, actions[0]).value, actions[1..]);
    }
  }

  // ----- the promises

  /** At least once: in every state of every run, sending has been attempted for every insert of every
      transaction committed after the slot's origin and up to any position ever reported. */
  lemma {:induction false} ReportedIsAttempted(log: Log, origin: nat, actions: seq<Action>, r: nat, t: nat, k: nat)
    requires LogOk(log) && Run(Initial(log, origin), actions).Some?
    requires var w := Run(Initial(log, origin), actions).value;
             && r in w.reports && t < |w.log| && origin < w.log[t].endLSN <= r && k < |w.log[t].inserts|
    ensures var w := Run(Initial(log, origin), actions).value;
            && |Inserts(w.log[..t])| + k in w.attempts
            && w.log[t].inserts[k] in w.sent
  {
    hide Run, NoReplays, Inserts, Range;
    var w := Run(Initial(log, origin), actions).value;
    InitialInv(log, origin);
    RunKeeps(Initial(log, origin), actions);
    CountIsPrefix(w.log, r);
    CountIsPrefix(w.log, origin);
    InsertsNext(w.log, t);
    InsertsMonotone(w.log, t + 1, CountUpTo(w.log, r));
    InsertsMonotone(w.log, CountUpTo(w.log, origin), t);
    InsertAt(w.log, t, k);
    var a := |Inserts(w.log[..t])| + k;
    RangeMembers(Base(w), |NoReplays(w.attempts)|);
    NoReplaysMembers(w.attempts);
    assert Base(w) <= a < High(w);
    assert a in w.attempts;
    var i :| 0 <= i < |w.attempts| && w.attempts[i] == a;
    assert w.sent[i] == w.log[t].inserts[k];
  }

  /** In order and without gaps: the attempts with replays removed are a prefix of the slot's inserts in
      log order, and every attempt sent the insert it stands for. */
  lemma {:induction false} AttemptsArePrefix(log: Log, origin: nat, actions: seq<Action>)
    requires LogOk(log) && Run(Initial(log, origin), actions).Some?
    ensures var w := Run(Initial(log, origin), actions).value;
            && NoReplays(w.attempts) == Range(InsertsUpTo(w.log, origin), |NoReplays(w.attempts)|)
            && InsertsUpTo(w.log, origin) + |NoReplays(w.attempts)| <= |Inserts(w.log)|
            && |w.sent| == |w.attempts|
            && forall i :: 0 <= i < |w.attempts| ==>
                w.attempts[i] < |Inserts(w.log)| && w.sent[i] == Inserts(w.log)[w.attempts[i]]
  {
    hide Run, NoReplays, Inserts;
    InitialInv(log, origin);
    RunKeeps(Initial(log, origin), actions);
  }

  /** The process never stops at an insert of an unknown relation. */
  lemma {:induction false} NeverDies(log: Log, origin: nat, actions: seq<Action>, now: nat, incoming: Incoming)
    requires LogOk(log) && Run(Initial(log, origin), actions).Some?
    requires Step(Run(Initial(log, origin), actions).value, Loop(now, incoming)).Some?
    ensures Step(Run(Initial(log, origin), actions).value, Loop(now, incoming)).value.session.Some?
  {
    hide Run, Inv;
    InitialInv(log, origin);
    RunKeeps(Initial(log, origin), actions);
    LoopKeeps(Run(Initial(log, origin), actions).value, now, incoming);
  }

  /** The confirmed position never goes back. */
  lemma {:induction false} ConfirmedNeverGoesBack(log: Log, origin: nat, before: seq<Action>, after: seq<Action>)
    requires LogOk(log) && Run(Initial(log, origin), before).Some?
    requires Run(Run(Initial(log, origin), before).value, after).Some?
    ensures var w := Run(Initial(log, origin), before).value;
            Run(w, after).value.confirmed >= w.confirmed
  {
    hide Run, Inv;
    InitialInv(log, origin);
    RunKeeps(Initial(log, origin), before);
    RunKeeps(Run(Initial(log, origin), before).value, after);
  }

  // ----- reported positions

  /** The last position the server has or will have, if nothing is lost. */
  function LastKnown(w: World): nat {
    if w.session.Some? && w.session.value.inflight != []
    then w.session.value.inflight[|w.session.value.inflight| - 1] else w.confirmed
  }

  ghost predicate ReportsOk(w: World) {
    Sorted(w.reports) && forall r :: r in w.reports ==> r <= LastKnown(w)
  }

  /** No crash happens while a report is on its way. */
  predicate Lossless(w: World, actions: seq<Action>)
    decreases |actions|
  {
    actions == [] ||
    (&& (actions[0].Crash? && w.session.Some? ==> w.session.value.inflight == [])
     && (Step(w, actions[0]).Some? ==> Lossless(Step(w, actions[0]).value, actions[1..])))
  }

  /** The guard of the reporting branch: this iteration sends a report. */
  predicate Reports(w: World, a: Action) {
    a.Loop? && w.session.Some? && a.now > w.session.value.client.deadline
  }

  /** The position this step reports, if any. */
  function Report(w: World, a: Action): seq<nat> {
    if Reports(w, a) then [w.session.value.client.lsn] else []
  }

  /** Within a session the position never goes back. */
  lemma PositionAdvances(w: World, now: nat, incoming: Incoming)
    requires Inv(w) && Step(w, Loop(now, incoming)).Some?
    ensures var w' := Step(w, Loop(now, incoming)).value;
            && w'.session.Some? && w'.session.value.client.lsn >= w.session.value.client.lsn
            && w'.confirmed == w.confirmed
            && w'.reports == w.reports + Report(w, Loop(now, incoming))
            && w'.session.value.inflight == w.session.value.inflight + Report(w, Loop(now, incoming))
  {
    hide Inserts, NoReplays, Range, CountUpTo, InsertsUpTo, SessionOk, Covered, High;
    LoopKeeps(w, now, incoming);
    var s := w.session.value;
    SessionFacts(w);
    if incoming.Next? && s.txn < |w.log| && s.next == |w.log[s.txn].inserts| {
      CommitMessageFacts(w);
    }
  }

  lemma ReportStep(w: World, a: Action)
    requires Inv(w) && ReportsOk(w) && Step(w, a).Some?
    requires a.Crash? && w.session.Some? ==> w.session.value.inflight == []
    ensures ReportsOk(Step(w, a).value)
  {
    hide Inserts, NoReplays, Range, CountUpTo, InsertsUpTo, Covered;
    match a
    case Loop(now, incoming) =>
      var s := w.session.value;
      assert LastKnown(w) <= s.client.lsn by {
        if s.inflight != [] {
          assert s.inflight[|s.inflight| - 1] in s.inflight;
        }
      }
      LoopReports(w, now, incoming);
    case _ =>
  }

  lemma LoopReports(w: World, now: nat, incoming: Incoming)
    requires Inv(w) && ReportsOk(w) && Step(w, Loop(now, incoming)).Some?
    requires LastKnown(w) <= w.session.value.client.lsn
    ensures ReportsOk(Step(w, Loop(now, incoming)).value)
  {
    var a := Loop(now, incoming);
    var w' := Step(w, a).value;
    PositionAdvances(w, now, incoming);
    hide Inv, Step, Reports;
    ReportsExtend(w.reports, Report(w, a), LastKnown(w), w.session.value.client.lsn);
    if Report(w, a) == [] {
      assert w'.session.value.inflight == w.session.value.inflight;
    }
  }

  lemma ReportsExtend(reports: seq<nat>, report: seq<nat>, last: nat, lsn: nat)
    requires Sorted(reports) && (forall r :: r in reports ==> r <= last) && last <= lsn
    requires report == [] || report == [lsn]
    ensures Sorted(reports + report)
    ensures forall r :: r in reports + report ==> r <= if report == [] then last else lsn
  {
    var all := reports + report;
    forall i, j | 0 <= i < j < |all| ensures all[i] <= all[j] {
      if j == |reports| {
        assert reports[i] in reports;
      }
    }
  }

  lemma {:induction false} ReportsStaySorted(w: World, actions: seq<Action>)
    requires Inv(w) && ReportsOk(w) && Lossless(w, actions) && Run(w, actions).Some?
    ensures ReportsOk(Run(w, actions).value)
    decreases |actions|
  {
    hide Inv, Step, ReportsOk;
    if actions != [] {
      StepKeeps(w, actions[0]);
      ReportStep(w, actions[0]);
      ReportsStaySorted(Step(w, actions[0]).value, actions[1..]);
    }
  }

  /** Over any number of restarts, reported positions never go backwards if no report is lost in a crash. */
  lemma {:induction false} ReportsNeverGoBack(log: Log, origin: nat, actions: seq<Action>)
    requires LogOk(log) && Run(Initial(log, origin), actions).Some? && Lossless(Initial(log, origin), actions)
    ensures Sorted(Run(Initial(log, origin), actions).value.reports)
  {
    InitialInv(log, origin);
    ReportsStaySorted(Initial(log, origin), actions);
  }

  const LOSING := [Start(0), Commit(Txn([], 5)), Loop(1, Next), Loop(20, Quiet), Crash, Start(30), Loop(50, Quiet)]

  /** The report of position 5 was on its way when the session was lost. */
  const CRASHED := World(1, [Txn([], 5)], 1, None, [], [], [5])

  /** With a loss they do: the session after a crash can report the confirmed position again, which lies
      before the report that was lost. */
  lemma ReportsGoBack()
    ensures LogOk([]) && Run(Initial([], 1), LOSING).Some?
    ensures Run(Initial([], 1), LOSING).value.reports == [5, 1]
    ensures !Sorted(Run(Initial([], 1), LOSING).value.reports)
  {
    hide Run;
    ReportIsLost();
    var w := Step(CRASHED, LOSING[5]).value;
    RunStep(CRASHED, LOSING[5..]);
    RunStep(w, LOSING[6..]);
    RunStep(Step(w, LOSING[6]).value, LOSING[7..]);
    assert [5, 1][0] > [5, 1][1];
  }

  lemma {:induction false} CountOfNone(lsn: nat)
    ensures CountUpTo([], lsn) == 0
  {
  }

  const ENDED := World(1, [Txn([], 5)], 1, Some(Session(Client(5, {}, 10), {}, 1, 0, [])), [], [], [])
  const REPORTED := World(1, [Txn([], 5)], 1, Some(Session(Client(5, {}, 30), {}, 1, 0, [5])), [], [], [5])

  lemma CommitIsStreamed()
    ensures Run(Initial([], 1), LOSING) == Run(ENDED, LOSING[3..])
  {
    hide Run, CountUpTo;
    var w0 := Initial([], 1);
    var w1 := w0.(session := Some(Session(Client(1, {}, 10), {}, 0, 0, [])));
    var w2 := w1.(log := [Txn([], 5)]);
    CountOfNone(1);
    assert w1.log + [Txn([], 5)] == w2.log;
    assert w2.attempts + [] == [] && w2.sent + ToSeq(None) == [];
    RunStep(w0, LOSING);
    RunStep(w1, LOSING[1..]);
    RunStep(w2, LOSING[2..]);
  }

  lemma ReportIsLost()
    ensures Run(Initial([], 1), LOSING) == Run(CRASHED, LOSING[5..])
  {
    hide Run;
    CommitIsStreamed();
    assert ENDED.reports + ToSeq(Some(5)) == REPORTED.reports;
    assert ENDED.attempts + [] == [] && ENDED.sent + ToSeq(None) == [];
    RunStep(ENDED, LOSING[3..]);
    RunStep(REPORTED, LOSING[4..]);
  }

  lemma {:induction false} RunStep(w: World, actions: seq<Action>)
    ensures actions == [] ==> Run(w, actions) == Some(w)
    ensures actions != [] ==>
              Run(w, actions) == match Step(w, actions[0])
                                 case Some(w') => Run(w', actions[1..])
                                 case None => None
  {
  }

  /** Whether the session has yet to send its first report. */
  function Silent(w: World, a: Action, silent: bool): bool {
    a.Start? || (silent && !Reports(w, a))
  }

  /** The session has caught up with the last position reported by any session. */
  predicate Reached(w: World) {
    w.session.Some? && (w.reports == [] || w.reports[|w.reports| - 1] <= w.session.value.client.lsn)
  }

  /** Every session that reports at all has caught up when it reports for the first time. */
  predicate CatchesUp(w: World, actions: seq<Action>, silent: bool)
    decreases |actions|
  {
    actions == [] ||
    (&& (silent && Reports(w, actions[0]) ==> Reached(w))
     && (Step(w, actions[0]).Some? ==>
           CatchesUp(Step(w, actions[0]).value, actions[1..], Silent(w, actions[0], silent))))
  }

  /** A session that has reported stays at or beyond every report. */
  ghost predicate Tracked(w: World, silent: bool) {
    Sorted(w.reports) && (w.session.Some? && !silent ==> Reached(w))
  }

  lemma {:induction false} ReportsGrow(w: World, actions: seq<Action>)
    requires Run(w, actions).Some?
    ensures w.reports <= Run(w, actions).value.reports
    decreases |actions|
  {
    hide Inserts, CountUpTo;
    if actions != [] {
      ReportsGrow(Step(w, actions[0]).value, actions[1..]);
    }
  }

  lemma SortedSnoc(s: seq<nat>, x: nat)
    requires Sorted(s)
    ensures Sorted(s + [x]) <==> s == [] || s[|s| - 1] <= x
  {
    var all := s + [x];
    if s != [] && Sorted(all) {
      assert all[|s| - 1] <= all[|s|];
    }
  }

  lemma SortedPrefix(s: seq<nat>, t: seq<nat>)
    requires s <= t && Sorted(t)
    ensures Sorted(s)
  {
    forall i, j | 0 <= i < j < |s| ensures s[i] <= s[j] {
      assert s[i] == t[i] && s[j] == t[j];
    }
  }

  lemma TrackedStep(w: World, a: Action, silent: bool)
    requires Inv(w) && Tracked(w, silent) && Step(w, a).Some?
    ensures var w' := Step(w, a).value;
            if silent && Reports(w, a) && !Reached(w) then !Sorted(w'.reports) else Tracked(w', Silent(w, a, silent))
  {
    hide Inserts, NoReplays, Range, CountUpTo, InsertsUpTo, Inv, Sorted;
    match a
    case Loop(now, incoming) =>
      PositionAdvances(w, now, incoming);
      var lsn := w.session.value.client.lsn;
      SortedSnoc(w.reports, lsn);
      if Reports(w, a) {
        assert Step(w, a).value.reports[|w.reports|] == lsn;
      } else {
        assert Step(w, a).value.reports == w.reports;
      }
    case Commit(txn) =>
    case Start(now) =>
    case Deliver =>
    case Crash =>
  }

  lemma {:induction false} SortedIffCatchesUp(w: World, actions: seq<Action>, silent: bool)
    requires Inv(w) && Tracked(w, silent) && Run(w, actions).Some?
    ensures Sorted(Run(w, actions).value.reports) <==> CatchesUp(w, actions, silent)
    decreases |actions|
  {
    hide Inv, Step, Sorted, Reports, Reached, Silent;
    if actions != [] {
      var a := actions[0];
      var w' := Step(w, a).value;
      StepKeeps(w, a);
      TrackedStep(w, a, silent);
      if silent && Reports(w, a) && !Reached(w) {
        ReportsGrow(w', actions[1..]);
        if Sorted(Run(w', actions[1..]).value.reports) {
          SortedPrefix(w'.reports, Run(w', actions[1..]).value.reports);
        }
      } else {
        SortedIffCatchesUp(w', actions[1..], Silent(w, a, silent));
      }
    }
  }

  /** Exactly when reported positions keep their order, for every run: each session must have caught up with
      the last report of the sessions before it when it first reports. Later reports of a session cannot fail. */
  lemma {:induction false} ReportsKeepOrderIff(log: Log, origin: nat, actions: seq<Action>)
    requires LogOk(log) && Run(Initial(log, origin), actions).Some?
    ensures Sorted(Run(Initial(log, origin), actions).value.reports) <==> CatchesUp(Initial(log, origin), actions, true)
  {
    InitialInv(log, origin);
    SortedIffCatchesUp(Initial(log, origin), actions, true);
  }
}
