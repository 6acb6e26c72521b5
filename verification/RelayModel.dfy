/** The change-data-capture relay: the client's loop as a function, and the whole system of log, replication
    slot and client sessions as a state machine with crashes. */
module RelayModel {
  import opened Wrappers

  datatype Insert = Insert(relation: nat, record: int)

  // ----- the client

  /** A decoded logical replication message. */
  datatype Logical =
    | RelationMessage(id: nat)
    | InsertMessage(insert: Insert)
    | CommitMessage(endLSN: nat)
    | OtherMessage

  /** What one wait for a message ends with. */
  datatype Event =
    | Timeout
    | Unexpected
    | Keepalive(replyRequested: bool)
    | XLogData(message: Logical)
    | Broken

  datatype Client = Client(lsn: nat, relations: set<nat>, deadline: int)

  /** One iteration: the new state, the position reported and the insert sent, if any, and whether the
      process is still alive. */
  datatype Outcome = Outcome(client: Client, report: Option<nat>, attempt: Option<Insert>, alive: bool)

  const STANDBY_TIMEOUT := 10

  /** The zero time lies before every clock reading. */
  const ZERO_TIME := -1

  /** A decoded message: relations are remembered, inserts are sent (whether or not sending succeeds),
      and a commit moves the position to the end of its transaction. */
  function Process(c: Client, m: Logical): Outcome {
    match m
    case RelationMessage(id) => Outcome(c.(relations := c.relations + {id}), None, None, true)
    case InsertMessage(i) =>
      if i.relation in c.relations then Outcome(c, None, Some(i), true) else Outcome(c, None, None, false)
    case CommitMessage(end) => Outcome(c.(lsn := end), None, None, true)
    case OtherMessage => Outcome(c, None, None, true)
  }

  function Receive(c: Client, e: Event): Outcome {
    match e
    case Timeout => Outcome(c, None, None, true)
    case Unexpected => Outcome(c, None, None, true)
    case Keepalive(reply) => Outcome(if reply then c.(deadline := ZERO_TIME) else c, None, None, true)
    case XLogData(m) => Process(c, m)
    case Broken => Outcome(c, None, None, false)
  }

  /** The position is reported first, when the deadline has passed; then one message is handled. */
  function Iterate(c: Client, now: nat, e: Event): Outcome {
    if now > c.deadline then Receive(c.(deadline := now + STANDBY_TIMEOUT), e).(report := Some(c.lsn))
    else Receive(c, e)
  }

  /** What a run of waits leads to. */
  datatype Listened = Listened(client: Client, reports: seq<nat>, attempts: seq<Insert>)

  function Listen(c: Client, ticks: seq<(nat, Event)>): Listened
    decreases |ticks|
  {
    if ticks == [] then Listened(c, [], [])
    else
      var o := Iterate(c, ticks[0].0, ticks[0].1);
      if !o.alive then Listened(o.client, ToSeq(o.report), ToSeq(o.attempt))
      else
        var rest := Listen(o.client, ticks[1..]);
        Listened(rest.client, ToSeq(o.report) + rest.reports, ToSeq(o.attempt) + rest.attempts)
  }

  // ----- the log

  datatype Txn = Txn(inserts: seq<Insert>, endLSN: nat)

  type Log = seq<Txn>

  /** Transactions in commit order. */
  predicate LogOk(log: Log) {
    forall i, j :: 0 <= i < j < |log| ==> log[i].endLSN < log[j].endLSN
  }

  function Inserts(log: Log): seq<Insert> {
    if log == [] then [] else Inserts(log[..|log| - 1]) + log[|log| - 1].inserts
  }

  /** How many transactions end at or before a position. */
  function CountUpTo(log: Log, lsn: nat): (n: nat)
    ensures n <= |log|
  {
    if log == [] then 0
    else if log[|log| - 1].endLSN <= lsn then |log|
    else CountUpTo(log[..|log| - 1], lsn)
  }

  /** The number of inserts in the transactions that end at or before a position. */
  function InsertsUpTo(log: Log, lsn: nat): nat {
    |Inserts(log[..CountUpTo(log, lsn)])|
  }

  /** No transaction ends after this position. */
  function Top(log: Log, origin: nat): (r: nat)
    ensures origin <= r
  {
    if log == [] || log[|log| - 1].endLSN < origin then origin else log[|log| - 1].endLSN
  }

  // ----- the system

  /** A replication session: the client, the relations announced in it, the next transaction and insert to
      stream, and the reports that are on their way to the server. */
  datatype Session = Session(client: Client, announced: set<nat>, txn: nat, next: nat, inflight: seq<nat>)

  /** `attempts` are the ordinals of the inserts in the log that were sent; `sent` is what was sent. */
  datatype World = World(
    origin: nat, log: Log, confirmed: nat, session: Option<Session>,
    attempts: seq<nat>, sent: seq<Insert>, reports: seq<nat>)

  datatype Incoming = Quiet | Noise | Ping(replyRequested: bool) | Announce(relation: nat) | Next

  datatype Action =
    | Commit(txn: Txn)
    | Start(now: nat)
    | Loop(now: nat, incoming: Incoming)
    | Deliver
    | Crash

  function Initial(log: Log, origin: nat): World {
    World(origin, log, origin, None, [], [], [])
  }

  /** The message the server streams next, if it may: an insert after its relation has been announced, and
      the commit after the last insert. */
  function StreamMessage(log: Log, s: Session): Option<Logical> {
    if s.txn >= |log| then None
    else
      var t := log[s.txn];
      if s.next < |t.inserts| then
        if t.inserts[s.next].relation in s.announced then Some(InsertMessage(t.inserts[s.next])) else None
      else Some(CommitMessage(t.endLSN))
  }

  function EventOf(log: Log, s: Session, incoming: Incoming): Option<Event> {
    match incoming
    case Quiet => Some(Timeout)
    case Noise => Some(XLogData(OtherMessage))
    case Ping(reply) => Some(Keepalive(reply))
    case Announce(id) => Some(XLogData(RelationMessage(id)))
    case Next => (match StreamMessage(log, s)
                  case Some(m) => Some(XLogData(m))
                  case None => None)
  }

  /** How the server's side of the session moves with what it sent. */
  function Advance(log: Log, s: Session, incoming: Incoming): Session {
    match incoming
    case Announce(id) => s.(announced := s.announced + {id})
    case Next =>
      if s.txn < |log| && s.next < |log[s.txn].inserts| then s.(next := s.next + 1) else s.(txn := s.txn + 1, next := 0)
    case _ => s
  }

  function ToSeq<T>(o: Option<T>): seq<T> {
    if o.Some? then [o.value] else []
  }

  /** One step of the system, or `None` if the action is not possible. A session starts at the confirmed
      position and gets every transaction that ends after it; a crash loses the session and its reports. */
  function Step(w: World, a: Action): Option<World> {
    match a
    case Commit(txn) =>
      if txn.endLSN > Top(w.log, w.origin) then Some(w.(log := w.log + [txn])) else None
    case Start(now) =>
      if w.session.None? then
        var client := Client(w.confirmed, {}, now + STANDBY_TIMEOUT);
        Some(w.(session := Some(Session(client, {}, CountUpTo(w.log, w.confirmed), 0, []))))
      else None
    case Loop(now, incoming) =>
      if w.session.None? then None
      else
        var s := w.session.value;
        (match EventOf(w.log, s, incoming)
         case None => None
         case Some(e) =>
           var o := Iterate(s.client, now, e);
           var s' := Advance(w.log, s, incoming).(client := o.client, inflight := s.inflight + ToSeq(o.report));
           Some(w.(session := if o.alive then Some(s') else None,
                   attempts := w.attempts + (if o.attempt.Some? then [|Inserts(w.log[..s.txn])| + s.next] else []),
                   sent := w.sent + ToSeq(o.attempt),
                   reports := w.reports + ToSeq(o.report))))
    case Deliver =>
      if w.session.Some? && w.session.value.inflight != [] then
        var s := w.session.value;
        Some(w.(confirmed := s.inflight[0], session := Some(s.(inflight := s.inflight[1..]))))
      else None
    case Crash => Some(w.(session := None))
  }

  function Run(w: World, actions: seq<Action>): Option<World>
    decreases |actions|
  {
    if actions == [] then Some(w)
    else
      match Step(w, actions[0])
      case Some(w') => Run(w', actions[1..])
      case None => None
  }

  /** The attempts without those of inserts already attempted before. */
  function NoReplays(attempts: seq<nat>): seq<nat> {
    if attempts == [] then []
    else
      var init, last := attempts[..|attempts| - 1], attempts[|attempts| - 1];
      if last in init then NoReplays(init) else NoReplays(init) + [last]
  }

  function Range(from: nat, n: nat): (r: seq<nat>)
    ensures |r| == n && forall i :: 0 <= i < n ==> r[i] == from + i
  {
    seq(n, i requires 0 <= i => from + i)
  }

  predicate Sorted(s: seq<nat>) {
    forall i, j :: 0 <= i < j < |s| ==> s[i] <= s[j]
  }
}
