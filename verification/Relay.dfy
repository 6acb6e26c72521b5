/** The relay in the source's own form: an object whose loop updates its position, its relations and its
    deadline. */
module Relays {
  import opened RelayModel

  class Relay {
    var lsn: nat
    var relations: set<nat>
    var nextStandbyMessageDeadline: int
    /** The status updates sent to the server. */
    var reports: seq<nat>
    /** The records handed to the producer, whether or not it delivered them. */
    var attempts: seq<Insert>

    ghost function State(): Client
      reads this
    {
      Client(lsn, relations, nextStandbyMessageDeadline)
    }

    constructor (lsn: nat, now: nat)
      ensures State() == Client(lsn, {}, now + STANDBY_TIMEOUT) && reports == [] && attempts == []
    {
      this.lsn := lsn;
      relations := {};
      nextStandbyMessageDeadline := now + STANDBY_TIMEOUT;
      reports, attempts := [], [];
    }

    method SendOffsetUpdateWhenNeeded(now: nat)
      modifies this`nextStandbyMessageDeadline, this`reports
      ensures if now > old(nextStandbyMessageDeadline)
              then reports == old(reports) + [lsn] && nextStandbyMessageDeadline == now + STANDBY_TIMEOUT
              else reports == old(reports) && nextStandbyMessageDeadline == old(nextStandbyMessageDeadline)
    {
      if now > nextStandbyMessageDeadline {
        reports := reports + [lsn];
        nextStandbyMessageDeadline := now + STANDBY_TIMEOUT;
      }
    }

    /** Handles a decoded message; false when the process stops. */
    method Process(message: Logical) returns (alive: bool)
      modifies this
      ensures var o := RelayModel.Process(old(State()), message);
              && State() == o.client && alive == o.alive
              && attempts == old(attempts) + ToSeq(o.attempt) && reports == old(reports)
      ensures relations == old(relations) + if message.RelationMessage? then {message.id} else {}
      ensures lsn == if message.CommitMessage? then message.endLSN else old(lsn)
      ensures alive <==> (message.InsertMessage? ==> message.insert.relation in old(relations))
      ensures attempts == old(attempts) + if message.InsertMessage? && alive then [message.insert] else []
      ensures nextStandbyMessageDeadline == old(nextStandbyMessageDeadline)
    {
      match message {
        case RelationMessage(id) =>
          relations := relations + {id};
        case InsertMessage(insert) =>
          if insert.relation !in relations {
            return false;
          }
          attempts := attempts + [insert];
        case CommitMessage(endLSN) =>
          lsn := endLSN;
        case OtherMessage =>
      }
      return true;
    }

    /** One iteration of the loop: the report that is due, then one message. */
    method Iteration(now: nat, event: Event) returns (alive: bool)
      modifies this
      ensures var o := Iterate(old(State()), now, event);
              && State() == o.client && alive == o.alive
              && attempts == old(attempts) + ToSeq(o.attempt) && reports == old(reports) + ToSeq(o.report)
    {
      SendOffsetUpdateWhenNeeded(now);
      match event
      case Timeout => return true;
      case Unexpected => return true;
      case Broken => return false;
      case Keepalive(replyRequested) =>
        if replyRequested {
          nextStandbyMessageDeadline := ZERO_TIME;
        }
        return true;
      case XLogData(message) =>
        alive := Process(message);
    }

    /** The loop over a finite run of waits, until the process stops. */
    method ListenEvents(ticks: seq<(nat, Event)>)
      modifies this
      ensures var r := Listen(old(State()), ticks);
              && State() == r.client && reports == old(reports) + r.reports && attempts == old(attempts) + r.attempts
    {
      ghost var c0 := State();
      for i := 0 to |ticks|
        invariant var r, rest := Listen(c0, ticks), Listen(State(), ticks[i..]);
                  && rest.client == r.client
                  && reports + rest.reports == old(reports) + r.reports
                  && attempts + rest.attempts == old(attempts) + r.attempts
      {
        ghost var before := State();
        assert ticks[i..][1..] == ticks[i + 1..] && ticks[i..][0] == ticks[i];
        ghost var o := Iterate(before, ticks[i].0, ticks[i].1);
        ListenStep(before, ticks[i..], reports, attempts);
        var alive := Iteration(ticks[i].0, ticks[i].1);
        if !alive {
          return;
        }
      }
    }
  }

  lemma {:induction false} ListenStep(c: Client, ticks: seq<(nat, Event)>, reports: seq<nat>, attempts: seq<Insert>)
    requires ticks != []
    ensures var o, r := Iterate(c, ticks[0].0, ticks[0].1), Listen(c, ticks);
            if o.alive then
              var rest := Listen(o.client, ticks[1..]);
              && rest.client == r.client
              && (reports + ToSeq(o.report)) + rest.reports == reports + r.reports
              && (attempts + ToSeq(o.attempt)) + rest.attempts == attempts + r.attempts
            else
              r == Listened(o.client, ToSeq(o.report), ToSeq(o.attempt))
  {
  }
}
