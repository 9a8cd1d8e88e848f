/** Getting sessions out of a session pool and giving them back (support/dpiConn.c). The pool of
    the Oracle client is modelled by the sessions that are idle and busy in it; what its calls
    answer is up to the environment. */
module SessionPool {
  import opened Common

  /** The network settings of a session's server handle that a ping changes. */
  datatype Timeouts = Timeouts(receive: int, breakOnTimeout: int)

  /** How the client answers the calls that read a setting, limit it for a ping and restore it. None of
      their errors is noticed; `garbage` is what a variable holds that a failed call did not write. */
  datatype Setting = Setting(readOk: bool, limitOk: bool, restoreOk: bool, garbage: int)

  predicate Answered(a: Setting) { a.readOk && a.limitOk && a.restoreOk }

  /** Whether a setting is after a successful ping what it was before. */
  predicate Restored(before: int, limit: int, a: Setting) {
    if a.restoreOk then a.readOk || a.garbage == before
    else !a.limitOk || limit == before
  }

  /** Why a session was handed out. */
  datatype Reason = IsNew | PingExempt | UsedRecently | JustPinged

  /** How one turn of the acquisition loop ends. */
  datatype Attempt = Got(reason: Reason) | DroppedIt | GaveUp

  /** A ping: of which session, at what time, and whether it was answered. */
  datatype Ping = Ping(session: nat, at: int, answered: bool)

  /** The pings of one turn. */
  function PingsOf(attempt: Attempt, session: nat, now: int): seq<Ping> {
    match attempt
    case Got(reason) => if reason == JustPinged then [Ping(session, now, true)] else []
    case DroppedIt => [Ping(session, now, false)]
    case GaveUp => []
  }

  function Sessions(pings: seq<Ping>): set<nat> { set p | p in pings :: p.session }

  /** The answer of the Oracle client to a call; an error can show that the connection is gone. */
  datatype Reply = Done | Refused | Lost

  /** The answers of the Oracle client while a session is closed. */
  datatype Answers = Answers(
    rollback: Reply, children: Reply, serverNormal: bool,
    contextGet: Reply, alloc: Reply, contextSet: Reply, release: Reply)

  /** What the acquisition of a session starts from. */
  datatype Before = Before(
    idle: set<nat>, busy: set<nat>, dropped: set<nat>, stamps: map<nat, int>, timeouts: map<nat, Timeouts>,
    pings: seq<Ping>)

  /** A ping that failed, of a session that was overdue at that time. */
  ghost predicate FailedPing(interval: int, b: Before, p: Ping) {
    && !p.answered && p.session in b.idle
    && p.session in b.stamps && interval >= 0 && b.stamps[p.session] + interval <= p.at
  }

  ghost predicate FailedPings(interval: int, b: Before, pings: seq<Ping>) {
    forall i :: 0 <= i < |pings| ==> FailedPing(interval, b, pings[i])
  }

  /** What is left after a session failed its ping and was dropped. */
  ghost function Dropped(b: Before, p: Ping): Before {
    var s := p.session;
    Before(b.idle - {s}, b.busy, b.dropped + {s}, b.stamps - {s}, b.timeouts - {s}, b.pings + [p])
  }

  /** What is left after several did. */
  ghost predicate Left(failed: seq<Ping>, b: Before, after: Before) {
    var gone := Sessions(failed);
    && |gone| == |failed|
    && after == Before(b.idle - gone, b.busy, b.dropped + gone, b.stamps - gone, b.timeouts - gone, b.pings + failed)
  }

  lemma NothingGone(b: Before)
    ensures Left([], b, b)
  {
    assert b.pings + [] == b.pings;
  }

  lemma OneMoreSession(failed: seq<Ping>, p: Ping)
    requires p.session !in Sessions(failed)
    ensures Sessions(failed + [p]) == Sessions(failed) + {p.session}
    ensures |Sessions(failed + [p])| == |Sessions(failed)| + 1
  {
  }

  lemma OneMoreEntry<V>(m: map<nat, V>, gone: set<nat>, s: nat)
    ensures m - gone - {s} == m - (gone + {s})
  {
  }

  lemma OneMoreFailed(interval: int, b: Before, failed: seq<Ping>, mid: Before, p: Ping)
    requires Left(failed, b, mid) && FailedPings(interval, b, failed) && FailedPing(interval, mid, p)
    ensures FailedPings(interval, b, failed + [p])
  {
    assert FailedPing(interval, b, p);
  }

  /** One more session is dropped. */
  lemma OneMore(interval: int, b: Before, failed: seq<Ping>, mid: Before, p: Ping)
    requires Left(failed, b, mid) && FailedPings(interval, b, failed) && FailedPing(interval, mid, p)
    ensures Left(failed + [p], b, Dropped(mid, p)) && FailedPings(interval, b, failed + [p])
  {
    OneMoreSession(failed, p);
    OneMoreEntry(b.stamps, Sessions(failed), p.session);
    OneMoreEntry(b.timeouts, Sessions(failed), p.session);
    OneMoreFailed(interval, b, failed, mid, p);
    assert b.idle - Sessions(failed) - {p.session} == b.idle - (Sessions(failed) + {p.session});
    assert b.dropped + Sessions(failed) + {p.session} == b.dropped + (Sessions(failed) + {p.session});
    assert b.pings + failed + [p] == b.pings + (failed + [p]);
  }

  lemma FewerIdle(b: Before, p: Ping)
    requires p.session in b.idle
    ensures |Dropped(b, p).idle| < |b.idle|
  {
  }

  lemma GoneWereIdle(interval: int, b: Before, failed: seq<Ping>)
    requires FailedPings(interval, b, failed)
    ensures Sessions(failed) <= b.idle && Sessions(failed) <= b.stamps.Keys
  {
    forall p | p in failed
      ensures FailedPing(interval, b, p)
    {
      var i :| 0 <= i < |failed| && failed[i] == p;
    }
  }

  lemma SameEntry<V>(m: map<nat, V>, k: nat, v: V)
    requires k in m
    ensures m[k := v] == m <==> m[k] == v
  {
    assert m[k] == v ==> m[k := v] == m;
    assert m[k := v][k] == v;
  }

  /** The loop takes at most one turn, besides the last, for each idle session with a stamp. */
  lemma TurnsBounded(idle: set<nat>, stamps: map<nat, int>, gone: set<nat>)
    requires gone <= idle && gone <= stamps.Keys
    ensures |gone| <= |idle * stamps.Keys|
  {
    SubsetSize(gone, idle * stamps.Keys);
  }

  lemma {:induction false} SubsetSize(a: set<nat>, b: set<nat>)
    requires a <= b
    ensures |a| <= |b|
  {
    if a != {} {
      var x :| x in a;
      SubsetSize(a - {x}, b - {x});
    }
  }

  class Pool {
    const pingInterval: int
    const pingTimeout: int
    const versionNum: int
    var isOpen: bool
    var idle: set<nat>
    var busy: set<nat>
    var stamps: map<nat, int>          // the last time used, in the context of a session
    var timeouts: map<nat, Timeouts>
    var deadSessions: set<nat>         // sessions whose connection is marked dead
    var created: nat                   // sessions are numbered in the order of their creation
    ghost var dropped: set<nat>
    ghost var pings: seq<Ping>         // all pings so far
    ghost var errors: nat              // client calls so far whose error was reported
    ghost var ignored: nat             // pings so far around which some setting call failed
    ghost var closedAt: map<nat, int>  // when a close last gave a session back
    ghost var unstamped: set<nat>      // given back without a stamp
    ghost var freedStamps: set<nat>    // sessions whose context names a stamp that has been freed
    ghost var freedAgain: nat          // stamps that were freed a second time

    /** What every run of acquiring and closing keeps. Dead and dropped sessions are never idle,
        and a session that a close has given back carries the time of that close, unless it is
        one of those that had to be given back without a stamp. */
    ghost predicate Valid()
      reads this
    {
      && idle !! busy && (idle + busy) !! dropped
      && (forall s: nat :: Numbered(s))
      && stamps.Keys <= idle + busy && timeouts.Keys == idle + busy
      && closedAt.Keys <= idle + busy + dropped
      && deadSessions <= busy + dropped && freedStamps <= deadSessions && freedStamps <= stamps.Keys
      && forall s: nat :: StampOk(s)
    }

    ghost predicate Numbered(s: nat)
      reads this`idle, this`busy, this`dropped, this`created
    {
      s in idle || s in busy || s in dropped ==> s < created
    }

    /** An idle session carries the time of its last close; a busy one has a stamp after a close
        unless it is dead. */
    ghost predicate StampOk(s: nat)
      reads this`idle, this`busy, this`stamps, this`deadSessions, this`closedAt, this`unstamped
    {
      s in closedAt && s !in unstamped ==>
        && (s in idle ==> s in stamps && stamps[s] == closedAt[s])
        && (s in busy && s !in deadSessions ==> s in stamps)
    }

    ghost function State(): Before
      reads this
    {
      Before(idle, busy, dropped, stamps, timeouts, pings)
    }

    constructor (pingInterval: int, pingTimeout: int, versionNum: int)
      ensures Valid() && isOpen && idle == busy == dropped == {} && closedAt == map[]
      ensures unstamped == freedStamps == {} && freedAgain == errors == ignored == 0 && pings == []
    {
      this.pingInterval, this.pingTimeout, this.versionNum := pingInterval, pingTimeout, versionNum;
      isOpen := true;
      idle, busy, stamps, timeouts, deadSessions := {}, {}, map[], map[], {};
      created, dropped, closedAt, unstamped, freedStamps := 0, {}, map[], {}, {};
      pings, errors, ignored, freedAgain := [], 0, 0, 0;
    }

    // ------------------------------------------------------------------------------------
    // The Oracle client
    // ------------------------------------------------------------------------------------

    /** Hands out an idle session of its choice, or a new one, or fails. */
    method SessionGet() returns (ok: bool, session: nat)
      requires Valid()
      modifies this`idle, this`busy, this`timeouts, this`created, this`errors
      ensures Valid() && errors == old(errors) + if ok then 0 else 1
      ensures !ok ==> idle == old(idle) && busy == old(busy) && timeouts == old(timeouts)
      ensures ok ==> session !in old(busy) && busy == old(busy) + {session} && idle == old(idle) - {session}
      ensures ok && session !in old(idle) ==> session >= old(created) && session !in stamps
      ensures forall s :: s in old(timeouts) ==> s in timeouts && timeouts[s] == old(timeouts)[s]
    {
      assert Numbered(created) && StampOk(created);
      ok, session := *, 0;
      if !ok {
        errors := errors + 1;
        return;
      }
      var reuse := *;
      if reuse && idle != {} {
        session :| session in idle;
      } else {
        session := created;
        created := created + 1;
        var receive: int, breakOnTimeout: int := *, *;
        timeouts := timeouts[session := Timeouts(receive, breakOnTimeout)];
      }
      idle, busy := idle - {session}, busy + {session};
      forall s: nat
        ensures Numbered(s) && StampOk(s)
      {
        assert old(Numbered(s) && StampOk(s));
      }
    }

    /** Takes a busy session back; dropping it destroys it together with its context. */
    method SessionRelease(session: nat, drop: bool)
      requires Valid() && session in busy
      requires !drop ==>
                 session !in deadSessions
                 && (session in closedAt && session !in unstamped ==>
                       session in stamps && stamps[session] == closedAt[session])
      modifies this`idle, this`busy, this`stamps, this`timeouts, this`dropped, this`freedStamps
      ensures Valid() && busy == old(busy) - {session} && freedStamps == old(freedStamps) - {session}
      ensures drop ==> idle == old(idle) && dropped == old(dropped) + {session}
                       && stamps == old(stamps) - {session} && timeouts == old(timeouts) - {session}
      ensures !drop ==> idle == old(idle) + {session} && dropped == old(dropped)
                        && stamps == old(stamps) && timeouts == old(timeouts)
    {
      busy := busy - {session};
      if drop {
        dropped := dropped + {session};
        stamps, timeouts, freedStamps := stamps - {session}, timeouts - {session}, freedStamps - {session};
      } else {
        idle := idle + {session};
      }
      forall s: nat
        ensures Numbered(s) && StampOk(s)
      {
        assert old(Numbered(s) && StampOk(s));
      }
    }

    /** A call whose error is reported. */
    method ClientCall() returns (ok: bool)
      modifies this`errors
      ensures errors == old(errors) + if ok then 0 else 1
    {
      ok := *;
      errors := errors + if ok then 0 else 1;
    }

    method SendPing(session: nat, ghost now: int) returns (ok: bool)
      modifies this`pings
      ensures pings == old(pings) + [Ping(session, now, ok)]
    {
      ok := *;
      pings := pings + [Ping(session, now, ok)];
    }

    /** The calls that set the network settings of a session; those that fail leave theirs alone. */
    method SetTimeouts(session: nat, t: Timeouts, receiveOk: bool, breakOk: bool)
      requires Valid() && session in timeouts
      modifies this`timeouts
      ensures Valid() && timeouts.Keys == old(timeouts).Keys
      ensures timeouts == old(timeouts)[session := Set(old(timeouts)[session], t, receiveOk, breakOk)]
    {
      var was := timeouts;
      if receiveOk {
        timeouts := timeouts[session := timeouts[session].(receive := t.receive)];
      }
      if versionNum >= 12 && breakOk {
        timeouts := timeouts[session := timeouts[session].(breakOnTimeout := t.breakOnTimeout)];
      }
      SameEntry(was, session, was[session]);
    }

    /** Older clients have no break on timeout. */
    function Set(was: Timeouts, t: Timeouts, receiveOk: bool, breakOk: bool): Timeouts {
      Timeouts(if receiveOk then t.receive else was.receive,
               if versionNum >= 12 && breakOk then t.breakOnTimeout else was.breakOnTimeout)
    }

    /** What the calls that read the network settings of a session leave in their variables. */
    function Saved(was: Timeouts, receive: Setting, breakOnTimeout: Setting): Timeouts {
      Timeouts(if receive.readOk then was.receive else receive.garbage,
               if versionNum >= 12 && breakOnTimeout.readOk then was.breakOnTimeout else breakOnTimeout.garbage)
    }

    function Limited(was: Timeouts, receive: Setting, breakOnTimeout: Setting): Timeouts {
      Set(was, Timeouts(pingTimeout, 0), receive.limitOk, breakOnTimeout.limitOk)
    }

    function SetBack(was: Timeouts, receive: Setting, breakOnTimeout: Setting): Timeouts {
      Set(Limited(was, receive, breakOnTimeout), Saved(was, receive, breakOnTimeout), receive.restoreOk, breakOnTimeout.restoreOk)
    }

    // ------------------------------------------------------------------------------------
    // Acquiring a session
    // ------------------------------------------------------------------------------------

    method PingUnderLimit(session: nat, ghost now: int, receive: Setting, breakOnTimeout: Setting) returns (ok: bool)
      requires Valid() && session in busy
      modifies this`timeouts, this`pings
      ensures Valid() && pings == old(pings) + [Ping(session, now, ok)]
      ensures session in old(timeouts)
      ensures timeouts == old(timeouts)[session := var was := old(timeouts)[session];
                                                   if ok then SetBack(was, receive, breakOnTimeout)
                                                   else Limited(was, receive, breakOnTimeout)]
    {
      var saved := Saved(timeouts[session], receive, breakOnTimeout);
      SetTimeouts(session, Timeouts(pingTimeout, 0), receive.limitOk, breakOnTimeout.limitOk);
      ok := SendPing(session, now);
      if ok {
        SetTimeouts(session, saved, receive.restoreOk, breakOnTimeout.restoreOk);
      }
    }

    /** Pings a session under the time limit of the pool. After a successful ping the network settings
        are as before if every call that reads or sets them is answered; if not, exactly if each of them
        happens to be restored. */
    method PingWithTimeout(session: nat, ghost now: int, receive: Setting, breakOnTimeout: Setting) returns (ok: bool)
      requires Valid() && session in busy
      modifies this`timeouts, this`pings, this`ignored
      ensures Valid() && pings == old(pings) + [Ping(session, now, ok)]
      ensures ok ==> (timeouts == old(timeouts) <==>
                        && Restored(old(timeouts)[session].receive, pingTimeout, receive)
                        && (versionNum >= 12 ==> Restored(old(timeouts)[session].breakOnTimeout, 0, breakOnTimeout)))
      ensures ignored == old(ignored) + if Answered(receive) && (versionNum >= 12 ==> Answered(breakOnTimeout)) then 0 else 1
      ensures timeouts.Keys == old(timeouts).Keys
      ensures forall s :: s in timeouts && s != session ==> timeouts[s] == old(timeouts)[s]
    {
      ghost var all, was := timeouts, timeouts[session];
      ok := PingUnderLimit(session, now, receive, breakOnTimeout);
      SameEntry(all, session, SetBack(was, receive, breakOnTimeout));
      RestoredExact(was, receive, breakOnTimeout);
      ignored := ignored + if Answered(receive) && (versionNum >= 12 ==> Answered(breakOnTimeout)) then 0 else 1;
    }

    lemma RestoredExact(was: Timeouts, receive: Setting, breakOnTimeout: Setting)
      ensures SetBack(was, receive, breakOnTimeout) == was
         <==> Restored(was.receive, pingTimeout, receive)
              && (versionNum >= 12 ==> Restored(was.breakOnTimeout, 0, breakOnTimeout))
    {
    }

    /** A session that has to be pinged before it is handed out. */
    ghost predicate Overdue(session: nat, now: int)
      reads this`stamps
    {
      session in stamps && pingInterval >= 0 && stamps[session] + pingInterval <= now
    }

    /** What a session that is handed out for `reason` at time `now` has going for it. */
    ghost predicate Justified(session: nat, reason: Reason, now: int)
      reads this
    {
      match reason
      case IsNew => session !in stamps && (session in closedAt ==> session in unstamped)
      case PingExempt => session in stamps && pingInterval < 0
      case UsedRecently => session in stamps && pingInterval >= 0 && stamps[session] + pingInterval > now
      case JustPinged => Overdue(session, now)
    }

    /** Decides about a session that the client has handed out: it is good, or it is dropped because its
        ping failed, or a client call fails. It is pinged exactly if it is overdue. */
    method Judge(session: nat, now: int) returns (attempt: Attempt)
      requires Valid() && session in busy
      requires session in closedAt && session !in unstamped ==> session in stamps
      modifies this`idle, this`busy, this`stamps, this`timeouts, this`dropped, this`freedStamps
      modifies this`pings, this`errors, this`ignored
      ensures Valid() && idle == old(idle) && ignored >= old(ignored)
      ensures pings == old(pings) + PingsOf(attempt, session, now)
      ensures errors == old(errors) + if attempt == GaveUp then 1 else 0
      ensures attempt != DroppedIt ==> busy == old(busy) && dropped == old(dropped) && stamps == old(stamps)
      ensures attempt.Got? && (attempt.reason == JustPinged ==> ignored == old(ignored)) ==> timeouts == old(timeouts)
      ensures timeouts.Keys == busy + idle
      ensures attempt.Got? ==> Justified(session, attempt.reason, now)
      ensures attempt == DroppedIt ==>
                && old(Overdue(session, now))
                && busy == old(busy) - {session} && dropped == old(dropped) + {session}
                && stamps == old(stamps) - {session} && timeouts == old(timeouts) - {session}
    {
      assert StampOk(session);
      if session !in stamps {
        var cacheSizeOk := ClientCall();
        return if cacheSizeOk then Got(IsNew) else GaveUp;
      }
      if pingInterval < 0 {
        return Got(PingExempt);
      }
      if stamps[session] + pingInterval > now {
        return Got(UsedRecently);
      }
      var receive: Setting, breakOnTimeout: Setting := *, *;
      var ok := PingWithTimeout(session, now, receive, breakOnTimeout);
      if ok {
        return Got(JustPinged);
      }
      SessionRelease(session, true);
      assert timeouts == old(timeouts) - {session};
      attempt := DroppedIt;
    }

    /** Obtains a session and what the connection has to know about it. */
    method Obtain() returns (ok: bool, session: nat)
      requires Valid()
      modifies this`idle, this`busy, this`timeouts, this`created, this`errors
      ensures Valid() && errors == old(errors) + if ok then 0 else 1
      ensures idle <= old(idle)
      ensures ok ==> session !in old(busy) && busy == old(busy) + {session} && idle == old(idle) - {session}
      ensures ok && session in stamps ==> session in old(idle)
      ensures ok && session in closedAt && session !in unstamped ==> session in stamps
      ensures forall s :: s in old(timeouts) ==> s in timeouts && timeouts[s] == old(timeouts)[s]
      ensures ok && session in old(idle) ==> timeouts.Keys == old(timeouts).Keys
    {
      ok, session := SessionGet();
      assert old(StampOk(session) && Numbered(session));
      if ok {
        ok := ClientCall();
      }
      if ok {
        ok := ClientCall();
      }
    }

    /** One turn of the loop: a session is obtained and found good, or dropped after its ping
        failed, or a client call fails. */
    method TrySession(now: int) returns (attempt: Attempt, session: nat)
      requires Valid()
      modifies this`idle, this`busy, this`stamps, this`timeouts, this`created, this`dropped, this`freedStamps
      modifies this`pings, this`errors, this`ignored
      ensures Valid() && ignored >= old(ignored)
      ensures pings == old(pings) + PingsOf(attempt, session, now)
      ensures errors == old(errors) + if attempt == GaveUp then 1 else 0
      ensures attempt == GaveUp ==> dropped == old(dropped) && idle <= old(idle) && stamps == old(stamps)
      ensures attempt.Got? ==>
                && session !in old(busy) && busy == old(busy) + {session} && idle == old(idle) - {session}
                && dropped == old(dropped) && stamps == old(stamps)
                && Justified(session, attempt.reason, now) && session in timeouts
      ensures attempt.Got? && session in old(idle) && (attempt.reason == JustPinged ==> ignored == old(ignored)) ==>
                timeouts[session] == old(timeouts)[session]
      ensures attempt == DroppedIt ==>
                && FailedPing(pingInterval, old(State()), Ping(session, now, false))
                && State() == Dropped(old(State()), Ping(session, now, false))
    {
      var ok;
      ok, session := Obtain();
      if !ok {
        return GaveUp, session;
      }
      ghost var mid := timeouts;
      attempt := Judge(session, now);
      assert session in old(idle) ==> mid == old(timeouts);
    }

    /** One turn after the pings `failed`. */
    method Turn(ghost failed: seq<Ping>, ghost b: Before) returns (attempt: Attempt, session: nat, now: int)
      requires Valid() && Left(failed, b, State()) && FailedPings(pingInterval, b, failed)
      modifies this`idle, this`busy, this`stamps, this`timeouts, this`created, this`dropped, this`freedStamps
      modifies this`pings, this`errors, this`ignored
      ensures Valid() && ignored >= old(ignored)
      ensures errors == old(errors) + if attempt == GaveUp then 1 else 0
      ensures attempt == DroppedIt ==>
                && |idle| < |old(idle)|
                && Left(failed + [Ping(session, now, false)], b, State())
                && FailedPings(pingInterval, b, failed + [Ping(session, now, false)])
      ensures attempt != DroppedIt ==>
                && dropped == b.dropped + Sessions(failed) && stamps == b.stamps - Sessions(failed)
                && pings == b.pings + failed + PingsOf(attempt, session, now)
      ensures attempt.Got? ==>
                && session !in b.busy && busy == b.busy + {session} && idle == b.idle - Sessions(failed) - {session}
                && Justified(session, attempt.reason, now) && session in timeouts
      ensures attempt.Got? && session in b.idle && (attempt.reason == JustPinged ==> ignored == old(ignored)) ==>
                session in b.timeouts && timeouts[session] == b.timeouts[session]
    {
      now := *;
      assert timeouts.Keys == idle + busy;
      attempt, session := TrySession(now);
      if attempt == DroppedIt {
        OneMore(pingInterval, b, failed, old(State()), Ping(session, now, false));
        FewerIdle(old(State()), Ping(session, now, false));
      }
    }

    /** Gets sessions until one is good. The pings of this call are those of `failed`, whose sessions
        were overdue and are dropped, and, if the session was overdue as well, one that it answered. The
        call fails exactly if a client call reports an error. The loop ends because each turn but the last
        takes a session with a stamp out of the idle ones, and a new session has none. `now` is the time
        of the last turn. */
    method GetSession()
      returns (status: Status, session: nat, reason: Reason, now: int, turns: nat, ghost failed: seq<Ping>)
      requires Valid()
      modifies this`idle, this`busy, this`stamps, this`timeouts, this`created, this`dropped, this`freedStamps
      modifies this`pings, this`errors, this`ignored
      ensures Valid()
      ensures status == Success <==> errors == old(errors)
      ensures errors <= old(errors) + 1
      ensures status == Success ==>
                && session !in old(busy) && busy == old(busy) + {session}
                && Justified(session, reason, now)
                && idle == old(idle) - Sessions(failed) - {session}
      // why it was handed out
      ensures status == Success ==>
                && (reason == IsNew <==> session !in old(stamps))
                && (reason == PingExempt <==> session in old(stamps) && pingInterval < 0)
                && (reason == UsedRecently <==>
                      session in old(stamps) && pingInterval >= 0 && now < old(stamps)[session] + pingInterval)
                && (reason == JustPinged <==>
                      session in old(stamps) && pingInterval >= 0 && now >= old(stamps)[session] + pingInterval)
      ensures status == Success && session in old(idle) && (reason == JustPinged ==> ignored == old(ignored)) ==>
                session in timeouts && session in old(timeouts) && timeouts[session] == old(timeouts)[session]
      ensures pings == old(pings) + failed
                       + if status == Success && reason == JustPinged then [Ping(session, now, true)] else []
      ensures |failed| == |Sessions(failed)| == turns <= |old(idle) * old(stamps).Keys|
      ensures FailedPings(pingInterval, old(State()), failed)
      ensures dropped == old(dropped) + Sessions(failed) && stamps == old(stamps) - Sessions(failed)
    {
      turns, failed := 0, [];
      ghost var before := State();
      var attempt;
      NothingGone(before);
      while true
        invariant Valid() && |failed| == turns && errors == old(errors) && ignored >= old(ignored)
        invariant Left(failed, before, State()) && FailedPings(pingInterval, before, failed)
        decreases |idle|
      {
        attempt, session, now := Turn(failed, before);
        if attempt != DroppedIt {
          break;
        }
        failed, turns := failed + [Ping(session, now, false)], turns + 1;
      }
      GoneWereIdle(pingInterval, before, failed);
      TurnsBounded(before.idle, before.stamps, Sessions(failed));
      status := if attempt.Got? then Success else Failure;
      reason := if attempt.Got? then attempt.reason else IsNew;
    }

    // ------------------------------------------------------------------------------------
    // Closing a pooled connection
    // ------------------------------------------------------------------------------------

    /** Whether the last time used is recorded: its memory is there, or can be had. */
    ghost predicate WillStamp(session: nat, a: Answers)
      reads this
    {
      isOpen && ((session in stamps && a.contextGet == Done) || (a.alloc == Done && a.contextSet == Done))
    }

    /** Whether an error of a client call whose result is checked shows that the connection is gone. */
    ghost predicate LostOnTheWay(session: nat, propagateErrors: bool, a: Answers)
      reads this
    {
      && propagateErrors
      && (|| a.contextGet == Lost
          || (&& a.contextGet == Done && session !in stamps && session !in deadSessions
              && (a.alloc == Lost || (a.alloc == Done && a.contextSet == Lost))))
    }

    /** Whether the stamp of a dead session is freed. */
    ghost predicate FreesStamp(session: nat, a: Answers)
      reads this
    {
      session in deadSessions && session in stamps && a.contextGet == Done
    }

    /** Updates the last time used in the context of the session, or clears it when the session
        is dead; a client call that fails ends this when its error is propagated. A new stamp that cannot
        be allocated is set all the same, as a null pointer, when its error is not propagated. */
    method UpdateLastTimeUsed(session: nat, now: int, propagateErrors: bool, a: Answers) returns (status: Status)
      requires isOpen && freedStamps <= deadSessions && freedStamps <= stamps.Keys
      modifies this`stamps, this`deadSessions, this`freedStamps, this`freedAgain
      ensures status == Failure <==>
                propagateErrors
                && (a.contextGet != Done || (session !in old(stamps) && session !in old(deadSessions) && a.alloc != Done))
      ensures deadSessions == old(deadSessions) + if old(LostOnTheWay(session, propagateErrors, a)) then {session} else {}
      ensures status == Failure ==> stamps == old(stamps)
      ensures status == Success && session in old(deadSessions) ==>
                stamps == if a.contextGet == Done && a.contextSet == Done then old(stamps) - {session} else old(stamps)
      ensures status == Success && session !in old(deadSessions) ==>
                stamps == if old(WillStamp(session, a)) then old(stamps)[session := now]
                          else if a.contextSet == Done then old(stamps) - {session} else old(stamps)
      ensures freedAgain == old(freedAgain) + if session in old(freedStamps) && a.contextGet == Done then 1 else 0
      ensures freedStamps == if !old(FreesStamp(session, a)) then old(freedStamps)
                             else if a.contextSet == Done then old(freedStamps) - {session}
                             else old(freedStamps) + {session}
    {
      if a.contextGet != Done && propagateErrors {
        MarkIfLost(session, a.contextGet);
        return Failure;
      }
      var found := a.contextGet == Done && session in stamps;
      if found && session in deadSessions {
        ClearStamp(session, a.contextSet);
        found := false;
      } else if !found && session !in deadSessions {
        if a.alloc != Done && propagateErrors {
          MarkIfLost(session, a.alloc);
          return Failure;
        }
        if a.contextSet == Done && a.alloc != Done {
          stamps := stamps - {session};
        } else if a.contextSet != Done && propagateErrors {
          MarkIfLost(session, a.contextSet);
        }
        found := a.alloc == Done && a.contextSet == Done;
      }
      if found {
        stamps := stamps[session := now];
      }
      status := Success;
    }

    /** Looks at the error of a client call. */
    method MarkIfLost(session: nat, reply: Reply)
      modifies this`deadSessions
      ensures deadSessions == old(deadSessions) + if reply == Lost then {session} else {}
    {
      if reply == Lost {
        deadSessions := deadSessions + {session};
      }
    }

    /** Takes the stamp of a dead session out of its context and frees it. Whether it is out of the
        context is not checked. */
    method ClearStamp(session: nat, reply: Reply)
      requires session in stamps
      modifies this`stamps, this`freedStamps, this`freedAgain
      ensures stamps == if reply == Done then old(stamps) - {session} else old(stamps)
      ensures freedAgain == old(freedAgain) + if session in old(freedStamps) then 1 else 0
      ensures freedStamps == if reply == Done then old(freedStamps) - {session} else old(freedStamps) + {session}
    {
      freedAgain := freedAgain + if session in freedStamps then 1 else 0;
      freedStamps := freedStamps + {session};
      if reply == Done {
        stamps, freedStamps := stamps - {session}, freedStamps - {session};
      }
    }

    /** Marks the connection dead when its transaction cannot be rolled back, when the session is
        to be dropped, or when its server is not there any more. Closing what the connection has
        open may fail. The error of a roll-back is only seen when errors are propagated. */
    method MarkDead(session: nat, drop: bool, propagateErrors: bool, a: Answers) returns (status: Status)
      requires Valid() && session in busy
      modifies this`deadSessions
      ensures Valid()
      ensures status == Success <==> a.children == Done
      ensures old(deadSessions) <= deadSessions <= old(deadSessions) + {session}
      ensures status == Success ==>
                (session in deadSessions <==>
                   session in old(deadSessions) || (propagateErrors && a.rollback != Done) || drop || !a.serverNormal)
      ensures status == Failure ==>
                (session in deadSessions <==>
                   session in old(deadSessions) || (propagateErrors && (a.rollback != Done || a.children == Lost)))
    {
      if session !in deadSessions && a.rollback != Done && propagateErrors {
        deadSessions := deadSessions + {session};
      }
      status := if a.children == Done then Success else Failure;
      if status == Failure {
        MarkIfLost(session, if propagateErrors then a.children else Refused);
      } else if drop || !a.serverNormal {
        deadSessions := deadSessions + {session};
      }
      forall s: nat
        ensures Numbered(s) && StampOk(s)
      {
        assert old(Numbered(s) && StampOk(s));
      }
    }

    /** Whether the connection counts as dead when the last time used is updated. */
    ghost predicate DeadAtUpdate(session: nat, drop: bool, propagateErrors: bool, a: Answers)
      reads this
    {
      session in deadSessions || (a.rollback != Done && propagateErrors) || drop || !a.serverNormal
    }

    /** Whether the connection counts as dead by the time its session is released: it does so already, or
        setting a new stamp shows that it is gone. */
    ghost predicate WillDrop(session: nat, drop: bool, propagateErrors: bool, a: Answers)
      reads this
    {
      || DeadAtUpdate(session, drop, propagateErrors, a)
      || (isOpen && propagateErrors && session !in stamps && a.contextSet == Lost)
    }

    /** When a close reports a failure: something that the connection has open cannot be closed, or
        a client call fails whose error is propagated. */
    ghost predicate CloseFails(session: nat, drop: bool, propagateErrors: bool, a: Answers)
      reads this
    {
      a.children != Done
      || (propagateErrors
          && (a.release != Done
              || (isOpen
                  && (a.contextGet != Done
                      || (session !in stamps && !DeadAtUpdate(session, drop, propagateErrors, a) && a.alloc != Done)))))
    }

    /** Whether a close gets to the stamp of a session that is dead by then. */
    ghost predicate CloseFreesStamp(session: nat, drop: bool, propagateErrors: bool, a: Answers)
      reads this
    {
      && a.children == Done && isOpen && a.contextGet == Done && session in stamps
      && DeadAtUpdate(session, drop, propagateErrors, a)
    }

    /** Updates the last time used, unless the pool is being closed, and records that the session is about
        to be given back, if it is. */
    method Stamp(session: nat, now: int, propagateErrors: bool, a: Answers) returns (status: Status)
      requires Valid() && session in busy
      modifies this`stamps, this`closedAt, this`unstamped, this`deadSessions, this`freedStamps, this`freedAgain
      ensures Valid()
      ensures status == Failure <==>
                isOpen && propagateErrors
                && (a.contextGet != Done || (session !in old(stamps) && session !in old(deadSessions) && a.alloc != Done))
      ensures deadSessions == old(deadSessions) + if isOpen && old(LostOnTheWay(session, propagateErrors, a)) then {session} else {}
      ensures freedAgain == old(freedAgain) + if isOpen && session in old(freedStamps) && a.contextGet == Done then 1 else 0
      ensures freedStamps == if !(isOpen && old(FreesStamp(session, a))) then old(freedStamps)
                             else if a.contextSet == Done then old(freedStamps) - {session}
                             else old(freedStamps) + {session}
      ensures status == Failure || (a.release != Done && propagateErrors) || session in deadSessions ==>
                closedAt == old(closedAt) && unstamped == old(unstamped)
      ensures status == Success && (a.release == Done || !propagateErrors) && session !in deadSessions ==>
                && closedAt == old(closedAt)[session := now]
                && (session in unstamped <==> !old(WillStamp(session, a))) && unstamped <= old(unstamped) + {session}
                && (session !in unstamped ==> session in stamps && stamps[session] == now)
    {
      ghost var willStamp := WillStamp(session, a);
      status := Success;
      if isOpen {
        status := UpdateLastTimeUsed(session, now, propagateErrors, a);
      }
      if status == Success && (a.release == Done || !propagateErrors) && session !in deadSessions {
        closedAt := closedAt[session := now];
        unstamped := if willStamp then unstamped - {session} else unstamped + {session};
      }
      forall s: nat
        ensures StampOk(s)
      {
        assert old(StampOk(s));
      }
    }

    /** Releases the session, which stays with the connection if the client refuses and errors are
        propagated. */
    method ReleaseSession(session: nat, propagateErrors: bool, reply: Reply) returns (status: Status)
      requires Valid() && session in busy
      requires session !in deadSessions && (reply == Done || !propagateErrors) && session in closedAt && session !in unstamped ==>
                 session in stamps && stamps[session] == closedAt[session]
      modifies this`idle, this`busy, this`stamps, this`timeouts, this`deadSessions, this`dropped, this`freedStamps
      ensures Valid()
      ensures status == Failure <==> reply != Done && propagateErrors
      ensures status == Failure ==>
                && idle == old(idle) && busy == old(busy) && dropped == old(dropped) && freedStamps == old(freedStamps)
                && deadSessions == old(deadSessions) + if reply == Lost then {session} else {}
      ensures status == Success ==>
                && deadSessions == old(deadSessions) && busy == old(busy) - {session}
                && freedStamps == old(freedStamps) - {session}
                && (session in deadSessions ==>
                      idle == old(idle) && dropped == old(dropped) + {session} && stamps == old(stamps) - {session})
                && (session !in deadSessions ==>
                      idle == old(idle) + {session} && dropped == old(dropped) && stamps == old(stamps))
    {
      if reply != Done && propagateErrors {
        MarkIfLost(session, reply);
        forall s: nat
          ensures Numbered(s) && StampOk(s)
        {
          assert old(Numbered(s) && StampOk(s));
        }
        return Failure;
      }
      SessionRelease(session, session in deadSessions);
      status := Success;
    }

    /** What decides about the session, written out. */
    lemma WhatIsDropped(session: nat, drop: bool, propagateErrors: bool, a: Answers)
      ensures drop || !a.serverNormal || session in deadSessions || (propagateErrors && a.rollback != Done) ==>
                WillDrop(session, drop, propagateErrors, a)
      ensures isOpen && propagateErrors && session !in stamps && a.contextSet == Lost ==> WillDrop(session, drop, propagateErrors, a)
      ensures (!drop && a.serverNormal && session !in deadSessions
               && (!propagateErrors || (a.rollback == Done && (!isOpen || session in stamps || a.contextSet != Lost)))) ==>
                !WillDrop(session, drop, propagateErrors, a)
    {
    }

    /** What decides about success, written out. */
    lemma WhatFails(session: nat, drop: bool, propagateErrors: bool, a: Answers)
      ensures a.children != Done ==> CloseFails(session, drop, propagateErrors, a)
      ensures !propagateErrors && a.children == Done ==> !CloseFails(session, drop, propagateErrors, a)
      ensures propagateErrors && (a.release != Done || (isOpen && a.contextGet != Done)) ==>
                CloseFails(session, drop, propagateErrors, a)
      ensures (propagateErrors && isOpen && session !in stamps && session !in deadSessions
               && a.rollback == Done && !drop && a.serverNormal && a.alloc != Done) ==> CloseFails(session, drop, propagateErrors, a)
      ensures a.children == a.release == Done && (!isOpen || (a.contextGet == Done && a.alloc == Done)) ==>
                !CloseFails(session, drop, propagateErrors, a)
      ensures a.children == a.release == Done && a.contextGet == Done && (session in stamps || drop) ==>
                !CloseFails(session, drop, propagateErrors, a)
    {
    }

    /** What a close does before it releases the session. */
    method BeforeRelease(session: nat, drop: bool, now: int, propagateErrors: bool, a: Answers) returns (status: Status)
      requires Valid() && session in busy
      modifies this`stamps, this`deadSessions, this`closedAt, this`unstamped, this`freedStamps, this`freedAgain
      ensures Valid() && old(deadSessions) <= deadSessions <= old(deadSessions) + {session}
      ensures status == Failure <==>
                a.children != Done
                || (isOpen && propagateErrors
                    && (a.contextGet != Done
                        || (session !in old(stamps) && !old(DeadAtUpdate(session, drop, propagateErrors, a)) && a.alloc != Done)))
      ensures status == Success ==> (session in deadSessions <==> old(WillDrop(session, drop, propagateErrors, a)))
      ensures status == Success && (a.release == Done || !propagateErrors) && session !in deadSessions ==>
                && closedAt == old(closedAt)[session := now]
                && (session in unstamped <==> !old(WillStamp(session, a))) && unstamped <= old(unstamped) + {session}
                && (session !in unstamped ==> session in stamps && stamps[session] == now)
      ensures !(status == Success && (a.release == Done || !propagateErrors) && session !in deadSessions) ==>
                unstamped == old(unstamped)
      ensures freedAgain == old(freedAgain)
                            + if old(CloseFreesStamp(session, drop, propagateErrors, a)) && session in old(freedStamps) then 1 else 0
      ensures session in freedStamps <==>
                if old(CloseFreesStamp(session, drop, propagateErrors, a)) then a.contextSet != Done
                else session in old(freedStamps)
      ensures propagateErrors && (a.children == Lost || a.rollback != Done) ==> session in deadSessions
      ensures propagateErrors && a.children == Done && isOpen && a.contextGet == Lost ==> session in deadSessions
      ensures (propagateErrors && a.children == Done && isOpen && a.contextGet == Done && session !in old(stamps)
               && (a.alloc == Lost || (a.alloc == Done && a.contextSet == Lost))) ==> session in deadSessions
      ensures (session !in old(deadSessions) && !drop && a.serverNormal && (a.rollback == Done || !propagateErrors)
               && (!propagateErrors || Lost !in [a.children, a.contextGet, a.alloc, a.contextSet])) ==>
                session !in deadSessions
    {
      status := MarkDead(session, drop, propagateErrors, a);
      if status == Success {
        status := Stamp(session, now, propagateErrors, a);
      }
    }

    /** The parts of a close, one after the other. */
    method CloseInOrder(session: nat, drop: bool, now: int, propagateErrors: bool, a: Answers) returns (status: Status)
      requires Valid() && session in busy
      modifies this`idle, this`busy, this`stamps, this`timeouts, this`deadSessions, this`dropped, this`closedAt, this`unstamped
      modifies this`freedStamps, this`freedAgain
      ensures Valid()
      ensures old(deadSessions) <= deadSessions <= old(deadSessions) + {session}
      ensures status == Failure <==> old(CloseFails(session, drop, propagateErrors, a))
      ensures status == Success ==> (session in deadSessions <==> old(WillDrop(session, drop, propagateErrors, a)))
      ensures status == Failure ==> idle == old(idle) && busy == old(busy) && dropped == old(dropped)
      ensures status == Success ==> busy == old(busy) - {session}
      ensures status == Success && session in deadSessions ==>
                idle == old(idle) && dropped == old(dropped) + {session} && session !in stamps
      ensures status == Success && session !in deadSessions ==>
                && idle == old(idle) + {session} && dropped == old(dropped)
                && closedAt == old(closedAt)[session := now]
                && (session in unstamped <==> !old(WillStamp(session, a)))
                && (session !in unstamped ==> session in stamps && stamps[session] == now)
      // which failures show that the connection is gone
      ensures propagateErrors && (a.children == Lost || a.rollback != Done) ==> session in deadSessions
      ensures propagateErrors && a.children == Done && isOpen && a.contextGet == Lost ==> session in deadSessions
      ensures (propagateErrors && a.children == Done && isOpen && a.contextGet == Done && session !in old(stamps)
               && (a.alloc == Lost || (a.alloc == Done && a.contextSet == Lost))) ==> session in deadSessions
      ensures propagateErrors && a.children == a.contextGet == a.alloc == Done && a.release == Lost ==> session in deadSessions
      ensures (session !in old(deadSessions) && !drop && a.serverNormal && (a.rollback == Done || !propagateErrors)
               && (!propagateErrors || Lost !in [a.children, a.contextGet, a.alloc, a.contextSet, a.release])) ==>
                session !in deadSessions
      ensures a.contextGet == a.alloc == a.contextSet == Done && isOpen ==> unstamped <= old(unstamped)
      ensures freedAgain == old(freedAgain)
                            + if old(CloseFreesStamp(session, drop, propagateErrors, a)) && session in old(freedStamps) then 1 else 0
      ensures session in freedStamps <==>
                && status == Failure
                && if old(CloseFreesStamp(session, drop, propagateErrors, a)) then a.contextSet != Done
                   else session in old(freedStamps)
    {
      status := BeforeRelease(session, drop, now, propagateErrors, a);
      if status == Success {
        status := ReleaseSession(session, propagateErrors, a.release);
      }
    }

    /** Closes a pooled connection. Its session goes back to the idle ones, with the present time as
        its last time used, or is dropped if the connection is dead; when a failure is reported it
        stays where it is and the close can be tried again. A stamp is freed again exactly if the context
        still names the one that an earlier close freed. */
    method Close(session: nat, drop: bool, now: int, propagateErrors: bool, a: Answers) returns (status: Status)
      requires Valid() && session in busy
      modifies this`idle, this`busy, this`stamps, this`timeouts, this`deadSessions, this`dropped, this`closedAt, this`unstamped
      modifies this`freedStamps, this`freedAgain
      ensures Valid()
      ensures old(deadSessions) <= deadSessions <= old(deadSessions) + {session}
      ensures status == Failure <==> old(CloseFails(session, drop, propagateErrors, a))
      ensures status == Success ==> (session in deadSessions <==> old(WillDrop(session, drop, propagateErrors, a)))
      ensures status == Failure ==> idle == old(idle) && busy == old(busy) && dropped == old(dropped)
      ensures status == Success ==> busy == old(busy) - {session}
      ensures status == Success && session in deadSessions ==>
                idle == old(idle) && dropped == old(dropped) + {session} && session !in stamps
      ensures status == Success && session !in deadSessions ==>
                && idle == old(idle) + {session} && dropped == old(dropped)
                && closedAt == old(closedAt)[session := now]
                && (session in unstamped <==> !old(WillStamp(session, a)))
                && (session !in unstamped ==> session in stamps && stamps[session] == now)
      // what is dropped and what is given back
      ensures status == Success && (drop || !a.serverNormal || session in old(deadSessions)) ==>
                session in dropped && session !in idle
      ensures status == Success && propagateErrors && a.rollback != Done ==> session in dropped && session !in idle
      ensures status == Success && isOpen && propagateErrors && session !in old(stamps) && a.contextSet == Lost ==>
                session in dropped && session !in idle
      ensures (status == Success && !drop && a.serverNormal && session !in old(deadSessions)
               && (!propagateErrors
                   || (a.rollback == Done && (!isOpen || session in old(stamps) || a.contextSet != Lost)))) ==>
                session in idle && session !in dropped
      // which time it is given back with
      ensures status == Success && session in idle && isOpen && a.contextGet == Done && session in old(stamps) ==>
                session in stamps && stamps[session] == now
      ensures status == Success && session in idle && isOpen && a.alloc == a.contextSet == Done ==>
                session in stamps && stamps[session] == now
      // what fails
      ensures a.children != Done ==> status == Failure
      ensures !propagateErrors && a.children == Done ==> status == Success
      ensures propagateErrors && (a.release != Done || (isOpen && a.contextGet != Done)) ==> status == Failure
      ensures (propagateErrors && isOpen && session !in old(stamps) && session !in old(deadSessions)
               && a.rollback == Done && !drop && a.serverNormal && a.alloc != Done) ==> status == Failure
      ensures a.children == a.release == Done && (!isOpen || (a.contextGet == Done && a.alloc == Done)) ==> status == Success
      ensures a.children == a.release == Done && a.contextGet == Done && (session in old(stamps) || drop) ==> status == Success
      // which failures show that the connection is gone
      ensures propagateErrors && (a.children == Lost || a.rollback != Done) ==> session in deadSessions
      ensures propagateErrors && a.children == Done && isOpen && a.contextGet == Lost ==> session in deadSessions
      ensures (propagateErrors && a.children == Done && isOpen && a.contextGet == Done && session !in old(stamps)
               && (a.alloc == Lost || (a.alloc == Done && a.contextSet == Lost))) ==> session in deadSessions
      ensures propagateErrors && a.children == a.contextGet == a.alloc == Done && a.release == Lost ==> session in deadSessions
      ensures (session !in old(deadSessions) && !drop && a.serverNormal && (a.rollback == Done || !propagateErrors)
               && (!propagateErrors || Lost !in [a.children, a.contextGet, a.alloc, a.contextSet, a.release])) ==>
                session !in deadSessions
      ensures a.contextGet == a.alloc == a.contextSet == Done && isOpen ==> unstamped <= old(unstamped)
      ensures freedAgain == old(freedAgain)
                            + if old(CloseFreesStamp(session, drop, propagateErrors, a)) && session in old(freedStamps) then 1 else 0
      ensures session in freedStamps <==>
                && status == Failure
                && if old(CloseFreesStamp(session, drop, propagateErrors, a)) then a.contextSet != Done
                   else session in old(freedStamps)
    {
      WhatIsDropped(session, drop, propagateErrors, a);
      WhatFails(session, drop, propagateErrors, a);
      status := CloseInOrder(session, drop, now, propagateErrors, a);
    }
  }

  /** A stamp is freed twice when the server is gone, the client neither takes the stamp out of the
      context nor releases the session, and the connection is then closed once more, as its own free
      procedure does. */
  method StampFreedTwice(pool: Pool, session: nat, now: int) returns (first: Status, second: Status)
    requires pool.Valid() && pool.isOpen && session in pool.busy && session in pool.stamps && session !in pool.freedStamps
    modifies pool
    ensures first == Failure && second == Success && pool.Valid()
    ensures pool.freedAgain == old(pool.freedAgain) + 1 && session !in pool.busy
  {
    var gone := Answers(Done, Done, false, Done, Done, Refused, Refused);
    first := pool.Close(session, false, now, true, gone);
    second := pool.Close(session, false, now, false, gone);
  }
}
