/** The Hoolock handover, make before break: a client moves a bond of two slaves from one pipe
    to the other, telling the controller, the plumber that starts and kills the pipes, and the
    bonding driver, in that order on the way in and on the way out. */
module Handover {
  import opened Errno
  import opened BondState
  import opened BondRing
  import BondMembers

  // ---------------------------- what an onlooker would see ---------------------------

  /** Which slave, by its place in the ring, is the active one, and whose pipes are live. */
  datatype World = World(active: int, first: bool, second: bool) {
    predicate Live(k: nat)
      requires k < 2
    {
      if k == 0 then first else second
    }

    function Set(k: nat, live: bool): World
      requires k < 2
    {
      if k == 0 then this.(first := live) else this.(second := live)
    }

    predicate TwoSlaves() {
      NULL <= active < 2
    }

    /** Frames can flow: there is an active slave and its pipe is live. */
    predicate Covered() {
      0 <= active < 2 && Live(active)
    }

    /** And over no other pipe. */
    predicate Alone() {
      Covered() && !Live(1 - active)
    }
  }

  /** The plumber starts a pipe that is not there; starting it is a fork. */
  function Made(w: World, k: nat, fork: int): (m: World)
    requires k < 2
    ensures m.active == w.active
    ensures forall i: nat :: i < 2 ==> m.Live(i) == (w.Live(i) || (i == k && fork > 0))
  {
    if w.Live(k) then w else w.Set(k, fork > 0)
  }

  /** What the user, the controller and the system answer in one turn of the client's loop:
      whether the plumber could be connected to, what its fork returned and what delivering the
      buffered packets returned. */
  datatype Round = Round(quit: bool, makeAck: bool, makeConnects: bool, fork: int,
                         breakAck: bool, delivered: int, breakConnects: bool)
  {
    predicate Makes() {
      !quit && makeAck && makeConnects
    }

    predicate Completes() {
      Makes() && breakAck && delivered >= 0 && breakConnects
    }
  }

  /** One run of the client, from its start to its exit or its death at the prompt. */
  datatype Session = Session(connects: bool, fork: int, rounds: seq<Round>)

  /** The worlds one turn of the loop goes through. */
  function Steps(w: World, r: Round): (ws: seq<World>)
    requires 0 <= w.active < 2
    ensures forall i :: 0 <= i < |ws| ==> 0 <= ws[i].active < 2
  {
    var to := 1 - w.active;
    var made := Made(w, to, r.fork);
    var moved := made.(active := to);
    if !r.Makes() then []
    else if !r.Completes() then [made, moved]
    else [made, moved, moved.Set(w.active, false)]
  }

  function Last(w: World, ws: seq<World>): World {
    if ws == [] then w else ws[|ws| - 1]
  }

  function RoundsTrace(w: World, rounds: seq<Round>): (ws: seq<World>)
    requires 0 <= w.active < 2
    ensures forall i :: 0 <= i < |ws| ==> 0 <= ws[i].active < 2
    decreases |rounds|
  {
    if rounds == [] then []
    else
      var ws := Steps(w, rounds[0]);
      ws + if rounds[0].Completes() then RoundsTrace(Last(w, ws), rounds[1..]) else []
  }

  /** From the client's first make on. */
  function SessionTrace(w: World, s: Session): (ws: seq<World>)
    requires w.TwoSlaves()
    ensures forall i :: 0 <= i < |ws| ==> 0 <= ws[i].active < 2
  {
    if w.active == NULL || !s.connects then []
    else
      var made := Made(w, w.active, s.fork);
      [made] + RoundsTrace(made, s.rounds)
  }

  function RunTrace(w: World, ss: seq<Session>): (ws: seq<World>)
    requires w.TwoSlaves()
    ensures forall i :: 0 <= i < |ws| ==> 0 <= ws[i].active < 2
    decreases |ss|
  {
    if ss == [] then []
    else
      var ws := SessionTrace(w, ss[0]);
      ws + RunTrace(Last(w, ws), ss[1..])
  }

  lemma RoundsUnfold(w: World, rounds: seq<Round>)
    requires 0 <= w.active < 2
    ensures RoundsTrace(w, []) == []
    ensures rounds != [] ==>
      var ws := Steps(w, rounds[0]);
      RoundsTrace(w, rounds) == ws + if rounds[0].Completes() then RoundsTrace(Last(w, ws), rounds[1..]) else []
  {
  }

  lemma RunUnfold(w: World, ss: seq<Session>)
    requires w.TwoSlaves()
    ensures RunTrace(w, []) == []
    ensures ss != [] ==>
      var ws := SessionTrace(w, ss[0]);
      RunTrace(w, ss) == ws + RunTrace(Last(w, ws), ss[1..])
  {
  }

  // --------------------------------- its continuity ----------------------------------

  ghost predicate AllCovered(ws: seq<World>) {
    forall i :: 0 <= i < |ws| ==> ws[i].Covered()
  }

  /** The plumber is asked for a pipe that is not there and fails to start it, but says it did. */
  predicate BlindMake(w: World, k: nat, fork: int)
    requires k < 2
  {
    !w.Live(k) && fork <= 0
  }

  ghost predicate NoBlindRound(w: World, rounds: seq<Round>)
    requires 0 <= w.active < 2
    decreases |rounds|
  {
    rounds == [] || (
      && (rounds[0].Makes() ==> !BlindMake(w, 1 - w.active, rounds[0].fork))
      && (rounds[0].Completes() ==> NoBlindRound(Last(w, Steps(w, rounds[0])), rounds[1..])))
  }

  ghost predicate NoBlindSession(w: World, s: Session)
    requires w.TwoSlaves()
  {
    w.active != NULL && s.connects ==>
      !BlindMake(w, w.active, s.fork) && NoBlindRound(Made(w, w.active, s.fork), s.rounds)
  }

  ghost predicate NoBlindRun(w: World, ss: seq<Session>)
    requires w.TwoSlaves()
    decreases |ss|
  {
    ss == [] || (NoBlindSession(w, ss[0]) && NoBlindRun(Last(w, SessionTrace(w, ss[0])), ss[1..]))
  }

  /** What a turn goes through.  Refused by the user, the controller or the plumber it does nothing.
      Then the other slave's pipe is live if it was or could be started, and the bond moves there;
      and only if the controller agrees, the buffer is delivered and the plumber answers again is
      the old pipe broken. */
  lemma TurnTells(w: World, r: Round)
    requires 0 <= w.active < 2
    ensures var ws, to := Steps(w, r), 1 - w.active;
      && (ws == [] <==> r.quit || !r.makeAck || !r.makeConnects)
      && (ws != [] ==>
            && |ws| == (if r.breakAck && r.delivered >= 0 && r.breakConnects then 3 else 2)
            && ws[0].active == w.active && ws[1].active == to
            && (forall i :: 0 <= i < 2 ==>
                  && (ws[i].Live(to) <==> w.Live(to) || r.fork > 0)
                  && (ws[i].Live(w.active) <==> w.Live(w.active))))
      && (|ws| == 3 ==> ws[2].active == to && !ws[2].Live(w.active) && (ws[2].Live(to) <==> ws[1].Live(to)))
  {
  }

  /** A turn that does not go through to its end is the last. */
  lemma UnfinishedIsLast(w: World, r: Round, rest: seq<Round>)
    requires 0 <= w.active < 2
    ensures RoundsTrace(w, [r] + rest) ==
      if r.quit || !r.makeAck || !r.makeConnects || !r.breakAck || r.delivered < 0 || !r.breakConnects then Steps(w, r)
      else Steps(w, r) + RoundsTrace(Steps(w, r)[2], rest)
  {
    assert ([r] + rest)[1..] == rest;
  }

  /** Wherever the turn stops, the active slave's pipe has been live throughout, exactly when
      the passive pipe was up or could be started. */
  lemma RoundIsCovered(w: World, r: Round)
    requires w.Covered()
    ensures AllCovered(Steps(w, r)) <==> (r.Makes() ==> !BlindMake(w, 1 - w.active, r.fork))
  {
    if r.Makes() {
      assert Steps(w, r)[1].Covered() <==> !BlindMake(w, 1 - w.active, r.fork);
    }
  }

  /** A turn that goes through leaves one pipe, the new active slave's, whatever was up before. */
  lemma CompletedIsAlone(w: World, r: Round)
    requires 0 <= w.active < 2 && r.Completes()
    ensures var end := Last(w, Steps(w, r));
      end.active == 1 - w.active && (end.Alone() <==> !BlindMake(w, 1 - w.active, r.fork))
  {
  }

  lemma {:induction false} RoundsAreCoveredIff(w: World, rounds: seq<Round>)
    requires w.Covered()
    ensures AllCovered(RoundsTrace(w, rounds)) <==> NoBlindRound(w, rounds)
    decreases |rounds|
  {
    if rounds != [] {
      var ws := Steps(w, rounds[0]);
      RoundIsCovered(w, rounds[0]);
      var rest := if rounds[0].Completes() then RoundsTrace(Last(w, ws), rounds[1..]) else [];
      CoveredConcat(ws, rest);
      if rounds[0].Completes() && AllCovered(ws) {
        RoundsAreCoveredIff(Last(w, ws), rounds[1..]);
      }
    }
  }

  lemma CoveredConcat(a: seq<World>, b: seq<World>)
    ensures AllCovered(a + b) <==> AllCovered(a) && AllCovered(b)
  {
    forall i | 0 <= i < |b| ensures (a + b)[|a| + i] == b[i] {
    }
    forall i | 0 <= i < |a| ensures (a + b)[i] == a[i] {
    }
  }

  /** From the first make on, through any number of handovers, early exits and restarts, the
      active slave's pipe is live at every step: exactly if no make was blind. */
  lemma {:induction false} RunIsCoveredIff(w: World, ss: seq<Session>)
    requires w.TwoSlaves()
    ensures AllCovered(RunTrace(w, ss)) <==> NoBlindRun(w, ss)
    decreases |ss|
  {
    if ss != [] {
      var ws := SessionTrace(w, ss[0]);
      SessionIsCoveredIff(w, ss[0]);
      CoveredConcat(ws, RunTrace(Last(w, ws), ss[1..]));
      RunIsCoveredIff(Last(w, ws), ss[1..]);
    }
  }

  lemma SessionIsCoveredIff(w: World, s: Session)
    requires w.TwoSlaves()
    ensures AllCovered(SessionTrace(w, s)) <==> NoBlindSession(w, s)
  {
    if w.active != NULL && s.connects {
      var made := Made(w, w.active, s.fork);
      CoveredConcat([made], RoundsTrace(made, s.rounds));
      assert AllCovered([made]) <==> [made][0].Covered();
      if made.Covered() {
        RoundsAreCoveredIff(made, s.rounds);
      }
    }
  }

  ghost predicate ForksSucceed(ss: seq<Session>) {
    forall s :: s in ss ==> s.fork > 0 && forall r :: r in s.rounds ==> r.fork > 0
  }

  lemma {:induction false} RoundsWithForks(w: World, rounds: seq<Round>)
    requires 0 <= w.active < 2 && forall r :: r in rounds ==> r.fork > 0
    ensures NoBlindRound(w, rounds)
    decreases |rounds|
  {
    if rounds != [] && rounds[0].Completes() {
      RoundsWithForks(Last(w, Steps(w, rounds[0])), rounds[1..]);
    }
  }

  lemma {:induction false} EveryStepIsCovered(w: World, ss: seq<Session>)
    requires w.TwoSlaves() && ForksSucceed(ss)
    ensures AllCovered(RunTrace(w, ss))
  {
    RunWithForks(w, ss);
    RunIsCoveredIff(w, ss);
  }

  lemma {:induction false} RunWithForks(w: World, ss: seq<Session>)
    requires w.TwoSlaves() && ForksSucceed(ss)
    ensures NoBlindRun(w, ss)
    decreases |ss|
  {
    if ss != [] {
      assert ss[0] in ss;
      if w.active != NULL && ss[0].connects {
        RoundsWithForks(Made(w, w.active, ss[0].fork), ss[0].rounds);
      }
      RunWithForks(Last(w, SessionTrace(w, ss[0])), ss[1..]);
    }
  }

  // ----------------------------------- the plumber -----------------------------------

  function CharAt(s: string, i: nat): char {
    if i < |s| then s[i] else '\0'
  }

  class Plumber {
    var eth0Pid: int
    var eth1Pid: int

    constructor ()
      ensures Valid() && eth0Pid == eth1Pid == -1
    {
      eth0Pid, eth1Pid := -1, -1;
    }

    // fork returns 0 only in the child
    ghost predicate Valid()
      reads this
    {
      eth0Pid != 0 && eth1Pid != 0
    }

    ghost predicate Live(port: char)
      reads this
    {
      (port == '0' && eth0Pid > 0) || (port == '1' && eth1Pid > 0)
    }

    /** One command.  A make of a pipe that has a process is ignored, a break kills whatever
        there is, anything else does nothing; the answer is always the same. */
    method Serve(buffer: string, fork: int) returns (answer: string)
      requires Valid() && fork != 0
      modifies this
      ensures Valid() && answer == "Plumber executed the command!"
      ensures "make" <= buffer ==> forall port: char ::
        Live(port) == (old(Live(port)) || (port == CharAt(buffer, 5) && port in {'0', '1'} && fork > 0))
      ensures !("make" <= buffer) && "break" <= buffer ==> forall port: char ::
        Live(port) == (old(Live(port)) && port != CharAt(buffer, 6))
      ensures !("make" <= buffer) && !("break" <= buffer) ==> eth0Pid == old(eth0Pid) && eth1Pid == old(eth1Pid)
    {
      if "make" <= buffer {
        if CharAt(buffer, 5) == '0' {
          if eth0Pid < 0 {
            eth0Pid := fork;
          }
        } else if CharAt(buffer, 5) == '1' {
          if eth1Pid < 0 {
            eth1Pid := fork;
          }
        }
      } else if "break" <= buffer {
        if CharAt(buffer, 6) == '0' {
          eth0Pid := -1;
        } else if CharAt(buffer, 6) == '1' {
          eth1Pid := -1;
        }
      }
      return "Plumber executed the command!";
    }
  }

  // ------------------------------------ the client -----------------------------------

  datatype Status = Running | Exit(code: int)

  class Client {
    const bond: Bonding
    const plumber: Plumber
    const name: nat -> string   // a device's interface name

    constructor (bond: Bonding, plumber: Plumber, name: nat -> string)
      ensures this.bond == bond && this.plumber == plumber && this.name == name
    {
      this.bond, this.plumber, this.name := bond, plumber, name;
    }

    /** The fourth character of the slave's name, by which the plumber knows its pipe. */
    ghost function Port(k: nat): char
      requires k < |bond.ring|
      reads bond
    {
      CharAt(name(bond.ring[k].dev), 3)
    }

    /** A bond of two slaves, eth0 and eth1 in either order. */
    ghost predicate Valid()
      reads bond, bond.ring, plumber
    {
      && bond.Valid() && plumber.Valid() && |bond.ring| == 2
      && Port(0) in {'0', '1'} && Port(1) in {'0', '1'} && Port(0) != Port(1)
    }

    ghost function Seen(): World
      requires Valid()
      reads bond, bond.ring, plumber
      ensures Seen().TwoSlaves()
    {
      World.World(bond.view.active, plumber.Live(Port(0)), plumber.Live(Port(1)))
    }

    lemma TwoPorts()
      requires Valid()
      ensures |bond.ring| == 2
    {
    }

    /** SIOCBONDHOOLOCKGETACTIVE. */
    method GetActive() returns (ret: int, slave: string)
      requires Valid()
      ensures ret == if Seen().active == NULL then -EFAULT else 0
      ensures Seen().active != NULL ==> CharAt(slave, 3) == Port(Seen().active)
    {
      slave := "";
      if bond.active == null {
        return -EFAULT, slave;
      }
      return 0, name(bond.active.dev);
    }

    /** SIOCBONDHOOLOCKGETPASSIVE: the first slave in the ring that is not the active one. */
    method GetPassive() returns (ret: int, slave: string)
      requires Valid() && Seen().active != NULL
      ensures ret == 0 && CharAt(slave, 3) == Port(1 - Seen().active)
    {
      slave := "";
      var s := bond.first;
      var i := 0;
      while i < bond.cnt
        invariant 0 <= i <= 2
        invariant i < 2 ==> s == bond.ring[i]
        invariant i == 0 || (i == 1 && bond.active == bond.ring[0])
      {
        if s != bond.active {
          return 0, name(s.dev);
        }
        s := s.next;
        i := i + 1;
      }
      return -EFAULT, slave;
    }

    method MakePipe(slave: string, fork: int, ghost k: nat)
      requires Valid() && k < 2 && CharAt(slave, 3) == Port(k) && fork != 0
      modifies plumber
      ensures Valid() && Seen() == Made(old(Seen()), k, fork)
    {
      var command := "make " + [CharAt(slave, 3)];
      assert "make" <= command && CharAt(command, 5) == CharAt(slave, 3);
      var _ := plumber.Serve(command, fork);
    }

    method BreakPipe(slave: string, ghost k: nat)
      requires Valid() && k < 2 && CharAt(slave, 3) == Port(k)
      modifies plumber
      ensures Valid() && Seen() == old(Seen()).Set(k, false)
    {
      var command := "break " + [CharAt(slave, 3)];
      assert command[0] == 'b' && "break" <= command && CharAt(command, 6) == CharAt(slave, 3);
      var _ := plumber.Serve(command, -1);
    }

    /** SIOCBONDHOOLOCKMAKE moves the bond to the slave that is not active. */
    method BondMake()
      requires Valid() && Seen().active != NULL
      modifies bond, bond.ring
      ensures bond.ring == old(bond.ring) && Valid()
      ensures Seen() == old(Seen()).(active := 1 - old(Seen()).active) && bond.bufferMode
    {
      BondMembers.IoctlMake(bond);
    }

    /** SIOCBONDHOOLOCKBREAK, with what delivering the buffer came to. */
    method BondBreak(delivered: int) returns (ret: int)
      requires Valid()
      modifies bond`bufferMode
      ensures Valid() && Seen() == old(Seen()) && ret == delivered && !bond.bufferMode
    {
      bond.bufferMode := false;
      return delivered;
    }

    /** Up to and with the first link. */
    method Start(connects: bool, fork: int) returns (status: Status, ghost trace: seq<World>)
      requires Valid() && fork != 0
      modifies plumber
      ensures Valid() && Seen() == Last(old(Seen()), trace)
      ensures if old(Seen()).active == NULL then status == Exit(-1) && trace == []
              else if !connects then status == Exit(1) && trace == []
              else status == Running && trace == [Made(old(Seen()), old(Seen()).active, fork)]
    {
      trace := [];
      var ret, act := GetActive();
      if ret < 0 {
        return Exit(-1), trace;
      }
      if !connects {
        return Exit(1), trace;
      }
      MakePipe(act, fork, Seen().active);
      trace := trace + [Seen()];
      status := Running;
    }

    /** One turn of the loop. */
    method Turn(r: Round) returns (status: Status, ghost trace: seq<World>)
      requires Valid() && Seen().active != NULL && r.fork != 0
      modifies plumber, bond, bond.ring
      ensures bond.ring == old(bond.ring) && Valid()
      ensures trace == Steps(old(Seen()), r) && Seen() == Last(old(Seen()), trace)
      ensures status ==
        if r.quit then Exit(0)
        else if !r.makeAck then Exit(-1)
        else if !r.makeConnects then Exit(1)
        else if !r.breakAck || r.delivered < 0 then Exit(-1)
        else if !r.breakConnects then Exit(1)
        else Running
      // a client that stops after the make and before the break leaves the bond buffering
      ensures bond.bufferMode ==
        if r.quit || !r.makeAck || !r.makeConnects then old(bond.bufferMode) else !r.breakAck
    {
      hide Client.Valid, Client.Seen, Bonding.Valid, Made;
      trace := [];
      ghost var from := Seen().active;
      TwoPorts();
      var ret, act := GetActive();
      if ret < 0 {
        return Exit(-1), trace;
      }
      var pas;
      ret, pas := GetPassive();
      if ret < 0 {
        return Exit(-1), trace;
      }
      if r.quit {
        return Exit(0), trace;
      }
      if !r.makeAck {
        return Exit(-1), trace;
      }
      if !r.makeConnects {
        return Exit(1), trace;
      }
      MakePipe(pas, r.fork, 1 - from);
      trace := trace + [Seen()];
      BondMake();
      trace := trace + [Seen()];
      if !r.breakAck {
        return Exit(-1), trace;
      }
      ret := BondBreak(r.delivered);
      if ret < 0 {
        return Exit(-1), trace;
      }
      if !r.breakConnects {
        return Exit(1), trace;
      }
      BreakPipe(act, from);
      trace := trace + [Seen()];
      status := Running;
    }

    /** After the first `k` turns from `w` the worlds `done` have been gone through, and the rest will
        be if the client is running. */
    ghost predicate OnCourse(w: World, rounds: seq<Round>, k: nat, done: seq<World>, running: bool, now: World) {
      && 0 <= w.active < 2 && 0 <= now.active < 2 && k <= |rounds| && now == Last(w, done)
      && RoundsTrace(w, rounds) == done + if running then RoundsTrace(now, rounds[k..]) else []
    }

    lemma CourseStarts(w: World, rounds: seq<Round>)
      requires 0 <= w.active < 2
      ensures OnCourse(w, rounds, 0, [], true, w)
    {
      assert rounds[0..] == rounds;
    }

    lemma CourseGoesOn(w: World, rounds: seq<Round>, k: nat, done: seq<World>, now: World)
      requires OnCourse(w, rounds, k, done, true, now) && k < |rounds|
      ensures var step := Steps(now, rounds[k]);
        OnCourse(w, rounds, k + 1, done + step, rounds[k].Completes(), Last(now, step))
    {
      hide Steps;
      RoundsUnfold(now, rounds[k..]);
      hide RoundsTrace;
      assert rounds[k..][0] == rounds[k] && rounds[k..][1..] == rounds[k + 1..];
    }

    lemma CourseEnds(w: World, rounds: seq<Round>, k: nat, done: seq<World>, running: bool, now: World)
      requires OnCourse(w, rounds, k, done, running, now) && (running ==> k == |rounds|)
      ensures done == RoundsTrace(w, rounds) && now == Last(w, done)
    {
      if running {
        assert rounds[k..] == [];
        RoundsUnfold(now, []);
      }
    }

    /** The client's main, for as long as it gets. */
    method Session(s: Session) returns (ghost trace: seq<World>)
      requires Valid() && s.fork != 0 && forall r :: r in s.rounds ==> r.fork != 0
      modifies plumber, bond, bond.ring
      ensures bond.ring == old(bond.ring) && Valid()
      ensures trace == SessionTrace(old(Seen()), s) && Seen() == Last(old(Seen()), trace)
    {
      hide Client.Valid, Client.Seen, Bonding.Valid, Made, RoundsTrace;
      var status;
      status, trace := Start(s.connects, s.fork);
      if status != Running {
        return;
      }
      ghost var rest := Rounds(s.rounds);
      trace := trace + rest;
    }

    /** The loop in it. */
    method Rounds(rounds: seq<Round>) returns (ghost trace: seq<World>)
      requires Valid() && Seen().active != NULL && forall r :: r in rounds ==> r.fork != 0
      modifies plumber, bond, bond.ring
      ensures bond.ring == old(bond.ring) && Valid()
      ensures trace == RoundsTrace(old(Seen()), rounds) && Seen() == Last(old(Seen()), trace)
    {
      ghost var w := Seen();
      CourseStarts(w, rounds);
      hide Client.Valid, Client.Seen, Bonding.Valid, Steps, RoundsTrace, Client.OnCourse;
      trace := [];
      var status := Running;
      var k := 0;
      while status == Running && k < |rounds|
        invariant 0 <= k <= |rounds| && bond.ring == old(bond.ring) && Valid() && Seen().active != NULL
        invariant OnCourse(w, rounds, k, trace, status == Running, Seen())
      {
        CourseGoesOn(w, rounds, k, trace, Seen());
        ghost var step;
        status, step := Turn(rounds[k]);
        trace := trace + step;
        k := k + 1;
      }
      CourseEnds(w, rounds, k, trace, status == Running, Seen());
    }

    /** The client started again and again: what the world goes through is the run, so it is
        covered at every step exactly when no make is blind. */
    method Sessions(ss: seq<Session>) returns (ghost trace: seq<World>)
      requires Valid()
      requires forall s :: s in ss ==> s.fork != 0 && forall r :: r in s.rounds ==> r.fork != 0
      modifies plumber, bond, bond.ring
      ensures bond.ring == old(bond.ring) && Valid()
      ensures trace == RunTrace(old(Seen()), ss) && Seen() == Last(old(Seen()), trace)
      ensures AllCovered(trace) <==> NoBlindRun(old(Seen()), ss)
    {
      hide Client.Valid, Client.Seen, Bonding.Valid, Steps, Made, SessionTrace, RunTrace, NoBlindRun, AllCovered;
      ghost var start := Seen();
      trace := [];
      for k := 0 to |ss|
        invariant bond.ring == old(bond.ring) && Valid() && Seen() == Last(start, trace)
        invariant RunTrace(start, ss) == trace + RunTrace(Seen(), ss[k..])
      {
        assert ss[k..][0] == ss[k] && ss[k..][1..] == ss[k + 1..];
        RunUnfold(Seen(), ss[k..]);
        ghost var step := Session(ss[k]);
        trace := trace + step;
      }
      RunUnfold(Seen(), []);
      RunIsCoveredIff(start, ss);
    }
  }
}
