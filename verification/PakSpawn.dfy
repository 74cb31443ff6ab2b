/** The supervisor that runs one pak in a session of its own and does not leave while that session has a process. */
module PakSpawn {
  import opened Bytes
  import opened ProcTable
  import opened PakLog

  const CLEANUP_FAILED := 125

  // ---- Exit codes ---------------------------------------------------------

  /** child_status, of the status word that waitpid stores. */
  function ChildStatus(st: nat): int {
    if st % 128 == 0 then
      var rc := st / 256 % 256;
      if rc == CLEANUP_FAILED then 126 else rc
    else if st % 128 != 127 then 128 + st % 128
    else 1
  }

  /** The status word of a process that exited with code, or was killed by a signal. */
  function ExitWord(code: nat): nat { code * 256 }
  function SignalWord(signal: nat, dumped: bool): nat { signal + if dumped then 128 else 0 }

  /** No status is reported as 125; other codes are passed on, and a killing signal as 128 more. */
  lemma ChildStatusMeans(st: nat, code: nat, signal: nat, dumped: bool)
    requires code < 256 && 0 < signal < 127
    ensures 0 <= ChildStatus(st) < 256 && ChildStatus(st) != CLEANUP_FAILED
    ensures ChildStatus(ExitWord(code)) == if code == CLEANUP_FAILED then 126 else code
    ensures ChildStatus(SignalWord(signal, dumped)) == 128 + signal
  {
    assert ExitWord(code) % 128 == 0 && ExitWord(code) / 256 == code by { assert ExitWord(code) == 128 * (2 * code); }
  }

  /** The status that the wait left behind: zero when there was no child to wait for. */
  function StatusOf(act: Act): nat {
    if act.Waited? && act.got.Reaped? then act.got.status else 0
  }

  /** The code that the log calls for; None while the supervisor is still waiting. */
  ghost predicate Ended(code: Option<int>, complete: bool, log: Log, pak: Id) {
    if log == [] then code == Some(if complete then 127 else 2)
    else if EndsWaiting(log, Interrupted) then code == None
    else if EndsWaiting(log, Failed) then code == Some(127)
    else if !CleanedUp(log, pak) then code == Some(CLEANUP_FAILED)
    else if Did(log, Unheard) || Did(log, Unpublished) then code == Some(127)
    else if Did(log, StopAsked) then code == Some(128 + SIGTERM)
    else
      && Did(log, Introduced(pak.start))
      && exists c :: WaitOver(log, c) && code == Some(ChildStatus(StatusOf(log[c].act)))
  }

  /** 125 stands for failed cleanup and for nothing else, whatever the pak's own status. */
  lemma FailureCodeIff(code: Option<int>, complete: bool, log: Log, pak: Id)
    requires Ended(code, complete, log, pak)
    ensures code == Some(CLEANUP_FAILED) <==>
      log != [] && !EndsWaiting(log, Interrupted) && !EndsWaiting(log, Failed) && !CleanedUp(log, pak)
  {
    hide CleanedUp, WaitOver, Did, EndsWaiting, ChildStatus;
    forall st: nat ensures ChildStatus(st) != CLEANUP_FAILED {
      ChildStatusMeans(st, 0, 1, false);
    }
  }

  // ---- The supervisor -----------------------------------------------------

  const NoInfo := Info(0, 0, 0, false, 0)

  class Supervisor {
    var table: Table
    const me: int
    /** child_pid, zero before the fork; its zombie stays in the table until it is waited for. */
    var child: int
    var unreaped: bool
    ghost const ours: int
    ghost var childStart: nat
    ghost var log: Log
    ghost var pauses: nat
    ghost var waits: nat

    ghost function Pak(): Id
      reads this
    {
      Id(child, childStart)
    }

    ghost predicate Valid()
      reads this
    {
      && WellFormed(table) && me in table.procs && table.procs[me].info.sid == ours > 0
      && Honest(log, table, Pak(), ours) && pauses == Pauses(log) && waits == Waits(log)
      && (child == 0 ==> !unreaped && log == [])
      && (child != 0 ==>
            && child > 1 && child != me && child != ours && child != table.procs[me].info.pgid && Pak() in table.used
            && log != [] && log[0].act == Forked(Pak())
            && (unreaped <==> Has(table, Pak())) && (unreaped <==> !Collected(log)))
    }

    constructor (table: Table, me: int)
      requires WellFormed(table) && me in table.procs && table.procs[me].info.sid > 0
      ensures Valid() && this.table == table && this.me == me && ours == table.procs[me].info.sid
      ensures child == 0 && log == []
    {
      this.table, this.me, child, unreaped := table, me, 0, false;
      ours, childStart, log, pauses, waits := table.procs[me].info.sid, 0, [], 0, 0;
    }

    /** Other processes run: any number of events, in any order. */
    method Others()
      requires Valid()
      modifies this`table
      ensures Valid() && Later(old(table), table)
    {
      hide Honest, Pauses, Waits, Collected;
      var events: seq<Event> := *;
      var held := if unreaped then child else 0;
      if CanHappen(table, events, me, held) {
        RunKeeps(table, events, me, held);
        Settles(After(table, events, me, held));
        HonestLater(log, table, After(table, events, me, held), Pak(), ours);
        table := After(table, events, me, held);
      } else {
        LaterReflexive(table);
      }
    }

    lemma Settles(t: Table)
      requires Valid() && WellFormed(t) && Later(table, t) && me in t.procs && t.procs[me] == table.procs[me]
      requires unreaped ==> child in t.procs && IdOf(t.procs[child].info) == IdOf(table.procs[child].info)
      ensures child != 0 ==> Pak() in t.used && (unreaped <==> Has(t, Pak()))
    {
      hide Over, Quiet, Honest, Pauses, Waits, Collected;
    }

    /** Writes the call that was just made into the log. */
    ghost method Record(act: Act)
      requires Valid() && child != 0 && Truthful(Step(table, act), log, Pak(), ours) && act != Slept && !act.Waited?
      modifies this`log
      ensures Valid() && log == old(log) + [Step(table, act)]
    {
      hide Honest, WellFormed, Truthful, Pauses, Waits;
      HonestGrows(log, Step(table, act), Pak(), ours);
      CountsGrow(log, Step(table, act));
      assert Collected(log + [Step(table, act)]) <==> Collected(log) by { CollectedGrows(log, Step(table, act)); }
      log := log + [Step(table, act)];
    }

    /** read_info: 1 and the entry, 0 for no such process, -1 for an error. */
    method ReadInfo(pid: int) returns (rc: int, info: Info)
      requires Valid() && child != 0
      modifies this`table, this`log
      ensures Valid() && Later(old(table), table) && (rc == 1 || rc == 0 || rc == -1)
      ensures log == old(log) +
        [Step(table, if rc == 1 then Read(pid, Some(info)) else if rc == 0 then Read(pid, None) else Fault)]
      ensures rc == 1 ==> Shows(table, info) && info.pid == pid
      ensures rc == 0 ==> pid !in table.procs
      ensures pid <= 0 ==> rc == -1
    {
      hide Later, Honest, Collected, Pauses, Waits;
      Others();
      var error: bool := *;
      if pid <= 0 || error {
        Record(Fault);
        return -1, NoInfo;
      }
      if pid in table.procs {
        Record(Read(pid, Some(table.procs[pid].info)));
        return 1, table.procs[pid].info;
      }
      Record(Read(pid, None));
      return 0, NoInfo;
    }

    /** own_session */
    method OwnSession(leader: int) returns (own: bool)
      requires Valid()
      ensures own <==> leader <= 1 || leader == ours || leader == table.procs[me].info.pgid
    {
      if leader <= 1 {
        return true;
      }
      var sid := table.procs[me].info.sid;
      return sid > 0 && (leader == sid || leader == table.procs[me].info.pgid);
    }

    /** leader_session_state: one read decides. */
    method LeaderSessionState(leader: int, start: nat) returns (rc: int)
      requires Valid() && child != 0
      modifies this`table, this`log
      ensures Valid() && Later(old(table), table) && (rc == 1 || rc == 0 || rc == -1)
      ensures |log| == |old(log)| + 1 && old(log) <= log && log[|old(log)|].table == table
      ensures var act := log[|old(log)|].act;
        && (act == Fault || (act.Read? && act.pid == leader && (act.seen.Some? ==> act.seen.value.pid == leader)))
        && (rc >= 0 <==> LeaderFine(act, leader, start))
        && (rc == 1 <==> act == Read(leader, Some(Info(leader, leader, leader, false, start))))
      ensures rc == 1 ==> Shows(table, Info(leader, leader, leader, false, start))
    {
      hide Later, Honest, Collected, Pauses, Waits;
      var read, info := ReadInfo(leader);
      if read < 0 {
        return -1;
      }
      if read == 0 {
        return 0;
      }
      if info.start != start {
        return -1;
      }
      if info.zombie {
        return 0;
      }
      if info.pgid != leader || info.sid != leader {
        return -1;
      }
      return 1;
    }

    /** One turn of the readdir loop of collect_members: what the name adds to the list, or an error. */
    method ScanOne(pid: int, leader: int) returns (goOn: bool, found: seq<Info>)
      requires Valid() && child != 0 && leader > 1 && leader != ours
      modifies this`table, this`log
      ensures Valid() && Later(old(table), table)
      ensures goOn ==> found == if LiveMember(table, pid, leader) then [table.procs[pid].info] else []
      ensures goOn ==> old(log) <= log && found == Found(log[|old(log)|..], leader) && |log| <= |old(log)| + 1
      ensures goOn ==> forall i :: |old(log)| <= i < |log| ==> log[i].act.Read?
      ensures !goOn ==> |log| > |old(log)| && old(log) <= log
      ensures !goOn ==> log[|log| - 1] == Step(table, Fault) && OnlyLooks(log, |old(log)|)
    {
      hide Later, Honest, Collected, Pauses, Waits;
      if pid <= 1 || pid == me || pid == leader {
        LaterReflexive(table);
        return true, [];
      }
      var read, info := ReadInfo(pid);
      FoundOne(log[|old(log)|], leader);
      assert log[|old(log)|..] == [log[|old(log)|]];
      if read < 0 {
        return false, [];
      }
      if read == 0 {
        return true, [];
      }
      if info.sid != leader || info.zombie {
        return true, [];
      }
      var noMemory: bool := *;
      if noMemory {
        Record(Fault);
        return false, [];
      }
      return true, [info];
    }

    /** The end of the directory: without an error, every process that was there all along has been returned. */
    method EndOfDirectory(origin: Table, names: seq<int>) returns (ok: bool)
      requires Valid() && child != 0
      modifies this`table, this`log
      ensures Valid() && Later(old(table), table)
      ensures log == old(log) + [Step(table, if ok then Listed else Fault)]
      ensures ok ==> forall p :: p in table.procs && IdOf(table.procs[p].info) in origin.used ==> p in names
    {
      hide Later, Honest, Collected, Pauses, Waits;
      Others();
      var error: bool := *;
      ok := !error && forall p :: p in table.procs && IdOf(table.procs[p].info) in origin.used ==> p in names;
      Record(if ok then Listed else Fault);
    }

    /** The readdir loop of collect_members, from the opened directory to the closed one. */
    method ScanNames(leader: int) returns (ok: bool, members: seq<Info>)
      requires Valid() && child != 0 && leader > 1 && leader != ours && log[|log| - 1] == Step(table, Listing)
      modifies this`table, this`log
      ensures Valid() && Later(old(table), table) && old(log) <= log
      ensures |log| > |old(log)| && log[|log| - 1].table == table
      ensures ok ==> log[|log| - 1].act == Listed && forall i :: |old(log)| <= i < |log| - 1 ==> log[i].act.Read?
      ensures ok ==> members == Found(log[|old(log)| - 1..], leader) && Complete(old(table), table, leader, members)
      ensures !ok ==> log[|log| - 1].act == Fault && OnlyLooks(log, |old(log)|)
    {
      hide Later, Honest, Collected, Pauses, Waits, WellFormed, Found, IsMember;
      var origin := table;
      ghost var o := |log| - 1;
      members := [];
      var names: seq<int> := *;
      LaterReflexive(table);
      FoundOne(log[o], leader);
      assert log[o..] == [log[o]];
      var k := 0;
      while k < |names|
        invariant 0 <= k <= |names| && Valid() && Later(origin, table) && old(log) <= log
        invariant forall i :: |old(log)| <= i < |log| ==> log[i].act.Read?
        invariant members == Found(log[o..], leader) && Covered(origin, table, names[..k], leader, members)
      {
        ghost var t, before := table, log;
        var goOn, found := ScanOne(names[k], leader);
        if !goOn {
          LaterTransitive(origin, t, table);
          return false, members;
        }
        CoveredGrows(origin, t, table, names[..k], names[k], leader, members, found);
        assert names[..k + 1] == names[..k] + [names[k]];
        FoundAppends(before[o..], log[|before|..], leader);
        assert log[o..] == before[o..] + log[|before|..];
        members := members + found;
        k := k + 1;
      }
      ghost var t, before := table, log;
      ok := EndOfDirectory(origin, names);
      LaterUsed(origin, t);
      assert names[..k] == names;
      StillCovered(origin, t, table, names, leader, members);
      LaterTransitive(origin, t, table);
      FoundGrows(before[o..], log[|before|], leader);
      assert log[o..] == before[o..] + [log[|before|]];
    }

    /** collect_members from opendir on; o is the log index at which the directory was opened. */
    method ScanDirectory(leader: int, start: nat) returns (rc: int, members: seq<Info>, ghost o: nat)
      requires Valid() && child != 0 && leader > 1 && leader != ours
      modifies this`table, this`log
      ensures Valid() && old(log) <= log && OnlyLooks(log, |old(log)|)
      ensures rc == 0 || (rc == -1 && members == [])
      ensures rc == 0 ==> |old(log)| == o && Scanned(log, o, |log|, leader, start)
      ensures rc == 0 ==> members == Found(log[o..], leader)
      ensures rc == 0 ==> NoFault(log, |old(log)|) && log[|log| - 1].table == table
      ensures rc == -1 ==> EndsBadly(log, |old(log)|, leader, start)
    {
      hide Later, Honest, Collected, Pauses, Waits, WellFormed, Found, IsMember, Complete, Scanned;
      o := |log|;
      Others();
      var readable: bool := *;
      if !readable {
        Record(Fault);
        return -1, [], o;
      }
      Record(Listing);
      var ok;
      ghost var origin := table;
      ok, members := ScanNames(leader);
      if !ok {
        return -1, [], o;
      }
      ghost var before := log;
      assert before[o] == Step(origin, Listing);
      var state := LeaderSessionState(leader, start);
      if state < 0 {
        return -1, [], o;
      }
      ScanCloses(before, log, o, leader, start, members);
      rc := 0;
    }

    /** collect_members */
    method CollectMembers(leader: int, start: nat) returns (rc: int, members: seq<Info>, ghost o: nat)
      requires Valid() && child != 0
      modifies this`table, this`log
      ensures Valid() && old(log) <= log && OnlyLooks(log, |old(log)|)
      ensures rc == 0 || (rc == -1 && members == [])
      ensures rc == 0 ==> leader > 1 && leader != ours && |old(log)| <= o && Scanned(log, o, |log|, leader, start)
      ensures rc == 0 ==> members == Found(log[o..], leader)
      ensures rc == 0 ==> NoFault(log, |old(log)|) && log[|log| - 1].table == table
      ensures rc == -1 ==>
        || EndsBadly(log, |old(log)|, leader, start)
        || (log == old(log) && (leader <= 1 || leader == ours || leader == table.procs[me].info.pgid))
    {
      hide Later, Honest, Collected, Pauses, Waits, WellFormed, Found, IsMember, Complete;
      var own := OwnSession(leader);
      if own {
        return -1, [], 0;
      }
      var state := LeaderSessionState(leader, start);
      if state < 0 {
        return -1, [], 0;
      }
      rc, members, o := ScanDirectory(leader, start);
    }

    /** session_busy */
    method SessionBusy(leader: int, start: nat) returns (rc: int, ghost o: nat)
      requires Valid() && child != 0
      modifies this`table, this`log
      ensures Valid() && old(log) <= log && OnlyLooks(log, |old(log)|)
      ensures rc == 1 || rc == 0 || rc == -1
      ensures rc >= 0 ==> |old(log)| <= o && NoFault(log, |old(log)|) && log[|log| - 1].table == table
      ensures rc == 0 ==> EmptyScan(log, o, |log|, leader, start)
      ensures rc == 1 ==> BusyScan(log, o, |log|, leader, start)
      ensures rc == -1 ==>
        || EndsBadly(log, |old(log)|, leader, start)
        || (log == old(log) && (leader <= 1 || leader == ours || leader == table.procs[me].info.pgid))
    {
      hide Honest, Collected, Pauses, Waits, WellFormed, Found, Complete, LeaderFine, EndsBadly;
      var got, members;
      got, members, o := CollectMembers(leader, start);
      if got != 0 {
        return -1, o;
      }
      assert log[o..|log|] == log[o..];
      return if |members| > 0 then 1 else 0, o;
    }

    /** pidfd_open: a handle on the incarnation that has the PID now. */
    method PidfdOpen(pid: int) returns (ok: bool, gone: bool, fd: Id)
      requires Valid() && child != 0
      modifies this`table, this`log
      ensures Valid() && Later(old(table), table) && !(ok && gone)
      ensures log ==
              old(log) + [Step(table, if ok then Bound(pid, Some(fd)) else if gone then Bound(pid, None) else Fault)]
      ensures ok ==> pid in table.procs && fd == IdOf(table.procs[pid].info) && fd.pid == pid
      ensures gone ==> pid !in table.procs
    {
      hide Later, Honest, Collected, Pauses, Waits;
      Others();
      var error: bool := *;
      if pid !in table.procs {
        Record(Bound(pid, None));
        return false, true, Id(0, 0);
      }
      if error {
        Record(Fault);
        return false, false, Id(0, 0);
      }
      fd := IdOf(table.procs[pid].info);
      Record(Bound(pid, Some(fd)));
      return true, false, fd;
    }

    /** The second read shows that the handle is on the incarnation of the first. */
    lemma SameIncarnation(first: Table, bound: Table, checked: Table, info: Info)
      requires WellFormed(first) && WellFormed(checked) && Later(first, bound) && Later(bound, checked)
      requires info.pid in first.procs && SameProcess(info, first.procs[info.pid].info)
      requires info.pid in checked.procs && SameProcess(info, checked.procs[info.pid].info) && info.pid in bound.procs
      ensures IdOf(bound.procs[info.pid].info) == IdOf(info)
    {
      hide Over, Quiet;
    }

    /** pidfd_send_signal: reaches that incarnation or nobody. The process was checked to be known just before. */
    method SendTo(fd: Id, known: Info, number: int, ghost checked: Table) returns (rc: int)
      requires Valid() && child != 0 && fd == IdOf(known) && known.sid == child && WasRead(log, known)
      requires WellFormed(checked) && Later(checked, table) && me in checked.procs && checked.procs[me].info.sid == ours
      requires known.pid in checked.procs && SameProcess(known, checked.procs[known.pid].info) && Pak() in checked.used
      modifies this`table, this`log
      ensures Valid() && (rc == 1 || rc == 0 || rc == -1)
      ensures var act := if rc == 1 then Sent(known, fd, number) else if rc == 0 then Vanished(fd) else Fault;
              log == old(log) + [Step(table, act)]
    {
      hide Later, Honest, Collected, Pauses, Waits, WellFormed;
      ghost var t := table;
      Others();
      LaterTransitive(checked, t, table);
      var error: bool := *;
      if fd.pid !in table.procs || IdOf(table.procs[fd.pid].info) != fd {
        Record(Vanished(fd));
        return 0;
      }
      if error {
        Record(Fault);
        return -1;
      }
      HitsMember(checked, Step(table, Sent(known, fd, number)));
      Record(Sent(known, fd, number));
      return 1;
    }

    lemma HitsMember(checked: Table, s: Step)
      requires Valid() && child != 0 && WellFormed(checked) && Later(checked, table) && s.table == table && s.act.Sent?
      requires s.act.target == IdOf(s.act.known) && s.act.known.sid == child
      requires WasRead(log, s.act.known) && Pak() in checked.used
      requires s.act.known.pid in checked.procs && SameProcess(s.act.known, checked.procs[s.act.known.pid].info)
      requires me in checked.procs && checked.procs[me].info.sid == ours && Has(table, s.act.target)
      ensures Allowed(s, log, Pak(), ours)
    {
      hide Over, Quiet, LeadsIfNamed, Honest, WasRead, Collected, Pauses, Waits;
      var p := s.act.target.pid;
      StaysOutside(checked, table, me, p);
      assert Kept(checked.procs[p], table.procs[p]);
      SessionIsUnique(checked, p, Pak());
    }

    /** signal_verified, of a process read as one of the child's session */
    method SignalVerified(expected: Info, number: int) returns (rc: int)
      requires Valid() && child != 0 && expected.sid == child && WasRead(log, expected)
      modifies this`table, this`log
      ensures Valid() && old(log) <= log && |log| > |old(log)| && (rc == 1 || rc == 0 || rc == -1)
      ensures forall i :: |old(log)| <= i < |log| - 1 ==> log[i].act.Read? || log[i].act.Bound?
      ensures var act := log[|log| - 1].act;
        && (rc == 1 <==> act == Sent(expected, IdOf(expected), number))
        && (rc == 0 <==> Slip(act, expected))
        && (rc == -1 <==> act == Fault)
    {
      hide Later, Honest, Collected, Pauses, Waits, WellFormed;
      var read, info := ReadInfo(expected.pid);
      if read < 0 {
        return -1;
      }
      if read == 0 || !SameProcess(expected, info) {
        return 0;
      }
      ghost var first := table;
      var ok, gone, fd := PidfdOpen(expected.pid);
      if !ok {
        return if gone then 0 else -1;
      }
      ghost var bound := table;
      read, info := ReadInfo(expected.pid);
      if read <= 0 || !SameProcess(expected, info) {
        return if read < 0 then -1 else 0;
      }
      SameIncarnation(first, bound, table, expected);
      LaterReflexive(table);
      StillRead(old(log), log, expected);
      rc := SendTo(fd, expected, number, table);
    }

    /** The loop of signal_session over the collected members. */
    method SignalAll(members: seq<Info>, number: int) returns (failed: bool)
      requires Valid() && child != 0
      requires forall i :: 0 <= i < |members| ==> members[i].sid == child && WasRead(log, members[i])
      modifies this`table, this`log
      ensures Valid() && old(log) <= log && OnlySignals(log, |old(log)|, number)
      ensures failed <==> !NoFault(log, |old(log)|)
      ensures !failed ==> AllHandled(log, |old(log)|, members, number)
    {
      hide Later, Honest, Collected, Pauses, Waits, WellFormed, WasRead, Handled, Slip;
      failed := false;
      var i := 0;
      while i < |members|
        invariant 0 <= i <= |members| && Valid() && old(log) <= log && OnlySignals(log, |old(log)|, number)
        invariant failed <==> !NoFault(log, |old(log)|)
        invariant !failed ==> AllHandled(log, |old(log)|, members[..i], number)
      {
        ghost var before := log;
        StillRead(old(log), log, members[i]);
        var rc := SignalVerified(members[i], number);
        if rc < 0 {
          failed := true;
        } else {
          HandledNow(log, |old(log)|, members[i], number);
        }
        if !failed {
          AllHandledStays(before, log, |old(log)|, members[..i], number);
        }
        FaultGrows(before, log, |old(log)|);
        SignalsGrow(before, log, |old(log)|, members[i], number);
        assert members[..i + 1] == members[..i] + [members[i]];
        i := i + 1;
      }
      assert members[..i] == members;
    }

    /** The part of signal_session about the leader: no further when its PID is in conflict or cannot be read. */
    method SignalLeader(leader: int, start: nat, number: int) returns (goOn: bool, failed: bool)
      requires Valid() && child != 0 && leader == child && start == childStart
      modifies this`table, this`log
      ensures Valid() && old(log) <= log && OnlySignals(log, |old(log)|, number)
      ensures !goOn ==> Botched(log, |old(log)|, leader, start)
      ensures goOn ==> (failed <==> !NoFault(log, |old(log)|))
      ensures goOn && !failed ==> LeaderHandled(log, |old(log)|, leader, number)
    {
      hide Later, Honest, Collected, Pauses, Waits, WellFormed, Handled, LeaderHandled, Slip, ConflictRead;
      var state := LeaderSessionState(leader, start);
      if state < 0 {
        assert ConflictRead(log[|old(log)|].act, leader, start) || log[|old(log)|].act == Fault by {
          BadRead(log[|old(log)|].act, leader, start);
        }
        return false, false;
      }
      if state == 0 {
        LeaderHandledBy(log, |old(log)|, |old(log)|, leader, number);
        return true, false;
      }
      ghost var known, r := table, |log|;
      var read, info := ReadInfo(leader);
      if read <= 0 {
        assert log[r].act == Fault;
        return false, false;
      }
      LeaderStays(known, table, info);
      assert WasRead(log, info) by { assert log[r].act == Read(info.pid, Some(info)); }
      ghost var before := log;
      var hit := SignalVerified(info, number);
      assert log[r] == before[r];
      FaultGrows(before, log, |old(log)|);
      SignalsGrow(before, log, |old(log)|, info, number);
      if hit >= 0 {
        HandledNow(log, r, info, number);
        LeaderHandledBy(log, |old(log)|, r, leader, number);
      }
      return true, hit < 0;
    }

    lemma LeaderStays(a: Table, b: Table, info: Info)
      requires Later(a, b) && Shows(a, Info(child, child, child, false, childStart))
      requires Shows(b, info) && info.pid == child
      requires WellFormed(a) && IdOf(info) == Pak()
      ensures info.sid == child
    {
      hide Over, Quiet;
      assert Kept(a.procs[child], b.procs[child]);
    }

    /** signal_session, for the session of the child */
    method SignalSession(leader: int, start: nat, number: int) returns (rc: int)
      requires Valid() && child != 0 && leader == child && start == childStart
      modifies this`table, this`log
      ensures Valid() && old(log) <= log && (rc == 0 || rc == -1) && OnlySignals(log, |old(log)|, number)
      ensures rc == 0 ==> NoFault(log, |old(log)|) && Round(log, |old(log)|, leader, start, number)
      ensures rc == -1 ==> Botched(log, |old(log)|, leader, start)
    {
      hide Later, Honest, Collected, Pauses, Waits, WellFormed, LeaderHandled, ConflictRead;
      hide Found, Complete, LeaderFine, AllHandled, WasRead, Round;
      var own := OwnSession(leader);
      if own {
        return -1;
      }
      var goOn, failed := SignalLeader(leader, start, number);
      if !goOn {
        return -1;
      }
      ghost var before := log;
      var got, members;
      ghost var o;
      got, members, o := CollectMembers(leader, start);
      if got != 0 {
        return -1;
      }
      ghost var scanned := log;
      HonestReads(log, table, Pak(), ours);
      AllFoundRead(log, o, leader);
      var missed := SignalAll(members, number);
      if failed || missed {
        return -1;
      }
      LeaderHandledStays(before, log, |old(log)|, leader, number);
      ScannedStays(scanned, log, o, |scanned|, leader, start);
      assert scanned[o..|scanned|] == scanned[o..];
      RoundMade(log, |old(log)|, o, |scanned|, leader, start, number);
      return 0;
    }

    /** usleep(POLL_US) */
    method Pause()
      requires Valid() && child != 0
      modifies this`table, this`log, this`pauses
      ensures Valid() && pauses == old(pauses) + 1 && log == old(log) + [Step(table, Slept)]
    {
      hide Later, Honest, WellFormed, Pauses, Waits, Collected;
      Others();
      HonestGrows(log, Step(table, Slept), Pak(), ours);
      CountsGrow(log, Step(table, Slept));
      CollectedGrows(log, Step(table, Slept));
      log := log + [Step(table, Slept)];
      pauses := pauses + 1;
    }

    /** The two polling loops of reap_session: 0 when a scan found nobody, 1 when the last one still did. */
    method PollSession(leader: int, start: nat, polls: nat, ghost number: int) returns (rc: int)
      requires Valid() && child != 0 && leader == child && start == childStart && polls > 0
      modifies this`table, this`log, this`pauses
      ensures Valid() && old(log) <= log && (rc == 1 || rc == 0 || rc == -1)
      ensures OnlyReaping(log, |old(log)|, number)
      ensures old(pauses) <= pauses <= old(pauses) + polls && (rc == 1 ==> pauses == old(pauses) + polls)
      ensures rc >= 0 ==> NoFault(log, |old(log)|)
      ensures rc == 0 ==> Quieted(log, |old(log)|, leader, start) && log[|log| - 1].table == table
      ensures rc == 1 ==> StillBusy(log, |old(log)|, leader, start)
      ensures rc == -1 ==> Botched(log, |old(log)|, leader, start)
    {
      hide Later, Honest, Collected, Pauses, Waits, WellFormed, EmptyScan, BusyScan, Quieted, StillBusy, ConflictRead;
      var i := 0;
      while i < polls
        invariant 0 <= i <= polls && Valid() && old(log) <= log && pauses == old(pauses) + i
        invariant OnlyReaping(log, |old(log)|, number) && NoFault(log, |old(log)|)
        invariant i > 0 ==> StillBusy(log, |old(log)|, leader, start)
      {
        ghost var before := log;
        var busy;
        ghost var o;
        busy, o := SessionBusy(leader, start);
        NoFaultGoesOn(before, log, |old(log)|);
        SignalsAreReaping(log, |before|, number);
        ReapingGoesOn(before, log, |old(log)|, number);
        if busy < 0 {
          return -1;
        }
        if busy == 0 {
          QuietedNow(log, |old(log)|, o, leader, start);
          return 0;
        }
        ghost var scanned := log;
        Pause();
        BusyNow(scanned, log, |old(log)|, o, leader, start);
        i := i + 1;
      }
      return 1;
    }

    /** One round of reap_session: signal the session, then poll it. */
    method SignalThenPoll(leader: int, start: nat, number: int, polls: nat) returns (rc: int)
      requires Valid() && child != 0 && leader == child && start == childStart && polls > 0
      modifies this`table, this`log, this`pauses
      ensures Valid() && old(log) <= log && (rc == 1 || rc == 0 || rc == -1) && OnlyReaping(log, |old(log)|, number)
      ensures old(pauses) <= pauses <= old(pauses) + polls && (rc == 1 ==> pauses == old(pauses) + polls)
      ensures rc >= 0 ==> NoFault(log, |old(log)|)
      ensures rc == 0 ==> Quieted(log, |old(log)|, leader, start) && log[|log| - 1].table == table
      ensures rc == 1 ==> StillBusy(log, |old(log)|, leader, start) && Round(log, |old(log)|, leader, start, number)
      ensures rc == 1 && number == SIGTERM && polls == TERM_POLLS ==> Graced(log, Pak())
      ensures rc == -1 ==> Botched(log, |old(log)|, leader, start)
    {
      hide Later, Honest, Collected, Pauses, Waits, Interrupts, WellFormed, Quieted, Graced, Tried;
      hide StillBusy, ConflictRead, Round, OnlySignals, OnlyReaping, Botched;
      var sent := SignalSession(leader, start, number);
      SignalsAreReaping(log, |old(log)|, number);
      if sent != 0 {
        return -1;
      }
      ghost var before := log;
      rc := PollSession(leader, start, polls, number);
      ReapingGoesOn(before, log, |old(log)|, number);
      NoFaultGoesOn(before, log, |old(log)|);
      if rc == -1 {
        BotchedSince(log, |old(log)|, |before|, leader, start);
      } else if rc == 0 {
        QuietedSince(log, |old(log)|, |before|, leader, start);
      } else {
        BusySince(log, |old(log)|, |before|, leader, start);
        RoundStays(before, log, |old(log)|, leader, start, number);
        if number == SIGTERM && polls == TERM_POLLS {
          TriedNow(before, |old(log)|, leader, start, SIGTERM);
          IdledGrows(before, log);
          assert log[..|before|] == before;
          assert |before| > |old(log)| by { RoundIsLong(before, |old(log)|, leader, start, SIGTERM); }
          GracedNow(log, |old(log)|, |before|, Pak());
        }
      }
    }

    /** reap_session up to the end of the grace: 1 when the session has outlived it */
    method ReapGently(leader: int, start: nat) returns (rc: int)
      requires Valid() && child != 0 && leader == child && start == childStart
      modifies this`table, this`log, this`pauses
      ensures Valid() && old(log) <= log && (rc == 1 || rc == 0 || rc == -1) && OnlyReaping(log, |old(log)|, SIGTERM)
      ensures pauses <= old(pauses) + TERM_POLLS && (rc == 1 ==> pauses == old(pauses) + TERM_POLLS)
      ensures rc >= 0 ==> NoFault(log, |old(log)|)
      ensures rc == 0 ==> Quieted(log, |old(log)|, leader, start) && log[|log| - 1].table == table
      ensures rc == 1 ==> Graced(log, Pak())
      ensures rc == -1 ==> Botched(log, |old(log)|, leader, start)
    {
      hide Later, Honest, Collected, Pauses, Waits, WellFormed, Quieted, StillBusy, ConflictRead, Graced;
      hide Round, Botched, EmptyScan, BusyScan, OnlyLooks, OnlyReaping, NoFault;
      var busy;
      ghost var o;
      busy, o := SessionBusy(leader, start);
      SignalsAreReaping(log, |old(log)|, SIGTERM);
      if busy < 0 {
        BadEnd(log, |old(log)|, leader, start);
        return -1;
      }
      if busy == 0 {
        QuietedNow(log, |old(log)|, o, leader, start);
        return 0;
      }
      ghost var scanned := log;
      rc := SignalThenPoll(leader, start, SIGTERM, TERM_POLLS);
      ReapingGoesOn(scanned, log, |old(log)|, SIGTERM);
      NoFaultGoesOn(scanned, log, |old(log)|);
      if rc < 0 {
        BotchedSince(log, |old(log)|, |scanned|, leader, start);
      } else if rc == 0 {
        QuietedSince(log, |old(log)|, |scanned|, leader, start);
      }
    }

    /** reap_session, for the session of the child */
    method ReapSession(leader: int, start: nat) returns (rc: int)
      requires Valid() && child != 0 && leader == child && start == childStart
      modifies this`table, this`log, this`pauses
      ensures Valid() && old(log) <= log && (rc == 0 || rc == -1) && pauses <= old(pauses) + TERM_POLLS + KILL_POLLS
      ensures rc == 0 <==> NoFault(log, |old(log)|) && Quieted(log, |old(log)|, leader, start)
      ensures rc == 0 ==> log[|log| - 1].table == table
      ensures rc == -1 ==> Botched(log, |old(log)|, leader, start) || Outlasted(log, |old(log)|, leader, start)
      ensures Graceful(log, |old(log)|) && OnlyCleaning(log, |old(log)|) && Mannered(log, |old(log)|, Pak())
    {
      hide Later, Honest, Collected, Pauses, Waits, WellFormed, Quieted, StillBusy, Graced, Paced, AllGraced;
      hide ConflictRead, Round, Graceful, Botched, OnlyReaping, OnlyCleaning, NoFault;
      ghost var from := |log|;
      rc := ReapGently(leader, start);
      ghost var gentle := log;
      HarmlessIsMannered(log, from, Pak());
      assert log[..|log|] == log && log[..from] == old(log);
      if rc < 1 {
        GracefulRounds(log, from, |log|);
        if rc < 0 {
          NotQuieted(log, from, leader, start);
        }
        return rc;
      }
      rc := SignalThenPoll(leader, start, SIGKILL, KILL_POLLS);
      HarmlessIsMannered(log, |gentle|, Pak());
      KillsGraced(gentle, log, Pak());
      MannersGoOn(gentle, log, from, Pak());
      NoFaultGoesOn(gentle, log, from);
      assert log[..|gentle|] == gentle && log[..from] == old(log);
      GracefulRounds(log, from, |gentle|);
      if rc == 0 {
        QuietedSince(log, from, |gentle|, leader, start);
        return 0;
      } else if rc == 1 {
        BusySince(log, from, |gentle|, leader, start);
        RoundSince(log, from, |gentle|, leader, start, SIGKILL);
        BusyEnds(log, from, leader, start);
      } else {
        BotchedSince(log, from, |gentle|, leader, start);
      }
      NotQuieted(log, from, leader, start);
      return -1;
    }

    /**
     waitpid on the child, with or without WNOHANG. Only a zombie child is collected, and only here
     is its PID given up.
     */
    method WaitPid(blocking: bool) returns (got: Wait)
      requires Valid() && child != 0
      modifies this`table, this`log, this`unreaped, this`waits
      ensures Valid() && waits == old(waits) + 1
      ensures old(log) <= log && |log| == |old(log)| + 1 && log[|old(log)|].act == Waited(blocking, got)
      ensures got.Reaped? ==> old(unreaped) && !unreaped && got.status < 0x1_0000 && child !in table.procs
      ensures got.Reaped? ==> Has(log[|old(log)|].table, Pak()) && log[|old(log)|].table.procs[child].info.zombie
      ensures !got.Reaped? ==> unreaped == old(unreaped)
      ensures got.NotYet? ==> !blocking && unreaped
    {
      hide Later, Honest, Pauses, Waits, Collected, WellFormed;
      Others();
      var trouble: Wait := *;
      var status: nat := *;
      if trouble.Interrupted? || trouble.NoChild? || trouble.Failed? {
        got := trouble;
      } else if !unreaped {
        got := NoChild;
      } else if !table.procs[child].info.zombie {
        got := if blocking then Interrupted else NotYet;
      } else {
        got := Reaped(status % 0x1_0000);
      }
      ghost var s := Step(table, Waited(blocking, got));
      HonestGrows(log, s, Pak(), ours);
      CountsGrow(log, s);
      CollectedGrows(log, s);
      log, waits := log + [s], waits + 1;
      if got.Reaped? {
        EventKeepsWellFormed(table, Release(child));
        EventIsLater(table, Release(child));
        HonestLater(log, table, Apply(table, Release(child)), Pak(), ours);
        table := Apply(table, Release(child));
        unreaped := false;
      }
    }

    /** wait_child_bounded: 1 and the status, 0 when the polls ran out, -1 for an error. */
    method WaitChildBounded(polls: nat) returns (rc: int, st: nat)
      requires Valid() && child != 0 && polls > 0
      modifies this`table, this`log, this`unreaped, this`waits, this`pauses
      ensures Valid() && old(log) <= log && |log| > |old(log)| && (rc == 1 || rc == 0 || rc == -1)
      ensures OnlyWaiting(log, |old(log)|) && pauses <= old(pauses) + polls && waits <= old(waits) + polls
      ensures rc == 1 <==> old(unreaped) && !unreaped
      ensures rc == 1 ==> log[|log| - 1].act == Waited(false, Reaped(st))
      ensures rc == 0 ==> waits == old(waits) + polls && Idled(log) == Idled(old(log)) + polls
      ensures rc == -1 ==> Trouble(log[|log| - 1].act)
      ensures Paced(log, |old(log)|)
    {
      hide Later, Honest, Pauses, Waits, Interrupts, Collected, WellFormed;
      var i := 0;
      while i < polls
        invariant 0 <= i <= polls && Valid() && old(log) <= log
        invariant OnlyWaiting(log, |old(log)|) && unreaped == old(unreaped) && Paced(log, |old(log)|)
        invariant pauses <= old(pauses) + i && waits == old(waits) + i && (i > 0 ==> |log| > |old(log)|)
        invariant Idled(log) == Idled(old(log)) + i
      {
        ghost var before := log;
        var got := WaitPid(false);
        CountsGrow(before, log[|before|]);
        assert log == before + [log[|before|]];
        ghost var polled := log;
        if got.Reaped? {
          return 1, got.status;
        }
        if got.NoChild? || got.Failed? {
          return -1, 0;
        }
        if got.NotYet? {
          Pause();
          CountsGrow(polled, log[|polled|]);
        }
        i := i + 1;
      }
      return 0, 0;
    }

    /** kill on the PID of the child, which is still its own: true unless it failed for another reason than ESRCH. */
    method Kill(number: int) returns (ok: bool)
      requires Valid() && child != 0 && unreaped
      modifies this`table, this`log
      ensures Valid() && log == old(log) + [Step(table, if ok then Killed(Pak(), number) else Fault)]
    {
      hide Later, Honest, Pauses, Waits, Collected, WellFormed;
      Others();
      ok := *;
      Record(if ok then Killed(Pak(), number) else Fault);
    }

    /** The last wait after SIGKILL was sent to the child, or could not be. */
    method WaitAfterKill() returns (rc: int)
      requires Valid() && child != 0 && unreaped
      requires log[|log| - 1].act == Killed(Pak(), SIGKILL) || log[|log| - 1].act == Fault
      modifies this`table, this`log, this`unreaped, this`waits, this`pauses
      ensures Valid() && old(log) <= log && |log| > |old(log)| && (rc == 1 || rc == 0 || rc == -1)
      ensures OnlyWaiting(log, |old(log)|) && pauses <= old(pauses) + KILL_POLLS
      ensures rc == 1 <==> !unreaped
      ensures rc == 1 ==> log[|log| - 1].act.Waited? && log[|log| - 1].act.got.Reaped?
      ensures rc <= 0 ==> Excused(log, Pak())
      ensures Paced(log, |old(log)|)
    {
      hide Later, Honest, Pauses, Waits, Interrupts, Collected, WellFormed, Excused, OnlyWaiting, Paced;
      ghost var k := |log| - 1;
      assert log == log[..k] + [log[k]];
      CountsGrow(log[..k], log[k]);
      var st;
      rc, st := WaitChildBounded(KILL_POLLS);
      assert log[k] == old(log)[k] && log[..k] == old(log)[..k];
      if rc < 0 {
        TroubleExcuses(log, |log| - 1, Pak());
      } else if rc == 0 {
        if log[k].act == Fault {
          TroubleExcuses(log, k, Pak());
        } else {
          AbandonedNow(log, k, Pak());
          AbandonedExcuses(log, Pak());
        }
      }
    }

    /** The second half of stop_child_bounded: the child has had its grace. */
    method KillChild() returns (rc: int)
      requires Valid() && child != 0 && unreaped && Graced(log, Pak())
      modifies this`table, this`log, this`unreaped, this`waits, this`pauses
      ensures Valid() && old(log) <= log && |log| > |old(log)| && (rc == 0 || rc == -1) && NoMarks(log, |old(log)|)
      ensures pauses <= old(pauses) + KILL_POLLS
      ensures rc == 0 <==> !unreaped
      ensures rc == -1 ==> Excused(log, Pak())
      ensures !WaitsOn(log[|log| - 1].act) && Mannered(log, |old(log)|, Pak())
    {
      hide Later, Honest, Pauses, Waits, Interrupts, Collected, WellFormed, Excused, OnlyWaiting;
      hide Paced, AllGraced, Graced, Tried, OnlySignals;
      var ok := Kill(SIGKILL);
      NothingIsMannered(old(log), Pak());
      MannersByOne(old(log), log, |old(log)|, Pak());
      if !ok {
        TroubleExcuses(log, |log| - 1, Pak());
        return -1;
      }
      ghost var killed := log;
      assert NoMarks(killed, |old(log)|);
      hide NoMarks;
      var waited := WaitAfterKill();
      HarmlessIsMannered(log, |killed|, Pak());
      MannersGoOn(killed, log, |old(log)|, Pak());
      LastWait(log, |killed|);
      HaveNoMarks(log, |killed|, 0);
      NoMarksGoesOn(killed, log, |old(log)|);
      return if waited > 0 then 0 else -1;
    }

    /** stop_child_bounded */
    method StopChildBounded() returns (rc: int)
      requires Valid() && child != 0 && unreaped
      modifies this`table, this`log, this`unreaped, this`waits, this`pauses
      ensures Valid() && old(log) <= log && |log| > |old(log)| && (rc == 0 || rc == -1) && NoMarks(log, |old(log)|)
      ensures pauses <= old(pauses) + TERM_POLLS + KILL_POLLS
      ensures rc == 0 <==> !unreaped
      ensures log[|old(log)|].act == Killed(Pak(), SIGTERM) || log[|old(log)|].act == Fault
      ensures rc == -1 ==> Excused(log, Pak())
      ensures !WaitsOn(log[|log| - 1].act) && Mannered(log, |old(log)|, Pak())
    {
      hide Later, Honest, Pauses, Waits, Interrupts, Collected, WellFormed, Excused, OnlyWaiting;
      hide Paced, AllGraced, Graced, Tried, OnlySignals;
      var ok := Kill(SIGTERM);
      NothingIsMannered(old(log), Pak());
      MannersByOne(old(log), log, |old(log)|, Pak());
      if !ok {
        TroubleExcuses(log, |log| - 1, Pak());
        return -1;
      }
      ghost var asked := log;
      var waited, st := WaitChildBounded(TERM_POLLS);
      HarmlessIsMannered(log, |asked|, Pak());
      MannersGoOn(asked, log, |old(log)|, Pak());
      assert log[|old(log)|] == asked[|old(log)|];
      LastWait(log, |asked|);
      HaveNoMarks(log, |asked|, 0);
      if waited != 0 {
        if waited < 0 {
          TroubleExcuses(log, |log| - 1, Pak());
        }
        return if waited > 0 then 0 else -1;
      }
      assert log[..|asked|] == asked;
      GracedNow(log, |old(log)|, |asked|, Pak());
      ghost var idled := log;
      assert NoMarks(idled, |old(log)|);
      hide NoMarks;
      rc := KillChild();
      MannersGoOn(idled, log, |old(log)|, Pak());
      assert log[|old(log)|] == idled[|old(log)|];
      NoMarksGoesOn(idled, log, |old(log)|);
    }

    /** The second round of stop_session_bounded. */
    method KillAndWait(leader: int, start: nat) returns (rc: int)
      requires Valid() && child != 0 && unreaped && leader == child && start == childStart
      modifies this`table, this`log, this`unreaped, this`waits, this`pauses
      ensures Valid() && old(log) <= log && |log| > |old(log)|
      ensures (rc == 1 || rc == 0 || rc == -1) && NoMarks(log, |old(log)|)
      ensures pauses <= old(pauses) + KILL_POLLS && !WaitsOn(log[|log| - 1].act)
      ensures !log[|log| - 1].act.Read?
      ensures rc == 1 <==> !unreaped
      ensures rc == 1 ==> log[|log| - 1].act.Waited? && log[|log| - 1].act.got.Reaped?
      ensures rc <= 0 ==> Excused(log, Pak())
      ensures Tried(log, |old(log)|, leader, start, SIGKILL) && Paced(log, |old(log)|)
    {
      hide Later, Honest, Pauses, Waits, Collected, WellFormed, Excused, Paced;
      hide Tried, Round, Botched, OnlySignals, OnlyWaiting, NoMarks;
      var incomplete := SignalSession(leader, start, SIGKILL);
      TriedNow(log, |old(log)|, leader, start, SIGKILL);
      HaveNoMarks(log, |old(log)|, SIGKILL);
      ghost var signalled := log;
      var ok := Kill(SIGKILL);
      ghost var killed := log;
      rc := WaitAfterKill();
      LastWait(log, |killed|);
      HaveNoMarks(log, |killed|, 0);
      NoMarksByOne(signalled, killed, log, |old(log)|);
      HarmlessIsMannered(signalled, |old(log)|, Pak());
      PacedByOne(signalled, killed, log, |old(log)|);
      TriedStays(signalled, log, |old(log)|, leader, start, SIGKILL);
    }

    /** The first half of stop_session_bounded, up to the wait that collects the child or gives up on it. */
    method StopLeader(leader: int, start: nat) returns (rc: int)
      requires Valid() && child != 0 && unreaped && leader == child && start == childStart
      modifies this`table, this`log, this`unreaped, this`waits, this`pauses
      ensures Valid() && old(log) <= log && |log| > |old(log)| && NoMarks(log, |old(log)|)
      ensures pauses <= old(pauses) + TERM_POLLS + KILL_POLLS && !WaitsOn(log[|log| - 1].act)
      ensures !log[|log| - 1].act.Read?
      ensures rc >= 1 <==> !unreaped
      ensures rc >= 1 ==> log[|log| - 1].act.Waited? && log[|log| - 1].act.got.Reaped?
      ensures rc < 1 ==> Excused(log, Pak())
      ensures Tried(log, |old(log)|, leader, start, SIGTERM) && Mannered(log, |old(log)|, Pak())
    {
      hide Later, Honest, Pauses, Waits, Interrupts, Collected, WellFormed, Excused, Tried, Round, Botched;
      hide OnlySignals, OnlyWaiting, NoMarks, Paced, AllGraced, Graced;
      var incomplete := SignalSession(leader, start, SIGTERM);
      TriedNow(log, |old(log)|, leader, start, SIGTERM);
      HaveNoMarks(log, |old(log)|, SIGTERM);
      ghost var signalled := log;
      var st;
      rc, st := WaitChildBounded(TERM_POLLS);
      HarmlessIsMannered(signalled, |old(log)|, Pak());
      HarmlessIsMannered(log, |signalled|, Pak());
      MannersGoOn(signalled, log, |old(log)|, Pak());
      LastWait(log, |signalled|);
      HaveNoMarks(log, |signalled|, 0);
      NoMarksGoesOn(signalled, log, |old(log)|);
      ghost var waited := log;
      if rc == 0 {
        AskedInRound(waited, signalled, |old(log)|, Pak());
        rc := KillAndWait(leader, start);
        KillsGraced(waited, log, Pak());
        MannersGoOn(waited, log, |old(log)|, Pak());
        NoMarksGoesOn(waited, log, |old(log)|);
      } else if rc < 0 {
        TroubleExcuses(log, |log| - 1, Pak());
      }
      TriedStays(signalled, log, |old(log)|, leader, start, SIGTERM);
    }

    /** stop_session_bounded, for the session of the child */
    method StopSessionBounded(leader: int, start: nat) returns (rc: int)
      requires Valid() && child != 0 && unreaped && leader == child && start == childStart
      modifies this`table, this`log, this`unreaped, this`waits, this`pauses
      ensures Valid() && old(log) <= log && |log| > |old(log)| && (rc == 0 || rc == -1) && NoMarks(log, |old(log)|)
      ensures pauses <= old(pauses) + 2 * (TERM_POLLS + KILL_POLLS)
      ensures !WaitsOn(log[|log| - 1].act)
      ensures rc == 0 <==> Settled(log, Pak())
      ensures rc == 0 ==> !unreaped
      ensures rc == -1 ==> Excused(log, Pak())
      ensures Tried(log, |old(log)|, leader, start, SIGTERM) && Mannered(log, |old(log)|, Pak())
    {
      hide Later, Honest, Pauses, Waits, Collected, WellFormed, Excused, Tried, Mannered;
      hide Round, Botched, Quieted, Settled, Outlasted, Graceful, WaitOver;
      rc := StopLeader(leader, start);
      if rc < 1 {
        NotSettled(log, Pak());
        return -1;
      }
      ghost var c, waited := |log| - 1, log;
      rc := ReapSession(leader, start);
      assert log[c] == waited[c];
      MannersGoOn(waited, log, |old(log)|, Pak());
      NoMarksGoesOn(waited, log, |old(log)|);
      TriedStays(waited, log, |old(log)|, leader, start, SIGTERM);
      SettledIff(log, c, Pak());
      if rc != 0 {
        CleaningExcused(log, c, Pak());
      }
    }

    // ---- main -------------------------------------------------------------

    /** fork: the child is a new incarnation in the session of the supervisor, under a PID that names nothing else. */
    method ForkChild() returns (ok: bool)
      requires Valid() && child == 0
      modifies this`table, this`log, this`child, this`childStart, this`unreaped
      ensures Valid() && Later(old(table), table) && unreaped == ok
      ensures ok <==> child != 0
      ensures ok ==> log == [Step(table, Forked(Pak()))] && Has(table, Pak()) && Pak() !in old(table).used
      ensures ok ==> forall p :: p in table.procs ==>
              table.procs[p].info.sid != child && table.procs[p].info.pgid != child
      ensures !ok ==> log == []
    {
      hide Later, Honest, Pauses, Waits;
      Others();
      LaterUsed(old(table), table);
      var pid: int := *;
      var start: nat := *;
      var e := Fork(me, pid, start);
      if !Possible(table, e) {
        return false;
      }
      ghost var t := table;
      EventKeepsWellFormed(table, e);
      EventIsLater(table, e);
      table := Apply(table, e);
      LaterTransitive(old(table), t, table);
      child, childStart, unreaped := pid, start, true;
      ghost var s := Step(table, Forked(Pak()));
      NothingLogged(table, Pak(), ours);
      HonestGrows([], s, Pak(), ours);
      CountsGrow([], s);
      log := [s];
      assert log == [] + [s];
      ok := true;
    }

    /** Reading the identity that the child reports once it leads its own session; None when it never does. */
    method ReadIdentity() returns (start: Option<nat>)
      requires Valid() && child != 0 && unreaped
      modifies this`table, this`log
      ensures Valid()
      ensures start.Some? ==> start.value == childStart && log == old(log) + [Step(table, Introduced(childStart))]
      ensures start.Some? ==> table.procs[child].info.sid == child
      ensures start.None? ==> log == old(log) + [Step(table, Unheard)]
    {
      hide Later, Honest, Pauses, Waits, Collected, WellFormed;
      Others();
      var reported: bool := *;
      var info := table.procs[child].info;
      if !reported || info.sid != child || info.start == 0 {
        Record(Unheard);
        return None;
      }
      Record(Introduced(info.start));
      return Some(info.start);
    }

    /** main when the handshake failed */
    method NoIdentity() returns (code: Option<int>)
      requires Valid() && child != 0 && unreaped && Did(log, Unheard)
      modifies this`table, this`log, this`unreaped, this`waits, this`pauses
      ensures Valid() && log != [] && Ended(code, true, log, Pak())
      ensures code == Some(CLEANUP_FAILED) ==> Excused(log, Pak())
      ensures old(log) <= log && Mannered(log, |old(log)|, Pak())
      ensures pauses <= old(pauses) + 1 + TERM_POLLS + KILL_POLLS
    {
      hide Later, Honest, Pauses, Waits, Interrupts, Collected, WellFormed, Excused, Settled, Did, Mannered;
      var exited, st := WaitChildBounded(1);
      HarmlessIsMannered(log, |old(log)|, Pak());
      if exited == 1 {
        MarksKept(old(log), log);
        return Some(127);
      }
      ghost var waited := log;
      var rc := StopChildBounded();
      MannersGoOn(waited, log, |old(log)|, Pak());
      NoMarksGoesOn(waited, log, |old(log)|);
      MarksKept(old(log), log);
      return Some(if rc != 0 then CLEANUP_FAILED else 127);
    }

    /** main when it stops the session itself, to return failed unless that does not succeed */
    method StopAnd(failed: int, start: nat) returns (code: Option<int>)
      requires Valid() && child != 0 && unreaped && start == childStart && Did(log, Introduced(childStart))
      requires !Did(log, Unheard) && failed == if Did(log, Unpublished) then 127 else 128 + SIGTERM
      requires Did(log, Unpublished) || Did(log, StopAsked)
      modifies this`table, this`log, this`unreaped, this`waits, this`pauses
      ensures Valid() && log != [] && Ended(code, true, log, Pak())
      ensures code == Some(CLEANUP_FAILED) ==> Excused(log, Pak())
      ensures old(log) <= log && Mannered(log, |old(log)|, Pak())
      ensures pauses <= old(pauses) + 2 * (TERM_POLLS + KILL_POLLS)
      ensures Tried(log, |old(log)|, child, childStart, SIGTERM)
    {
      hide Later, Honest, Pauses, Waits, Collected, WellFormed, Excused, Settled, Did, Tried, Mannered;
      var rc := StopSessionBounded(child, start);
      MarksKept(old(log), log);
      return Some(if rc != 0 then CLEANUP_FAILED else failed);
    }

    /** main once the waiting is over, with the status that the wait left */
    method Finish(start: nat, st: nat) returns (code: Option<int>)
      requires Valid() && child != 0 && start == childStart && Did(log, Introduced(childStart))
      requires !Did(log, Unheard) && !Did(log, Unpublished) && !Did(log, StopAsked)
      requires var act := log[|log| - 1].act;
               act.Waited? && (act.got.Reaped? || act.got.NoChild?) && st == StatusOf(act)
      modifies this`table, this`log, this`pauses
      ensures Valid() && log != [] && Ended(code, true, log, Pak())
      ensures code == Some(CLEANUP_FAILED) ==> Excused(log, Pak())
      ensures old(log) <= log && Mannered(log, |old(log)|, Pak())
      ensures pauses <= old(pauses) + TERM_POLLS + KILL_POLLS
    {
      hide Later, Honest, Pauses, Waits, Collected, WellFormed, Excused, Settled;
      hide Did, Quieted, Graceful, Botched, Outlasted, OnlyCleaning, WaitOver, Mannered;
      ghost var c := |log| - 1;
      var rc := ReapSession(child, start);
      assert log[c] == old(log)[c];
      HaveNoMarks(log, |old(log)|, 0);
      MarksKept(old(log), log);
      SettledIff(log, c, Pak());
      LastCleaned(log, c + 1, child, childStart);
      if rc != 0 {
        CleaningExcused(log, c, Pak());
        return Some(CLEANUP_FAILED);
      }
      return Some(ChildStatus(st));
    }

    /** The waiting loop of main, for as many interrupted waits as there are, and what follows it. */
    method Supervise(start: nat) returns (code: Option<int>)
      requires Valid() && child != 0 && unreaped && start == childStart && Did(log, Introduced(childStart))
      requires !Did(log, Unheard) && !Did(log, Unpublished) && !Did(log, StopAsked)
      modifies this`table, this`log, this`unreaped, this`waits, this`pauses
      ensures Valid() && log != [] && Ended(code, true, log, Pak())
      ensures code == Some(CLEANUP_FAILED) ==> Excused(log, Pak())
      ensures old(log) <= log && Mannered(log, |old(log)|, Pak())
      ensures pauses <= old(pauses) + 2 * (TERM_POLLS + KILL_POLLS)
    {
      hide Later, Honest, Pauses, Waits, Collected, WellFormed, Excused, Settled;
      hide Did, Tried, Quieted, Graceful, Botched, Outlasted, Mannered;
      var interruptions: nat := *;
      var n, st := interruptions, 0;
      NothingIsMannered(log, Pak());
      while true
        invariant Valid() && unreaped && st == 0 && old(log) <= log && NoMarks(log, |old(log)|) && pauses == old(pauses)
        invariant Mannered(log, |old(log)|, Pak())
        decreases n
      {
        var stopRequested: bool := *;
        if stopRequested {
          MarksKept(old(log), log);
          ghost var before := log;
          Record(StopAsked);
          MarkMade(before, log, StopAsked);
          MannersByOne(before, log, |old(log)|, Pak());
          ghost var asked := log;
          code := StopAnd(128 + SIGTERM, start);
          MannersGoOn(asked, log, |old(log)|, Pak());
          return code;
        }
        ghost var before := log;
        var got := WaitPid(true);
        MannersByOne(before, log, |old(log)|, Pak());
        if got.Reaped? {
          st := got.status;
          break;
        }
        if got.NoChild? {
          break;
        }
        MarksKept(old(log), log);
        if got.Failed? {
          return Some(127);
        }
        if n == 0 {
          return None;
        }
        n := n - 1;
      }
      MarksKept(old(log), log);
      ghost var waited := log;
      code := Finish(start, st);
      MannersGoOn(waited, log, |old(log)|, Pak());
    }

    /** main; the arguments are complete, or it does not start. */
    method Run(complete: bool) returns (code: Option<int>)
      requires Valid() && child == 0
      modifies this
      ensures Valid() && Ended(code, complete, log, Pak()) && (code == Some(CLEANUP_FAILED) ==> Excused(log, Pak()))
      ensures pauses <= old(pauses) + 2 * (TERM_POLLS + KILL_POLLS) && Mannered(log, 0, Pak())
    {
      hide Later, Honest, Pauses, Waits, Collected, WellFormed, Excused, Settled, WaitOver, Mannered;
      NothingIsMannered([], Pak());
      if !complete {
        return Some(2);
      }
      var pipes: bool := *;
      if !pipes {
        return Some(127);
      }
      var forked := ForkChild();
      NothingIsMannered([], Pak());
      if !forked {
        return Some(127);
      }
      MannersByOne([], log, 0, Pak());
      ghost var start := log;
      var identity := ReadIdentity();
      MannersByOne(start, log, 0, Pak());
      ghost var known := log;
      if identity.None? {
        assert log[1].act == Unheard;
        code := NoIdentity();
      } else {
        assert log[1].act == Introduced(childStart);
        code := Proceed(identity.value);
      }
      MannersGoOn(known, log, 0, Pak());
    }

    /** main once the child has introduced itself */
    method Proceed(start: nat) returns (code: Option<int>)
      requires Valid() && child != 0 && unreaped && start == childStart && Did(log, Introduced(childStart))
      requires !Did(log, Unheard) && !Did(log, Unpublished) && !Did(log, StopAsked)
      modifies this`table, this`log, this`unreaped, this`waits, this`pauses
      ensures Valid() && log != [] && Ended(code, true, log, Pak())
      ensures code == Some(CLEANUP_FAILED) ==> Excused(log, Pak())
      ensures old(log) <= log && Mannered(log, |old(log)|, Pak())
      ensures pauses <= old(pauses) + 2 * (TERM_POLLS + KILL_POLLS)
    {
      hide Later, Honest, Pauses, Waits, Collected, WellFormed, Excused, Settled, WaitOver, Did, Tried, Mannered;
      NothingIsMannered(log, Pak());
      var published: bool := *;
      var released: bool := *;
      if !published || !released {
        Record(Unpublished);
        MarkMade(old(log), log, Unpublished);
        MannersByOne(old(log), log, |old(log)|, Pak());
        ghost var known := log;
        code := StopAnd(127, start);
        MannersGoOn(known, log, |old(log)|, Pak());
        return code;
      }
      code := Supervise(start);
    }
  }
}
