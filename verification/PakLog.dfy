/**
 * What the pak supervisor did, call by call, with the process table as it was at each call. Everything promised of the
 * supervisor is a statement about this log.
 */
module PakLog {
  import opened Bytes
  import opened ProcTable

  const TERM_POLLS: nat := 30
  const KILL_POLLS: nat := 10
  const SIGTERM := 15
  const SIGKILL := 9

  /** What waitpid reports. */
  datatype Wait = Reaped(status: nat) | NotYet | Interrupted | NoChild | Failed

  /** A call of the supervisor and its outcome. */
  datatype Act =
    | Forked(child: Id)
    | Introduced(start: nat)
    | Unheard
    | Unpublished
    | StopAsked
    | Read(pid: int, seen: Option<Info>)
    | Listing
    | Listed
    | Bound(pid: int, handle: Option<Id>)
    | Sent(known: Info, target: Id, number: int)
    | Vanished(target: Id)
    | Killed(target: Id, number: int)
    | Waited(blocking: bool, got: Wait)
    | Slept
    | Fault

  datatype Step = Step(table: Table, act: Act)

  type Log = seq<Step>

  // ---- Members ------------------------------------------------------------

  /** What a scan for the leader's session keeps of the entries it reads. */
  predicate IsMember(info: Info, leader: int) {
    info.pid > 1 && info.pid != leader && info.sid == leader && !info.zombie
  }

  ghost predicate LiveMember(t: Table, p: int, leader: int) { p in t.procs && IsMember(t.procs[p].info, leader) }

  /** same_process */
  predicate SameProcess(a: Info, b: Info) {
    a.pid == b.pid && a.pgid == b.pgid && a.sid == b.sid && a.start == b.start && !b.zombie
  }

  ghost predicate Shows(t: Table, info: Info) { info.pid in t.procs && t.procs[info.pid].info == info }

  ghost predicate Has(t: Table, id: Id) { id.pid in t.procs && IdOf(t.procs[id.pid].info) == id }

  /** Every live member that was there when the scan began is listed, as the incarnation that it is. */
  ghost predicate Complete(scan: Table, t: Table, leader: int, members: seq<Info>) {
    forall p :: LiveMember(t, p, leader) && IdOf(t.procs[p].info) in scan.used ==>
      exists i :: 0 <= i < |members| && IdOf(members[i]) == IdOf(t.procs[p].info)
  }

  /** As Complete, for the members among the names read so far. */
  ghost predicate Covered(scan: Table, t: Table, names: seq<int>, leader: int, members: seq<Info>) {
    forall p :: p in names && LiveMember(t, p, leader) && IdOf(t.procs[p].info) in scan.used ==>
      exists i :: 0 <= i < |members| && IdOf(members[i]) == IdOf(t.procs[p].info)
  }

  /** Everyone left in the session was born after the table was as in scan. */
  ghost predicate OnlyNewborn(scan: Table, t: Table, leader: int) {
    forall p :: LiveMember(t, p, leader) ==> IdOf(t.procs[p].info) !in scan.used
  }

  /** Nobody joins a session: a live member that existed earlier was a live member then. */
  lemma MemberBefore(a: Table, b: Table, p: int, leader: int)
    requires WellFormed(b) && Later(a, b) && LiveMember(b, p, leader) && IdOf(b.procs[p].info) in a.used
    ensures LiveMember(a, p, leader) && IdOf(a.procs[p].info) == IdOf(b.procs[p].info)
  {
    hide Over, Quiet;
    assert Kept(a.procs[p], b.procs[p]);
  }

  lemma StillCovered(scan: Table, t: Table, u: Table, names: seq<int>, leader: int, members: seq<Info>)
    requires WellFormed(u) && Later(t, u) && scan.used <= t.used && Covered(scan, t, names, leader, members)
    ensures Covered(scan, u, names, leader, members)
  {
    hide WellFormed, Later, IsMember;
    forall p | p in names && LiveMember(u, p, leader) && IdOf(u.procs[p].info) in scan.used
      ensures exists i :: 0 <= i < |members| && IdOf(members[i]) == IdOf(u.procs[p].info) {
      MemberBefore(t, u, p, leader);
    }
  }

  lemma StillComplete(scan: Table, t: Table, u: Table, leader: int, members: seq<Info>)
    requires WellFormed(u) && Later(t, u) && scan.used <= t.used && Complete(scan, t, leader, members)
    ensures Complete(scan, u, leader, members)
  {
    hide WellFormed, Later, IsMember;
    forall p | LiveMember(u, p, leader) && IdOf(u.procs[p].info) in scan.used
      ensures exists i :: 0 <= i < |members| && IdOf(members[i]) == IdOf(u.procs[p].info) {
      MemberBefore(t, u, p, leader);
    }
  }

  /** One more name has been looked at: found is what it contributed, a live member or nobody. */
  lemma CoveredGrows(scan: Table, t: Table, u: Table, names: seq<int>, pid: int, leader: int, members: seq<Info>,
                     found: seq<Info>)
    requires WellFormed(u) && Later(scan, t) && Later(t, u) && Covered(scan, t, names, leader, members)
    requires found == if LiveMember(u, pid, leader) then [u.procs[pid].info] else []
    ensures Later(scan, u) && Covered(scan, u, names + [pid], leader, members + found)
  {
    LaterUsed(scan, t);
    LaterTransitive(scan, t, u);
    StillCovered(scan, t, u, names, leader, members);
    hide WellFormed, Later, IsMember;
    var more := members + found;
    forall p | p in names + [pid] && LiveMember(u, p, leader) && IdOf(u.procs[p].info) in scan.used
      ensures exists i :: 0 <= i < |more| && IdOf(more[i]) == IdOf(u.procs[p].info) {
      if p in names {
        var i :| 0 <= i < |members| && IdOf(members[i]) == IdOf(u.procs[p].info);
        assert more[i] == members[i];
      } else {
        assert more[|members|] == u.procs[pid].info;
      }
    }
  }

  lemma LaterUsed(a: Table, b: Table)
    requires Later(a, b)
    ensures a.used <= b.used
  {
    hide Over, Quiet;
  }

  // ---- Honest logs --------------------------------------------------------

  /** The entry was read off the table during this part of the log. */
  ghost predicate WasRead(log: Log, info: Info) {
    exists i :: 0 <= i < |log| && log[i].act == Read(info.pid, Some(info))
  }

  /**
   * A verified signal hit exactly an incarnation that had been read as a process of the pak's session, and that
   * process was not in the session of the supervisor. It was in the pak's session, or had left it for one of its own,
   * unless nothing was left of that session.
   */
  ghost predicate Allowed(s: Step, before: Log, pak: Id, ours: int)
    requires s.act.Sent?
  {
    && s.act.target == IdOf(s.act.known) && s.act.known.sid == pak.pid && WasRead(before, s.act.known)
    && Has(s.table, s.act.target)
    && var hit := s.table.procs[s.act.target.pid];
       hit.info.sid != ours && (hit.session == pak || hit.session == s.act.target || Over(s.table, pak))
  }

  /** The act says what was so in its table. */
  ghost predicate Truthful(s: Step, before: Log, pak: Id, ours: int) {
    match s.act
    case Forked(child) => Has(s.table, child)
    case Introduced(start) => Has(s.table, pak) && s.table.procs[pak.pid].info.sid == pak.pid && start == pak.start
    case Read(pid, seen) =>
      if seen.Some? then seen.value.pid == pid && Shows(s.table, seen.value) else pid !in s.table.procs
    case Bound(pid, handle) =>
      if handle.Some? then handle.value.pid == pid && Has(s.table, handle.value) else pid !in s.table.procs
    case Sent(_, _, _) => Allowed(s, before, pak, ours)
    case Vanished(target) => !Has(s.table, target)
    case Killed(target, _) => target == pak && Has(s.table, pak)
    case Waited(_, got) => got.Reaped? ==> Has(s.table, pak) && s.table.procs[pak.pid].info.zombie
    case _ => true
  }

  /** The tables of the log follow each other and lead to t, and every act is truthful. */
  ghost predicate Honest(log: Log, t: Table, pak: Id, ours: int) {
    && (forall i :: 0 <= i < |log| ==>
        WellFormed(log[i].table) && Truthful(log[i], log[..i], pak, ours) && Later(log[i].table, t))
    && (forall i, j :: 0 <= i <= j < |log| ==> Later(log[i].table, log[j].table))
  }

  lemma HonestLater(log: Log, t: Table, u: Table, pak: Id, ours: int)
    requires Honest(log, t, pak, ours) && Later(t, u)
    ensures Honest(log, u, pak, ours)
  {
    hide Later, WellFormed, Truthful;
    forall i | 0 <= i < |log| ensures Later(log[i].table, u) {
      LaterTransitive(log[i].table, t, u);
    }
  }

  lemma HonestGrows(log: Log, s: Step, pak: Id, ours: int)
    requires Honest(log, s.table, pak, ours) && WellFormed(s.table) && Truthful(s, log, pak, ours)
    ensures Honest(log + [s], s.table, pak, ours)
  {
    hide Later, WellFormed, Truthful;
    var more := log + [s];
    LaterReflexive(s.table);
    assert more[..|log|] == log;
    forall i | 0 <= i < |more|
      ensures WellFormed(more[i].table) && Truthful(more[i], more[..i], pak, ours) && Later(more[i].table, s.table) {
      if i < |log| { assert more[i] == log[i] && more[..i] == log[..i]; }
    }
    forall i, j | 0 <= i <= j < |more| ensures Later(more[i].table, more[j].table) {
      if j < |log| { assert more[i] == log[i] && more[j] == log[j]; }
    }
  }

  // ---- Scans --------------------------------------------------------------

  predicate MemberRead(act: Act, leader: int) { act.Read? && act.seen.Some? && IsMember(act.seen.value, leader) }

  /** The members read during this part of the log, in order. */
  function Found(steps: Log, leader: int): seq<Info> {
    if steps == [] then []
    else
      var act := steps[|steps| - 1].act;
      Found(steps[..|steps| - 1], leader) + if MemberRead(act, leader) then [act.seen.value] else []
  }

  lemma FoundGrows(steps: Log, s: Step, leader: int)
    ensures Found(steps + [s], leader) ==
            Found(steps, leader) + if MemberRead(s.act, leader) then [s.act.seen.value] else []
  {
    assert (steps + [s])[..|steps|] == steps;
  }

  lemma FoundOne(s: Step, leader: int)
    ensures Found([s], leader) == if MemberRead(s.act, leader) then [s.act.seen.value] else []
  {
    hide IsMember;
    assert [s][..0] == [];
  }

  lemma FoundAppends(steps: Log, more: Log, leader: int)
    requires |more| <= 1
    ensures Found(steps + more, leader) == Found(steps, leader) + Found(more, leader)
  {
    if more == [] {
      assert steps + more == steps && Found(more, leader) == [];
    } else {
      hide Found, IsMember;
      FoundGrows(steps, more[0], leader);
      FoundOne(more[0], leader);
      assert more == [more[0]];
    }
  }

  lemma {:induction false} FoundWereRead(steps: Log, leader: int, info: Info)
    requires info in Found(steps, leader)
    ensures IsMember(info, leader)
    ensures exists i :: 0 <= i < |steps| && MemberRead(steps[i].act, leader) && steps[i].act.seen.value == info
  {
    var n := |steps| - 1;
    if info in Found(steps[..n], leader) {
      FoundWereRead(steps[..n], leader, info);
      var i :| 0 <= i < n && MemberRead(steps[..n][i].act, leader) && steps[..n][i].act.seen.value == info;
      assert steps[i] == steps[..n][i];
    } else {
      assert MemberRead(steps[n].act, leader);
    }
  }

  /** The PID of the leader is free, or shows the recorded incarnation as a zombie or leading its session and group. */
  predicate LeaderFine(act: Act, leader: int, start: nat) {
    act.Read? && act.pid == leader &&
    (act.seen.Some? ==>
      var i := act.seen.value; i.start == start && (i.zombie || (i.pgid == leader && i.sid == leader)))
  }

  /** The PID of the leader shows another incarnation, or the leader does not lead. */
  predicate ConflictRead(act: Act, leader: int, start: nat) {
    act.Read? && act.pid == leader && !LeaderFine(act, leader, start)
  }

  lemma BadRead(act: Act, leader: int, start: nat)
    requires act == Fault || (act.Read? && act.pid == leader)
    ensures !LeaderFine(act, leader, start) <==> act == Fault || ConflictRead(act, leader, start)
  {
  }

  lemma LeaderIsNoMember(act: Act, leader: int, start: nat)
    requires LeaderFine(act, leader, start) && (act.seen.Some? ==> act.seen.value.pid == act.pid)
    ensures !MemberRead(act, leader)
  {
  }

  /** The calls from o to e were one whole scan and nothing else: it read to the end and found the leader's PID fine. */
  ghost predicate Scanned(log: Log, o: int, e: int, leader: int, start: nat) {
    && 0 <= o && o + 2 < e <= |log| && log[o].act == Listing && LeaderFine(log[e - 1].act, leader, start)
    && log[e - 2].act == Listed
    && (forall i :: o < i < e - 2 ==> log[i].act.Read?)
    && Complete(log[o].table, log[e - 1].table, leader, Found(log[o..e], leader))
  }

  /** The closing read of the leader completes a scan. */
  lemma ScanCloses(before: Log, log: Log, o: nat, leader: int, start: nat, members: seq<Info>)
    requires before <= log && |log| == |before| + 1 && o + 1 < |before|
    requires before[o].act == Listing && before[|before| - 1].act == Listed
    requires forall i :: o < i < |before| - 1 ==> before[i].act.Read?
    requires members == Found(before[o..], leader)
    requires Complete(before[o].table, before[|before| - 1].table, leader, members)
    requires var s := log[|before|];
      && Later(before[o].table, before[|before| - 1].table) && Later(before[|before| - 1].table, s.table)
      && WellFormed(s.table)
      && LeaderFine(s.act, leader, start) && (s.act.seen.Some? ==> s.act.seen.value.pid == leader)
    ensures Scanned(log, o, |log|, leader, start) && Found(log[o..], leader) == members
  {
    hide Later, WellFormed, Complete, Found;
    var s := log[|before|];
    LaterUsed(before[o].table, before[|before| - 1].table);
    StillComplete(before[o].table, before[|before| - 1].table, s.table, leader, members);
    FoundGrows(before[o..], s, leader);
    assert log[o..] == before[o..] + [s] && log[o..|log|] == log[o..];
    LeaderIsNoMember(s.act, leader, start);
    assert members + [] == members;
  }

  ghost predicate EmptyScan(log: Log, o: int, e: int, leader: int, start: nat) {
    Scanned(log, o, e, leader, start) && Found(log[o..e], leader) == []
  }

  ghost predicate BusyScan(log: Log, o: int, e: int, leader: int, start: nat) {
    Scanned(log, o, e, leader, start) && Found(log[o..e], leader) != []
  }

  /** The log ends right after a whole scan, begun at from or later, that read no live member. */
  ghost predicate Quieted(log: Log, from: nat, leader: int, start: nat) {
    exists o, e :: from <= o && e == |log| && EmptyScan(log, o, e, leader, start)
  }

  /** The log ends with a pause right after a whole scan that read a live member. */
  ghost predicate StillBusy(log: Log, from: nat, leader: int, start: nat) {
    && log != [] && log[|log| - 1].act == Slept
    && exists o, e :: from <= o && e == |log| - 1 && BusyScan(log, o, e, leader, start)
  }

  // ---- Signals ------------------------------------------------------------

  /** The act shows that the process was gone, dead, or no longer the same in its group and session. */
  predicate Slip(act: Act, info: Info) {
    match act
    case Read(pid, seen) => pid == info.pid && (seen.Some? ==> !SameProcess(info, seen.value))
    case Bound(pid, handle) => pid == info.pid && handle.None?
    case Vanished(target) => target == IdOf(info)
    case _ => false
  }

  /** From then on the process was signalled, or seen to have slipped away. */
  ghost predicate Handled(log: Log, from: nat, info: Info, number: int) {
    exists k :: from <= k < |log| && (log[k].act == Sent(info, IdOf(info), number) || Slip(log[k].act, info))
  }

  ghost predicate AllHandled(log: Log, from: nat, members: seq<Info>, number: int) {
    forall i :: 0 <= i < |members| ==> Handled(log, from, members[i], number)
  }

  /** The leader was read as absent or dead, or was handled as what it was read to be. */
  ghost predicate LeaderHandled(log: Log, from: nat, leader: int, number: int) {
    exists k :: from <= k < |log| && log[k].act.Read? && log[k].act.pid == leader &&
      (log[k].act.seen.None? || log[k].act.seen.value.zombie || Handled(log, k, log[k].act.seen.value, number))
  }

  /** A whole scan from o to e, after which everybody it read was handled. */
  ghost predicate Answered(log: Log, o: int, e: int, leader: int, start: nat, number: int) {
    Scanned(log, o, e, leader, start) && AllHandled(log, e, Found(log[o..e], leader), number)
  }

  /** Since then one whole round of this signal: the leader, a whole scan, and every member the scan read. */
  ghost predicate Round(log: Log, from: nat, leader: int, start: nat, number: int) {
    && LeaderHandled(log, from, leader, number)
    && exists o, e :: from <= o && Answered(log, o, e, leader, start, number)
  }

  predicate NoFault(log: Log, from: nat) { forall i :: from <= i < |log| ==> log[i].act != Fault }

  predicate ConflictSeen(log: Log, from: nat, leader: int, start: nat) {
    exists i :: from <= i < |log| && ConflictRead(log[i].act, leader, start)
  }

  /** Nothing but inspections happened since. */
  predicate OnlyLooks(log: Log, from: nat) {
    forall i :: from <= i < |log| ==>
      var act := log[i].act; act.Read? || act == Listing || act == Listed || act == Fault
  }

  /** The log has grown since, and ends with a fault or a read of a conflict about the leader's PID. */
  predicate EndsBadly(log: Log, from: nat, leader: int, start: nat) {
    |log| > from && (log[|log| - 1].act == Fault || ConflictRead(log[|log| - 1].act, leader, start))
  }

  /** Since then a call failed, or the log ends with a read of a conflict about the leader's PID. */
  predicate Botched(log: Log, from: nat, leader: int, start: nat) {
    !NoFault(log, from) || (|log| > from && ConflictRead(log[|log| - 1].act, leader, start))
  }

  /** Nothing but inspections and signals of this number happened since. */
  predicate OnlySignals(log: Log, from: nat, number: int) {
    forall i :: from <= i < |log| ==> match log[i].act
      case Sent(_, _, n) => n == number
      case Read(_, _) => true
      case Listing => true
      case Listed => true
      case Bound(_, _) => true
      case Vanished(_) => true
      case Fault => true
      case _ => false
  }

  /** The acts that record how far a run has come. */
  predicate Mark(act: Act) { act.Introduced? || act == Unheard || act == Unpublished || act == StopAsked }

  /** Nothing but inspections, signals of this number and pauses happened since. */
  predicate OnlyReaping(log: Log, from: nat, number: int) {
    forall i :: from <= i < |log| ==>
      var act := log[i].act;
      !act.Waited? && !act.Killed? && !Mark(act) && (act.Sent? ==> act.number == number)
  }

  /** As OnlyReaping, with signals of any number. */
  predicate OnlyCleaning(log: Log, from: nat) {
    forall i :: from <= i < |log| ==>
      var act := log[i].act; !act.Waited? && !act.Killed? && !Mark(act)
  }

  lemma SignalsAreReaping(log: Log, from: nat, number: int)
    ensures OnlySignals(log, from, number) ==> OnlyReaping(log, from, number)
    ensures OnlyLooks(log, from) ==> OnlyReaping(log, from, number)
  {
  }

  /** A log that goes on reaping from a log that was. */
  lemma ReapingGoesOn(log: Log, more: Log, from: nat, number: int)
    requires log <= more && from <= |log| && OnlyReaping(log, from, number) && OnlyReaping(more, |log|, number)
    ensures OnlyReaping(more, from, number)
  {
    assert forall i :: 0 <= i < |log| ==> more[i] == log[i];
  }

  lemma NoFaultGoesOn(log: Log, more: Log, from: nat)
    requires log <= more && from <= |log|
    ensures NoFault(more, from) <==> NoFault(log, from) && NoFault(more, |log|)
  {
    assert forall i :: 0 <= i < |log| ==> more[i] == log[i];
  }

  lemma BotchedSince(log: Log, from: nat, since: nat, leader: int, start: nat)
    requires from <= since && Botched(log, since, leader, start)
    ensures Botched(log, from, leader, start)
  {
    hide ConflictRead;
  }

  lemma QuietedNow(log: Log, from: nat, o: nat, leader: int, start: nat)
    requires from <= o && EmptyScan(log, o, |log|, leader, start)
    ensures Quieted(log, from, leader, start)
  {
    hide EmptyScan;
  }

  lemma QuietedSince(log: Log, from: nat, since: nat, leader: int, start: nat)
    requires from <= since && Quieted(log, since, leader, start)
    ensures Quieted(log, from, leader, start)
  {
    hide EmptyScan;
  }

  lemma BusySince(log: Log, from: nat, since: nat, leader: int, start: nat)
    requires from <= since && StillBusy(log, since, leader, start)
    ensures StillBusy(log, from, leader, start)
  {
    hide BusyScan;
  }

  /** A pause after a scan that read somebody. */
  lemma BusyNow(log: Log, more: Log, from: nat, o: nat, leader: int, start: nat)
    requires from <= o && BusyScan(log, o, |log|, leader, start)
    requires log <= more && |more| == |log| + 1 && more[|log|].act == Slept
    ensures StillBusy(more, from, leader, start)
  {
    hide Scanned, Found;
    ScannedStays(log, more, o, |log|, leader, start);
    assert BusyScan(more, o, |log|, leader, start);
  }

  lemma BusyEnds(log: Log, from: nat, leader: int, start: nat)
    requires StillBusy(log, from, leader, start)
    ensures log != [] && log[|log| - 1].act == Slept
  {
    hide BusyScan;
  }

  lemma BadEnd(log: Log, from: nat, leader: int, start: nat)
    requires EndsBadly(log, from, leader, start)
    ensures Botched(log, from, leader, start)
  {
    hide ConflictRead;
  }

  /** What ends in any other way has not been quieted. */
  lemma NotQuieted(log: Log, from: nat, leader: int, start: nat)
    requires Botched(log, from, leader, start) || (log != [] && log[|log| - 1].act == Slept)
    ensures !(NoFault(log, from) && Quieted(log, from, leader, start))
  {
    hide Complete, Found;
    if Quieted(log, from, leader, start) {
      var o, e :| from <= o && e == |log| && EmptyScan(log, o, e, leader, start);
      assert LeaderFine(log[|log| - 1].act, leader, start);
    }
  }

  lemma StillRead(log: Log, more: Log, info: Info)
    requires log <= more && WasRead(log, info)
    ensures WasRead(more, info)
  {
    var i :| 0 <= i < |log| && log[i].act == Read(info.pid, Some(info));
    assert more[i] == log[i];
  }

  lemma HandledNow(log: Log, from: nat, info: Info, number: int)
    requires from < |log| && (log[|log| - 1].act == Sent(info, IdOf(info), number) || Slip(log[|log| - 1].act, info))
    ensures Handled(log, from, info, number)
  {
    hide Slip;
  }

  lemma SignalsGrow(log: Log, more: Log, from: nat, info: Info, number: int)
    requires log <= more && from <= |log| < |more| && OnlySignals(log, from, number)
    requires forall i :: |log| <= i < |more| - 1 ==> more[i].act.Read? || more[i].act.Bound?
    requires var act := more[|more| - 1].act; act == Sent(info, IdOf(info), number) || Slip(act, info) || act == Fault
    ensures OnlySignals(more, from, number)
  {
    assert forall i :: 0 <= i < |log| ==> more[i] == log[i];
  }

  lemma FaultGrows(log: Log, more: Log, from: nat)
    requires log <= more && from <= |log| < |more| && forall i :: |log| <= i < |more| - 1 ==> more[i].act != Fault
    ensures NoFault(more, from) <==> NoFault(log, from) && more[|more| - 1].act != Fault
  {
    assert forall i :: 0 <= i < |log| ==> more[i] == log[i];
  }

  lemma HandledStays(log: Log, more: Log, from: nat, info: Info, number: int)
    requires log <= more && Handled(log, from, info, number)
    ensures Handled(more, from, info, number)
  {
    hide Slip;
    var k :| from <= k < |log| && (log[k].act == Sent(info, IdOf(info), number) || Slip(log[k].act, info));
    assert more[k] == log[k];
  }

  lemma AllHandledStays(log: Log, more: Log, from: nat, members: seq<Info>, number: int)
    requires log <= more && AllHandled(log, from, members, number)
    ensures AllHandled(more, from, members, number)
  {
    hide Handled;
    forall i | 0 <= i < |members| ensures Handled(more, from, members[i], number) {
      HandledStays(log, more, from, members[i], number);
    }
  }

  lemma ScannedStays(log: Log, more: Log, o: int, e: int, leader: int, start: nat)
    requires log <= more && Scanned(log, o, e, leader, start)
    ensures Scanned(more, o, e, leader, start) && more[o..e] == log[o..e]
  {
    hide Complete, Found, LeaderFine;
    assert more[o] == log[o] && more[e - 1] == log[e - 1] && more[e - 2] == log[e - 2];
    assert forall i :: o < i < e ==> more[i] == log[i];
    assert more[o..e] == log[o..e];
  }

  lemma LeaderHandledBy(log: Log, from: nat, k: nat, leader: int, number: int)
    requires from <= k < |log| && log[k].act.Read? && log[k].act.pid == leader
    requires log[k].act.seen.None? || log[k].act.seen.value.zombie || Handled(log, k, log[k].act.seen.value, number)
    ensures LeaderHandled(log, from, leader, number)
  {
    hide Handled;
  }

  lemma RoundMade(log: Log, from: nat, o: int, e: int, leader: int, start: nat, number: int)
    requires LeaderHandled(log, from, leader, number) && from <= o && Answered(log, o, e, leader, start, number)
    ensures Round(log, from, leader, start, number)
  {
    hide LeaderHandled, Answered;
  }

  lemma AllFoundRead(log: Log, o: nat, leader: int)
    requires o <= |log|
    requires forall i :: o <= i < |log| && MemberRead(log[i].act, leader) ==>
             log[i].act.pid == log[i].act.seen.value.pid
    ensures forall m :: m in Found(log[o..], leader) ==> m.sid == leader && WasRead(log, m)
  {
    forall m | m in Found(log[o..], leader) ensures m.sid == leader && WasRead(log, m) {
      FoundWereRead(log[o..], leader, m);
      var i :| 0 <= i < |log[o..]| && MemberRead(log[o..][i].act, leader) && log[o..][i].act.seen.value == m;
      assert log[o + i] == log[o..][i] && log[o + i].act == Read(m.pid, Some(m));
    }
  }

  lemma HonestReads(log: Log, t: Table, pak: Id, ours: int)
    requires Honest(log, t, pak, ours)
    ensures forall i :: 0 <= i < |log| && log[i].act.Read? && log[i].act.seen.Some? ==>
            log[i].act.pid == log[i].act.seen.value.pid
  {
    hide Later, WellFormed, Allowed;
    forall i | 0 <= i < |log| && log[i].act.Read? && log[i].act.seen.Some?
      ensures log[i].act.pid == log[i].act.seen.value.pid {
      assert Truthful(log[i], log[..i], pak, ours);
    }
  }

  lemma LeaderHandledStays(log: Log, more: Log, from: nat, leader: int, number: int)
    requires log <= more && LeaderHandled(log, from, leader, number)
    ensures LeaderHandled(more, from, leader, number)
  {
    hide Handled;
    var k :| from <= k < |log| && log[k].act.Read? && log[k].act.pid == leader &&
      (log[k].act.seen.None? || log[k].act.seen.value.zombie || Handled(log, k, log[k].act.seen.value, number));
    assert more[k] == log[k];
    if log[k].act.seen.Some? && Handled(log, k, log[k].act.seen.value, number) {
      HandledStays(log, more, k, log[k].act.seen.value, number);
    }
  }

  lemma AnsweredStays(log: Log, more: Log, o: int, e: int, leader: int, start: nat, number: int)
    requires log <= more && Answered(log, o, e, leader, start, number)
    ensures Answered(more, o, e, leader, start, number)
  {
    hide AllHandled, Found, Complete;
    ScannedStays(log, more, o, e, leader, start);
    AllHandledStays(log, more, e, Found(log[o..e], leader), number);
  }

  lemma RoundStays(log: Log, more: Log, from: nat, leader: int, start: nat, number: int)
    requires log <= more && Round(log, from, leader, start, number)
    ensures Round(more, from, leader, start, number)
  {
    hide LeaderHandled, Answered;
    LeaderHandledStays(log, more, from, leader, number);
    var o, e :| from <= o && Answered(log, o, e, leader, start, number);
    AnsweredStays(log, more, o, e, leader, start, number);
  }

  /** Starting earlier asks for less. */
  lemma RoundSince(log: Log, from: nat, since: nat, leader: int, start: nat, number: int)
    requires from <= since && Round(log, since, leader, start, number)
    ensures Round(log, from, leader, start, number)
  {
    hide Answered, Handled;
    var o, e :| since <= o && Answered(log, o, e, leader, start, number);
  }

  // ---- Counting -----------------------------------------------------------

  function Pauses(log: Log): nat {
    if log == [] then 0 else Pauses(log[..|log| - 1]) + if log[|log| - 1].act == Slept then 1 else 0
  }

  function Waits(log: Log): nat {
    if log == [] then 0 else Waits(log[..|log| - 1]) + if log[|log| - 1].act.Waited? then 1 else 0
  }

  /** Polls of the child that a signal to the supervisor cut short; after these it does not sleep. */
  function Interrupts(log: Log): nat {
    if log == [] then 0
    else Interrupts(log[..|log| - 1]) + if log[|log| - 1].act == Waited(false, Interrupted) then 1 else 0
  }

  /** The polls after which the supervisor let time pass, or was interrupted instead. */
  function Idled(log: Log): nat { Pauses(log) + Interrupts(log) }

  lemma CountsGrow(log: Log, s: Step)
    ensures Pauses(log + [s]) == Pauses(log) + if s.act == Slept then 1 else 0
    ensures Waits(log + [s]) == Waits(log) + if s.act.Waited? then 1 else 0
    ensures Interrupts(log + [s]) == Interrupts(log) + if s.act == Waited(false, Interrupted) then 1 else 0
  {
    assert (log + [s])[..|log|] == log;
  }

  lemma {:induction false} PausesGrow(log: Log, k: nat)
    requires k <= |log|
    ensures Pauses(log[..k]) <= Pauses(log)
  {
    if k < |log| {
      PausesGrow(log[..|log| - 1], k);
      assert log[..|log| - 1][..k] == log[..k];
    } else {
      assert log[..k] == log;
    }
  }

  lemma {:induction false} InterruptsGrow(log: Log, k: nat)
    requires k <= |log|
    ensures Interrupts(log[..k]) <= Interrupts(log)
  {
    if k < |log| {
      InterruptsGrow(log[..|log| - 1], k);
      assert log[..|log| - 1][..k] == log[..k];
    } else {
      assert log[..k] == log;
    }
  }

  lemma IdledGrows(log: Log, more: Log)
    requires log <= more
    ensures Pauses(log) <= Pauses(more) && Interrupts(log) <= Interrupts(more)
  {
    hide Pauses, Interrupts;
    PausesGrow(more, |log|);
    InterruptsGrow(more, |log|);
    assert more[..|log|] == log;
  }

  // ---- Manners ------------------------------------------------------------

  /** Every poll that found the child alive is followed at once by a pause. */
  predicate Paced(log: Log, from: nat) {
    forall i :: from <= i < |log| && log[i].act == Waited(false, NotYet) ==>
      i + 1 < |log| && log[i + 1].act == Slept
  }

  predicate IsKill(act: Act) {
    (act.Sent? && act.number == SIGKILL) || (act.Killed? && act.number == SIGKILL)
  }

  /**
   From a to j the supervisor asked to terminate: it sent SIGTERM to the child
   by its PID, or made a whole round of SIGTERM and nothing else, unless a call
   failed or the leader's PID was in conflict.
   */
  ghost predicate AskedToStop(log: Log, a: nat, j: nat, pak: Id) {
    && a < j <= |log|
    && (|| (j == a + 1 && log[a].act == Killed(pak, SIGTERM))
        || (OnlySignals(log[..j], a, SIGTERM) && Tried(log[..j], a, pak.pid, pak.start, SIGTERM)))
  }

  /** It asked, and since then all the polls of the grace have passed, each with its pause unless interrupted. */
  ghost predicate Graced(log: Log, pak: Id) {
    exists a, j :: 0 <= a < j <= |log| && AskedToStop(log, a, j, pak) && Idled(log) >= Idled(log[..j]) + TERM_POLLS
  }

  /** Since from, nobody was killed, by PID or by handle, before that. */
  ghost predicate AllGraced(log: Log, from: nat, pak: Id) {
    forall k :: from <= k < |log| && IsKill(log[k].act) ==> Graced(log[..k], pak)
  }

  ghost predicate Mannered(log: Log, from: nat, pak: Id) { Paced(log, from) && AllGraced(log, from, pak) }

  lemma GracedStays(log: Log, more: Log, pak: Id)
    requires log <= more && Graced(log, pak)
    ensures Graced(more, pak)
  {
    hide Pauses, Interrupts, Tried, OnlySignals;
    var a, j :| 0 <= a < j <= |log| && AskedToStop(log, a, j, pak) && Idled(log) >= Idled(log[..j]) + TERM_POLLS;
    IdledGrows(log, more);
    assert more[..j] == log[..j] && more[a] == log[a];
    assert AskedToStop(more, a, j, pak);
  }

  lemma GracedNow(log: Log, a: nat, j: nat, pak: Id)
    requires AskedToStop(log, a, j, pak) && Idled(log) >= Idled(log[..j]) + TERM_POLLS
    ensures Graced(log, pak)
  {
    hide Pauses, Interrupts, Tried, OnlySignals;
  }

  /** After the grace every kill is graced. */
  lemma KillsGraced(log: Log, more: Log, pak: Id)
    requires log <= more && Graced(log, pak)
    ensures AllGraced(more, |log|, pak)
  {
    hide Graced;
    forall k | |log| <= k < |more| && IsKill(more[k].act) ensures Graced(more[..k], pak) {
      assert log <= more[..k];
      GracedStays(log, more[..k], pak);
    }
  }

  /** Without a kill and without a poll of the child there is nothing to mind. */
  lemma HarmlessIsMannered(log: Log, from: nat, pak: Id)
    ensures OnlySignals(log, from, SIGTERM) ==> Mannered(log, from, pak)
    ensures OnlyReaping(log, from, SIGTERM) ==> Mannered(log, from, pak)
    ensures OnlyWaiting(log, from) && Paced(log, from) ==> Mannered(log, from, pak)
    ensures forall number :: OnlySignals(log, from, number) || OnlyReaping(log, from, number) ==> Paced(log, from)
    ensures OnlyCleaning(log, from) ==> Paced(log, from)
  {
    hide Graced;
  }

  lemma MannersGoOn(log: Log, more: Log, from: nat, pak: Id)
    requires log <= more && from <= |log| && Mannered(log, from, pak) && Mannered(more, |log|, pak)
    ensures Mannered(more, from, pak)
  {
    hide Graced, IsKill;
    assert forall i :: 0 <= i < |log| ==> more[i] == log[i];
    forall k | from <= k < |more| && IsKill(more[k].act) ensures Graced(more[..k], pak) {
      if k < |log| { assert more[..k] == log[..k]; }
    }
  }

  /** One more act that is neither a kill nor a poll. */
  lemma MannersByOne(log: Log, more: Log, from: nat, pak: Id)
    requires log <= more && |more| == |log| + 1 && from <= |log| && Mannered(log, from, pak)
    requires more[|log|].act != Waited(false, NotYet) && (IsKill(more[|log|].act) ==> Graced(log, pak))
    ensures Mannered(more, from, pak)
  {
    hide Graced, IsKill;
    assert more[..|log|] == log;
    MannersGoOn(log, more, from, pak);
  }

  lemma NothingIsMannered(log: Log, pak: Id)
    ensures Mannered(log, |log|, pak)
  {
  }

  lemma PacedByOne(log: Log, one: Log, more: Log, from: nat)
    requires log <= one <= more && |one| == |log| + 1 && !one[|log|].act.Waited? && from <= |log|
    requires Paced(log, from) && Paced(more, |one|)
    ensures Paced(more, from)
  {
    assert forall i :: 0 <= i < |log| ==> more[i] == log[i];
    assert more[|log|] == one[|log|];
  }

  lemma RoundIsLong(log: Log, from: nat, leader: int, start: nat, number: int)
    requires Round(log, from, leader, start, number)
    ensures |log| > from
  {
    hide Answered, Handled;
  }

  /** After a round of SIGTERM, or its failure, and all the polls of the grace. */
  lemma AskedInRound(waited: Log, signalled: Log, from: nat, pak: Id)
    requires signalled <= waited && from <= |signalled| && OnlySignals(signalled, from, SIGTERM)
    requires Tried(signalled, from, pak.pid, pak.start, SIGTERM) && Idled(waited) >= Idled(signalled) + TERM_POLLS
    ensures Graced(waited, pak)
  {
    hide Pauses, Interrupts, OnlySignals, Graced;
    assert waited[..|signalled|] == signalled;
    assert |signalled| > from by { TriedIsLong(signalled, from, pak.pid, pak.start, SIGTERM); }
    GracedNow(waited, from, |signalled|, pak);
  }

  lemma TriedIsLong(log: Log, from: nat, leader: int, start: nat, number: int)
    requires Tried(log, from, leader, start, number)
    ensures |log| > from
  {
    hide Round;
    if Round(log, from, leader, start, number) { RoundIsLong(log, from, leader, start, number); }
  }

  /** Nobody is killed before the full grace: since from, every KILL came after that many pauses. */
  predicate Graceful(log: Log, from: nat)
    requires from <= |log|
  {
    forall k :: from <= k < |log| && log[k].act.Sent? ==>
      log[k].act.number == SIGTERM ||
      (log[k].act.number == SIGKILL && Pauses(log[..k]) >= Pauses(log[..from]) + TERM_POLLS)
  }

  /** A round of SIGTERM, and then perhaps, after the full grace, one of SIGKILL. */
  lemma GracefulRounds(log: Log, from: nat, since: nat)
    requires from <= since <= |log| && OnlyReaping(log[..since], from, SIGTERM) && OnlyReaping(log, since, SIGKILL)
    requires since < |log| ==> Pauses(log[..since]) >= Pauses(log[..from]) + TERM_POLLS
    ensures Graceful(log, from) && OnlyCleaning(log, from)
  {
    assert forall i :: 0 <= i < since ==> log[..since][i] == log[i];
    forall k | from <= k < |log| && log[k].act.Sent?
      ensures log[k].act.number == SIGTERM ||
        (log[k].act.number == SIGKILL && Pauses(log[..k]) >= Pauses(log[..from]) + TERM_POLLS) {
      if k < since {
        assert log[..since][k] == log[k];
      } else {
        PausesGrow(log[..k], since);
        assert log[..k][..since] == log[..since];
      }
    }
  }

  // ---- The end of a run ---------------------------------------------------

  /** The last wait, at c, is the one that ended the waiting: the child was collected, or there was none to wait for. */
  ghost predicate WaitOver(log: Log, c: int) {
    && 0 <= c < |log| && log[c].act.Waited? && (log[c].act.got.Reaped? || log[c].act.got.NoChild?)
    && forall i :: c < i < |log| ==> !log[i].act.Waited?
  }

  ghost predicate Collected(log: Log) { exists i :: 0 <= i < |log| && log[i].act.Waited? && log[i].act.got.Reaped? }

  lemma CollectedGrows(log: Log, s: Step)
    ensures Collected(log + [s]) <==> Collected(log) || (s.act.Waited? && s.act.got.Reaped?)
  {
    var more := log + [s];
    if Collected(log) {
      var i :| 0 <= i < |log| && log[i].act.Waited? && log[i].act.got.Reaped?;
      assert more[i] == log[i];
    }
    assert more[|log|] == s;
  }

  ghost predicate Did(log: Log, act: Act) { exists i :: 0 <= i < |log| && log[i].act == act }

  /** The waiting was over, and then, without a fault, a whole scan as the last thing found nobody. */
  ghost predicate Settled(log: Log, pak: Id) {
    exists c :: WaitOver(log, c) && NoFault(log, c + 1) && Quieted(log, c + 1, pak.pid, pak.start)
  }

  /** What was to be done at the end was done: of a child that was never heard of, that is collecting it. */
  ghost predicate CleanedUp(log: Log, pak: Id) {
    if Did(log, Unheard) then Collected(log) else Settled(log, pak)
  }

  /** The log ends in the blocking wait, which reported this. */
  ghost predicate EndsWaiting(log: Log, got: Wait) { log != [] && log[|log| - 1].act == Waited(true, got) }

  /** The child would not go: the SIGKILL sent to it was followed by all the waits there are, and none collected it. */
  ghost predicate Abandoned(log: Log, pak: Id) {
    && !Collected(log)
    && exists k :: 0 <= k < |log| && log[k].act == Killed(pak, SIGKILL) && Waits(log) == Waits(log[..k]) + KILL_POLLS
  }

  /** Since the waiting was over, all the pauses there are and a whole round of SIGKILL have not emptied the session. */
  ghost predicate Outlasted(log: Log, from: nat, leader: int, start: nat)
    requires from <= |log|
  {
    && StillBusy(log, from, leader, start) && Round(log, from, leader, start, SIGKILL)
    && Pauses(log) == Pauses(log[..from]) + TERM_POLLS + KILL_POLLS
  }

  /** Why a cleanup may fail. */
  ghost predicate Excused(log: Log, pak: Id) {
    || (exists i :: 0 <= i < |log| && Trouble(log[i].act))
    || ConflictSeen(log, 0, pak.pid, pak.start)
    || Abandoned(log, pak)
    || exists c :: WaitOver(log, c) && Outlasted(log, c + 1, pak.pid, pak.start)
  }

  predicate Trouble(act: Act) { act == Fault || (act.Waited? && (act.got.NoChild? || act.got.Failed?)) }

  // ---- What the log means -------------------------------------------------

  /** Every verified signal of an honest log is allowed, and every signal by PID hit the child itself. */
  lemma SignalsAreAllowed(log: Log, t: Table, pak: Id, ours: int, k: nat)
    requires Honest(log, t, pak, ours) && k < |log|
    ensures log[k].act.Sent? ==> Allowed(log[k], log[..k], pak, ours)
    ensures log[k].act.Killed? ==> log[k].act.target == pak && Has(log[k].table, pak)
  {
    hide Later, WellFormed, Allowed;
    assert Truthful(log[k], log[..k], pak, ours);
  }

  /** The session of the process that a signal hit. */
  ghost function SessionHit(s: Step): Id
    requires s.act.Sent? && Has(s.table, s.act.target)
  {
    s.table.procs[s.act.target.pid].session
  }

  /** The child has not been collected before k, because it is still there or was collected later. */
  ghost predicate HeldAt(log: Log, t: Table, pak: Id, k: nat) {
    Has(t, pak) || exists c :: k <= c < |log| && log[c].act.Waited? && log[c].act.got.Reaped?
  }

  /**
   Until the child is collected, every verified signal hits a process of the
   pak's session, or one that left it for a session of its own.
   */
  lemma HeldSignalsStayInPak(log: Log, t: Table, pak: Id, ours: int, k: nat)
    requires Honest(log, t, pak, ours) && k < |log| && log[k].act.Sent? && HeldAt(log, t, pak, k)
    ensures Has(log[k].table, log[k].act.target)
    ensures SessionHit(log[k]) == pak || SessionHit(log[k]) == log[k].act.target
  {
    hide Honest, Later, WellFormed, Over, WasRead;
    SignalsAreAllowed(log, t, pak, ours, k);
    if !Has(t, pak) {
      var c :| k <= c < |log| && log[c].act.Waited? && log[c].act.got.Reaped?;
      HonestAt(log, t, pak, ours, k, c);
      NotOverBefore(log[k].table, log[c].table, pak);
    } else {
      HonestAt(log, t, pak, ours, k, k);
      NotOverBefore(log[k].table, t, pak);
    }
  }

  lemma HonestAt(log: Log, t: Table, pak: Id, ours: int, k: nat, c: nat)
    requires Honest(log, t, pak, ours) && k <= c < |log|
    ensures Later(log[k].table, log[c].table) && Later(log[k].table, t) && Truthful(log[c], log[..c], pak, ours)
  {
    hide Later, WellFormed, Truthful;
  }

  lemma OverStays(a: Table, b: Table, s: Id)
    requires Later(a, b) && Over(a, s)
    ensures Over(b, s)
  {
    hide Over, Quiet;
  }

  lemma NotOverBefore(a: Table, b: Table, s: Id)
    requires Later(a, b) && Has(b, s)
    ensures !Over(a, s)
  {
    hide Quiet;
  }

  /** A process that slipped away was no longer there as it had been read. */
  lemma SlipMeans(log: Log, t: Table, pak: Id, ours: int, k: nat, info: Info)
    requires Honest(log, t, pak, ours) && k < |log| && Slip(log[k].act, info)
    ensures info.pid in log[k].table.procs ==> !SameProcess(info, log[k].table.procs[info.pid].info)
  {
    hide Later, WellFormed, Allowed;
    assert Truthful(log[k], log[..k], pak, ours);
  }

  /** A scan that found nobody leaves only processes born while it ran. */
  lemma EmptyScanMeans(log: Log, o: nat, leader: int, start: nat)
    requires EmptyScan(log, o, |log|, leader, start)
    ensures OnlyNewborn(log[o].table, log[|log| - 1].table, leader)
  {
    hide LeaderFine, IsMember, Found;
    var t := log[|log| - 1].table;
    forall p | LiveMember(t, p, leader) ensures IdOf(t.procs[p].info) !in log[o].table.used {
      assert Complete(log[o].table, t, leader, []);
    }
  }

  /** If it left nobody at all and the leader is gone, the session never has a live process again. */
  lemma EmptyScanIsFinal(log: Log, o: nat, t: Table, later: Table, pak: Id)
    requires EmptyScan(log, o, |log|, pak.pid, pak.start)
    requires t == log[|log| - 1].table && WellFormed(t) && Later(t, later)
    requires t.used == log[o].table.used && pak in t.used && pak.pid > 1 && pak.pid !in t.procs
    ensures Quiet(later, pak)
  {
    hide Over, Found, Complete;
    EmptyScanMeans(log, o, pak.pid, pak.start);
    forall p | p in t.procs && !t.procs[p].info.zombie
      ensures IdOf(t.procs[p].info) != pak && t.procs[p].session != pak {
      assert !LiveMember(t, p, pak.pid);
    }
  }

  // ---- A session taken for another ----------------------------------------

  const Mine := Proc(Info(3, 3, 3, false, 1), Id(3, 1))
  const Stranger := Proc(Info(5, 5, 5, false, 1), Id(5, 1))
  const DeadPak := Proc(Info(7, 7, 7, true, 1), Id(7, 1))
  const Ids := {Id(3, 1), Id(5, 1), Id(7, 1)}
  const Before: Table := Table(map[3 := Mine, 5 := Stranger, 7 := DeadPak], Ids)
  const Free: Table := Table(map[3 := Mine, 5 := Stranger], Ids)
  const Reuse := [Fork(5, 7, 2), SetSid(7), Fork(7, 8, 3), Exit(7), Release(7)]

  /** The table in which the pak's PID has been reused by a stranger that left a child behind. */
  lemma Reused() returns (u: Table)
    ensures WellFormed(Before) && WellFormed(u) && Later(Before, u) && Over(u, Id(7, 1))
    ensures u.procs == map[3 := Mine, 5 := Stranger, 8 := Proc(Info(8, 7, 7, false, 3), Id(7, 2))]
  {
    assert Apply(Before, Release(7)) == Free;
    EventIsLater(Before, Release(7));
    hide After, CanHappen;
    SessionNumberReused(3, Free, Reuse);
    u := After(Free, Reuse, 3, 0);
    RunKeeps(Free, Reuse, 3, 0);
    LaterTransitive(Before, Free, u);
    assert Over(u, Id(7, 1)) by { OverStays(Free, u, Id(7, 1)); }
    assert u.procs == map[3 := Mine, 5 := Stranger, 8 := Proc(Info(8, 7, 7, false, 3), Id(7, 2))];
  }

  /** Writes acts that all happen at the table t. */
  lemma {:induction false} HonestActs(log: Log, t: Table, acts: seq<Act>, pak: Id, ours: int) returns (more: Log)
    requires Honest(log, t, pak, ours) && WellFormed(t)
    requires forall i :: 0 <= i < |acts| ==> Truthful(Step(t, acts[i]), log, pak, ours)
    requires forall i :: 0 <= i < |acts| ==> !acts[i].Sent?
    ensures Honest(more, t, pak, ours) && |more| == |log| + |acts| && log <= more
    ensures forall i :: 0 <= i < |acts| ==> more[|log| + i] == Step(t, acts[i])
    decreases |acts|
  {
    hide Honest, WellFormed;
    if acts == [] {
      more := log;
    } else {
      HonestGrows(log, Step(t, acts[0]), pak, ours);
      more := HonestActs(log + [Step(t, acts[0])], t, acts[1..], pak, ours);
      assert forall i :: 1 <= i < |acts| ==> acts[1..][i - 1] == acts[i];
      assert more[|log|] == Step(t, acts[0]);
    }
  }

  /**
   After the child is collected, a whole scan can list a stranger, and the
   signal that follows hits it: an honest log in which every check was passed.
   */
  lemma StrangerIsHit() returns (log: Log, t: Table)
    ensures Honest(log, t, Id(7, 1), 3) && |log| > 0
    ensures Scanned(log, 3, 8, 7, 1) && Found(log[3..8], 7) == [Info(8, 7, 7, false, 3)]
    ensures var s := log[|log| - 1];
            && s.act == Sent(Info(8, 7, 7, false, 3), Id(8, 3), SIGTERM) && Has(s.table, s.act.target)
            && SessionHit(s) != Id(7, 1) && SessionHit(s) != s.act.target
  {
    hide Honest, WellFormed, Later, Over, Scanned, Found;
    var u := Reused();
    var pak, info := Id(7, 1), Info(8, 7, 7, false, 3);
    var start := StrangerStart(u);
    var scan := [Read(7, None), Listing, Read(5, Some(Stranger.info)), Read(8, Some(info)), Listed, Read(7, None)];
    var check := [Read(8, Some(info)), Bound(8, Some(Id(8, 3))), Read(8, Some(info))];
    var looked := HonestActs(start, u, scan, pak, 3);
    var checked := HonestActs(looked, u, check, pak, 3);
    var s := Step(u, Sent(info, Id(8, 3), SIGTERM));
    assert looked[2 + 1] == Step(u, scan[1]) && looked[2 + 2] == Step(u, scan[2]) && looked[2 + 3] == Step(u, scan[3]);
    assert looked[2 + 4] == Step(u, scan[4]) && looked[2 + 5] == Step(u, scan[5]);
    assert WasRead(checked, info) by { assert checked[8 + 0] == Step(u, check[0]); }
    HonestGrows(checked, s, pak, 3);
    log, t := checked + [s], u;
    ScanOfStranger(log, u);
  }

  lemma StrangerStart(u: Table) returns (start: Log)
    requires WellFormed(Before) && WellFormed(u) && Later(Before, u)
    ensures Honest(start, u, Id(7, 1), 3) && |start| == 2
  {
    hide Later, WellFormed;
    start := [Step(Before, Forked(Id(7, 1))), Step(Before, Waited(true, Reaped(0)))];
    LaterReflexive(Before);
  }

  lemma ScanOfStranger(log: Log, u: Table)
    requires |log| >= 8 && u.procs == map[3 := Mine, 5 := Stranger, 8 := Proc(Info(8, 7, 7, false, 3), Id(7, 2))]
    requires log[3] == Step(u, Listing) && log[4] == Step(u, Read(5, Some(Stranger.info)))
    requires log[5] == Step(u, Read(8, Some(Info(8, 7, 7, false, 3)))) && log[6] == Step(u, Listed)
    requires log[7] == Step(u, Read(7, None))
    ensures Scanned(log, 3, 8, 7, 1) && Found(log[3..8], 7) == [Info(8, 7, 7, false, 3)]
  {
    hide Found, Complete;
    FoundStranger(log[3..8]);
    StrangerComplete(u);
  }

  lemma FoundStranger(steps: Log)
    requires |steps| == 5 && !steps[0].act.Read? && steps[1].act == Read(5, Some(Stranger.info)) && !steps[3].act.Read?
    requires steps[2].act == Read(8, Some(Info(8, 7, 7, false, 3))) && steps[4].act == Read(7, None)
    ensures Found(steps, 7) == [Info(8, 7, 7, false, 3)]
  {
    hide Found;
    FoundOne(steps[0], 7);
    FoundGrows(steps[..1], steps[1], 7);
    FoundGrows(steps[..2], steps[2], 7);
    FoundGrows(steps[..3], steps[3], 7);
    FoundGrows(steps[..4], steps[4], 7);
    assert steps[..1] == [steps[0]] && steps[..2] == steps[..1] + [steps[1]] && steps[..3] == steps[..2] + [steps[2]];
    assert steps[..4] == steps[..3] + [steps[3]] && steps == steps[..4] + [steps[4]];
  }

  lemma StrangerComplete(u: Table)
    requires u.procs == map[3 := Mine, 5 := Stranger, 8 := Proc(Info(8, 7, 7, false, 3), Id(7, 2))]
    ensures Complete(u, u, 7, [Info(8, 7, 7, false, 3)])
  {
    var members := [Info(8, 7, 7, false, 3)];
    forall p | LiveMember(u, p, 7) ensures exists i :: 0 <= i < |members| && IdOf(members[i]) == IdOf(u.procs[p].info) {
      assert IdOf(members[0]) == Id(8, 3);
    }
  }

  // ---- Reasoning about the end --------------------------------------------

  predicate NoMarks(log: Log, from: nat) { forall i :: from <= i < |log| ==> !Mark(log[i].act) }

  /** Nothing but non-blocking waits and pauses happened since. */
  predicate OnlyWaiting(log: Log, from: nat) {
    forall i :: from <= i < |log| ==> log[i].act == Slept || (log[i].act.Waited? && !log[i].act.blocking)
  }

  lemma NoMarksGoesOn(log: Log, more: Log, from: nat)
    requires log <= more && from <= |log| && NoMarks(log, from) && NoMarks(more, |log|)
    ensures NoMarks(more, from)
  {
    assert forall i :: 0 <= i < |log| ==> more[i] == log[i];
  }

  predicate WaitsOn(act: Act) { act.Waited? && act.blocking }

  lemma LastWait(log: Log, from: nat)
    requires OnlyWaiting(log, from) && |log| > from
    ensures var act := log[|log| - 1].act; !act.Read? && !WaitsOn(act)
  {
  }

  lemma LastCleaned(log: Log, from: nat, leader: int, start: nat)
    requires OnlyCleaning(log, from) && from <= |log|
    requires Quieted(log, from, leader, start) || Botched(log, from, leader, start) ||
             Outlasted(log, from, leader, start)
    ensures |log| > from && !log[|log| - 1].act.Waited?
  {
    hide Complete, Found, ConflictRead, Round, Pauses;
    if Outlasted(log, from, leader, start) {
      var o, e :| from <= o && e == |log| - 1 && BusyScan(log, o, e, leader, start);
    }
  }

  lemma NoMarksByOne(log: Log, one: Log, more: Log, from: nat)
    requires log <= one <= more && |one| == |log| + 1 && !Mark(one[|log|].act) && from <= |log|
    requires NoMarks(log, from) && NoMarks(more, |one|)
    ensures NoMarks(more, from)
  {
    assert forall i :: 0 <= i < |log| ==> more[i] == log[i];
    assert more[|log|] == one[|log|];
  }

  lemma HaveNoMarks(log: Log, from: nat, number: int)
    ensures OnlySignals(log, from, number) ==> NoMarks(log, from)
    ensures OnlyWaiting(log, from) ==> NoMarks(log, from)
    ensures OnlyCleaning(log, from) ==> NoMarks(log, from)
  {
  }

  /** Without new marks the log records the same progress. */
  lemma MarksKept(log: Log, more: Log)
    requires log <= more && NoMarks(more, |log|)
    ensures forall act :: Mark(act) ==> (Did(more, act) <==> Did(log, act))
  {
    hide NoMarks, Did;
    forall act | Mark(act) ensures Did(more, act) <==> Did(log, act) {
      DidGrows(log, more, act);
    }
  }

  lemma DidGrows(log: Log, more: Log, act: Act)
    requires log <= more && NoMarks(more, |log|) && Mark(act)
    ensures Did(more, act) <==> Did(log, act)
  {
    if Did(log, act) {
      var i :| 0 <= i < |log| && log[i].act == act;
      assert more[i].act == act;
    }
    if Did(more, act) {
      var i :| 0 <= i < |more| && more[i].act == act;
      assert i < |log| && log[i] == more[i];
    }
  }

  /** Marking the log makes this mark and no other. */
  lemma MarkMade(log: Log, more: Log, act: Act)
    requires log <= more && |more| == |log| + 1 && more[|log|].act == act && Mark(act)
    ensures Did(more, act) && forall other :: other != act && Mark(other) ==> (Did(more, other) <==> Did(log, other))
  {
    forall other | other != act && Mark(other) ensures Did(more, other) <==> Did(log, other) {
      if Did(log, other) {
        var i :| 0 <= i < |log| && log[i].act == other;
        assert more[i].act == other;
      }
      if Did(more, other) {
        var i :| 0 <= i < |more| && more[i].act == other;
        assert i < |log| && log[i] == more[i];
      }
    }
  }

  lemma NothingLogged(t: Table, pak: Id, ours: int)
    ensures Honest([], t, pak, ours)
  {
  }

  lemma NotSettled(log: Log, pak: Id)
    requires log != [] && !log[|log| - 1].act.Read?
    ensures !Settled(log, pak)
  {
    hide Complete, Found;
  }

  /**
   After a wait that ended the waiting and the cleaning that followed it, being settled is what the
   cleaning came to.
   */
  lemma SettledIff(log: Log, c: nat, pak: Id)
    requires c < |log| && log[c].act.Waited?
    requires (log[c].act.got.Reaped? || log[c].act.got.NoChild?) && OnlyCleaning(log, c + 1)
    ensures WaitOver(log, c)
    ensures Settled(log, pak) <==> NoFault(log, c + 1) && Quieted(log, c + 1, pak.pid, pak.start)
  {
    hide Quieted;
    if Settled(log, pak) {
      var d :| WaitOver(log, d) && NoFault(log, d + 1) && Quieted(log, d + 1, pak.pid, pak.start);
      assert d == c;
    }
  }

  /** The excuses of a cleaning that failed after the wait at c. */
  lemma CleaningExcused(log: Log, c: nat, pak: Id)
    requires WaitOver(log, c) && (Botched(log, c + 1, pak.pid, pak.start) || Outlasted(log, c + 1, pak.pid, pak.start))
    ensures Excused(log, pak)
  {
    hide Outlasted, Abandoned, ConflictRead;
    if !NoFault(log, c + 1) {
      var i :| c + 1 <= i < |log| && log[i].act == Fault;
      assert Trouble(log[i].act);
    }
  }

  lemma TroubleExcuses(log: Log, i: nat, pak: Id)
    requires i < |log| && Trouble(log[i].act)
    ensures Excused(log, pak)
  {
    hide Outlasted, Abandoned, ConflictRead, WaitOver, Trouble;
  }

  lemma AbandonedExcuses(log: Log, pak: Id)
    requires Abandoned(log, pak)
    ensures Excused(log, pak)
  {
    hide Outlasted, Abandoned, ConflictRead, WaitOver, Trouble;
  }

  lemma AbandonedNow(log: Log, k: nat, pak: Id)
    requires k < |log| && log[k].act == Killed(pak, SIGKILL)
    requires Waits(log) == Waits(log[..k]) + KILL_POLLS && !Collected(log)
    ensures Abandoned(log, pak)
  {
    hide Collected, Waits;
  }

  /** Either a whole round of the signal was made since, or there is a reason. */
  ghost predicate Tried(log: Log, from: nat, leader: int, start: nat, number: int) {
    Round(log, from, leader, start, number) || !NoFault(log, from) || ConflictSeen(log, from, leader, start)
  }

  lemma TriedNow(log: Log, from: nat, leader: int, start: nat, number: int)
    requires Round(log, from, leader, start, number) || Botched(log, from, leader, start)
    ensures Tried(log, from, leader, start, number)
  {
    hide Round, ConflictRead;
  }

  lemma TriedStays(log: Log, more: Log, from: nat, leader: int, start: nat, number: int)
    requires log <= more && Tried(log, from, leader, start, number)
    ensures Tried(more, from, leader, start, number)
  {
    hide Round, ConflictRead;
    assert forall i :: 0 <= i < |log| ==> more[i] == log[i];
    if Round(log, from, leader, start, number) {
      RoundStays(log, more, from, leader, start, number);
    } else if !NoFault(log, from) {
      var i :| from <= i < |log| && log[i].act == Fault;
      assert more[i].act == Fault;
    } else {
      var i :| from <= i < |log| && ConflictRead(log[i].act, leader, start);
      assert ConflictRead(more[i].act, leader, start);
    }
  }
}
