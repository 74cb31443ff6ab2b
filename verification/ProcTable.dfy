/**
 * The process table as other processes may change it between any two system calls of the pak supervisor:
 * processes fork, exit, are released by their parents, start sessions and move between process groups, and PIDs
 * are reused. An incarnation of a process is its PID together with its start time, and only that is never reused.
 */
module ProcTable {

  datatype Id = Id(pid: int, start: nat)

  /** What /proc/<pid>/stat shows (proc_info); of the state letter only 'Z' matters. */
  datatype Info = Info(pid: int, pgid: int, sid: int, zombie: bool, start: nat)

  function IdOf(info: Info): Id { Id(info.pid, info.start) }

  /** A process, and the incarnation whose setsid made its session, which /proc does not show. */
  datatype Proc = Proc(info: Info, session: Id)

  datatype Table = Table(procs: map<int, Proc>, used: set<Id>)

  datatype Event =
    | Fork(parent: int, child: int, start: nat)
    | Exit(pid: int)
    | Release(pid: int)
    | SetSid(pid: int)
    | SetPgid(pid: int, pgid: int)

  predicate Running(t: Table, p: int) { p in t.procs && !t.procs[p].info.zombie }

  /** A PID is taken while a process has it as its PID, its group or its session, zombies included. */
  predicate Taken(t: Table, pid: int) {
    pid in t.procs || exists p :: p in t.procs && (t.procs[p].info.pgid == pid || t.procs[p].info.sid == pid)
  }

  /** What the kernel lets happen. */
  predicate Possible(t: Table, e: Event) {
    match e
    case Fork(parent, child, start) =>
      Running(t, parent) && child > 1 && !Taken(t, child) && Id(child, start) !in t.used
    case Exit(p) => Running(t, p)
    case Release(p) => p in t.procs && t.procs[p].info.zombie
    case SetSid(p) => Running(t, p) && forall q :: q in t.procs ==> t.procs[q].info.pgid != p
    case SetPgid(p, g) =>
      && Running(t, p) && t.procs[p].info.sid != p && g > 0
      && (g == p || exists q :: q in t.procs && t.procs[q].info.pgid == g && t.procs[q].info.sid == t.procs[p].info.sid)
  }

  function Put(t: Table, p: int, proc: Proc): Table { t.(procs := t.procs[p := proc]) }

  function Apply(t: Table, e: Event): Table
    requires Possible(t, e)
  {
    match e
    case Fork(parent, child, start) =>
      var of := t.procs[parent];
      Table(t.procs[child := Proc(Info(child, of.info.pgid, of.info.sid, false, start), of.session)],
            t.used + {Id(child, start)})
    case Exit(p) => Put(t, p, t.procs[p].(info := t.procs[p].info.(zombie := true)))
    case Release(p) => t.(procs := t.procs - {p})
    case SetSid(p) => Put(t, p, Proc(t.procs[p].info.(pgid := p, sid := p), Id(p, t.procs[p].info.start)))
    case SetPgid(p, g) => Put(t, p, t.procs[p].(info := t.procs[p].info.(pgid := g)))
  }

  /** Events other processes cause: none is a step of process me, and none releases the child me has not waited for. */
  predicate Foreign(e: Event, me: int, held: int) {
    match e
    case Fork(parent, _, _) => parent != me
    case Release(p) => p != me && p != held
    case _ => e.pid != me
  }

  predicate CanHappen(t: Table, es: seq<Event>, me: int, held: int)
    decreases |es|
  {
    es == [] || (Possible(t, es[0]) && Foreign(es[0], me, held) && CanHappen(Apply(t, es[0]), es[1..], me, held))
  }

  function After(t: Table, es: seq<Event>, me: int, held: int): Table
    requires CanHappen(t, es, me, held)
    decreases |es|
  {
    if es == [] then t else After(Apply(t, es[0]), es[1..], me, held)
  }

  // ---- What every event keeps ---------------------------------------------

  /** A process whose PID is in use as a session is that session's leader. */
  ghost predicate LeadsIfNamed(t: Table, p: int)
    requires p in t.procs
  {
    t.procs[p].info.sid in t.procs ==>
      var s := t.procs[p].info.sid;
      t.procs[s].info.sid == s && t.procs[s].info.pgid == s && t.procs[s].session == IdOf(t.procs[s].info)
  }

  ghost predicate WellFormed(t: Table) {
    && (1 in t.procs ==> t.procs[1].info.sid <= 1)
    && (forall p :: p in t.procs ==>
          && p > 0 && t.procs[p].info.pid == p && IdOf(t.procs[p].info) in t.used
          && t.procs[p].session.pid == t.procs[p].info.sid
          && LeadsIfNamed(t, p))
    && forall p, q :: p in t.procs && q in t.procs && t.procs[p].info.sid == t.procs[q].info.sid ==>
         t.procs[p].session == t.procs[q].session
  }

  /** The incarnation s is gone and so is every process of the session it made. */
  ghost predicate Over(t: Table, s: Id) {
    s in t.used && forall p :: p in t.procs ==> IdOf(t.procs[p].info) != s && t.procs[p].session != s
  }

  /** Only zombies are left of the incarnation s and of the session it made. */
  ghost predicate Quiet(t: Table, s: Id) {
    s in t.used && forall p :: p in t.procs && !t.procs[p].info.zombie ==>
      IdOf(t.procs[p].info) != s && t.procs[p].session != s
  }

  /** How one incarnation may have changed: a zombie stays one, and a session is left only for one of its own. */
  ghost predicate Kept(a: Proc, b: Proc) {
    && IdOf(a.info) == IdOf(b.info) && (a.info.zombie ==> b.info.zombie)
    && ((b.info.sid == a.info.sid && b.session == a.session) || (b.info.sid == b.info.pid && b.session == IdOf(b.info)))
  }

  /** b is a table a may have turned into: whoever is in b was born since or was there, and what was over stays over. */
  ghost predicate Later(a: Table, b: Table) {
    && a.used <= b.used
    && (forall p :: p in b.procs && IdOf(b.procs[p].info) in a.used ==> p in a.procs && Kept(a.procs[p], b.procs[p]))
    && (forall s :: Over(a, s) ==> Over(b, s))
    && (forall s :: Quiet(a, s) ==> Quiet(b, s))
  }

  lemma LaterTransitive(a: Table, b: Table, c: Table)
    requires Later(a, b) && Later(b, c)
    ensures Later(a, c)
  {
    hide Over, Quiet;
  }

  lemma EventKeepsWellFormed(t: Table, e: Event)
    requires WellFormed(t) && Possible(t, e)
    ensures WellFormed(Apply(t, e))
  {
    var u := Apply(t, e);
    forall p | p in u.procs ensures LeadsIfNamed(u, p) {
      if p in t.procs { assert LeadsIfNamed(t, p); }
      if e.Fork? { assert LeadsIfNamed(t, e.parent); }
    }
  }

  lemma EventIsLater(t: Table, e: Event)
    requires WellFormed(t) && Possible(t, e)
    ensures Later(t, Apply(t, e))
  {
  }

  /** Whatever happens, sessions stay identified by their PID while they last, and incarnations never come back. */
  lemma {:induction false} RunKeeps(t: Table, es: seq<Event>, me: int, held: int)
    requires WellFormed(t) && CanHappen(t, es, me, held)
    ensures var u := After(t, es, me, held);
            && WellFormed(u) && Later(t, u)
            && (me in t.procs ==> me in u.procs && u.procs[me] == t.procs[me])
            && (held in t.procs ==> held in u.procs && Kept(t.procs[held], u.procs[held]))
    decreases |es|
  {
    hide Over, Quiet, Later, WellFormed;
    if es == [] {
      assert Later(t, t) by { LaterReflexive(t); }
    } else {
      var u := Apply(t, es[0]);
      EventKeepsWellFormed(t, es[0]);
      EventIsLater(t, es[0]);
      EventSpares(t, es[0], me, held);
      RunKeeps(u, es[1..], me, held);
      LaterTransitive(t, u, After(u, es[1..], me, held));
    }
  }

  lemma LaterReflexive(t: Table)
    ensures Later(t, t)
  {
  }

  lemma EventSpares(t: Table, e: Event, me: int, held: int)
    requires WellFormed(t) && Possible(t, e) && Foreign(e, me, held)
    ensures var u := Apply(t, e);
            && (me in t.procs ==> me in u.procs && u.procs[me] == t.procs[me])
            && (held in t.procs ==> held in u.procs && Kept(t.procs[held], u.procs[held]))
  {
  }

  // ---- Sessions -----------------------------------------------------------

  /** A process whose session has the PID of s is in the session that s made, exactly while anything is left of s. */
  lemma SessionIsUnique(t: Table, p: int, s: Id)
    requires WellFormed(t) && p in t.procs && t.procs[p].info.sid == s.pid && s in t.used
    ensures t.procs[p].session == s <==> !Over(t, s)
  {
    if !Over(t, s) {
      var q :| q in t.procs && (IdOf(t.procs[q].info) == s || t.procs[q].session == s);
      assert LeadsIfNamed(t, p);
    }
  }

  /** Once nothing is left of it, the PID can come to name another session, even one whose leader has gone again. */
  lemma SessionNumberReused(me: int, t: Table, es: seq<Event>)
    requires me == 3 && es == [Fork(5, 7, 2), SetSid(7), Fork(7, 8, 3), Exit(7), Release(7)]
    requires t == Table(map[3 := Proc(Info(3, 3, 3, false, 1), Id(3, 1)), 5 := Proc(Info(5, 5, 5, false, 1), Id(5, 1))],
                        {Id(3, 1), Id(5, 1), Id(7, 1)})
    ensures WellFormed(t) && Over(t, Id(7, 1)) && CanHappen(t, es, me, 0)
    ensures var u := After(t, es, me, 0);
            && u.procs == t.procs[8 := Proc(Info(8, 7, 7, false, 3), Id(7, 2))]
            && 7 !in u.procs && u.procs[8].info.sid == 7 && u.procs[8].session != Id(7, 1)
  {
    var t1 := Apply(t, es[0]);
    var t2 := Apply(t1, es[1]);
    var t3 := Apply(t2, es[2]);
    var t4 := Apply(t3, es[3]);
    var t5 := Apply(t4, es[4]);
    assert t5.procs == t.procs[8 := Proc(Info(8, 7, 7, false, 3), Id(7, 2))];
    assert After(t4, es[4..], me, 0) == t5;
    assert After(t3, es[3..], me, 0) == t5 by { assert es[3..][1..] == es[4..]; }
    assert After(t2, es[2..], me, 0) == t5 by { assert es[2..][1..] == es[3..]; }
    assert After(t1, es[1..], me, 0) == t5 by { assert es[1..][1..] == es[2..]; }
  }

  /** A process that is not in the session of me cannot get into it. */
  lemma StaysOutside(a: Table, b: Table, me: int, p: int)
    requires WellFormed(a) && Later(a, b) && me in a.procs && p in b.procs && IdOf(b.procs[p].info) in a.used
    requires p in a.procs && a.procs[p].info.sid != a.procs[me].info.sid
    ensures b.procs[p].info.sid != a.procs[me].info.sid
  {
    hide Over, Quiet;
    assert LeadsIfNamed(a, me);
    assert Kept(a.procs[p], b.procs[p]);
  }
}
