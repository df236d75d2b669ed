/**
 * The shell's signal handlers.  sigchld_handler drains the children's status changes that
 * waitpid reports and brings the job list up to date: an exited child is deleted, a child
 * killed by a signal is reported and deleted, a stopped child is marked stopped and
 * reported.  sigint_handler and sigtstp_handler pass the signal on to the foreground job's
 * process group.  A status change is given as an Event; what waitpid would report next is
 * the sequence of events handed to the handler.
 */
module Signals {
  import opened Wrappers
  import opened JobList
  import opened Jobs

  /** The interrupt signal (ctrl-c) and the terminal stop signal (ctrl-z), Linux numbers. */
  const SIGINT: int := 2
  const SIGTSTP: int := 20

  /** One status change waitpid reports: the child exited, was killed by signal sig, or was
      stopped by signal sig. */
  datatype Event = Exited(pid: int) | Signaled(pid: int, sig: int) | Suspended(pid: int, sig: int)

  /** waitpid only reports positive pids, and the handler dereferences the job it looks up
      for a killed or stopped child, so that child must be in the table. */
  predicate EventDefined(t: Table, e: Event) {
    e.pid >= 1 && (e.Exited? || FindPid(t.slots, e.pid).Some?)
  }

  /** One turn of the handler's loop: the table afterwards and what it printed. */
  function ApplyEvent(t: Table, e: Event): (r: (Table, seq<Effect>))
    requires EventDefined(t, e)
    ensures |r.0.slots| == |t.slots|
    ensures forall i :: 0 <= i < |t.slots| && r.0.slots[i] != t.slots[i] ==>
      r.0.slots[i] == EmptyJob || r.0.slots[i].state == ST
    ensures |r.1| == if e.Exited? then 0 else 1
  {
    match e
    case Exited(pid) => (Delete(t, pid).table, [])
    case Signaled(pid, sig) =>
      var j := t.slots[FindPid(t.slots, pid).value];
      (Delete(t, pid).table, [Say(TerminatedBy(j.jid, j.pid, sig))])
    case Suspended(pid, sig) =>
      var k := FindPid(t.slots, pid).value;
      var j := t.slots[k];
      (t.(slots := t.slots[k := j.(state := ST)]), [Say(StoppedBy(j.jid, j.pid, sig))])
  }

  /** Every event in turn is one the handler can take in the table the earlier ones left. */
  predicate EventsDefined(t: Table, es: seq<Event>)
    decreases |es|
  {
    es == [] || (EventDefined(t, es[0]) && EventsDefined(ApplyEvent(t, es[0]).0, es[1..]))
  }

  /** The whole handler: the events in order, with their output concatenated. */
  function ApplyEvents(t: Table, es: seq<Event>): (r: (Table, seq<Effect>))
    requires EventsDefined(t, es)
    ensures |r.0.slots| == |t.slots|
    ensures forall i :: 0 <= i < |t.slots| && r.0.slots[i] != t.slots[i] ==>
      r.0.slots[i] == EmptyJob || r.0.slots[i].state == ST
    ensures |r.1| <= |es|
    decreases |es|
  {
    if es == [] then (t, [])
    else
      var (t1, out1) := ApplyEvent(t, es[0]);
      var (t2, out2) := ApplyEvents(t1, es[1..]);
      (t2, out1 + out2)
  }

  /** The body of the handler's loop for one reaped child, on the shell's job table. */
  method HandleEvent(t: JobTable, e: Event) returns (effects: seq<Effect>)
    requires t.Valid() && EventDefined(t.Model(), e)
    modifies t, t.jobs
    ensures t.Valid()
    ensures (t.Model(), effects) == ApplyEvent(old(t.Model()), e)
  {
    effects := [];
    if e.Exited? {
      var deleted := t.DeleteJob(e.pid);
    }
    if e.Signaled? {
      var job := t.GetJobPid(e.pid);
      var k := job.value;
      effects := [Say(TerminatedBy(t.jobs[k].jid, t.jobs[k].pid, e.sig))];
      var deleted := t.DeleteJob(e.pid);
    } else if e.Suspended? {
      var job := t.GetJobPid(e.pid);
      var k := job.value;
      t.jobs[k] := t.jobs[k].(state := ST);
      effects := [Say(StoppedBy(t.jobs[k].jid, t.jobs[k].pid, e.sig))];
      assert forall i :: 0 <= i < MAXJOBS && i != k ==> t.jobs[i] == old(t.jobs[i]);
    }
  }

  /** sigchld_handler: take every status change waitpid reports, in order. */
  method SigchldHandler(t: JobTable, events: seq<Event>) returns (effects: seq<Effect>)
    requires t.Valid() && EventsDefined(t.Model(), events)
    modifies t, t.jobs
    ensures t.Valid()
    ensures (t.Model(), effects) == ApplyEvents(old(t.Model()), events)
  {
    effects := [];
    var i := 0;
    assert events[0..] == events;
    assert effects + ApplyEvents(t.Model(), events).1 == ApplyEvents(t.Model(), events).1;
    while i < |events|
      invariant 0 <= i <= |events| && t.Valid()
      invariant EventsDefined(t.Model(), events[i..])
      invariant ApplyEvents(old(t.Model()), events) ==
        (ApplyEvents(t.Model(), events[i..]).0, effects + ApplyEvents(t.Model(), events[i..]).1)
    {
      assert events[i..][0] == events[i] && events[i..][1..] == events[i + 1..];
      var out := HandleEvent(t, events[i]);
      ghost var rest := ApplyEvents(t.Model(), events[i + 1..]);
      assert effects + (out + rest.1) == (effects + out) + rest.1;
      effects := effects + out;
      i := i + 1;
    }
    assert events[i..] == [];
    assert effects + [] == effects;
  }

  /** What sigint_handler and sigtstp_handler send: sig to the process group of the job fgpid
      reports, or nothing when it reports none. */
  function Forward(s: seq<Job>, sig: int): (r: seq<Effect>)
    ensures (forall k :: 0 <= k < |s| ==> s[k].state != FG) ==> r == []
    ensures r != [] ==> exists k :: 0 <= k < |s| && s[k].state == FG && r == [Kill(-s[k].pid, sig)]
  {
    var pid := FgPid(s);
    if pid != 0 then [Kill(-pid, sig)] else []
  }

  /** The body shared by sigint_handler and sigtstp_handler. */
  method ForwardToForeground(t: JobTable, sig: int) returns (effects: seq<Effect>)
    requires t.Valid()
    ensures effects == Forward(t.jobs[..], sig)
  {
    var pid := t.FgPid();
    if pid != 0 {
      effects := [Kill(-pid, sig)];
    } else {
      effects := [];
    }
  }

  // ---------------------------------------------------------------------------------------
  // Properties.

  /** Forwarding sends nothing exactly when no job is in the foreground; otherwise it sends
      the signal once, to the process group (never to pid 0 or the shell's own group) of the
      foreground job, which is unique when at most one job is in the foreground. */
  lemma ForwardTargetsForeground(t: Table, sig: int)
    requires WellFormed(t)
    ensures Forward(t.slots, sig) == [] <==>
      forall i :: 0 <= i < |t.slots| ==> t.slots[i].state != FG
    ensures forall e :: e in Forward(t.slots, sig) ==> e.Kill? && e.target <= -1 && e.sig == sig
    ensures AtMostOneFg(t.slots) ==>
      forall i :: 0 <= i < |t.slots| && t.slots[i].state == FG ==>
        Forward(t.slots, sig) == [Kill(-t.slots[i].pid, sig)]
  {
    FgPidZeroIff(t);
    var k := First(t.slots, InForeground);
    if k.Some? {
      assert SlotOk(t.slots[k.value]);
    }
  }

  /** An exit or a killing signal clears the first slot holding the pid and nothing else; a
      stop only marks that slot stopped.  Only the killed and stopped cases print, naming
      the job as it was found. */
  lemma EventChangesOneSlot(t: Table, e: Event, k: nat)
    requires EventDefined(t, e) && FindPid(t.slots, e.pid) == Some(k)
    ensures var (t', out) := ApplyEvent(t, e);
      && |t'.slots| == |t.slots|
      && (forall i :: 0 <= i < |t.slots| && i != k ==> t'.slots[i] == t.slots[i])
      && t'.slots[k] == (if e.Suspended? then t.slots[k].(state := ST) else EmptyJob)
      && out == match e
                case Exited(_) => []
                case Signaled(pid, sig) => [Say(TerminatedBy(t.slots[k].jid, pid, sig))]
                case Suspended(pid, sig) => [Say(StoppedBy(t.slots[k].jid, pid, sig))]
  {
    if !e.Suspended? {
      DeletePresent(t, e.pid, k);
    }
  }

  /** An exit of a child the table does not hold changes nothing and prints nothing. */
  lemma ExitOfUnknownChild(t: Table, pid: int)
    requires pid >= 1 && FindPid(t.slots, pid).None?
    ensures ApplyEvent(t, Exited(pid)) == (t, [])
  {
  }

  /** waitfg(pid) spins while the slot getjobpid found for pid is in the foreground.  Any
      status change of that child ends the wait: its slot is cleared or stopped, and (pids
      being distinct) fgpid no longer reports the pid. */
  lemma EventEndsWait(t: Table, e: Event, k: nat)
    requires EventDefined(t, e) && FindPid(t.slots, e.pid) == Some(k)
    ensures k < |ApplyEvent(t, e).0.slots| && ApplyEvent(t, e).0.slots[k].state != FG
    ensures PidsDistinct(t.slots) ==> FgPid(ApplyEvent(t, e).0.slots) != e.pid
  {
    EventChangesOneSlot(t, e, k);
    var s' := ApplyEvent(t, e).0.slots;
    if PidsDistinct(t.slots) {
      assert forall i :: 0 <= i < |s'| && s'[i].pid == e.pid ==> i == k;
    }
  }

  /** What every event does to a slot: leave it, clear it, or mark it stopped. */
  predicate Settles(s: seq<Job>, s': seq<Job>) {
    && |s'| == |s|
    && forall i :: 0 <= i < |s| ==>
         s'[i] == s[i] || s'[i] == EmptyJob || (s[i].pid != 0 && s'[i] == s[i].(state := ST))
  }

  /** Settling keeps every slot well formed and never adds a pid or a foreground job. */
  lemma SettlesPreserves(s: seq<Job>, s': seq<Job>)
    requires Settles(s, s')
    ensures (forall i :: 0 <= i < |s| ==> SlotOk(s[i])) ==>
      forall i :: 0 <= i < |s'| ==> SlotOk(s'[i])
    ensures PidsDistinct(s) ==> PidsDistinct(s')
    ensures AtMostOneFg(s) ==> AtMostOneFg(s')
  {
    assert forall i :: 0 <= i < |s'| && s'[i].pid != 0 ==> s'[i].pid == s[i].pid;
    assert forall i :: 0 <= i < |s'| && s'[i].state == FG ==> s[i].state == FG;
  }

  /** One event keeps the table well formed, the pids distinct and at most one job in the
      foreground. */
  lemma EventPreserves(t: Table, e: Event)
    requires WellFormed(t) && EventDefined(t, e)
    ensures WellFormed(ApplyEvent(t, e).0)
    ensures PidsDistinct(t.slots) ==> PidsDistinct(ApplyEvent(t, e).0.slots)
    ensures AtMostOneFg(t.slots) ==> AtMostOneFg(ApplyEvent(t, e).0.slots)
  {
    var k := FindPid(t.slots, e.pid);
    if k.Some? {
      EventChangesOneSlot(t, e, k.value);
      SettlesPreserves(t.slots, ApplyEvent(t, e).0.slots);
    }
  }

  /** The whole handler keeps the same three invariants. */
  lemma {:induction false} EventsPreserve(t: Table, es: seq<Event>)
    requires WellFormed(t) && EventsDefined(t, es)
    ensures WellFormed(ApplyEvents(t, es).0)
    ensures PidsDistinct(t.slots) ==> PidsDistinct(ApplyEvents(t, es).0.slots)
    ensures AtMostOneFg(t.slots) ==> AtMostOneFg(ApplyEvents(t, es).0.slots)
    decreases |es|
  {
    if es != [] {
      EventPreserves(t, es[0]);
      EventsPreserve(ApplyEvent(t, es[0]).0, es[1..]);
    }
  }

  /** A job is reported stopped and later killed: the handler prints both lines, and the
      table ends as if the job had never been added, apart from the allocator. */
  lemma StopThenKill(t: Table, k: nat, sig: int)
    requires WellFormed(t) && PidsDistinct(t.slots) && k < |t.slots| && t.slots[k].pid != 0
    ensures var j := t.slots[k];
      var es := [Suspended(j.pid, SIGTSTP), Signaled(j.pid, sig)];
      && EventsDefined(t, es)
      && ApplyEvents(t, es).0.slots == t.slots[k := EmptyJob]
      && ApplyEvents(t, es).1 ==
           [Say(StoppedBy(j.jid, j.pid, SIGTSTP)), Say(TerminatedBy(j.jid, j.pid, sig))]
  {
    var j := t.slots[k];
    assert SlotOk(j);
    assert FindPid(t.slots, j.pid) == Some(k);
    var e1 := Suspended(j.pid, SIGTSTP);
    EventChangesOneSlot(t, e1, k);
    var t1 := ApplyEvent(t, e1).0;
    assert FindPid(t1.slots, j.pid) == Some(k) by {
      assert t1.slots[k].pid == j.pid;
      assert forall i :: 0 <= i < k ==> t1.slots[i] == t.slots[i];
    }
    var e2 := Signaled(j.pid, sig);
    EventChangesOneSlot(t1, e2, k);
    var es := [e1, e2];
    assert es[1..] == [e2];
    var (t2, out2) := ApplyEvent(t1, e2);
    assert t2.slots == t.slots[k := EmptyJob];
    assert [e2][1..] == [];
    assert ApplyEvents(t1, [e2]) == (t2, out2 + []);
    assert ApplyEvents(t, es) == (t2, ApplyEvent(t, e1).1 + (out2 + []));
  }
}
