/**
 * The job list of the tiny shell, as values: the slots, the job-id allocator, and what each
 * job-list routine does to them.  The class in job_table.dfy runs the same routines in
 * place on an array and is proved against the functions here; the lemmas below state what
 * those routines promise.
 */
module JobList {
  import opened Wrappers

  /** Number of slots in the job list. */
  const MAXJOBS: nat := 16

  /** The continue signal sent by bg/fg (its Linux number). */
  const SIGCONT: int := 18

  /** Job states; UNDEF is the state of a cleared slot. */
  datatype State = UNDEF | FG | BG | ST

  /** One slot: process id, job id, state and the command line it was started with. */
  datatype Job = Job(pid: int, jid: int, state: State, cmdline: seq<char>)

  /** A slot as clearjob leaves it (and as static initialisation leaves it). */
  const EmptyJob: Job := Job(0, 0, UNDEF, [])

  /** The whole job list: the slots and the next job id to hand out. */
  datatype Table = Table(slots: seq<Job>, next: int)

  /** The state word printed by the jobs builtin. */
  datatype Label = Running | Foreground | Stopped | InternalError(index: nat, state: State)

  /** The lines the shell prints, as tagged values rather than bytes. */
  datatype Msg =
    | NeedsArgument(cmd: seq<char>)                    // "<cmd> command requires PID or %jobid argument"
    | NoSuchProcess(arg: seq<char>)                    // "(<arg>): No such process"
    | NoSuchJob(c: char)                               // "(<c>): No such job"
    | ArgumentMustBe                                   // "argument must be PID or %jobid"
    | JobLine(jid: int, pid: int, cmdline: seq<char>)  // "[jid] (pid) cmdline"
    | TerminatedBy(jid: int, pid: int, sig: int)       // "Job [jid] (pid) terminated by signal sig"
    | StoppedBy(jid: int, pid: int, sig: int)          // "Job [jid] (pid) stopped by signal sig"
    | TooManyJobs                                      // "Tried to create too many jobs"
    | EvalError                                        // the "Erorr!" printed by eval
    | ListLine(jid: int, pid: int, status: Label, cmdline: seq<char>)

  /** What a step does outside the job list: print a line, send a signal with kill (a negative
      target names a process group), or block in waitfg until the job with this pid is no
      longer in the foreground. */
  datatype Effect = Say(msg: Msg) | Kill(target: int, sig: int) | WaitFg(pid: int)

  /** A slot is either cleared or holds a positive pid and a positive job id. */
  predicate SlotOk(j: Job) {
    if j.pid == 0 then j == EmptyJob else j.pid >= 1 && j.jid >= 1
  }

  /** Every slot is cleared or holds a positive pid and job id. */
  predicate SlotsOk(s: seq<Job>) {
    forall i :: 0 <= i < |s| ==> SlotOk(s[i])
  }

  /** The invariant every routine keeps: MAXJOBS slots, each well formed, and a positive
      allocator.  It deliberately says nothing about distinct job ids (see JidsCanCollide). */
  predicate WellFormed(t: Table) {
    && |t.slots| == MAXJOBS
    && t.next >= 1
    && SlotsOk(t.slots)
  }

  /** All occupied slots hold different pids (not enforced by addjob; assumed where needed). */
  predicate PidsDistinct(s: seq<Job>) {
    forall i, j :: 0 <= i < j < |s| && s[i].pid != 0 ==> s[i].pid != s[j].pid
  }

  /** At most one slot is in the foreground. */
  predicate AtMostOneFg(s: seq<Job>) {
    forall i, j :: 0 <= i < j < |s| && s[i].state == FG ==> s[j].state != FG
  }

  // ---------------------------------------------------------------------------------------
  // Linear lookups: each routine scans the slots in order and stops at the first match.

  datatype Key = ByPid(pid: int) | ByJid(jid: int) | Unused | InForeground

  predicate Matches(j: Job, key: Key) {
    match key
    case ByPid(p) => j.pid == p
    case ByJid(n) => j.jid == n
    case Unused => j.pid == 0
    case InForeground => j.state == FG
  }

  /** The first slot at or after i that matches the key. */
  function FirstFrom(s: seq<Job>, key: Key, i: nat): (r: Option<nat>)
    requires i <= |s|
    decreases |s| - i
    ensures r.Some? ==> i <= r.value < |s| && Matches(s[r.value], key)
    ensures r.Some? ==> forall j :: i <= j < r.value ==> !Matches(s[j], key)
    ensures r.None? ==> forall j :: i <= j < |s| ==> !Matches(s[j], key)
  {
    if i == |s| then None
    else if Matches(s[i], key) then Some(i)
    else FirstFrom(s, key, i + 1)
  }

  /** The first slot that matches the key. */
  function First(s: seq<Job>, key: Key): (r: Option<nat>)
    ensures r.Some? ==> r.value < |s| && Matches(s[r.value], key)
    ensures r.Some? ==> forall j :: 0 <= j < r.value ==> !Matches(s[j], key)
    ensures r.None? ==> forall j :: 0 <= j < |s| ==> !Matches(s[j], key)
  {
    FirstFrom(s, key, 0)
  }

  /** getjobpid: a pid below 1 is never found; otherwise the first slot holding it. */
  function FindPid(s: seq<Job>, pid: int): (r: Option<nat>)
    ensures r.Some? ==> pid >= 1 && r.value < |s| && s[r.value].pid == pid
    ensures r.Some? ==> forall j :: 0 <= j < r.value ==> s[j].pid != pid
    ensures r.None? ==> pid < 1 || forall j :: 0 <= j < |s| ==> s[j].pid != pid
  {
    if pid < 1 then None else First(s, ByPid(pid))
  }

  /** getjobjid: a job id below 1 is never found; otherwise the first slot holding it. */
  function FindJid(s: seq<Job>, jid: int): (r: Option<nat>)
    ensures r.Some? ==> jid >= 1 && r.value < |s| && s[r.value].jid == jid
    ensures r.Some? ==> forall j :: 0 <= j < r.value ==> s[j].jid != jid
    ensures r.None? ==> jid < 1 || forall j :: 0 <= j < |s| ==> s[j].jid != jid
  {
    if jid < 1 then None else First(s, ByJid(jid))
  }

  /** The slot addjob fills: the lowest-index slot whose pid is 0. */
  function FirstFree(s: seq<Job>): (r: Option<nat>)
    ensures r.Some? ==> r.value < |s| && s[r.value].pid == 0
    ensures r.Some? ==> forall j :: 0 <= j < r.value ==> s[j].pid != 0
    ensures r.None? ==> forall j :: 0 <= j < |s| ==> s[j].pid != 0
  {
    First(s, Unused)
  }

  /** fgpid: the pid of the first slot in state FG, or 0 when there is none. */
  function FgPid(s: seq<Job>): (r: int)
    ensures || (r == 0 && forall k :: 0 <= k < |s| ==> s[k].state != FG)
            || exists k :: 0 <= k < |s| && s[k].state == FG && s[k].pid == r &&
                           forall j :: 0 <= j < k ==> s[j].state != FG
  {
    match First(s, InForeground)
    case None => 0
    case Some(k) => s[k].pid
  }

  /** pid2jid: the job id of the first slot holding pid, 0 if there is none. */
  function PidToJid(s: seq<Job>, pid: int): (r: int)
    ensures (pid < 1 || forall j :: 0 <= j < |s| ==> s[j].pid != pid) ==> r == 0
    ensures forall k ::
      0 <= k < |s| && pid >= 1 && s[k].pid == pid && (forall j :: 0 <= j < k ==> s[j].pid != pid)
      ==> r == s[k].jid
  {
    match FindPid(s, pid)
    case None => 0
    case Some(k) => s[k].jid
  }

  /** maxjid: the largest job id over all slots, starting from 0. */
  function MaxJid(s: seq<Job>): (r: int)
    ensures r >= 0
    ensures forall i :: 0 <= i < |s| ==> s[i].jid <= r
    ensures r == 0 || exists i :: 0 <= i < |s| && s[i].jid == r
  {
    if s == [] then 0
    else
      var m := MaxJid(s[..|s| - 1]);
      if s[|s| - 1].jid > m then s[|s| - 1].jid else m
  }

  // ---------------------------------------------------------------------------------------
  // Adding and deleting jobs.

  datatype AddResult = AddResult(table: Table, ok: bool, out: seq<Msg>)
  datatype DeleteResult = DeleteResult(table: Table, ok: bool)

  /** The allocator after handing out n: n + 1, wrapped to 1 once it exceeds MAXJOBS. */
  function Bump(n: int): int {
    if n + 1 > MAXJOBS then 1 else n + 1
  }

  /** addjob: reject a pid below 1, report a full table, otherwise fill the first free slot
      with the old allocator value as its job id. */
  function Add(t: Table, pid: int, state: State, cmdline: seq<char>): (r: AddResult)
    ensures r.ok <==> pid >= 1 && exists i :: 0 <= i < |t.slots| && t.slots[i].pid == 0
    ensures !r.ok ==> r.table == t && (r.out == [] <==> pid < 1)
    ensures r.ok ==> r.out == []
    ensures r.ok ==> exists f ::
      && 0 <= f < |t.slots| && t.slots[f].pid == 0
      && r.table.slots == t.slots[f := Job(pid, t.next, state, cmdline)]
  {
    if pid < 1 then AddResult(t, false, [])
    else
      match FirstFree(t.slots)
      case None => AddResult(t, false, [TooManyJobs])
      case Some(f) =>
        AddResult(Table(t.slots[f := Job(pid, t.next, state, cmdline)], Bump(t.next)), true, [])
  }

  /** deletejob: clear the first slot holding pid and recompute the allocator from what is left. */
  function Delete(t: Table, pid: int): (r: DeleteResult)
    ensures r.ok <==> pid >= 1 && exists i :: 0 <= i < |t.slots| && t.slots[i].pid == pid
    ensures !r.ok ==> r.table == t
    ensures r.ok ==> r.table.next == MaxJid(r.table.slots) + 1
    ensures r.ok ==> exists k ::
      && 0 <= k < |t.slots| && t.slots[k].pid == pid
      && r.table.slots == t.slots[k := EmptyJob]
  {
    match FindPid(t.slots, pid)
    case None => DeleteResult(t, false)
    case Some(k) =>
      var s := t.slots[k := EmptyJob];
      DeleteResult(Table(s, MaxJid(s) + 1), true)
  }

  // ---------------------------------------------------------------------------------------
  // Listing.

  function LabelOf(j: Job, i: nat): Label {
    match j.state
    case BG => Running
    case FG => Foreground
    case ST => Stopped
    case UNDEF => InternalError(i, UNDEF)
  }

  /** The line listjobs prints for the job j found in slot i. */
  function Line(j: Job, i: nat): Msg {
    ListLine(j.jid, j.pid, LabelOf(j, i), j.cmdline)
  }

  /** The number of occupied slots. */
  function Occupied(s: seq<Job>): nat {
    if s == [] then 0 else Occupied(s[..|s| - 1]) + if s[|s| - 1].pid != 0 then 1 else 0
  }

  /** listjobs: one line per occupied slot, in slot order. */
  function Listing(s: seq<Job>): (lines: seq<Msg>)
    ensures |lines| == Occupied(s) <= |s|
    ensures forall l :: l in lines ==> l.ListLine?
  {
    if s == [] then []
    else
      var i := |s| - 1;
      Listing(s[..i]) + if s[i].pid != 0 then [Line(s[i], i)] else []
  }

  // ---------------------------------------------------------------------------------------
  // Properties.

  /** The table initjobs produces from a fresh allocator. */
  function InitialTable(): (t: Table)
    ensures WellFormed(t)
    ensures forall i :: 0 <= i < |t.slots| ==> t.slots[i] == EmptyJob
  {
    Table(seq(MAXJOBS, _ => EmptyJob), 1)
  }

  /** Every line of the listing is the line of an occupied slot. */
  lemma {:induction false} ListingFromSlots(s: seq<Job>, l: Msg)
    requires l in Listing(s)
    ensures exists i :: 0 <= i < |s| && s[i].pid != 0 && l == Line(s[i], i)
  {
    var i := |s| - 1;
    var pre := s[..i];
    if l in Listing(pre) {
      ListingFromSlots(pre, l);
      var k :| 0 <= k < |pre| && pre[k].pid != 0 && l == Line(pre[k], k);
      assert s[k] == pre[k];
    } else {
      assert s[i].pid != 0 && l == Line(s[i], i);
    }
  }

  /** The line of occupied slot k is printed after exactly one line per occupied slot before
      it: the listing holds every occupied slot's line, in slot order. */
  lemma {:induction false} ListingAt(s: seq<Job>, k: nat)
    requires k < |s| && s[k].pid != 0
    ensures Occupied(s[..k]) < |Listing(s)|
    ensures Listing(s)[Occupied(s[..k])] == Line(s[k], k)
  {
    var i := |s| - 1;
    var pre := s[..i];
    if k < i {
      assert pre[k] == s[k] && pre[..k] == s[..k];
      ListingAt(pre, k);
    } else {
      assert s[..k] == pre;
    }
  }

  /** Occupied slots i < j: the line of i comes before the line of j. */
  lemma {:induction false} ListingInSlotOrder(s: seq<Job>, i: nat, j: nat)
    requires i < j < |s| && s[i].pid != 0
    ensures Occupied(s[..i]) < Occupied(s[..j])
  {
    if j == i + 1 {
      assert s[..j][..i] == s[..i];
    } else {
      ListingInSlotOrder(s, i, j - 1);
      assert s[..j][..j - 1] == s[..j - 1];
    }
  }

  /** Every occupied slot's line is in the listing. */
  lemma ListingHasSlot(s: seq<Job>, k: nat)
    requires k < |s| && s[k].pid != 0
    ensures Line(s[k], k) in Listing(s)
  {
    ListingAt(s, k);
  }

  /** Every occupied slot shows up in the listing and nothing else does. */
  lemma ListingMentions(s: seq<Job>, pid: int)
    requires pid != 0
    ensures (exists l :: l in Listing(s) && l.pid == pid) <==>
            (exists i :: 0 <= i < |s| && s[i].pid == pid)
  {
    if exists l :: l in Listing(s) && l.pid == pid {
      var l :| l in Listing(s) && l.pid == pid;
      ListingFromSlots(s, l);
    }
    if exists i :: 0 <= i < |s| && s[i].pid == pid {
      var i :| 0 <= i < |s| && s[i].pid == pid;
      ListingHasSlot(s, i);
      assert Line(s[i], i).pid == pid;
    }
  }

  /** A table whose slots are all cleared lists nothing. */
  lemma {:induction false} ListingOfEmpty(s: seq<Job>)
    requires forall i :: 0 <= i < |s| ==> s[i] == EmptyJob
    ensures Listing(s) == []
  {
    if s != [] {
      ListingOfEmpty(s[..|s| - 1]);
    }
  }

  /** A single job in an otherwise cleared table lists as exactly one line. */
  lemma {:induction false} ListingOfSingle(s: seq<Job>, k: nat)
    requires k < |s| && s[k].pid != 0
    requires forall i :: 0 <= i < |s| && i != k ==> s[i] == EmptyJob
    ensures Listing(s) == [Line(s[k], k)]
  {
    var i := |s| - 1;
    if k == i {
      ListingOfEmpty(s[..i]);
    } else {
      ListingOfSingle(s[..i], k);
    }
  }

  /** After initjobs nothing is found, nothing is in the foreground and no job id is in use. */
  lemma InitialTableFacts(pid: int)
    ensures FindPid(InitialTable().slots, pid).None?
    ensures FgPid(InitialTable().slots) == 0
    ensures MaxJid(InitialTable().slots) == 0
    ensures FirstFree(InitialTable().slots) == Some(0)
    ensures Listing(InitialTable().slots) == []
  {
    ListingOfEmpty(InitialTable().slots);
  }

  /** In a well-formed table fgpid returns 0 exactly when no slot is in the foreground. */
  lemma FgPidZeroIff(t: Table)
    requires WellFormed(t)
    ensures FgPid(t.slots) == 0 <==> forall k :: 0 <= k < |t.slots| ==> t.slots[k].state != FG
  {
    assert forall k :: 0 <= k < |t.slots| ==> SlotOk(t.slots[k]);
  }

  /** addjob changes nothing and returns 0 for a pid below 1 and for a full table. */
  lemma AddRejects(t: Table, pid: int, state: State, cmdline: seq<char>)
    requires pid < 1 || forall i :: 0 <= i < |t.slots| ==> t.slots[i].pid != 0
    ensures Add(t, pid, state, cmdline).table == t
    ensures !Add(t, pid, state, cmdline).ok
    ensures Add(t, pid, state, cmdline).out == if pid < 1 then [] else [TooManyJobs]
  {
  }

  /** On success addjob fills the lowest free slot, hands out the old allocator value, bumps
      the allocator (wrapping to 1 past MAXJOBS) and leaves every other slot alone. */
  lemma AddFillsFirstFree(t: Table, pid: int, state: State, cmdline: seq<char>, f: nat)
    requires WellFormed(t) && pid >= 1
    requires f < |t.slots| && t.slots[f].pid == 0
    requires forall j :: 0 <= j < f ==> t.slots[j].pid != 0
    ensures var r := Add(t, pid, state, cmdline);
      && r.ok && r.out == []
      && |r.table.slots| == |t.slots|
      && r.table.slots[f] == Job(pid, t.next, state, cmdline)
      && (forall i :: 0 <= i < |t.slots| && i != f ==> r.table.slots[i] == t.slots[i])
      && 1 <= r.table.next <= MAXJOBS
      && (r.table.next == t.next + 1 || (r.table.next == 1 && t.next + 1 > MAXJOBS))
  {
    var g := FirstFree(t.slots);
    assert g.Some?;
    assert g.value == f;
  }

  /** addjob keeps the table well formed. */
  lemma AddPreservesWellFormed(t: Table, pid: int, state: State, cmdline: seq<char>)
    requires WellFormed(t)
    ensures WellFormed(Add(t, pid, state, cmdline).table)
  {
    var r := Add(t, pid, state, cmdline);
    if r.ok {
      var f := FirstFree(t.slots).value;
      forall i | 0 <= i < |r.table.slots| ensures SlotOk(r.table.slots[i]) {
        if i != f { assert r.table.slots[i] == t.slots[i]; }
      }
    }
  }

  /** Adding a pid that is not yet in the table and then looking it up finds the new slot with
      the pid, state and command line passed in; distinct pids stay distinct. */
  lemma AddThenFind(t: Table, pid: int, state: State, cmdline: seq<char>)
    requires WellFormed(t) && pid >= 1
    requires FindPid(t.slots, pid).None?
    requires FirstFree(t.slots).Some?
    ensures var r := Add(t, pid, state, cmdline);
      && r.ok
      && FindPid(r.table.slots, pid) == FirstFree(t.slots)
      && r.table.slots[FirstFree(t.slots).value] == Job(pid, t.next, state, cmdline)
    ensures PidsDistinct(t.slots) ==> PidsDistinct(Add(t, pid, state, cmdline).table.slots)
  {
    var f := FirstFree(t.slots).value;
    var s' := Add(t, pid, state, cmdline).table.slots;
    assert s' == t.slots[f := Job(pid, t.next, state, cmdline)];
    var found := FindPid(s', pid);
    assert found.Some? by { assert s'[f].pid == pid; }
    assert found.value == f by {
      assert forall j :: 0 <= j < f ==> s'[j] == t.slots[j];
    }
  }

  /** deletejob of a pid that is not in the table (or below 1) changes nothing. */
  lemma DeleteAbsent(t: Table, pid: int)
    requires pid < 1 || forall i :: 0 <= i < |t.slots| ==> t.slots[i].pid != pid
    ensures Delete(t, pid) == DeleteResult(t, false)
  {
  }

  /** deletejob of a present pid clears exactly the first slot holding it, returns 1, and sets
      the allocator to one more than the largest job id left. */
  lemma DeletePresent(t: Table, pid: int, k: nat)
    requires pid >= 1 && k < |t.slots| && t.slots[k].pid == pid
    requires forall j :: 0 <= j < k ==> t.slots[j].pid != pid
    ensures var r := Delete(t, pid);
      && r.ok
      && |r.table.slots| == |t.slots|
      && r.table.slots[k] == EmptyJob
      && (forall i :: 0 <= i < |t.slots| && i != k ==> r.table.slots[i] == t.slots[i])
      && r.table.next == MaxJid(r.table.slots) + 1
  {
    var f := FindPid(t.slots, pid);
    assert f.Some?;
    assert f.value == k;
  }

  /** deletejob keeps the table well formed. */
  lemma DeletePreservesWellFormed(t: Table, pid: int)
    requires WellFormed(t)
    ensures WellFormed(Delete(t, pid).table)
  {
  }

  /** With distinct pids, a second deletejob of the same pid returns 0 and changes nothing. */
  lemma DeleteTwice(t: Table, pid: int)
    requires PidsDistinct(t.slots)
    ensures var once := Delete(t, pid).table;
      Delete(once, pid) == DeleteResult(once, false)
  {
    match FindPid(t.slots, pid)
    case None =>
    case Some(k) =>
      var once := Delete(t, pid).table;
      forall i | 0 <= i < |once.slots| ensures once.slots[i].pid != pid {
        if i < k { assert once.slots[i] == t.slots[i]; }
        else if i > k { assert once.slots[i] == t.slots[i]; assert t.slots[k].pid != 0; }
      }
  }

  /** Adding a new pid and deleting it again restores every slot; the allocator ends up one
      above the largest job id that was already in use. */
  lemma AddThenDelete(t: Table, pid: int, state: State, cmdline: seq<char>)
    requires WellFormed(t) && pid >= 1
    requires FindPid(t.slots, pid).None?
    requires FirstFree(t.slots).Some?
    ensures var r := Delete(Add(t, pid, state, cmdline).table, pid);
      && r.ok
      && r.table.slots == t.slots
      && r.table.next == MaxJid(t.slots) + 1
  {
    AddThenFind(t, pid, state, cmdline);
    var f := FirstFree(t.slots).value;
    var s' := Add(t, pid, state, cmdline).table.slots;
    assert s'[f := EmptyJob] == t.slots;
  }

  /**
   * Job ids are not unique.  Here slots 0 and 1 hold jobs 1 and 16 and the allocator is 17 (the
   * state reached by adding fifteen jobs, deleting job 2, adding one more, which gets job 16 in
   * slot 1 and wraps the allocator, and deleting jobs 3..15).  The next addjob hands out 17
   * and wraps the allocator to 1, and the one after that hands out 1 again while job 1 is still
   * alive; getjobjid(1) then finds the older job, which is in the lower slot.
   */
  lemma JidsCanCollide()
    ensures var t0 := Table(
        [Job(101, 1, BG, "a"), Job(116, 16, BG, "b")] + seq(MAXJOBS - 2, _ => EmptyJob), 17);
      var t1 := Add(t0, 201, BG, "c").table;
      var t2 := Add(t1, 202, BG, "d").table;
      && WellFormed(t0) && PidsDistinct(t0.slots)
      && t1.slots[2].jid == 17 && t1.next == 1
      && t2.slots[0].pid == 101 && t2.slots[3].pid == 202
      && t2.slots[0].jid == 1 && t2.slots[3].jid == 1
      && FindJid(t2.slots, 1) == Some(0)
  {
    var t0 := Table(
      [Job(101, 1, BG, "a"), Job(116, 16, BG, "b")] + seq(MAXJOBS - 2, _ => EmptyJob), 17);
    assert FirstFree(t0.slots) == Some(2) by {
      assert t0.slots[2].pid == 0;
      assert t0.slots[0].pid != 0 && t0.slots[1].pid != 0;
    }
    var t1 := Add(t0, 201, BG, "c").table;
    assert FirstFree(t1.slots) == Some(3) by {
      assert t1.slots[3].pid == 0;
      assert t1.slots[0].pid != 0 && t1.slots[1].pid != 0 && t1.slots[2].pid != 0;
    }
    var t2 := Add(t1, 202, BG, "d").table;
    assert t2.slots[0].jid == 1;
  }

  /**
   * getjobjid finds whichever of two jobs with the same id is in the lower slot, and that can
   * be the newer one.  Here slots 0 and 1 are free, job 1 is in slot 2 and job 16 in slot 3,
   * and the allocator is one above the largest job id, as deletejob leaves it.  The next
   * addjob puts job 17 in slot 0 and wraps the allocator; the one after that puts a second
   * job 1 in slot 1, and getjobjid(1) returns that new job.
   */
  lemma NewerJidShadowsOlder()
    ensures var t0 := Table([EmptyJob, EmptyJob, Job(101, 1, BG, "a"), Job(116, 16, BG, "b")]
        + seq(MAXJOBS - 4, _ => EmptyJob), 17);
      var t1 := Add(t0, 201, BG, "c").table;
      var t2 := Add(t1, 202, BG, "d").table;
      && WellFormed(t0) && PidsDistinct(t0.slots) && t0.next == MaxJid(t0.slots) + 1
      && t1.slots[0].jid == 17 && t1.next == 1
      && t2.slots[1] == Job(202, 1, BG, "d") && t2.slots[2] == Job(101, 1, BG, "a")
      && FindJid(t2.slots, 1) == Some(1)
  {
    var t0 := Table([EmptyJob, EmptyJob, Job(101, 1, BG, "a"), Job(116, 16, BG, "b")]
      + seq(MAXJOBS - 4, _ => EmptyJob), 17);
    assert MaxJid(t0.slots) == 16 by {
      assert t0.slots[3].jid == 16;
      assert forall i :: 0 <= i < |t0.slots| ==> t0.slots[i].jid <= 16;
    }
    assert FirstFree(t0.slots) == Some(0) by { assert t0.slots[0].pid == 0; }
    var t1 := Add(t0, 201, BG, "c").table;
    assert FirstFree(t1.slots) == Some(1) by {
      assert t1.slots[1].pid == 0 && t1.slots[0].pid != 0;
    }
    var t2 := Add(t1, 202, BG, "d").table;
    assert t2.slots[0].jid == 17 && t2.slots[1].jid == 1;
  }
}
