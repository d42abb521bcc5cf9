/** What the ready queue and the process calls promise, proved on the values
    of module TaskSpec. */
module TaskProps {
  import opened Word
  import opened TaskSpec

  /** Taking p out where it first occurs, at index i, keeps everything
      before and after it in order. */
  lemma {:induction false} WithoutAt(q: seq<nat>, p: nat, i: nat)
    requires i < |q| && q[i] == p
    requires forall j :: 0 <= j < i ==> q[j] != p
    ensures Without(q, p) == q[..i] + q[i + 1..]
  {
    if i > 0 {
      WithoutAt(q[1..], p, i - 1);
      assert q[1..][..i - 1] == q[1..i];
      assert q[1..][i..] == q[i + 1..];
      assert [q[0]] + q[1..i] == q[..i];
    }
  }

  /** Without a queue that does not hold p is that queue. */
  lemma {:induction false} WithoutAbsent(q: seq<nat>, p: nat)
    requires p !in q
    ensures Without(q, p) == q
  {
    if q != [] {
      WithoutAbsent(q[1..], p);
    }
  }

  /** In a queue without repeats, taking p out leaves exactly the other
      members, still without repeats. */
  lemma {:induction false} WithoutMembers(q: seq<nat>, p: nat)
    requires Distinct(q)
    ensures forall x :: x in Without(q, p) <==> x in q && x != p
    ensures Distinct(Without(q, p))
  {
    if q != [] {
      if q[0] == p {
        forall x | x in q[1..]
          ensures x != p
        {
          var j :| 0 <= j < |q[1..]| && q[1..][j] == x;
          assert q[j + 1] == x;
        }
      } else {
        WithoutMembers(q[1..], p);
        var r := Without(q, p);
        assert r == [q[0]] + Without(q[1..], p);
        forall i, j | 0 <= i < j < |r|
          ensures r[i] != r[j]
        {
          if i == 0 {
            assert r[j] in Without(q[1..], p);
            assert q[0] !in q[1..];
          }
        }
      }
    }
  }

  /** scheduler_add on a process outside the queue keeps the state
      well formed, and the queue gains it at the tail. */
  lemma AddWf(s: Tasks, p: nat)
    requires Wf(s) && p in s.procs && p !in s.queue
    ensures Wf(Add(s, p))
    ensures Add(s, p).queue == s.queue + [p] && Add(s, p).procs[p].state == Ready
  {
    var r := Add(s, p);
    forall i, j | 0 <= i < j < |r.queue|
      ensures r.queue[i] != r.queue[j]
    {
      if j == |s.queue| {
        assert r.queue[i] == s.queue[i];
      }
    }
  }

  /** scheduler_next on a well-formed state leaves it well formed. */
  lemma NextWf(s: Tasks)
    requires Wf(s)
    ensures Wf(Next(s).0)
  {
    if s.queue != [] {
      var popped := s.(queue := s.queue[1..]);
      assert Wf(popped) by {
        forall i, j | 0 <= i < j < |popped.queue|
          ensures popped.queue[i] != popped.queue[j]
        {
          assert popped.queue[i] == s.queue[i + 1] && popped.queue[j] == s.queue[j + 1];
        }
      }
      if s.procs[s.queue[0]].state != Terminated {
        assert s.queue[0] !in popped.queue by {
          forall k | 0 <= k < |popped.queue|
            ensures popped.queue[k] != s.queue[0]
          {
            assert popped.queue[k] == s.queue[k + 1];
          }
        }
        AddWf(popped, s.queue[0]);
      }
    }
  }

  /** scheduler_next returns the head. A head that is not TERMINATED goes
      to the tail as READY: the queue rotates by one. A TERMINATED head
      leaves the queue. An empty queue gives 0 and changes nothing. */
  lemma NextEffect(s: Tasks)
    requires Wf(s)
    ensures s.queue == [] ==> Next(s) == (s, 0)
    ensures s.queue != [] ==> Next(s).1 == s.queue[0] != 0
    ensures s.queue != [] && s.procs[s.queue[0]].state != Terminated ==>
      Next(s).0.queue == s.queue[1..] + [s.queue[0]]
      && Next(s).0.procs == s.procs[s.queue[0] := s.procs[s.queue[0]].(state := Ready)]
    ensures s.queue != [] && s.procs[s.queue[0]].state == Terminated ==>
      Next(s).0.queue == s.queue[1..] && Next(s).0.procs == s.procs
    ensures Next(s).0.current == s.current && Next(s).0.nextPid == s.nextPid
      && Next(s).0.switches == s.switches
  {
  }

  /** Every queued process is live and not TERMINATED. */
  predicate Runnable(s: Tasks) {
    forall k :: 0 <= k < |s.queue| ==> s.queue[k] in s.procs && s.procs[s.queue[k]].state != Terminated
  }

  /** n successive calls of scheduler_next: the state after them and the
      processes they return, in order. */
  function Run(s: Tasks, n: nat): (r: (Tasks, seq<nat>))
    requires Wf(s)
    ensures |r.1| == n
    decreases n
  {
    if n == 0 then (s, [])
    else
      NextWf(s);
      var (s1, p) := Next(s);
      var (s2, ps) := Run(s1, n - 1);
      (s2, [p] + ps)
  }

  /** One scheduler_next call on a runnable queue rotates it and keeps it
      runnable. */
  lemma NextRunnable(s: Tasks)
    requires Wf(s) && Runnable(s) && s.queue != []
    ensures Wf(Next(s).0) && Runnable(Next(s).0)
    ensures Next(s).0.queue == s.queue[1..] + [s.queue[0]] && Next(s).1 == s.queue[0]
  {
    NextWf(s);
    NextEffect(s);
    var q := s.queue;
    var s1 := Next(s).0;
    forall k | 0 <= k < |s1.queue|
      ensures s1.queue[k] in s1.procs && s1.procs[s1.queue[k]].state != Terminated
    {
      if k < |q| - 1 {
        assert s1.queue[k] == q[k + 1];
      }
    }
  }

  /** Slicing a queue rotated by one. */
  lemma RotatedSlices(q: seq<nat>, n: nat)
    requires 0 < n <= |q|
    ensures (q[1..] + [q[0]])[..n - 1] == q[1..n]
    ensures [q[0]] + q[1..n] == q[..n]
    ensures (q[1..] + [q[0]])[n - 1..] + (q[1..] + [q[0]])[..n - 1] == q[n..] + q[..n]
  {
    var r := q[1..] + [q[0]];
    assert r[n - 1..] == q[n..] + [q[0]];
    assert q[..n] == [q[0]] + q[1..n];
  }

  /** Round robin: while no queued process is TERMINATED, n calls of
      scheduler_next (n at most the queue's length) return the first n
      queued processes in queue order and move them, in that order, to
      the tail. */
  lemma {:induction false} RoundRobin(s: Tasks, n: nat)
    requires Wf(s) && Runnable(s) && n <= |s.queue|
    ensures Run(s, n).1 == s.queue[..n]
    ensures Run(s, n).0.queue == s.queue[n..] + s.queue[..n]
    decreases n
  {
    if n > 0 {
      NextRunnable(s);
      RoundRobin(Next(s).0, n - 1);
      RotatedSlices(s.queue, n);
    }
  }

  /** A full round: as many calls as there are queued processes return
      each of them once, in queue order, and restore the queue. */
  lemma FullRound(s: Tasks)
    requires Wf(s) && Runnable(s)
    ensures Run(s, |s.queue|).1 == s.queue && Run(s, |s.queue|).0.queue == s.queue
  {
    RoundRobin(s, |s.queue|);
    assert s.queue[|s.queue|..] == [] && s.queue[..|s.queue|] == s.queue;
  }

  /** scheduler_remove takes exactly p out of the queue (the others keep
      their order, by WithoutAt) and touches nothing else; a process not
      queued leaves the state as it is. */
  lemma RemoveEffect(s: Tasks, p: nat)
    requires Wf(s)
    ensures Wf(Remove(s, p)) && Remove(s, p).procs == s.procs
    ensures forall x :: x in Remove(s, p).queue <==> x in s.queue && x != p
    ensures p !in s.queue ==> Remove(s, p) == s
  {
    WithoutMembers(s.queue, p);
    WithoutLive(s, p);
    if p !in s.queue {
      WithoutAbsent(s.queue, p);
    }
  }

  /** What is left of the queue after taking p out is still live PCBs,
      p's own PCB aside. */
  lemma WithoutLive(s: Tasks, p: nat)
    requires Wf(s)
    ensures forall k :: 0 <= k < |Without(s.queue, p)| ==> Without(s.queue, p)[k] in s.procs - {p}
  {
    WithoutMembers(s.queue, p);
    var r := Without(s.queue, p);
    forall k | 0 <= k < |r|
      ensures r[k] in s.procs - {p}
    {
      assert r[k] in s.queue;
      var j :| 0 <= j < |s.queue| && s.queue[j] == r[k];
    }
  }

  /** schedule. With an empty queue nothing happens. When the head is the
      current process no switch is counted and current stays; unless it is
      TERMINATED, scheduler_add has marked it READY although it goes on
      running. Otherwise the head becomes current and RUNNING, the process
      it replaces READY if it is still a live PCB, and one more switch is
      counted. The live PCBs stay the same set. */
  lemma ScheduleEffect(s: Tasks)
    requires Wf(s)
    ensures Wf(Schedule(s)) && Schedule(s).procs.Keys == s.procs.Keys
    ensures s.queue == [] ==> Schedule(s) == s
    ensures s.queue != [] ==> Schedule(s).queue == Next(s).0.queue
    ensures s.queue != [] && s.queue[0] == s.current ==>
      Schedule(s).current == s.current && Schedule(s).switches == s.switches
    ensures s.queue != [] && s.queue[0] == s.current && s.procs[s.current].state != Terminated ==>
      Schedule(s).procs[s.current].state == Ready
    ensures s.queue != [] && s.queue[0] != s.current ==>
      Schedule(s).current == s.queue[0] && Schedule(s).switches == Wrap32(s.switches + 1)
      && Schedule(s).procs[s.queue[0]].state == Running
      && (s.current in s.procs ==> Schedule(s).procs[s.current].state == Ready)
    ensures forall x :: x in s.procs && (s.queue == [] || (x != s.queue[0] && x != s.current)) ==>
      Schedule(s).procs[x] == s.procs[x]
  {
    NextWf(s);
    NextEffect(s);
  }

  /** sys_exit's process_terminate(current) followed by schedule, with some
      other process x still queued: the queue is not empty, its head is a
      live PCB other than the exiting one, and the process_switch to it
      writes prev->state through the pointer to the PCB kfree has just
      released. */
  lemma SwitchFromFreedPcb(s: Tasks, x: nat)
    requires Wf(s) && s.current in s.procs && x in s.queue && x != s.current
    ensures Wf(Terminate(s, s.current).0)
    ensures var t := Terminate(s, s.current).0;
      var (t1, p) := Next(t);
      && t.queue != [] && p == t.queue[0] && p in s.procs - {s.current}
      && StaleWrite(t1, p)
  {
    TerminateEffect(s, s.current);
    var t := Terminate(s, s.current).0;
    assert x in t.queue;
    NextEffect(t);
  }

  /** Every live PCB's pid was handed out before next_pid. */
  predicate PidsBelow(s: Tasks) {
    forall x :: x in s.procs ==> s.procs[x].pid < s.nextPid
  }

  /** No two live PCBs share a pid. */
  predicate PidsUnique(s: Tasks) {
    forall x, y :: x in s.procs && y in s.procs && x != y ==> s.procs[x].pid != s.procs[y].pid
  }

  /** After boot the idle process, pid 0, is the only process. */
  lemma BootWf(idleAddr: nat)
    requires idleAddr != 0
    ensures Wf(Boot(idleAddr)) && PidsBelow(Boot(idleAddr)) && PidsUnique(Boot(idleAddr))
    ensures Boot(idleAddr).procs[idleAddr].pid == 0 && Boot(idleAddr).current == idleAddr
  {
  }

  /** process_create. A failed kmalloc changes nothing. A failed stack
      allocation returns null with the PCB freed but next_pid advanced.
      Otherwise the new PCB holds the next pid, the copied name, READY,
      priority 10, quantum 5, cpu_time 0 and the stack, and joins the
      tail of the queue. */
  lemma CreateEffect(s: Tasks, name: seq<char>, pcb: nat, stack: nat)
    requires Wf(s) && pcb !in s.procs
    ensures pcb == 0 ==> Create(s, name, pcb, stack) == (s, 0)
    ensures pcb != 0 && stack == 0 ==>
      Create(s, name, pcb, stack) == (s.(nextPid := Wrap32(s.nextPid + 1)), 0)
    ensures pcb != 0 && stack != 0 ==>
      var (r, p) := Create(s, name, pcb, stack);
      p == pcb && Wf(r)
      && r.procs[pcb] == Proc(s.nextPid, CName(name), Ready, DEFAULT_PRIORITY, DEFAULT_QUANTUM, 0, stack)
      && r.procs - {pcb} == s.procs && r.queue == s.queue + [pcb]
      && r.nextPid == Wrap32(s.nextPid + 1) && r.current == s.current && r.switches == s.switches
  {
    if pcb != 0 && stack != 0 {
      var proc := Proc(s.nextPid, CName(name), Ready, DEFAULT_PRIORITY, DEFAULT_QUANTUM, 0, stack);
      var s1 := s.(nextPid := Wrap32(s.nextPid + 1), procs := s.procs[pcb := proc]);
      assert Wf(s1);
      AddWf(s1, pcb);
      assert s.procs[pcb := proc][pcb := proc] - {pcb} == s.procs;
    }
  }

  /** Each successful PCB allocation consumes next_pid: while next_pid does
      not wrap, a created process gets a pid above every live one, and pids
      stay below next_pid and distinct. */
  lemma CreatePids(s: Tasks, name: seq<char>, pcb: nat, stack: nat)
    requires Wf(s) && pcb !in s.procs && PidsBelow(s) && PidsUnique(s) && s.nextPid + 1 < U32
    ensures PidsBelow(Create(s, name, pcb, stack).0) && PidsUnique(Create(s, name, pcb, stack).0)
    ensures var (r, p) := Create(s, name, pcb, stack);
      p != 0 ==> forall x :: x in s.procs ==> s.procs[x].pid < r.procs[p].pid
  {
    CreateEffect(s, name, pcb, stack);
    if pcb != 0 && stack != 0 {
      var r := Create(s, name, pcb, stack).0;
      forall x | x in r.procs
        ensures r.procs[x].pid < r.nextPid
      {
        if x != pcb {
          assert x in r.procs - {pcb};
        }
      }
      forall x, y | x in r.procs && y in r.procs && x != y
        ensures r.procs[x].pid != r.procs[y].pid
      {
        if x != pcb && y != pcb {
          assert x in r.procs - {pcb} && y in r.procs - {pcb};
        } else if x != pcb {
          assert x in r.procs - {pcb};
        } else {
          assert y in r.procs - {pcb};
        }
      }
    }
  }

  /** process_terminate: the PCB is freed and out of the queue, nothing
      else is; the kernel stack goes back to the page allocator. Pids stay
      below next_pid and distinct. */
  lemma TerminateEffect(s: Tasks, p: nat)
    requires Wf(s) && (p == 0 || p in s.procs)
    ensures p == 0 ==> Terminate(s, p) == (s, 0)
    ensures p != 0 ==>
      var (r, stack) := Terminate(s, p);
      Wf(r) && r.procs == s.procs - {p} && stack == s.procs[p].kernelStack
      && (forall x :: x in r.queue <==> x in s.queue && x != p)
      && r.current == s.current && r.nextPid == s.nextPid && r.switches == s.switches
    ensures PidsBelow(s) ==> PidsBelow(Terminate(s, p).0)
    ensures PidsUnique(s) ==> PidsUnique(Terminate(s, p).0)
  {
    WithoutMembers(s.queue, p);
    WithoutLive(s, p);
  }
}
