/** kernel/process.c and kernel/scheduler.c as they run. The PCBs are heap
    memory both files write: here a map from PCB address to the fields,
    including the `next` link, held by the ProcessTable object along with
    process.c's statics. The ReadyQueue object holds scheduler.c's statics:
    the head and tail pointers and the switch counter. A ghost sequence
    records which PCBs the links chain together, and every method is proved
    to leave exactly the state the matching function of TaskSpec
    describes. kmalloc, kfree, pmm_alloc_page and pmm_free_page appear as
    the addresses they return or are handed. */
module Tasks {
  import opened Word
  import opened TaskSpec
  import TaskProps

  /** A PCB in memory: the modelled fields and the queue link. */
  datatype Pcb = Pcb(proc: Proc, next: nat)

  /** head, the links and tail chain together exactly the PCBs of q. */
  ghost predicate Linked(pcbs: map<nat, Pcb>, head: nat, tail: nat, q: seq<nat>) {
    (forall k :: 0 <= k < |q| ==> q[k] != 0 && q[k] in pcbs)
    && (if q == [] then head == 0 && tail == 0
        else head == q[0] && tail == q[|q| - 1] && pcbs[tail].next == 0)
    && (forall k :: 0 <= k < |q| - 1 ==> pcbs[q[k]].next == q[k + 1])
  }

  /** The PCBs without their links. */
  function Procs(pcbs: map<nat, Pcb>): map<nat, Proc> {
    map p | p in pcbs :: pcbs[p].proc
  }

  ghost function View(t: ProcessTable, rq: ReadyQueue): Tasks
    reads t, rq
  {
    Tasks(Procs(t.pcbs), rq.queue, t.current, t.nextPid, rq.switches)
  }

  ghost predicate Valid(t: ProcessTable, rq: ReadyQueue)
    reads t, rq
  {
    Linked(t.pcbs, rq.head, rq.tail, rq.queue) && Wf(View(t, rq))
  }

  lemma ProcsSet(pcbs: map<nat, Pcb>, x: nat, c: Pcb)
    ensures Procs(pcbs[x := c]) == Procs(pcbs)[x := c.proc]
  {
  }

  lemma ProcsRemove(pcbs: map<nat, Pcb>, x: nat)
    ensures Procs(pcbs - {x}) == Procs(pcbs) - {x}
  {
  }

  /** Changing fields other than the link of a PCB keeps the chain. */
  lemma LinkedSetProc(pcbs: map<nat, Pcb>, head: nat, tail: nat, q: seq<nat>, x: nat, pr: Proc)
    requires Linked(pcbs, head, tail, q) && x in pcbs
    ensures Linked(pcbs[x := Pcb(pr, pcbs[x].next)], head, tail, q)
  {
  }

  /** Writing a PCB outside the queue keeps the chain. */
  lemma LinkedOff(pcbs: map<nat, Pcb>, head: nat, tail: nat, q: seq<nat>, x: nat, c: Pcb)
    requires Linked(pcbs, head, tail, q) && x !in q
    ensures Linked(pcbs[x := c], head, tail, q)
  {
  }

  /** Freeing a PCB outside the queue keeps the chain. */
  lemma LinkedFree(pcbs: map<nat, Pcb>, head: nat, tail: nat, q: seq<nat>, x: nat)
    requires Linked(pcbs, head, tail, q) && x !in q
    ensures Linked(pcbs - {x}, head, tail, q)
  {
  }

  /** scheduler_add's rewiring: p's link cleared, the old tail's link set
      to p, p the new tail. */
  lemma LinkedAppend(pcbs: map<nat, Pcb>, head: nat, tail: nat, q: seq<nat>, p: nat, pr: Proc)
    requires Linked(pcbs, head, tail, q) && Distinct(q) && p in pcbs && p !in q && p != 0
    ensures var cleared := pcbs[p := Pcb(pr, 0)];
      if tail != 0 then Linked(cleared[tail := cleared[tail].(next := p)], head, p, q + [p])
      else Linked(cleared, p, p, q + [p])
  {
    var cleared := pcbs[p := Pcb(pr, 0)];
    if tail != 0 {
      assert q != [];
      var q' := q + [p];
      var linked := cleared[tail := cleared[tail].(next := p)];
      forall k | 0 <= k < |q'| - 1
        ensures linked[q'[k]].next == q'[k + 1]
      {
        if k < |q| - 1 {
          assert q[k] != tail;
        }
      }
    }
  }

  /** The same rewiring leaves the PCBs' other fields alone. */
  lemma ProcsAppend(pcbs: map<nat, Pcb>, tail: nat, p: nat, pr: Proc)
    requires tail != p && tail in pcbs
    ensures var cleared := pcbs[p := Pcb(pr, 0)];
      Procs(cleared[tail := cleared[tail].(next := p)]) == Procs(pcbs)[p := pr]
  {
    var cleared := pcbs[p := Pcb(pr, 0)];
    ProcsSet(pcbs, p, Pcb(pr, 0));
    ProcsSet(cleared, tail, cleared[tail].(next := p));
    assert Procs(pcbs)[p := pr][tail := pcbs[tail].proc] == Procs(pcbs)[p := pr];
  }

  /** Taking the head off: head moves to its link, the tail is cleared
      when the queue empties. */
  lemma LinkedPop(pcbs: map<nat, Pcb>, head: nat, tail: nat, q: seq<nat>)
    requires Linked(pcbs, head, tail, q) && Distinct(q) && q != []
    ensures var h := pcbs[head].next;
      Linked(pcbs, h, if h == 0 then 0 else tail, q[1..])
    ensures pcbs[head].next == 0 <==> tail == head
  {
    if |q| > 1 {
      assert pcbs[head].next == q[1];
      assert q[0] != q[|q| - 1];
    }
  }

  /** A map entry written and then freed is as if never written. */
  lemma ProcsUpdateRemove(m: map<nat, Proc>, x: nat, pr: Proc)
    ensures m[x := pr] - {x} == m - {x}
  {
  }

  /** Unlinking q[k+1] from its predecessor q[k]. */
  lemma LinkedUnlink(pcbs: map<nat, Pcb>, head: nat, tail: nat, q: seq<nat>, k: nat)
    requires Linked(pcbs, head, tail, q) && Distinct(q) && k + 1 < |q|
    ensures var p := q[k + 1];
      Linked(pcbs[q[k] := pcbs[q[k]].(next := pcbs[p].next)], head,
             if tail == p then q[k] else tail, q[..k + 1] + q[k + 2..])
  {
    var p := q[k + 1];
    var q' := q[..k + 1] + q[k + 2..];
    var pcbs' := pcbs[q[k] := pcbs[q[k]].(next := pcbs[p].next)];
    forall j | 0 <= j < |q'| - 1
      ensures pcbs'[q'[j]].next == q'[j + 1]
    {
      if j < k {
        assert q'[j] == q[j] && q'[j + 1] == q[j + 1] && q[j] != q[k];
      } else if j == k {
        assert q'[j + 1] == q[k + 2];
      } else {
        assert q'[j] == q[j + 1] && q'[j + 1] == q[j + 2] && q[j + 1] != q[k];
      }
    }
    if q' != [] && tail != p {
      assert q'[|q'| - 1] == q[|q| - 1];
      assert tail != q[k];
    }
  }

  /** The name loop of process_init and process_create. */
  method CopyName(src: seq<char>) returns (name: seq<char>)
    ensures name == CName(src)
  {
    name := [];
    var i := 0;
    while i < |src| && src[i] != '\0' && i < NAME_MAX
      invariant i <= |src| && i <= NAME_MAX && name == src[..i]
      invariant NameEnd(src, 0) == NameEnd(src, i)
    {
      name := name + [src[i]];
      i := i + 1;
    }
  }

  /** process.c's statics, and the PCBs in heap memory. */
  class ProcessTable {
    var pcbs: map<nat, Pcb>
    var current: nat
    var nextPid: nat
    var idle: nat
    var processList: nat

    /** process_init, given the PCB address kmalloc returned for the idle
        process (the code writes through it without a null check). The
        idle PCB's link points to itself. */
    constructor Init(idleAddr: nat)
      requires idleAddr != 0
      ensures pcbs == map[idleAddr := Pcb(IdleProc(), idleAddr)]
      ensures current == idleAddr && idle == idleAddr && processList == idleAddr && nextPid == 1
    {
      var name := CopyName("idle");
      pcbs := map[idleAddr := Pcb(Proc(0, name, Running, 0, 1, 0, 0), idleAddr)];
      nextPid := 1;
      idle := idleAddr;
      processList := idleAddr;
      current := idleAddr;
    }

    /** Writes one PCB's state field. */
    method SetState(x: nat, st: State)
      requires x in pcbs
      modifies this`pcbs
      ensures pcbs == old(pcbs)[x := Pcb(old(pcbs)[x].proc.(state := st), old(pcbs)[x].next)]
    {
      pcbs := pcbs[x := Pcb(pcbs[x].proc.(state := st), pcbs[x].next)];
    }

    /** process_switch. When prev is not a live PCB (process_terminate has
        freed it on the way out of sys_exit) its state write goes to freed
        heap memory, outside the PCBs this map holds. */
    method Switch(rq: ReadyQueue, next: nat)
      requires Valid(this, rq) && (next == 0 || next in pcbs)
      modifies this`pcbs, this`current
      ensures Valid(this, rq) && View(this, rq) == TaskSpec.Switch(old(View(this, rq)), next)
    {
      if next == 0 || next == current {
        return;
      }
      var prev := current;
      current := next;
      if prev in pcbs {
        LinkedSetProc(pcbs, rq.head, rq.tail, rq.queue, prev, pcbs[prev].proc.(state := Ready));
        ProcsSet(pcbs, prev, Pcb(pcbs[prev].proc.(state := Ready), pcbs[prev].next));
        SetState(prev, Ready);
      }
      LinkedSetProc(pcbs, rq.head, rq.tail, rq.queue, next, pcbs[next].proc.(state := Running));
      ProcsSet(pcbs, next, Pcb(pcbs[next].proc.(state := Running), pcbs[next].next));
      SetState(next, Running);
    }

    /** process_create, given what kmalloc and pmm_alloc_page returned. The
        initial stack frame and saved registers are not modelled. */
    method Create(rq: ReadyQueue, name: seq<char>, pcbAddr: nat, stack: nat) returns (p: nat)
      requires Valid(this, rq) && pcbAddr !in pcbs
      modifies this`pcbs, this`nextPid, rq
      ensures Valid(this, rq)
      ensures (View(this, rq), p) == TaskSpec.Create(old(View(this, rq)), name, pcbAddr, stack)
    {
      if pcbAddr == 0 {
        return 0;
      }
      var pid := nextPid;
      nextPid := Wrap32(nextPid + 1);
      var copied := CopyName(name);
      if stack == 0 {
        return 0;
      }
      var proc := Proc(pid, copied, Ready, DEFAULT_PRIORITY, DEFAULT_QUANTUM, 0, stack);
      LinkedOff(pcbs, rq.head, rq.tail, rq.queue, pcbAddr, Pcb(proc, 0));
      ProcsSet(pcbs, pcbAddr, Pcb(proc, 0));
      pcbs := pcbs[pcbAddr := Pcb(proc, 0)];
      rq.Add(this, pcbAddr);
      p := pcbAddr;
    }

    /** process_terminate: the PCB is marked TERMINATED, taken off the
        queue and freed; `freedStack` is the kernel stack handed to
        pmm_free_page, 0 when there is none. */
    method Terminate(rq: ReadyQueue, p: nat) returns (freedStack: nat)
      requires Valid(this, rq) && (p == 0 || p in pcbs)
      modifies this`pcbs, rq
      ensures Valid(this, rq)
      ensures (View(this, rq), freedStack) == TaskSpec.Terminate(old(View(this, rq)), p)
    {
      if p == 0 {
        return 0;
      }
      LinkedSetProc(pcbs, rq.head, rq.tail, rq.queue, p, pcbs[p].proc.(state := Terminated));
      ProcsSet(pcbs, p, Pcb(pcbs[p].proc.(state := Terminated), pcbs[p].next));
      SetState(p, Terminated);
      freedStack := pcbs[p].proc.kernelStack;
      ghost var marked := Procs(pcbs);
      TaskProps.TerminateEffect(old(View(this, rq)), p);
      rq.Remove(this, p);
      LinkedFree(pcbs, rq.head, rq.tail, rq.queue, p);
      ProcsRemove(pcbs, p);
      pcbs := pcbs - {p};
      ProcsUpdateRemove(old(Procs(pcbs)), p, old(pcbs[p].proc).(state := Terminated));
    }
  }

  /** scheduler.c's statics. */
  class ReadyQueue {
    var head: nat
    var tail: nat
    var switches: nat
    /** The PCBs the links chain together, head first. */
    ghost var queue: seq<nat>

    /** scheduler_init. */
    constructor Init(t: ProcessTable)
      requires 0 !in t.pcbs && IsU32(t.nextPid)
      ensures Valid(t, this) && queue == [] && switches == 0
    {
      head, tail, switches := 0, 0, 0;
      queue := [];
    }

    /** scheduler_add. The process must not already be queued: adding a
        queued PCB again would cut the chain after it. */
    method Add(t: ProcessTable, p: nat)
      requires Valid(t, this) && (p == 0 || (p in t.pcbs && p !in queue))
      modifies this, t`pcbs
      ensures Valid(t, this) && View(t, this) == TaskSpec.Add(old(View(t, this)), p)
    {
      if p == 0 {
        return;
      }
      ghost var s := View(t, this);
      TaskProps.AddWf(s, p);
      var proc := t.pcbs[p].proc.(state := Ready);
      LinkedAppend(t.pcbs, head, tail, queue, p, proc);
      if tail != 0 {
        ProcsAppend(t.pcbs, tail, p, proc);
      } else {
        ProcsSet(t.pcbs, p, Pcb(proc, 0));
      }
      t.pcbs := t.pcbs[p := Pcb(proc, 0)];
      if tail != 0 {
        t.pcbs := t.pcbs[tail := t.pcbs[tail].(next := p)];
        tail := p;
      } else {
        head := p;
        tail := p;
      }
      queue := queue + [p];
    }

    /** scheduler_remove: unlink p at the head, or walk to its predecessor
        and unlink it there; a process not in the queue is not found. */
    method Remove(t: ProcessTable, p: nat)
      requires Valid(t, this)
      modifies this, t`pcbs
      ensures Valid(t, this) && View(t, this) == TaskSpec.Remove(old(View(t, this)), p)
    {
      if p == 0 {
        return;
      }
      if head == p {
        RemoveHead(t, p);
        return;
      }
      var current := head;
      ghost var k := 0;
      while current != 0 && t.pcbs[current].next != p
        invariant k <= |queue|
        invariant current == if k < |queue| then queue[k] else 0
        invariant forall j :: 0 <= j <= k && j < |queue| ==> queue[j] != p
        decreases |queue| - k
      {
        current := t.pcbs[current].next;
        k := k + 1;
      }
      if current != 0 {
        Unlink(t, current, p, k);
      } else {
        TaskProps.RemoveEffect(View(t, this), p);
      }
    }

    /** The head case of scheduler_remove. */
    method RemoveHead(t: ProcessTable, p: nat)
      requires Valid(t, this) && p != 0 && head == p
      modifies this, t`pcbs
      ensures Valid(t, this) && View(t, this) == TaskSpec.Remove(old(View(t, this)), p)
    {
      TaskProps.WithoutAt(queue, p, 0);
      TaskProps.RemoveEffect(View(t, this), p);
      LinkedPop(t.pcbs, head, tail, queue);
      head := t.pcbs[p].next;
      if tail == p {
        tail := 0;
      }
      queue := queue[1..];
    }

    /** The end of scheduler_remove: queue[k]'s link skips queue[k+1]. */
    method Unlink(t: ProcessTable, current: nat, p: nat, ghost k: nat)
      requires Valid(t, this) && k + 1 < |queue| && current == queue[k] && p == queue[k + 1]
      requires forall j :: 0 <= j <= k ==> queue[j] != p
      modifies this, t`pcbs
      ensures Valid(t, this) && View(t, this) == TaskSpec.Remove(old(View(t, this)), p)
    {
      TaskProps.WithoutAt(queue, p, k + 1);
      TaskProps.RemoveEffect(View(t, this), p);
      LinkedUnlink(t.pcbs, head, tail, queue, k);
      ProcsSet(t.pcbs, current, t.pcbs[current].(next := t.pcbs[p].next));
      t.pcbs := t.pcbs[current := t.pcbs[current].(next := t.pcbs[p].next)];
      if tail == p {
        tail := current;
      }
      queue := queue[..k + 1] + queue[k + 2..];
    }

    /** scheduler_next. */
    method Next(t: ProcessTable) returns (p: nat)
      requires Valid(t, this)
      modifies this, t`pcbs
      ensures Valid(t, this) && (View(t, this), p) == TaskSpec.Next(old(View(t, this)))
    {
      if head == 0 {
        return 0;
      }
      p := head;
      LinkedPop(t.pcbs, head, tail, queue);
      head := t.pcbs[p].next;
      if head == 0 {
        tail := 0;
      }
      queue := queue[1..];
      if t.pcbs[p].proc.state != Terminated {
        Add(t, p);
      }
    }

    /** schedule. */
    method Schedule(t: ProcessTable)
      requires Valid(t, this)
      modifies this, t`pcbs, t`current
      ensures Valid(t, this) && View(t, this) == TaskSpec.Schedule(old(View(t, this)))
    {
      var current := t.current;
      var next := Next(t);
      if next == 0 {
        return;
      }
      if next != current {
        switches := Wrap32(switches + 1);
        t.Switch(this, next);
      }
    }
  }
}
