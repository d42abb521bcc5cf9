/** Processes and the round-robin ready queue of kernel/process.c and
    kernel/scheduler.c, as values. A process is named by the address of its
    PCB (0 is null); the ready queue is the sequence of PCB addresses from
    ready_queue_head along the `next` links to ready_queue_tail. The links
    themselves live in module Tasks, which proves that the pointer code
    keeps them in step with this sequence. */
module TaskSpec {
  import opened Word

  /** The name copy keeps at most 31 characters and a terminating NUL. */
  const NAME_MAX: nat := 31
  const DEFAULT_PRIORITY: nat := 10
  const DEFAULT_QUANTUM: nat := 5

  datatype State = Ready | Running | Blocked | Terminated

  /** The PCB fields the model keeps, apart from the queue link. The saved
      registers, user_stack and page_directory are not modelled. */
  datatype Proc = Proc(pid: nat, name: seq<char>, state: State, priority: nat,
                       quantum: nat, cpuTime: nat, kernelStack: nat)

  /** The live PCBs, the ready queue, current_process, next_pid and
      context_switches. */
  datatype Tasks = Tasks(procs: map<nat, Proc>, queue: seq<nat>, current: nat,
                         nextPid: nat, switches: nat)

  predicate Distinct(q: seq<nat>) {
    forall i, j :: 0 <= i < j < |q| ==> q[i] != q[j]
  }

  /** No PCB lives at address 0, the queue holds each live PCB at most
      once, and the two counters are 32-bit. */
  predicate Wf(s: Tasks) {
    0 !in s.procs && Distinct(s.queue)
    && (forall k :: 0 <= k < |s.queue| ==> s.queue[k] in s.procs)
    && IsU32(s.nextPid) && IsU32(s.switches)
  }

  function WithState(s: Tasks, p: nat, st: State): (r: Tasks)
    requires p in s.procs
  {
    s.(procs := s.procs[p := s.procs[p].(state := st)])
  }

  /** scheduler_add: nothing for null; otherwise the process becomes READY
      and joins the tail. */
  function Add(s: Tasks, p: nat): (r: Tasks)
    requires p == 0 || p in s.procs
  {
    if p == 0 then s else WithState(s, p, Ready).(queue := s.queue + [p])
  }

  /** q with its first occurrence of p taken out. */
  function Without(q: seq<nat>, p: nat): (r: seq<nat>)
    ensures |r| == if p in q then |q| - 1 else |q|
  {
    if q == [] then []
    else if q[0] == p then q[1..]
    else [q[0]] + Without(q[1..], p)
  }

  /** scheduler_remove: the process leaves the queue wherever it stands in
      it; a process not in the queue changes nothing. */
  function Remove(s: Tasks, p: nat): (r: Tasks)
  {
    if p == 0 then s else s.(queue := Without(s.queue, p))
  }

  /** scheduler_next: the head, taken off the queue and re-added at the
      tail unless it is TERMINATED; 0 for an empty queue. */
  function Next(s: Tasks): (r: (Tasks, nat))
    requires Wf(s)
  {
    if s.queue == [] then (s, 0)
    else
      var p := s.queue[0];
      var popped := s.(queue := s.queue[1..]);
      if s.procs[p].state != Terminated then (Add(popped, p), p) else (popped, p)
  }

  /** process_switch: nothing for null or the current process; otherwise
      p becomes current and RUNNING and the previous process READY. The
      write to the previous process reaches a live PCB only while there is
      one at that address: after process_terminate has freed the current
      PCB it lands in freed heap memory, which holds no process here (see
      StaleWrite). */
  function Switch(s: Tasks, p: nat): (r: Tasks)
    requires p == 0 || p in s.procs
  {
    if p == 0 || p == s.current then s
    else
      var left := if s.current in s.procs then WithState(s, s.current, Ready) else s;
      WithState(left.(current := p), p, Running)
  }

  /** process_switch to p writes prev->state through a pointer that is not
      a live PCB. */
  predicate StaleWrite(s: Tasks, p: nat) {
    p != 0 && p != s.current && s.current !in s.procs
  }

  /** schedule: take the next process; when it is a different one, count a
      context switch and switch to it. */
  function Schedule(s: Tasks): (r: Tasks)
    requires Wf(s)
  {
    var (s1, p) := Next(s);
    if p == 0 || p == s.current then s1
    else Switch(s1.(switches := Wrap32(s1.switches + 1)), p)
  }

  /** Where the name loop, having reached index i, stops: at the source's
      NUL, at the end of the source, or at index 31. */
  function NameEnd(src: seq<char>, i: nat): (r: nat)
    requires i <= NAME_MAX && i <= |src|
    ensures i <= r <= NAME_MAX && r <= |src|
    ensures forall j :: i <= j < r ==> src[j] != '\0'
    ensures r < NAME_MAX ==> r == |src| || src[r] == '\0'
    decreases NAME_MAX - i
  {
    if i == NAME_MAX || i == |src| || src[i] == '\0' then i else NameEnd(src, i + 1)
  }

  /** The name a PCB holds once its 32-byte field is NUL-terminated: the
      source up to its first NUL, cut to 31 characters. */
  function CName(src: seq<char>): (r: seq<char>)
    ensures |r| <= NAME_MAX && r <= src && '\0' !in r
    ensures |r| < NAME_MAX ==> |r| == |src| || src[|r|] == '\0'
  {
    src[..NameEnd(src, 0)]
  }

  /** process_create, given what kmalloc(sizeof(process_t)) and
      pmm_alloc_page returned: the new state and the pointer returned. A
      failed kmalloc changes nothing; a failed page allocation frees the
      PCB again but has already used up a pid. */
  function Create(s: Tasks, name: seq<char>, pcb: nat, stack: nat): (r: (Tasks, nat))
    requires pcb !in s.procs
  {
    if pcb == 0 then (s, 0)
    else
      var s1 := s.(nextPid := Wrap32(s.nextPid + 1));
      if stack == 0 then (s1, 0)
      else
        var proc := Proc(s.nextPid, CName(name), Ready, DEFAULT_PRIORITY, DEFAULT_QUANTUM, 0, stack);
        (Add(s1.(procs := s1.procs[pcb := proc]), pcb), pcb)
  }

  /** process_terminate: nothing for null; otherwise the process leaves the
      queue and its PCB is freed. The second component is the kernel stack
      handed to pmm_free_page, 0 when none is. */
  function Terminate(s: Tasks, p: nat): (r: (Tasks, nat))
    requires p == 0 || p in s.procs
  {
    if p == 0 then (s, 0)
    else (s.(procs := s.procs - {p}, queue := Without(s.queue, p)), s.procs[p].kernelStack)
  }

  /** The idle process process_init builds: pid 0, RUNNING, priority 0,
      quantum 1. Its kernel_stack is never written. */
  function IdleProc(): Proc {
    Proc(0, CName("idle"), Running, 0, 1, 0, 0)
  }

  /** process_init followed by scheduler_init: only the idle process, which
      is current, and an empty ready queue. */
  function Boot(idleAddr: nat): (r: Tasks) {
    Tasks(map[idleAddr := IdleProc()], [], idleAddr, 1, 0)
  }
}
