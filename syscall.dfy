/** The system-call layer of kernel/syscall.c: the 256-slot handler table
    syscall_init fills, the dispatch of syscall_handler, and the seven
    handlers. A handler's effect is stated on a Machine value: the
    process state of TaskSpec, the timer's tick count and the bytes sent to
    the console. The memory behind sys_write's pointer argument is passed
    as a byte sequence. */
module Syscall {
  import opened Word
  import opened TaskSpec
  import TaskProps
  import Timer

  const TABLE_SIZE: nat := 256
  const SUCCESS: int := 0
  const ERROR: int := -1

  /** The handlers syscall_init registers. OPEN (4) and CLOSE (5) have
      numbers but no handler. */
  datatype Call = Exit | Fork | Read | Write | GetPid | Sleep | Yield

  /** The SYS_* number of each handler. */
  function Number(c: Call): (n: nat)
    ensures n < 9 && n != 4 && n != 5
  {
    match c
    case Exit => 0
    case Fork => 1
    case Read => 2
    case Write => 3
    case GetPid => 6
    case Sleep => 7
    case Yield => 8
  }

  /** The table after syscall_init, slot by slot; numbers outside the
      table name no handler. */
  function Registered(n: int): (r: Option<Call>)
    ensures r.Some? ==> Number(r.value) == n
    ensures n < 0 || TABLE_SIZE <= n ==> r == None
  {
    if n == 0 then Some(Exit)
    else if n == 1 then Some(Fork)
    else if n == 2 then Some(Read)
    else if n == 3 then Some(Write)
    else if n == 6 then Some(GetPid)
    else if n == 7 then Some(Sleep)
    else if n == 8 then Some(Yield)
    else None
  }

  /** Every handler is found under its number, and only 0, 1, 2, 3, 6, 7
      and 8 have one: 4, 5 and 9 to 255 are empty slots. */
  lemma RegisteredExactly(c: Call, n: int)
    ensures Registered(Number(c)) == Some(c)
    ensures Registered(n).Some? <==> n in {0, 1, 2, 3, 6, 7, 8}
  {
  }

  /** syscall_table. */
  class SyscallTable {
    const table: array<Option<Call>>

    ghost predicate Valid()
      reads this, table
    {
      table.Length == TABLE_SIZE && forall i :: 0 <= i < TABLE_SIZE ==> table[i] == Registered(i)
    }

    /** syscall_init: every slot cleared, then the seven handlers stored
        under their numbers. */
    constructor Init()
      ensures Valid() && fresh(table)
    {
      var t := new Option<Call>[TABLE_SIZE];
      var i := 0;
      while i < TABLE_SIZE
        invariant i <= TABLE_SIZE
        invariant forall j :: 0 <= j < i ==> t[j] == None
      {
        t[i] := None;
        i := i + 1;
      }
      t[0] := Some(Exit);
      t[1] := Some(Fork);
      t[2] := Some(Read);
      t[3] := Some(Write);
      t[6] := Some(GetPid);
      t[7] := Some(Sleep);
      t[8] := Some(Yield);
      table := t;
    }

    /** syscall_handler's lookup: the handler in slot num, none for a
        number outside the table. */
    function Lookup(num: int): (r: Option<Call>)
      requires Valid()
      reads this, table
      ensures r == Registered(num)
    {
      if num < 0 || num >= TABLE_SIZE then None else table[num]
    }
  }

  /** The bytes print_string emits for the two-character strings {b[i], 0}
      of sys_write's loop: a NUL byte makes an empty string and shows
      nothing. */
  function Visible(b: seq<byte>): (r: seq<byte>)
    ensures |r| <= |b| && 0 !in r
    ensures (forall i :: 0 <= i < |b| ==> b[i] != 0) ==> r == b
  {
    if b == [] then []
    else Visible(b[..|b| - 1]) + (if b[|b| - 1] != 0 then [b[|b| - 1]] else [])
  }

  /** sys_write: on fd 1 each of the count bytes is printed in turn and
      count is returned as an int; any other fd gives SYSCALL_ERROR. */
  method WriteOut(fd: int, buf: seq<byte>, count: nat) returns (r: int, shown: seq<byte>)
    requires IsU32(count) && count <= |buf|
    ensures fd == 1 ==> r == Signed32(count) && shown == Visible(buf[..count])
    ensures fd != 1 ==> r == ERROR && shown == []
  {
    shown := [];
    if fd != 1 {
      return ERROR, shown;
    }
    var i := 0;
    while i < count
      invariant i <= count && shown == Visible(buf[..i])
    {
      assert buf[..i + 1][..i] == buf[..i];
      if buf[i] != 0 {
        shown := shown + [buf[i]];
      }
      i := i + 1;
    }
    return Signed32(count), shown;
  }

  /** What the model tracks around a system call. */
  datatype Machine = Machine(tasks: Tasks, ticks: nat, out: seq<byte>)

  /** sys_exit acts only for a current process whose pid is not 0. */
  predicate Exiting(s: Tasks)
    requires s.current == 0 || s.current in s.procs
  {
    s.current != 0 && s.procs[s.current].pid != 0
  }

  /** What sys_exit needs: the current process, if any, is a live PCB, so
      that reading its pid is defined. */
  predicate CanExit(s: Tasks) {
    Wf(s) && (s.current == 0 || s.current in s.procs)
  }

  /** What the model needs of the machine for call num. */
  predicate CanCall(m: Machine, num: int, a1: int, a3: int, buf: seq<byte>) {
    && Wf(m.tasks) && IsU32(m.ticks)
    && (num == 0 ==> CanExit(m.tasks))
    && (num == 6 ==> m.tasks.current == 0 || m.tasks.current in m.tasks.procs)
    && (num == 3 && a1 == 1 ==> Wrap32(a3) <= |buf|)
  }

  /** syscall_handler(num, a1, a2, a3) followed by the handler it finds;
      buf is the memory a2 points to. Each handler reads its arguments
      through the `int (*)(int, int, int)` cast, so an unsigned parameter
      takes the argument's low 32 bits. */
  function Handle(m: Machine, num: int, a1: int, a2: int, a3: int, buf: seq<byte>): (r: (Machine, int))
    requires CanCall(m, num, a1, a3, buf)
  {
    match Registered(num)
    case None => (m, ERROR)
    case Some(c) =>
      match c
      case Exit =>
        var s := m.tasks;
        if Exiting(s) then
          TaskProps.TerminateEffect(s, s.current);
          (m.(tasks := Schedule(Terminate(s, s.current).0)), SUCCESS)
        else (m, SUCCESS)
      case Fork => (m, ERROR)
      case Read => (m, ERROR)
      case Write =>
        if a1 == 1 then (m.(out := m.out + Visible(buf[..Wrap32(a3)])), Signed32(Wrap32(a3))) else (m, ERROR)
      case GetPid =>
        (m, if m.tasks.current == 0 then 0 else Signed32(Wrap32(m.tasks.procs[m.tasks.current].pid)))
      case Sleep =>
        (m.(ticks := Timer.WaitEnd(m.ticks, Timer.SleepTicks(Wrap32(a1)))), SUCCESS)
      case Yield => (m.(tasks := Schedule(m.tasks)), SUCCESS)
  }

  /** A number with no handler, inside the table or not, returns
      SYSCALL_ERROR and changes nothing; so do fork and read. */
  lemma HandleRejects(m: Machine, num: int, a1: int, a2: int, a3: int, buf: seq<byte>)
    requires CanCall(m, num, a1, a3, buf)
    requires num !in {0, 3, 6, 7, 8}
    ensures Handle(m, num, a1, a2, a3, buf) == (m, ERROR)
  {
    RegisteredExactly(Exit, num);
  }

  /** sys_write: on fd 1 the visible bytes of the buffer are appended to
      the console output and the count comes back (negative once it
      reaches 2^31); other descriptors fail with nothing written. */
  lemma HandleWrite(m: Machine, a1: int, a2: int, a3: int, buf: seq<byte>)
    requires CanCall(m, 3, a1, a3, buf)
    ensures var (r, ret) := Handle(m, 3, a1, a2, a3, buf);
      && r.tasks == m.tasks && r.ticks == m.ticks
      && (a1 == 1 ==> r.out == m.out + Visible(buf[..Wrap32(a3)]) && Wrap32(ret) == Wrap32(a3))
      && (a1 == 1 && 0 <= a3 < 0x8000_0000 ==> ret == a3)
      && (a1 != 1 ==> r == m && ret == ERROR)
  {
  }

  /** sys_getpid: 0 without a current process; otherwise the unsigned
      pid field returned as an int, so a pid below 2^31 comes back as
      itself and one from 2^31 on comes back negative, 2^32 lower. Nothing
      changes. */
  lemma HandleGetPid(m: Machine, a1: int, a2: int, a3: int, buf: seq<byte>)
    requires CanCall(m, 6, a1, a3, buf)
    ensures var (r, ret) := Handle(m, 6, a1, a2, a3, buf);
      && r == m && -0x8000_0000 <= ret < 0x8000_0000
      && (m.tasks.current == 0 ==> ret == 0)
      && (m.tasks.current != 0 ==>
            var pid := m.tasks.procs[m.tasks.current].pid;
            && ret == Signed32(Wrap32(pid))
            && (pid < 0x8000_0000 ==> ret == pid)
            && (0x8000_0000 <= pid < U32 ==> ret == pid - U32))
  {
  }

  /** sys_exit always returns SYSCALL_SUCCESS and never ends pid 0 (nor
      does anything without a current process). Otherwise the current PCB
      is freed and out of the ready queue, and schedule runs: when no other
      process is queued nothing switches and current_process is left
      pointing at the freed PCB; when one is, the head of the queue becomes
      current and RUNNING and one more switch is counted. No other live
      PCB changes. */
  lemma {:induction false} HandleExit(m: Machine, a1: int, a2: int, a3: int, buf: seq<byte>)
    requires CanCall(m, 0, a1, a3, buf)
    ensures var (r, ret) := Handle(m, 0, a1, a2, a3, buf);
      && ret == SUCCESS && r.ticks == m.ticks && r.out == m.out
      && (!Exiting(m.tasks) ==> r == m)
      && (Exiting(m.tasks) ==>
            var s := m.tasks;
            var left := Without(s.queue, s.current);
            && Wf(r.tasks) && r.tasks.procs.Keys == s.procs.Keys - {s.current}
            && (forall x :: x in r.tasks.queue ==> x in s.queue && x != s.current)
            && (forall x :: x in s.queue && x != s.current && s.procs[x].state != Terminated ==>
                  x in r.tasks.queue)
            && (left == [] ==> r.tasks.current == s.current && s.current !in r.tasks.procs
                               && r.tasks.switches == s.switches)
            && (left != [] ==>
                  && r.tasks.current == left[0] && r.tasks.procs[left[0]].state == Running
                  && r.tasks.switches == Wrap32(s.switches + 1))
            && (forall x :: x in r.tasks.procs && (left == [] || x != left[0]) ==>
                  r.tasks.procs[x] == s.procs[x]))
  {
    var s := m.tasks;
    if Exiting(s) {
      TaskProps.TerminateEffect(s, s.current);
      var t := Terminate(s, s.current).0;
      assert t.queue == Without(s.queue, s.current);
      assert s.current !in t.queue;
      TaskProps.ScheduleEffect(t);
      TaskProps.NextEffect(t);
    }
  }

  /** sys_sleep(ms) leaves once ms / 10 ticks have passed, or at once when
      that target wraps past 2^32 - 1. */
  lemma HandleSleep(m: Machine, a1: int, a2: int, a3: int, buf: seq<byte>)
    requires CanCall(m, 7, a1, a3, buf)
    ensures var (r, ret) := Handle(m, 7, a1, a2, a3, buf);
      && ret == SUCCESS && r.tasks == m.tasks && r.out == m.out
      && (m.ticks + Wrap32(a1) / 10 < U32 ==> r.ticks == m.ticks + Wrap32(a1) / 10)
  {
  }

  /** sys_yield is schedule and returns SYSCALL_SUCCESS. */
  lemma HandleYield(m: Machine, a1: int, a2: int, a3: int, buf: seq<byte>)
    requires CanCall(m, 8, a1, a3, buf)
    ensures var (r, ret) := Handle(m, 8, a1, a2, a3, buf);
      ret == SUCCESS && r == m.(tasks := Schedule(m.tasks)) && Wf(r.tasks)
  {
    TaskProps.ScheduleEffect(m.tasks);
  }
}
