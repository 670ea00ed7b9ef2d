/** The process table and the timer tick (kernel/process.c). */
module Processes {
  import opened Bytes
  import opened SchedModel

  const KSH: Bytes := ['k', 's', 'h']
  const IDLE: Bytes := ['i', 'd', 'l', 'e']
  const CLEARED := Proc(0, 0, Unused, [], 0, 0, 0, false)

  // The table proc_init leaves behind.
  ghost function Boot(): Sched {
    var blank := seq(MAX_PROCESSES, i => CLEARED);
    Create(Sched(blank[0 := CLEARED.(state := Ready, name := IDLE)], 0, 1), KSH, 0, true)
  }

  // Slot 0 is the idle process, slot 1 a user process called "ksh", both ready, and slot 0 is current; the rest is empty.
  ghost predicate Booted(s: Sched) {
    && |s.procs| == 32 && s.current == 0 && s.nextPid == 2
    && s.procs[0] == Proc(0, 0, Ready, ['i', 'd', 'l', 'e'], 0, 0, 0, false)
    && s.procs[1] == Proc(1, 0, Ready, ['k', 's', 'h'], 0, 0, 1000, true)
    && forall i :: 2 <= i < 32 ==> s.procs[i] == Proc(0, 0, Unused, [], 0, 0, 0, false)
  }

  lemma BootDone()
    ensures Booted(Boot())
  {
  }

  // From boot the idle slot keeps the processor: no run of ticks and creations leaves slot 0.
  lemma BootStaysIdle(es: seq<Event>)
    ensures Consistent(Boot()) && Run(Boot(), es).current == 0
  {
    RunSafe(Boot(), es);
  }

  lemma SearchEnds(procs: seq<Proc>, next: nat)
    requires |procs| == MAX_PROCESSES && next < MAX_PROCESSES
    ensures Search(procs, next, 0) == 0
  {
  }

  // The slot n places behind start, going round.
  ghost function Around(start: nat, n: nat): (r: nat)
    ensures r < MAX_PROCESSES
  {
    (start + n) % MAX_PROCESSES
  }

  lemma RoundStep(start: nat, n: nat)
    ensures Around(start, n + 1) == (Around(start, n) + 1) % MAX_PROCESSES
  {
  }

  lemma RoundEnds(start: nat)
    requires start < MAX_PROCESSES
    ensures Around(start, 0) == Around(start, MAX_PROCESSES) == start
    ensures forall n :: 0 < n < MAX_PROCESSES ==> Around(start, n) != start
  {
  }

  lemma RunnableIs(p: Proc)
    ensures Runnable(p) <==> p.state == Ready || p.state == Running
  {
  }

  class Scheduler {
    const procs: array<Proc>
    var current: nat
    var nextPid: nat

    ghost predicate Valid()
      reads this, procs
    {
      procs.Length == MAX_PROCESSES && current < MAX_PROCESSES
    }

    ghost function S(): Sched
      reads this, procs
    {
      Sched(procs[..], current, nextPid)
    }

    // proc_init (kernel/process.c:31-39).
    constructor ()
      ensures Valid() && fresh(procs) && S() == Boot() && Booted(S())
    {
      procs := new Proc[MAX_PROCESSES](i => CLEARED);
      current := 0;
      nextPid := 1;
      new;
      procs[0] := CLEARED.(state := Ready, name := IDLE);
      assert procs[..] == seq(MAX_PROCESSES, i => CLEARED)[0 := CLEARED.(state := Ready, name := IDLE)];
      var pid := CreateUser(KSH, 0, true);
      BootDone();
    }

    // proc_create_user (kernel/process.c:43-59); the name fits its field.
    method CreateUser(name: Bytes, entry: U32, isUser: bool) returns (pid: int)
      requires Valid() && |name| < 32
      modifies `nextPid, procs
      ensures Valid() && S() == Create(old(S()), name, entry, isUser)
      ensures pid == if old(nextPid) >= MAX_PROCESSES then -1 else old(nextPid)
      ensures Born(old(S()), S(), name, entry, isUser, pid)
    {
      if nextPid >= MAX_PROCESSES {
        return -1;
      }
      var slot := nextPid;
      nextPid := nextPid + 1;
      procs[slot] := CLEARED;
      procs[slot] := procs[slot].(pid := slot, ppid := current, state := Ready, eip := entry, isUser := isUser,
                                  uid := if isUser then 1000 else 0, name := name);
      pid := slot;
    }

    // schedule (kernel/process.c:68-82): a search that starts behind the current slot and goes round once.
    method Schedule()
      requires Valid()
      modifies `current, procs
      ensures Valid() && S() == SchedModel.Schedule(old(S()))
    {
      hide Search, Runnable, Around;
      ghost var table := procs[..];
      var next := (current + 1) % MAX_PROCESSES;
      var start := next;
      RoundEnds(start);
      ghost var k := MAX_PROCESSES;
      var first := true;
      while first || next != start
        invariant next < MAX_PROCESSES && 0 <= k <= MAX_PROCESSES && procs[..] == table && Valid()
        invariant next == Around(start, MAX_PROCESSES - k) && (first <==> k == MAX_PROCESSES)
        invariant Search(table, next, k) == Search(table, start, MAX_PROCESSES)
        decreases k
      {
        first := false;
        SearchStep(table, next, k);
        RunnableIs(procs[next]);
        if procs[next].state == Ready || procs[next].state == Running {
          procs[next] := procs[next].(state := Running);
          current := next;
          return;
        }
        RoundStep(start, MAX_PROCESSES - k);
        next := (next + 1) % MAX_PROCESSES;
        k := k - 1;
      }
      SearchEnds(table, next);
      current := 0;
      procs[0] := procs[0].(state := Running);
    }

    // timer_handler (kernel/process.c:83-93).
    method TimerHandler()
      requires Valid()
      modifies `current, procs
      ensures Valid() && S() == Tick(old(S())) && (Consistent(old(S())) ==> Ticked(old(S()), S()))
    {
      if Consistent(S()) {
        TickDone(S());
      }
      if procs[current].pid != 0 {
        procs[current] := procs[current].(timeUsed := procs[current].timeUsed + 1);
        if procs[current].timeUsed >= TIME_SLICE {
          procs[current] := procs[current].(state := Ready);
          procs[current] := procs[current].(timeUsed := 0);
          assert procs[..] == old(procs[..])[current := old(procs[current]).(state := Ready, timeUsed := 0)];
          Schedule();
        }
      }
    }
  }
}
