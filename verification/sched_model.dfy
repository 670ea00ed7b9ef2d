/** Round-robin service of the process table (kernel/process.c). */
module SchedModel {
  import opened Bytes

  const MAX_PROCESSES := 32
  const TIME_SLICE := 10

  datatype State = Unused | Ready | Running | Waiting | Zombie

  datatype Proc = Proc(pid: nat, ppid: nat, state: State, name: Bytes, eip: U32, timeUsed: nat, uid: nat, isUser: bool)

  // The table, the current slot and the next pid to give out.
  datatype Sched = Sched(procs: seq<Proc>, current: nat, nextPid: nat)

  predicate Runnable(p: Proc) { p.state == Ready || p.state == Running }

  ghost predicate Consistent(s: Sched) {
    && |s.procs| == MAX_PROCESSES && s.current < s.nextPid <= MAX_PROCESSES
    && (forall i :: 0 <= i < s.nextPid ==> s.procs[i].pid == i)
    && (forall i :: s.nextPid <= i < MAX_PROCESSES ==> s.procs[i].state == Unused)
    && (forall i :: 0 <= i < MAX_PROCESSES ==> s.procs[i].timeUsed < TIME_SLICE)
    && (forall i :: 0 <= i < MAX_PROCESSES && i != s.current ==> s.procs[i].timeUsed == 0 && s.procs[i].state != Running)
    && Runnable(s.procs[0]) && Runnable(s.procs[s.current])
  }

  // The first runnable slot in cyclic order from next on, k slots at most; k slots are looked at.
  ghost function Search(procs: seq<Proc>, next: nat, k: nat): (r: nat)
    requires |procs| == MAX_PROCESSES && next < MAX_PROCESSES
    ensures r < MAX_PROCESSES && (r == 0 || Runnable(procs[r]))
    decreases k
  {
    if k == 0 then 0
    else if Runnable(procs[next]) then next
    else Search(procs, (next + 1) % MAX_PROCESSES, k - 1)
  }

  ghost function SetState(procs: seq<Proc>, i: nat, st: State): (r: seq<Proc>)
    requires i < |procs|
    ensures |r| == |procs|
  {
    procs[i := procs[i].(state := st)]
  }

  ghost function Schedule(s: Sched): Sched
    requires |s.procs| == MAX_PROCESSES && s.current < MAX_PROCESSES
  {
    var next := Search(s.procs, (s.current + 1) % MAX_PROCESSES, MAX_PROCESSES);
    s.(procs := SetState(s.procs, next, Running), current := next)
  }

  ghost function Tick(s: Sched): Sched
    requires |s.procs| == MAX_PROCESSES && s.current < MAX_PROCESSES
  {
    var p := s.procs[s.current];
    if p.pid == 0 then s
    else if p.timeUsed + 1 < TIME_SLICE then s.(procs := s.procs[s.current := p.(timeUsed := p.timeUsed + 1)])
    else Schedule(s.(procs := s.procs[s.current := p.(state := Ready, timeUsed := 0)]))
  }

  ghost function Create(s: Sched, name: Bytes, entry: U32, isUser: bool): Sched
    requires |s.procs| == MAX_PROCESSES
  {
    if s.nextPid >= MAX_PROCESSES then s
    else
      var p := Proc(s.nextPid, s.current, Ready, name, entry, 0, if isUser then 1000 else 0, isUser);
      s.(procs := s.procs[s.nextPid := p], nextPid := s.nextPid + 1)
  }

  // ------------------------------------------------------------------ the search finds the next slot up

  lemma {:induction false} SearchStep(procs: seq<Proc>, next: nat, k: nat)
    requires |procs| == MAX_PROCESSES && next < MAX_PROCESSES && k > 0
    ensures Search(procs, next, k) == if Runnable(procs[next]) then next else Search(procs, (next + 1) % MAX_PROCESSES, k - 1)
  {
  }

  // r is the lowest runnable slot above c, or 0 when there is none.
  ghost predicate NextAbove(procs: seq<Proc>, c: nat, r: nat)
    requires |procs| == MAX_PROCESSES
  {
    && r < MAX_PROCESSES
    && (forall i :: c < i < MAX_PROCESSES && (r == 0 || i < r) ==> !Runnable(procs[i]))
    && (r != 0 ==> c < r && Runnable(procs[r]))
  }

  lemma {:induction false} SearchUp(procs: seq<Proc>, c: nat, next: nat, k: nat)
    requires |procs| == MAX_PROCESSES && c < next < MAX_PROCESSES && k == MAX_PROCESSES - (next - c - 1)
    requires Runnable(procs[0]) && forall i :: c < i < next ==> !Runnable(procs[i])
    ensures NextAbove(procs, c, Search(procs, next, k))
    decreases MAX_PROCESSES - next
  {
    if !Runnable(procs[next]) {
      if next + 1 < MAX_PROCESSES {
        assert (next + 1) % MAX_PROCESSES == next + 1;
        SearchUp(procs, c, next + 1, k - 1);
      } else {
        assert (next + 1) % MAX_PROCESSES == 0;
        assert Search(procs, 0, k - 1) == 0;
      }
    }
  }

  lemma SearchIsNext(procs: seq<Proc>, c: nat)
    requires |procs| == MAX_PROCESSES && c < MAX_PROCESSES && Runnable(procs[0])
    ensures NextAbove(procs, c, Search(procs, (c + 1) % MAX_PROCESSES, MAX_PROCESSES))
  {
    hide Search;
    if c + 1 < MAX_PROCESSES {
      SearchUp(procs, c, c + 1, MAX_PROCESSES);
    } else {
      assert (c + 1) % MAX_PROCESSES == 0;
      SearchStep(procs, 0, MAX_PROCESSES);
    }
  }

  // ------------------------------------------------------------------ every step

  lemma CreateKeeps(s: Sched, name: Bytes, entry: U32, isUser: bool)
    requires Consistent(s)
    ensures Consistent(Create(s, name, entry, isUser)) && Create(s, name, entry, isUser).current == s.current
  {
  }

  // A tick keeps the table consistent; the current slot stays or gives way to the next one above it, or to slot 0.
  lemma TickKeeps(s: Sched)
    requires Consistent(s)
    ensures Consistent(Tick(s)) && Tick(s).nextPid == s.nextPid
    ensures s.current == 0 ==> Tick(s) == s
    ensures var c, t := s.current, s.procs[s.current].timeUsed;
            s.current > 0 ==> if t + 1 < TIME_SLICE then Tick(s).current == c && Tick(s).procs[c].timeUsed == t + 1
                              else NextAbove(s.procs, c, Tick(s).current) && Tick(s).procs[Tick(s).current].timeUsed == 0
                                   && Tick(s).procs[Tick(s).current].state == Running
    ensures forall i :: 0 <= i < MAX_PROCESSES ==> (Runnable(Tick(s).procs[i]) <==> Runnable(s.procs[i]))
  {
    hide Search;
    var c := s.current;
    var p := s.procs[c];
    if c > 0 && p.timeUsed + 1 >= TIME_SLICE {
      var procs := s.procs[c := p.(state := Ready, timeUsed := 0)];
      SearchIsNext(procs, c);
      NextAboveSame(procs, s.procs, c, Tick(s).current);
    }
  }

  lemma NextAboveSame(a: seq<Proc>, b: seq<Proc>, c: nat, r: nat)
    requires |a| == |b| == MAX_PROCESSES && NextAbove(a, c, r)
    requires forall i :: 0 <= i < MAX_PROCESSES ==> (Runnable(a[i]) <==> Runnable(b[i]))
    ensures NextAbove(b, c, r)
  {
  }

  // ------------------------------------------------------------------ whole runs

  datatype Event = TickEvent | CreateEvent(name: Bytes, entry: U32, isUser: bool)

  ghost function Step(s: Sched, e: Event): Sched
    requires Consistent(s)
  {
    match e
    case TickEvent => Tick(s)
    case CreateEvent(name, entry, isUser) => Create(s, name, entry, isUser)
  }

  lemma StepKeeps(s: Sched, e: Event)
    requires Consistent(s)
    ensures Consistent(Step(s, e))
    ensures forall i :: 0 <= i < MAX_PROCESSES && Runnable(s.procs[i]) ==> Runnable(Step(s, e).procs[i])
  {
    hide Tick, Create;
    TickKeeps(s);
    if e.CreateEvent? {
      CreateKeeps(s, e.name, e.entry, e.isUser);
      CreateSpares(s, e.name, e.entry, e.isUser);
    }
  }

  lemma CreateSpares(s: Sched, name: Bytes, entry: U32, isUser: bool)
    requires Consistent(s)
    ensures forall i :: 0 <= i < s.nextPid ==> Create(s, name, entry, isUser).procs[i] == s.procs[i]
  {
  }

  ghost function Run(s: Sched, es: seq<Event>): (r: Sched)
    requires Consistent(s)
    ensures Consistent(r)
    decreases es
  {
    if es == [] then s
    else
      StepKeeps(s, es[0]);
      Run(Step(s, es[0]), es[1..])
  }

  ghost function Ticks(es: seq<Event>): nat {
    if es == [] then 0 else (if es[0].TickEvent? then 1 else 0) + Ticks(es[1..])
  }

  // Safety over any run: at most one slot runs, and it is the current one; slot 0 keeps the processor.
  lemma {:induction false} RunSafe(s: Sched, es: seq<Event>)
    requires Consistent(s)
    ensures forall i :: 0 <= i < MAX_PROCESSES && Run(s, es).procs[i].state == Running ==> i == Run(s, es).current
    ensures s.current == 0 ==> Run(s, es).current == 0
    decreases es
  {
    hide Step;
    if es != [] {
      StepKeeps(s, es[0]);
      StepAtZero(s, es[0]);
      RunSafe(Step(s, es[0]), es[1..]);
    }
  }

  lemma StepAtZero(s: Sched, e: Event)
    requires Consistent(s)
    ensures s.current == 0 ==> Step(s, e).current == 0
  {
    hide Create;
    TickKeeps(s);
    if e.CreateEvent? {
      CreateKeeps(s, e.name, e.entry, e.isUser);
    }
  }

  // The ticks a ready slot p above the current one may have to wait.
  ghost function Wait(s: Sched, p: nat): int
    requires Consistent(s)
  {
    (p - s.current) * TIME_SLICE - s.procs[s.current].timeUsed
  }

  lemma StepWaits(s: Sched, e: Event, p: nat)
    requires Consistent(s) && 0 < s.current < p < MAX_PROCESSES && Runnable(s.procs[p])
    ensures var u := Step(s, e);
            && Consistent(u) && Runnable(u.procs[p]) && 0 < u.current <= p
            && (u.current == p ==> u.procs[p].state == Running)
            && Wait(u, p) <= Wait(s, p) - (if e.TickEvent? then 1 else 0)
  {
    hide Tick, Create, Consistent;
    StepKeeps(s, e);
    TableLength(s);
    if e.CreateEvent? {
      CreateKeeps(s, e.name, e.entry, e.isUser);
      CreateSpares(s, e.name, e.entry, e.isUser);
    } else {
      TickKeeps(s);
    }
  }

  lemma TableLength(s: Sched)
    requires Consistent(s)
    ensures |s.procs| == MAX_PROCESSES && s.current < s.nextPid <= MAX_PROCESSES && s.procs[s.current].timeUsed < TIME_SLICE
  {
  }

  // Every ready slot above the current one is running within ten ticks for each slot on the way.
  lemma {:induction false} ServedInTime(s: Sched, es: seq<Event>, p: nat) returns (k: nat)
    requires Consistent(s) && 0 < s.current < p < MAX_PROCESSES && Runnable(s.procs[p])
    requires Ticks(es) >= (p - s.current) * TIME_SLICE
    ensures k <= |es| && Ticks(es[..k]) <= (p - s.current) * TIME_SLICE
    ensures Run(s, es[..k]).current == p && Run(s, es[..k]).procs[p].state == Running
  {
    hide Consistent, Run;
    TableLength(s);
    k := ServedSoon(s, es, p);
  }

  lemma {:induction false} ServedSoon(s: Sched, es: seq<Event>, p: nat) returns (k: nat)
    requires Consistent(s) && 0 < s.current < p < MAX_PROCESSES && Runnable(s.procs[p]) && Ticks(es) >= Wait(s, p)
    ensures k <= |es| && Ticks(es[..k]) <= Wait(s, p)
    ensures Run(s, es[..k]).current == p && Run(s, es[..k]).procs[p].state == Running
    decreases es
  {
    hide Consistent, Step;
    TableLength(s);
    var e := es[0];
    StepWaits(s, e, p);
    var u := Step(s, e);
    var tail := es[1..];
    var j := 0;
    if u.current < p {
      j := ServedSoon(u, tail, p);
    } else {
      assert tail[..0] == [];
    }
    k := j + 1;
    assert es[..k][1..] == tail[..j] && es[..k][0] == e;
  }

  // Service goes upwards: no runnable slot is passed over before the processor falls to slot 0.
  lemma {:induction false} NoneSkipped(s: Sched, es: seq<Event>, q: nat) returns (k: nat)
    requires Consistent(s) && 0 < s.current < q < MAX_PROCESSES && Runnable(s.procs[q])
    requires Run(s, es).current == 0 || Run(s, es).current >= q
    ensures k <= |es| && Run(s, es[..k]).current == q
    decreases es
  {
    hide Consistent, Step;
    var e := es[0];
    StepWaits(s, e, q);
    var u := Step(s, e);
    var j := 0;
    if u.current < q {
      j := NoneSkipped(u, es[1..], q);
    } else {
      assert es[1..][..0] == [];
    }
    k := j + 1;
    assert es[..k][1..] == es[1..][..j] && es[..k][0] == e;
  }

  // The processor never goes back: it stays, moves to a higher slot, or falls to slot 0 for good.
  lemma {:induction false} NeverBack(s: Sched, es: seq<Event>)
    requires Consistent(s)
    ensures Run(s, es).current == 0 || (s.current > 0 && Run(s, es).current >= s.current)
    decreases es
  {
    hide Consistent, Step;
    if es != [] {
      StepKeeps(s, es[0]);
      StepNeverBack(s, es[0]);
      NeverBack(Step(s, es[0]), es[1..]);
    }
  }

  lemma StepNeverBack(s: Sched, e: Event)
    requires Consistent(s)
    ensures Step(s, e).current == 0 || (s.current > 0 && Step(s, e).current >= s.current)
  {
    hide Tick, Create, Consistent;
    TableLength(s);
    if e.CreateEvent? {
      CreateKeeps(s, e.name, e.entry, e.isUser);
    } else {
      TickKeeps(s);
    }
  }

  // In runs of at least 320 ticks a waiting slot other than 0 gets the processor exactly when it lies above the current one.
  lemma ServedExactly(s: Sched, es: seq<Event>, p: nat)
    requires Consistent(s) && 0 < p < MAX_PROCESSES && p != s.current && Runnable(s.procs[p])
    requires Ticks(es) >= MAX_PROCESSES * TIME_SLICE
    ensures (exists k :: 0 <= k <= |es| && Run(s, es[..k]).current == p) <==> 0 < s.current < p
  {
    hide Consistent, Run;
    if 0 < s.current < p {
      var k := ServedInTime(s, es, p);
      assert Run(s, es[..k]).current == p;
    } else {
      forall k | 0 <= k <= |es|
        ensures Run(s, es[..k]).current != p
      {
        NeverBack(s, es[..k]);
      }
    }
  }

  // ------------------------------------------------------------------ one call, slot by slot

  // A tick: slot 0 is left alone; any other slot has used one tick more of its ten, or, with the tenth, is ready again with
  // none used, and the lowest runnable slot above it runs, or slot 0 if there is none. Every other slot is as before.
  ghost predicate Ticked(s: Sched, u: Sched)
    requires |s.procs| == MAX_PROCESSES == |u.procs| && s.current < MAX_PROCESSES
  {
    var c := s.current;
    && u.nextPid == s.nextPid
    && if c == 0 then u == s
       else if s.procs[c].timeUsed < 9 then
         u.current == c && u.procs == s.procs[c := s.procs[c].(timeUsed := s.procs[c].timeUsed + 1)]
       else
         && NextAbove(s.procs, c, u.current)
         && u.procs == s.procs[c := s.procs[c].(state := Ready, timeUsed := 0)][u.current := s.procs[u.current].(state := Running)]
  }

  lemma TickDone(s: Sched)
    requires Consistent(s)
    ensures |Tick(s).procs| == MAX_PROCESSES && Ticked(s, Tick(s))
  {
    hide Search;
    var c := s.current;
    TickKeeps(s);
    if c > 0 && s.procs[c].timeUsed + 1 >= TIME_SLICE {
      var procs := s.procs[c := s.procs[c].(state := Ready, timeUsed := 0)];
      SearchIsNext(procs, c);
      NextAboveSame(procs, s.procs, c, Tick(s).current);
    }
  }

  // A slot above 0 keeps the processor for the rest of its ten ticks.
  lemma {:induction false} SliceKept(s: Sched, es: seq<Event>)
    requires Consistent(s) && s.current > 0 && s.procs[s.current].timeUsed + Ticks(es) < 10
    ensures Run(s, es).current == s.current
    ensures Run(s, es).procs[s.current].timeUsed == s.procs[s.current].timeUsed + Ticks(es)
    decreases es
  {
    hide Consistent, Tick, Create;
    TableLength(s);
    if es != [] {
      StepKeeps(s, es[0]);
      if es[0].TickEvent? {
        TickKeeps(s);
      } else {
        CreateKeeps(s, es[0].name, es[0].entry, es[0].isUser);
        CreateSpares(s, es[0].name, es[0].entry, es[0].isUser);
      }
      SliceKept(Step(s, es[0]), es[1..]);
    }
  }

  // A new process takes the next slot, ready to run, with nothing used and the current slot as its parent.
  ghost predicate Born(s: Sched, u: Sched, name: Bytes, entry: U32, isUser: bool, pid: int)
    requires |s.procs| == MAX_PROCESSES
  {
    if s.nextPid >= 32 then pid == -1 && u == s
    else
      && pid == s.nextPid && u.nextPid == s.nextPid + 1 && u.current == s.current
      && u.procs == s.procs[s.nextPid := Proc(s.nextPid, s.current, Ready, name, entry, 0, if isUser then 1000 else 0, isUser)]
  }

  lemma CreateDone(s: Sched, name: Bytes, entry: U32, isUser: bool)
    requires |s.procs| == MAX_PROCESSES
    ensures Born(s, Create(s, name, entry, isUser), name, entry, isUser, if s.nextPid >= MAX_PROCESSES then -1 else s.nextPid)
  {
  }

  // A process created while a slot above 0 runs gets the processor within ten ticks for each slot on the way.
  lemma CreatedInTime(s: Sched, name: Bytes, entry: U32, isUser: bool, es: seq<Event>) returns (k: nat)
    requires Consistent(s) && 0 < s.current && s.nextPid < 32 && Ticks(es) >= (s.nextPid - s.current) * 10
    ensures Consistent(Create(s, name, entry, isUser))
    ensures var u, p := Create(s, name, entry, isUser), s.nextPid;
            && k <= |es| && Ticks(es[..k]) <= (p - s.current) * 10
            && Run(u, es[..k]).current == p && Run(u, es[..k]).procs[p].state == Running
  {
    hide Run;
    CreateKeeps(s, name, entry, isUser);
    k := ServedInTime(Create(s, name, entry, isUser), es, s.nextPid);
  }
}
