// The process ring and the round-robin scheduler as operations on values: the ring is the sequence of
// processes from the current one on, in the order the `next` links visit them.
module RingModel {
  import opened Arithmetic
  import opened PmmModel

  datatype Registers = Registers(eip: nat, esp: nat, eflags: nat, cs: nat, ds: nat)

  type Address = a: nat | a < WRAP

  datatype Task = Task(pid: nat, registers: Registers, directory: Address, kernelStack: nat)

  // What iret is given, with the address space and kernel stack that are in force.
  datatype Resume =
    Resume(eip: nat, cs: nat, eflags: nat, esp: nat, ss: nat, directory: Address, kernelStack: nat)

  datatype Sched<T> = Sched(ring: seq<T>, tasks: map<T, Task>)

  // Tick: the timer interrupts the current process with these registers. Yield: the current process
  // gives up the processor by a system call, with these registers. Dispatch: a switch that saves nothing,
  // as at the start.
  datatype Event<T> =
    Create(x: T, task: Task) | Tick(registers: Registers) | Yield(registers: Registers) | Dispatch | Exit

  // The 32-bit next_pid++.
  function NextPid(pid: nat): nat {
    if pid == 0xFFFF_FFFF then 0 else pid + 1
  }

  // eflags with bit 9 (IF) set.
  function WithInterrupts(eflags: nat): nat {
    if eflags / 512 % 2 == 1 then eflags else eflags + 512
  }

  // Bit 9 is set and every other bit is as it was.
  lemma InterruptsOn(eflags: nat)
    ensures var e := WithInterrupts(eflags);
      e / 512 % 2 == 1 && e % 512 == eflags % 512 && e / 1024 == eflags / 1024
  {
  }

  function ResumeOf(t: Task): Resume {
    Resume(t.registers.eip, 0x1B, WithInterrupts(t.registers.eflags), t.registers.esp, 0x23, t.directory, t.kernelStack)
  }

  // Every resume goes to privilege level 3.
  lemma ResumesInUserMode(t: Task)
    ensures ResumeOf(t).cs % 4 == 3 && ResumeOf(t).ss % 4 == 3
    ensures ResumeOf(t).cs / 8 == 0x18 / 8 && ResumeOf(t).ss / 8 == 0x20 / 8
  {
  }

  function WithRegisters(t: Task, r: Registers): Task {
    Task(t.pid, r, t.directory, t.kernelStack)
  }

  // --- Rings ---------------------------------------------------------------------------------------

  ghost predicate Distinct<T>(r: seq<T>) {
    forall i, j | 0 <= i < j < |r| :: r[i] != r[j]
  }

  function Rotate<T>(r: seq<T>): seq<T> {
    if r == [] then [] else r[1..] + [r[0]]
  }

  function InsertNext<T>(r: seq<T>, x: T): seq<T> {
    if r == [] then [x] else [r[0], x] + r[1..]
  }

  // The element after place i, cyclically.
  function Behind<T>(r: seq<T>, i: nat): T
    requires i < |r|
  {
    if i + 1 < |r| then r[i + 1] else r[0]
  }

  // How many hand-overs away x is from running.
  function Distance<T(==)>(r: seq<T>, x: T): (d: nat)
    requires x in r
    ensures d < |r| && r[d] == x && x !in r[..d]
  {
    if r[0] == x then 0 else 1 + Distance(r[1..], x)
  }

  function Successor<T(==)>(r: seq<T>, x: T): T
    requires x in r
  {
    Behind(r, Distance(r, x))
  }

  // Leaving by way of the predecessor ends with the successor current.
  lemma RotatedBack<T>(r: seq<T>)
    requires |r| >= 2
    ensures Rotate([r[|r| - 1]] + r[1..|r| - 1]) == r[1..]
  {
  }

  // --- Steps ---------------------------------------------------------------------------------------

  ghost predicate Ok<T>(s: Sched<T>) {
    Distinct(s.ring) && forall x | x in s.ring :: x in s.tasks
  }

  // A created process is a new one; with no process there is nothing to switch to, and the exit of
  // the last one aborts.
  ghost predicate Allowed<T>(s: Sched<T>, e: Event<T>) {
    match e
    case Create(x, _) => x !in s.ring
    case Tick(_) => true
    case Yield(_) => s.ring != []
    case Dispatch => s.ring != []
    case Exit => |s.ring| > 1
  }

  ghost function Next<T>(s: Sched<T>, e: Event<T>): Sched<T>
    requires Ok(s) && Allowed(s, e)
  {
    match e
    case Create(x, t) => Joined(s, x, t)
    case Tick(regs) => Ticked(s, regs)
    case Yield(regs) => Switched(s, Some(regs))
    case Dispatch => Switched(s, None)
    case Exit => Sched(s.ring[1..], s.tasks - {s.ring[0]})
  }

  // The process a switch goes to.
  function NextTask<T>(s: Sched<T>): Task
    requires |s.ring| >= 2 && s.ring[1] in s.tasks
  {
    s.tasks[s.ring[1]]
  }

  // What a tick resumes instead of the interrupted process, if anything.
  function TickResume<T>(s: Sched<T>): Option<Resume>
    requires |s.ring| >= 2 ==> s.ring[1] in s.tasks
  {
    if |s.ring| < 2 then None else Some(ResumeOf(NextTask(s)))
  }

  // The timer leaves a process alone that has no other beside it.
  function Ticked<T>(s: Sched<T>, regs: Registers): Sched<T>
    requires s.ring != [] ==> s.ring[0] in s.tasks
  {
    if |s.ring| < 2 then s else Switched(s, Some(regs))
  }

  function Joined<T>(s: Sched<T>, x: T, t: Task): Sched<T> {
    Sched(InsertNext(s.ring, x), s.tasks[x := t])
  }

  // Saves the current process's registers if given, and hands over to the next.
  function Switched<T>(s: Sched<T>, regs: Option<Registers>): Sched<T>
    requires s.ring != [] && s.ring[0] in s.tasks
  {
    match regs
    case Some(r) => Sched(Rotate(s.ring), s.tasks[s.ring[0] := WithRegisters(s.tasks[s.ring[0]], r)])
    case None => Sched(Rotate(s.ring), s.tasks)
  }

  lemma StepOk<T>(s: Sched<T>, e: Event<T>)
    requires Ok(s) && Allowed(s, e)
    ensures Ok(Next(s, e))
  {
  }

  ghost predicate AllAllowed<T>(s: Sched<T>, es: seq<Event<T>>)
    requires Ok(s)
    decreases |es|
  {
    if es == [] then true
    else Allowed(s, es[0]) && (StepOk(s, es[0]); AllAllowed(Next(s, es[0]), es[1..]))
  }

  ghost function After<T>(s: Sched<T>, es: seq<Event<T>>): (t: Sched<T>)
    requires Ok(s) && AllAllowed(s, es)
    ensures Ok(t)
    decreases |es|
  {
    if es == [] then s else (StepOk(s, es[0]); After(Next(s, es[0]), es[1..]))
  }

  // --- Order -----------------------------------------------------------------------------------------

  // Every step relinks only where it must: a switch nobody, an insertion the current process and the
  // new one, an exit the predecessor of the one that left.
  lemma OrderKept<T>(s: Sched<T>, e: Event<T>, y: T)
    requires Ok(s) && Allowed(s, e) && y in s.ring && (e.Exit? ==> y != s.ring[0])
    ensures var r, r' := s.ring, Next(s, e).ring;
      && y in r'
      && Successor(r', y) ==
           match e {
             case Create(x, _) => if y == r[0] then x else Successor(r, y)
             case Tick(_) => Successor(r, y)
             case Yield(_) => Successor(r, y)
             case Dispatch => Successor(r, y)
             case Exit => if Successor(r, y) == r[0] then Successor(r, r[0]) else Successor(r, y)
           }
    ensures e.Create? ==>
      e.x in Next(s, e).ring && Successor(Next(s, e).ring, e.x) == Successor(s.ring, s.ring[0])
  {
  }

  lemma DistanceIs<T>(r: seq<T>, x: T, d: nat)
    requires Distinct(r) && d < |r| && r[d] == x
    ensures x in r && Distance(r, x) == d
  {
  }

  // --- Fairness --------------------------------------------------------------------------------------

  // x is in the ring and not current, before each of these events.
  ghost predicate Waits<T>(s: Sched<T>, es: seq<Event<T>>, x: T)
    requires Ok(s) && AllAllowed(s, es)
    decreases |es|
  {
    if es == [] then x in s.ring
    else x in s.ring && s.ring[0] != x && (StepOk(s, es[0]); Waits(Next(s, es[0]), es[1..], x))
  }

  function Creations<T>(es: seq<Event<T>>): nat {
    if es == [] then 0 else (if es[0].Create? then 1 else 0) + Creations(es[1..])
  }

  // Ticks, switches and exits: each hands the processor on while somebody waits.
  function HandOvers<T>(es: seq<Event<T>>): nat {
    if es == [] then 0 else (if es[0].Create? then 0 else 1) + HandOvers(es[1..])
  }

  // One step moves a waiting process exactly one place: forward on a hand-over, back on an insertion.
  lemma DistanceStep<T>(s: Sched<T>, e: Event<T>, x: T)
    requires Ok(s) && Allowed(s, e) && x in s.ring && s.ring[0] != x
    ensures x in Next(s, e).ring
    ensures Distance(Next(s, e).ring, x) == Distance(s.ring, x) + if e.Create? then 1 else -1
  {
    var d := Distance(s.ring, x);
    var d' := if e.Create? then d + 1 else d - 1;
    StepOk(s, e);
    assert Next(s, e).ring[d'] == x;
    DistanceIs(Next(s, e).ring, x, d');
  }

  lemma {:induction false} WaitingDistance<T>(s: Sched<T>, es: seq<Event<T>>, x: T)
    requires Ok(s) && AllAllowed(s, es) && Waits(s, es, x)
    ensures x in After(s, es).ring
    ensures Distance(After(s, es).ring, x) == Distance(s.ring, x) + Creations(es) - HandOvers(es)
    decreases |es|
  {
    if es != [] {
      DistanceStep(s, es[0], x);
      StepOk(s, es[0]);
      WaitingDistance(Next(s, es[0]), es[1..], x);
    }
  }

  // A process runs within its distance plus the insertions made meanwhile: in any run with that many
  // hand-overs, there is a point up to which it waits and at which it is current.
  lemma {:induction false} RunsWithin<T>(s: Sched<T>, es: seq<Event<T>>, x: T) returns (k: nat)
    requires Ok(s) && AllAllowed(s, es) && x in s.ring
    requires HandOvers(es) >= Distance(s.ring, x) + Creations(es)
    ensures k <= |es| && AllAllowed(s, es[..k]) && Waits(s, es[..k], x)
    ensures After(s, es[..k]).ring != [] && After(s, es[..k]).ring[0] == x
    ensures HandOvers(es[..k]) == Distance(s.ring, x) + Creations(es[..k])
    decreases |es|
  {
    if s.ring[0] == x {
      k := 0;
    } else {
      DistanceStep(s, es[0], x);
      StepOk(s, es[0]);
      var j := RunsWithin(Next(s, es[0]), es[1..], x);
      k := j + 1;
      assert es[..k][1..] == es[1..][..j] && es[..k][0] == es[0];
      WaitingDistance(s, es[..k], x);
    }
  }

  function Ticks<T>(regs: seq<Registers>): seq<Event<T>> {
    seq(|regs|, i requires 0 <= i < |regs| => Tick(regs[i]))
  }

  lemma {:induction false} TicksAllowed<T>(s: Sched<T>, regs: seq<Registers>)
    requires Ok(s)
    ensures AllAllowed(s, Ticks(regs))
    decreases |regs|
  {
    if regs != [] {
      StepOk(s, Tick(regs[0]));
      assert Ticks<T>(regs)[1..] == Ticks(regs[1..]);
      TicksAllowed(Next(s, Tick(regs[0])), regs[1..]);
    }
  }

  function Turned<T>(r: seq<T>, k: nat): seq<T>
    decreases k
  {
    if k == 0 then r else Turned(Rotate(r), k - 1)
  }

  lemma {:induction false} TicksTurn<T>(s: Sched<T>, regs: seq<Registers>)
    requires Ok(s) && AllAllowed(s, Ticks(regs)) && |s.ring| >= 2
    ensures After(s, Ticks(regs)).ring == Turned(s.ring, |regs|)
    decreases |regs|
  {
    if regs != [] {
      StepOk(s, Tick(regs[0]));
      assert Ticks<T>(regs)[1..] == Ticks(regs[1..]);
      TicksTurn(Next(s, Tick(regs[0])), regs[1..]);
    }
  }

  lemma {:induction false} TurnedAt<T>(r: seq<T>, k: nat, i: nat)
    requires i < |r|
    ensures |Turned(r, k)| == |r| && Turned(r, k)[i] == r[(i + k) % |r|]
    decreases k
  {
    if k > 0 {
      TurnedAt(Rotate(r), k - 1, i);
      NextPlace(i + (k - 1), |r|);
      var j := (i + (k - 1)) % |r|;
      assert Rotate(r)[j] == r[if j + 1 < |r| then j + 1 else 0];
    }
  }

  // Who is current after these ticks.
  ghost function CurrentAfter<T>(s: Sched<T>, regs: seq<Registers>): (x: T)
    requires Ok(s) && |s.ring| >= 2
    ensures x == s.ring[|regs| % |s.ring|]
  {
    TicksAllowed(s, regs);
    TicksTurn(s, regs);
    TurnedAt(s.ring, |regs|, 0);
    After(s, Ticks(regs)).ring[0]
  }

  // With a fixed ring of at least two, among any n consecutive ticks each process gets the processor
  // after exactly one of them.
  lemma EachOncePerRound<T>(s: Sched<T>, regs: seq<Registers>, start: nat, i: nat) returns (k: nat)
    requires Ok(s) && |s.ring| >= 2 && i < |s.ring| && start + |s.ring| <= |regs|
    ensures start < k <= start + |s.ring|
    ensures forall j | start < j <= start + |s.ring| ::
      (CurrentAfter(s, regs[..j]) == s.ring[i] <==> j == k)
  {
    var n := |s.ring|;
    k := OncePerRound(start, n, i);
    forall j | start < j <= start + n ensures CurrentAfter(s, regs[..j]) == s.ring[i] <==> j == k {
      assert j % n == i <==> j == k;
      var r := j % n;
      assert r < i ==> s.ring[r] != s.ring[i];
      assert i < r ==> s.ring[i] != s.ring[r];
    }
  }

  lemma OncePerRound(start: nat, n: nat, i: nat) returns (k: nat)
    requires i < n
    ensures start < k <= start + n
    ensures forall j: nat | start < j <= start + n :: (j % n == i <==> j == k)
  {
    k := if i > start % n then start + i - start % n else start + n + i - start % n;
    forall j: nat | start < j <= start + n ensures j % n == i <==> j == k {
      Round(start, n, j);
    }
  }

  lemma Round(start: nat, n: nat, j: nat)
    requires n >= 1 && start < j <= start + n
    ensures var p := start % n + (j - start); j % n == if p < n then p else p - n
  {
    var q, p := start / n, start % n + (j - start);
    assert j == q * n + p;
    if p < n {
      Remainder(q, p, n);
    } else if p < 2 * n {
      assert j == (q + 1) * n + (p - n);
      Remainder(q + 1, p - n, n);
    }
  }

  lemma NextPlace(m: nat, n: nat)
    requires n >= 1
    ensures (m + 1) % n == if m % n + 1 < n then m % n + 1 else 0
  {
    Round(m, n, m + 1);
  }

  // The place reached by going round k places.
  function Place(k: nat, n: nat): (i: nat)
    requires n >= 1
    ensures i < n
    decreases k
  {
    if k == 0 then 0
    else if Place(k - 1, n) + 1 < n then Place(k - 1, n) + 1
    else 0
  }

  lemma OnlyAt<T>(r: seq<T>, k: nat, j: nat)
    requires Distinct(r) && k < |r| && j < |r|
    ensures r[j % |r|] == r[k] <==> j == k
  {
    assert j % |r| == j;
  }

  lemma {:induction false} PlaceIsRemainder(k: nat, n: nat)
    requires n >= 1
    ensures Place(k, n) == k % n
    decreases k
  {
    if k > 0 {
      PlaceIsRemainder(k - 1, n);
      NextPlace(k - 1, n);
    }
  }

  // --- Saved contexts ----------------------------------------------------------------------------------

  // The event neither saves the current process's registers nor removes it.
  predicate KeepsCurrent<T>(s: Sched<T>, e: Event<T>) {
    match e
    case Create(_, _) => true
    case Tick(_) => |s.ring| < 2
    case Yield(_) => false
    case Dispatch => true
    case Exit => false
  }

  // No event of the run saves x's registers or removes x: each of them comes while x waits, or keeps the
  // current process.
  ghost predicate Unsaved<T>(s: Sched<T>, es: seq<Event<T>>, x: T)
    requires Ok(s) && AllAllowed(s, es)
    decreases |es|
  {
    es != [] ==>
      && (s.ring != [] && s.ring[0] == x ==> KeepsCurrent(s, es[0]))
      && (StepOk(s, es[0]); Unsaved(Next(s, es[0]), es[1..], x))
  }

  // Waiting all along is one way.
  lemma {:induction false} WaitingUnsaved<T>(s: Sched<T>, es: seq<Event<T>>, x: T)
    requires Ok(s) && AllAllowed(s, es) && Waits(s, es, x)
    ensures Unsaved(s, es, x)
    decreases |es|
  {
    if es != [] {
      StepOk(s, es[0]);
      WaitingUnsaved(Next(s, es[0]), es[1..], x);
    }
  }

  // However many other processes run, are created or exit, a process keeps its place in the ring and its
  // saved context until an event saves or removes it.
  lemma {:induction false} ContextKept<T>(s: Sched<T>, es: seq<Event<T>>, x: T)
    requires Ok(s) && AllAllowed(s, es) && x in s.ring && Unsaved(s, es, x)
    ensures x in After(s, es).ring
    ensures x in After(s, es).tasks && After(s, es).tasks[x] == s.tasks[x]
    decreases |es|
  {
    if es != [] {
      StepOk(s, es[0]);
      StaysUnsaved(s, es[0], x);
      ContextKept(Next(s, es[0]), es[1..], x);
    }
  }

  lemma StaysUnsaved<T>(s: Sched<T>, e: Event<T>, x: T)
    requires Ok(s) && Allowed(s, e) && x in s.ring && (s.ring[0] == x ==> KeepsCurrent(s, e))
    ensures x in Next(s, e).ring && x in Next(s, e).tasks && Next(s, e).tasks[x] == s.tasks[x]
  {
    var d := Distance(s.ring, x);
    var r := Next(s, e).ring;
    match e
    case Create(_, _) => assert r[if d == 0 then 0 else d + 1] == x;
    case Exit => assert r[d - 1] == x;
    case _ => if r != s.ring {
      assert r[if d == 0 then |r| - 1 else d - 1] == x;
    }
  }

  // A process that the timer interrupted or that yielded resumes, until it is saved again, where it left
  // off: its eip and esp, its eflags with interrupts on, its own address space and kernel stack.
  lemma ResumesWhereInterrupted<T>(s: Sched<T>, e: Event<T>, es: seq<Event<T>>, x: T)
    requires Ok(s) && s.ring != [] && s.ring[0] == x
    requires e.Yield? || (e.Tick? && |s.ring| >= 2)
    requires (StepOk(s, e); AllAllowed(Next(s, e), es) && Unsaved(Next(s, e), es, x))
    ensures (StepOk(s, e); var t := After(Next(s, e), es);
      && x in t.tasks
      && ResumeOf(t.tasks[x]) == Resume(e.registers.eip, 0x1B, WithInterrupts(e.registers.eflags), e.registers.esp,
           0x23, s.tasks[x].directory, s.tasks[x].kernelStack))
  {
    StepOk(s, e);
    assert Next(s, e).ring[|s.ring| - 1] == x;
    ContextKept(Next(s, e), es, x);
  }

  // A process that has not run yet starts as it was created, also the first one, which is current at once.
  lemma StartsAsCreated<T>(s: Sched<T>, x: T, task: Task, es: seq<Event<T>>)
    requires Ok(s) && x !in s.ring
    requires (StepOk(s, Create(x, task)); var u := Next(s, Create(x, task)); AllAllowed(u, es) && Unsaved(u, es, x))
    ensures (StepOk(s, Create(x, task)); var t := After(Next(s, Create(x, task)), es);
      x in t.tasks && ResumeOf(t.tasks[x]) == ResumeOf(task))
  {
    StepOk(s, Create(x, task));
    assert x in InsertNext(s.ring, x);
    ContextKept(Next(s, Create(x, task)), es, x);
  }

  // From s by these allowed events, which leave x unsaved, to t.
  ghost predicate LeadsTo<T>(s: Sched<T>, es: seq<Event<T>>, x: T, t: Sched<T>) {
    Ok(s) && AllAllowed(s, es) && Unsaved(s, es, x) && After(s, es) == t
  }

  lemma Ahead<T>(s: Sched<T>, e: Event<T>, es: seq<Event<T>>, x: T, t: Sched<T>)
    requires Ok(s) && Allowed(s, e) && LeadsTo(Next(s, e), es, x, t)
    requires s.ring != [] && s.ring[0] == x ==> KeepsCurrent(s, e)
    ensures LeadsTo(s, [e] + es, x, t)
  {
    assert ([e] + es)[1..] == es;
  }

  lemma LastTwoTicks<T>(s: Sched<T>, x: T, y: T, z: T, regs: seq<Registers>) returns (t: Sched<T>)
    requires x != y && y != z && x != z && |regs| == 2 && Ok(s) && s.ring == [z, y, x]
    ensures LeadsTo(s, [Tick(regs[0])] + [Tick(regs[1])], x, t) && t.ring == [x, z, y]
  {
    var u := Ticked(s, regs[0]);
    t := Ticked(u, regs[1]);
    assert u.ring == [y, x, z];
    Ahead(u, Tick(regs[1]), [], x, t);
    Ahead(s, Tick(regs[0]), [Tick(regs[1])], x, t);
  }

  // The start-up: three creations, a switch that saves nothing, and two ticks. The first process, current
  // until the switch, is unsaved all the while, and when the second tick makes it current again it starts
  // as it was created.
  lemma FirstOfThree<T>(x: T, y: T, z: T, tasks: seq<Task>, regs: seq<Registers>) returns (t: Sched<T>)
    requires x != y && y != z && x != z && |tasks| == 3 && |regs| == 2
    ensures var ticks := [Tick(regs[0])] + [Tick(regs[1])];
      var es := [Create(y, tasks[1])] + ([Create(z, tasks[2])] + ([Dispatch] + ticks));
      LeadsTo(Joined(Sched([], map[]), x, tasks[0]), es, x, t)
    ensures t.ring == [x, z, y] && x in t.tasks && t.tasks[x] == tasks[0]
  {
    var u1 := Joined(Sched([], map[]), x, tasks[0]);
    var u2 := Joined(u1, y, tasks[1]);
    var u3 := Joined(u2, z, tasks[2]);
    assert u2.ring == [x, y] && u3.ring == [x, z, y];
    var last := [Tick(regs[0])] + [Tick(regs[1])];
    t := LastTwoTicks(Switched(u3, None), x, y, z, regs);
    Ahead(u3, Dispatch, last, x, t);
    Ahead(u2, Create(z, tasks[2]), [Dispatch] + last, x, t);
    Ahead(u1, Create(y, tasks[1]), [Create(z, tasks[2])] + ([Dispatch] + last), x, t);
    ContextKept(u1, [Create(y, tasks[1])] + ([Create(z, tasks[2])] + ([Dispatch] + last)), x);
  }
}
