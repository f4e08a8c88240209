/** The migration protocol: ArenaSyncScope of src/kernel/kernel_launcher.cpp around the two
    memories of src/memory/arena.cpp. A run of a program on the staged machine is compared
    with the run of the same program on one memory. */
module Migration {
  import opened Bits
  import opened Arena

  /** A dispatched kernel: a function from the bytes it reads to the bytes it writes. */
  datatype Kernel = Kernel(sources: set<int>, targets: set<int>, run: map<int, Byte> -> map<int, Byte>)

  function View(k: Kernel, mem: seq<Byte>): map<int, Byte> {
    map x | x in k.sources && 0 <= x < |mem| :: mem[x]
  }

  /** Memory after the kernel: the bytes of its output inside its write set change. */
  function Effect(k: Kernel, mem: seq<Byte>): (m: seq<Byte>)
    ensures |m| == |mem|
  {
    var out := k.run(View(k, mem));
    seq(|mem|, x requires 0 <= x < |mem| => if x in k.targets && x in out then out[x] else mem[x])
  }

  /** The bytes the kernel writes when it starts in `mem`. */
  function Touched(k: Kernel, mem: seq<Byte>): set<int> {
    k.targets * k.run(View(k, mem)).Keys
  }

  /** What happens to memory, in order: host stores, kernels, host loads. */
  datatype Event = Store(at: int, value: Byte) | Ran(kernel: Kernel) | Load(at: int)

  // ---- the one-memory machine ------------------------------------------------------

  function OneStep(mem: seq<Byte>, e: Event): (m: seq<Byte>)
    ensures |m| == |mem|
  {
    match e
    case Store(x, v) => if 0 <= x < |mem| then mem[x := v] else mem
    case Ran(k) => Effect(k, mem)
    case Load(x) => mem
  }

  /** The single memory after a trace of events. */
  function OneMemory(trace: seq<Event>, mem: seq<Byte>): (m: seq<Byte>)
    ensures |m| == |mem|
  {
    if trace == [] then mem else OneStep(OneMemory(trace[..|trace| - 1], mem), trace[|trace| - 1])
  }

  /** The values its host loads return. */
  function OneLog(trace: seq<Event>, mem: seq<Byte>): seq<Byte> {
    if trace == [] then []
    else
      var init := trace[..|trace| - 1];
      match trace[|trace| - 1]
      case Load(x) => OneLog(init, mem) + if 0 <= x < |mem| then [OneMemory(init, mem)[x]] else []
      case _ => OneLog(init, mem)
  }

  /** The bytes it has written. */
  function OneWritten(trace: seq<Event>, mem: seq<Byte>): set<int> {
    if trace == [] then {}
    else
      var init := trace[..|trace| - 1];
      OneWritten(init, mem) + WrittenBy(trace[|trace| - 1], OneMemory(init, mem))
  }

  function WrittenBy(e: Event, mem: seq<Byte>): set<int> {
    match e
    case Store(x, _) => {x}
    case Ran(k) => Touched(k, mem)
    case Load(_) => {}
  }

  lemma Extend(trace: seq<Event>, mem: seq<Byte>, e: Event)
    ensures OneWritten(trace + [e], mem) == OneWritten(trace, mem) + WrittenBy(e, OneMemory(trace, mem))
    ensures OneMemory(trace + [e], mem) == OneStep(OneMemory(trace, mem), e)
    ensures OneLog(trace + [e], mem) == OneLog(trace, mem) +
              if e.Load? && 0 <= e.at < |mem| then [OneMemory(trace, mem)[e.at]] else []
  {
    assert (trace + [e])[..|trace|] == trace;
  }

  // ---- agreement -------------------------------------------------------------------

  /** The two memories hold the same value in every byte written so far. */
  ghost predicate Agree(mem: seq<Byte>, one: seq<Byte>, written: set<int>) {
    |mem| == |one| && forall x {:trigger x in written} :: x in written ==> 0 <= x < |mem| && mem[x] == one[x]
  }

  /** A kernel that reads only written bytes keeps agreement and extends it to what it writes. */
  lemma EffectAgrees(k: Kernel, mem: seq<Byte>, one: seq<Byte>, written: set<int>)
    requires Agree(mem, one, written) && k.sources <= written
    requires forall x :: x in k.targets ==> 0 <= x < |mem|
    ensures Touched(k, mem) == Touched(k, one)
    ensures Agree(Effect(k, mem), Effect(k, one), written + Touched(k, mem))
  {
    assert View(k, mem) == View(k, one);
  }

  /** Copying the first `high` bytes carries agreement over when every written byte is below. */
  lemma CopyAgrees(src: seq<Byte>, dst: seq<Byte>, one: seq<Byte>, written: set<int>, high: int)
    requires Agree(src, one, written) && |dst| == |src| && 0 <= high <= |src|
    requires forall x :: x in written ==> x < high
    ensures Agree(src[..high] + dst[high..], one, written)
  {
  }

  /** The bytes [x, x + n). */
  function Range(x: int, n: nat): (s: set<int>)
    ensures forall y :: y in s <==> x <= y < x + n
  {
    if n == 0 then {} else Range(x, n - 1) + {x + n - 1}
  }

  // ---- programs --------------------------------------------------------------------

  /** A step of a program: host stores and loads, scratch and caller allocations, and
      operations, nested to any depth, with their dispatches and migrations. */
  datatype Step =
    | Write(x: int, v: Byte)
    | Read(x: int)
    | Allocate(size: nat, exponent: nat)
    | Release(p: int)
    | Launch(k: Kernel)
    | Migrate
    | Scope(body: seq<Step>)

  /** What a program does to memory, in the order of its text. */
  function Events(steps: seq<Step>): seq<Event> {
    if steps == [] then [] else Events(steps[..|steps| - 1]) + EventsOf(steps[|steps| - 1])
  }

  function EventsOf(step: Step): seq<Event> {
    match step
    case Write(x, v) => [Store(x, v)]
    case Read(x) => [Load(x)]
    case Launch(k) => [Ran(k)]
    case Scope(body) => Events(body)
    case _ => []
  }

  /** The constants of a machine. */
  datatype Config = Config(base: int, capacity: int, uma: bool, start: seq<Byte>)

  /** What decides whether a step is allowed: the nesting depth, whether no kernel has run
      since the last migration to the host, the events so far and the allocations. */
  datatype State = State(depth: int, synced: bool, trace: seq<Event>, space: Space)

  predicate LiveIn(live: map<int, Block>, x: int) {
    exists p :: p in live && In(live[p], x)
  }

  /** The host writes live bytes between operations and reads written bytes through a current
      mapping; kernels run inside an operation, read written bytes and write live ones. */
  predicate Allowed(c: Config, s: State, step: Step) {
    match step
    case Write(x, _) => s.depth == 0 && LiveIn(s.space.live, x)
    case Read(x) => x in OneWritten(s.trace, c.start) && (c.uma || s.synced)
    case Allocate(size, e) => size + 2 * Max(Pow2(e), DEFAULT_ALIGNMENT) + c.capacity < WORD
    case Release(_) => true
    case Launch(k) =>
      s.depth > 0 && k.sources <= OneWritten(s.trace, c.start) && forall x :: x in k.targets ==> LiveIn(s.space.live, x)
    case Migrate => s.depth > 0
    case Scope(_) => true
  }

  /** The state after a step other than a scope. */
  function After(c: Config, s: State, step: Step): State
    requires c.capacity >= 0 && Allowed(c, s, step)
  {
    match step
    case Write(x, v) => s.(trace := s.trace + [Store(x, v)])
    case Read(x) => s.(trace := s.trace + [Load(x)])
    case Allocate(size, e) => s.(space := Allocated(c.base, c.capacity, s.space, size, Pow2(e)).1)
    case Release(p) => s.(space := Released(s.space, p))
    case Launch(k) => s.(trace := s.trace + [Ran(k)], synced := false)
    case Migrate => s.(synced := true)
    case Scope(_) => s
  }

  function Entered(s: State): State {
    s.(depth := s.depth + 1)
  }

  function Left(s: State): State {
    s.(depth := s.depth - 1, synced := s.synced || s.depth == 1)
  }

  /** The run of a step, and whether everything in it was allowed; what is not is skipped. */
  function Exec(c: Config, s: State, step: Step): (State, bool)
    requires c.capacity >= 0
    decreases step, 0
  {
    match step
    case Scope(body) =>
      var (t, ok) := ExecAll(c, Entered(s), body);
      (Left(t), ok)
    case _ =>
      if Allowed(c, s, step) then (After(c, s, step), true) else (s, false)
  }

  function ExecAll(c: Config, s: State, steps: seq<Step>): (State, bool)
    requires c.capacity >= 0
    decreases steps
  {
    if steps == [] then (s, true)
    else
      var (t, ok) := ExecAll(c, s, steps[..|steps| - 1]);
      var (u, last) := Exec(c, t, steps[|steps| - 1]);
      (u, ok && last)
  }

  /** The program may run from s: each of its steps is allowed where it stands. */
  predicate Legal(c: Config, s: State, steps: seq<Step>)
    requires c.capacity >= 0
  {
    ExecAll(c, s, steps).1
  }

  lemma ExecExtend(c: Config, s: State, steps: seq<Step>, i: nat)
    requires c.capacity >= 0 && i < |steps|
    ensures var (t, ok) := ExecAll(c, s, steps[..i]); var (u, last) := Exec(c, t, steps[i]);
      ExecAll(c, s, steps[..i + 1]) == (u, ok && last)
  {
    assert steps[..i + 1][..i] == steps[..i];
  }

  /** A legal program does exactly the events of its text, at the depth where it began. */
  lemma {:induction false} LegalEvents(c: Config, s: State, steps: seq<Step>)
    requires c.capacity >= 0
    ensures ExecAll(c, s, steps).0.depth == s.depth
    ensures Legal(c, s, steps) ==> ExecAll(c, s, steps).0.trace == s.trace + Events(steps)
    decreases steps
  {
    if steps != [] {
      var init := steps[..|steps| - 1];
      LegalEvents(c, s, init);
      var t := ExecAll(c, s, init).0;
      match steps[|steps| - 1]
      case Scope(body) => LegalEvents(c, Entered(t), body);
      case _ =>
    }
  }

  /** What the staged machine allows, the one-memory machine allows with the same effect. */
  lemma {:induction false} LegalOnOneMemory(c: Config, s: State, steps: seq<Step>)
    requires c.capacity >= 0 && Legal(c, s, steps)
    ensures ExecAll(c.(uma := true), s, steps) == ExecAll(c, s, steps)
    decreases steps
  {
    if steps != [] {
      var init := steps[..|steps| - 1];
      LegalOnOneMemory(c, s, init);
      var t := ExecAll(c, s, init).0;
      match steps[|steps| - 1]
      case Scope(body) =>
        assert Exec(c, t, Scope(body)).1;
        LegalOnOneMemory(c, Entered(t), body);
      case _ =>
    }
  }

  // ---- the machine -----------------------------------------------------------------

  class Machine {
    const arena: UnifiedArena
    /** g_arena_sync_depth */
    var depth: int
    /** Bytes written so far by the host or by a kernel. */
    var written: set<int>
    /** No kernel has run since the last migration to the host. */
    var synced: bool
    /** Values returned by host loads. */
    var log: seq<Byte>

    ghost var trace: seq<Event>
    ghost const start: seq<Byte>

    ghost function Setup(): Config {
      Config(arena.base, arena.capacity, arena.uma, start)
    }

    /** The machine as the state of a program. */
    ghost function Now(): State
      reads this, arena
    {
      State(depth, synced, trace, arena.Contents())
    }

    ghost function One(): (m: seq<Byte>)
      reads this
      ensures |m| == |start|
    {
      OneMemory(trace, start)
    }

    /** The host mapping may be read. */
    predicate HostCurrent()
      reads this
    {
      arena.uma || synced
    }

    ghost predicate Valid()
      reads this, arena, arena.host, arena.device
    {
      && arena.Valid() && |start| == arena.capacity && depth >= 0
      && (depth == 0 ==> synced)
      && (forall x {:trigger x in written} :: x in written ==> 0 <= x < arena.high)
      && (HostCurrent() ==> Agree(arena.host[..], One(), written))
      && (depth > 0 || arena.uma ==> Agree(arena.device[..], One(), written))
      && log == OneLog(trace, start) && written == OneWritten(trace, start)
    }

    constructor (arena: UnifiedArena)
      requires arena.Valid()
      ensures Valid() && this.arena == arena && Now() == State(0, true, [], arena.Contents())
      ensures written == {} && log == []
      ensures start == arena.host[..]
    {
      this.arena := arena;
      depth, written, synced, log, trace := 0, {}, true, [], [];
      start := arena.host[..];
    }

    /** x is a byte of a live allocation. */
    predicate LiveByte(x: int)
      reads this, arena
    {
      LiveIn(arena.live, x)
    }

    predicate AllLive(xs: set<int>)
      reads this, arena
    {
      forall x :: x in xs ==> LiveByte(x)
    }

    lemma LiveByteBelowHigh(x: int)
      requires arena.Valid() && LiveByte(x)
      ensures 0 <= x < arena.high <= arena.capacity
    {
      var p :| p in arena.live && In(arena.live[p], x);
      arena.LiveBlocksCovered(p, p, x);
    }

    // ---- steps ---------------------------------------------------------------------

    /** A host store between operations. */
    method HostStore(x: int, v: Byte)
      requires Valid() && depth == 0 && LiveByte(x)
      modifies this`written, this`trace, arena.host
      ensures Valid() && written == old(written) + {x} && trace == old(trace) + [Store(x, v)]
      ensures 0 <= x < arena.host.Length && arena.host[x] == v
      ensures forall y :: 0 <= y < arena.host.Length && y != x ==> arena.host[y] == old(arena.host[y])
    {
      LiveByteBelowHigh(x);
      Extend(trace, start, Store(x, v));
      arena.host[x] := v;
      written := written + {x};
      trace := trace + [Store(x, v)];
    }

    /** A host load of a byte, possible when the host mapping is current. */
    method HostLoad(x: int) returns (v: Byte)
      requires Valid() && x in written && HostCurrent()
      modifies this`log, this`trace
      ensures Valid() && v == old(One())[x] && log == old(log) + [v] && trace == old(trace) + [Load(x)]
      ensures v == arena.host[x]
    {
      Extend(trace, start, Load(x));
      v := arena.host[x];
      log := log + [v];
      trace := trace + [Load(x)];
    }

    /** ArenaSyncScope's constructor: only the outermost scope migrates. */
    method Enter()
      requires Valid()
      modifies this`depth, arena.device
      ensures Valid() && depth == old(depth) + 1 > 0
      ensures arena.device[..] == if old(depth) == 0 && !arena.uma
                                  then arena.host[..arena.high] + old(arena.device[..])[arena.high..]
                                  else old(arena.device[..])
    {
      if depth == 0 {
        FlushAgrees();
        arena.FlushToDevice();
      }
      depth := depth + 1;
    }

    lemma FlushAgrees()
      requires Valid() && depth == 0
      ensures Agree(arena.host[..arena.high] + arena.device[arena.high..], One(), written)
    {
      arena.BumpAligned();
      CopyAgrees(arena.host[..], arena.device[..], One(), written, arena.high);
      assert arena.host[..][..arena.high] == arena.host[..arena.high];
      assert arena.device[..][arena.high..] == arena.device[arena.high..];
    }

    /** ArenaSyncScope's destructor. */
    method Exit()
      requires Valid() && depth > 0
      modifies this`depth, this`synced, arena.host
      ensures Valid() && depth == old(depth) - 1 && synced == (old(synced) || old(depth) == 1)
      ensures arena.host[..] == if old(depth) == 1 && !arena.uma
                                then arena.device[..arena.high] + old(arena.host[..])[arena.high..]
                                else old(arena.host[..])
    {
      if depth == 1 {
        Sync();
      }
      depth := depth - 1;
    }

    /** A whole-range migration to the host in the middle of an operation. */
    method Sync()
      requires Valid() && depth > 0
      modifies this`synced, arena.host
      ensures Valid() && synced
      ensures arena.host[..] == if arena.uma then old(arena.host[..])
                                else arena.device[..arena.high] + old(arena.host[..])[arena.high..]
    {
      arena.BumpAligned();
      CopyAgrees(arena.device[..], arena.host[..], One(), written, arena.high);
      assert arena.device[..][..arena.high] == arena.device[..arena.high];
      assert arena.host[..][arena.high..] == arena.host[arena.high..];
      arena.InvalidateFromDevice();
      synced := true;
    }

    /** A completed dispatch: it reads written bytes and writes bytes of live allocations. */
    method Dispatch(k: Kernel)
      requires Valid() && depth > 0 && k.sources <= written && AllLive(k.targets)
      modifies this`written, this`synced, this`trace, arena.device
      ensures Valid() && !synced && trace == old(trace) + [Ran(k)]
      ensures written == old(written) + Touched(k, old(One()))
      ensures !arena.uma ==> arena.host[..] == old(arena.host[..])
      ensures arena.device[..] == Effect(k, old(arena.device[..]))
    {
      forall x | x in k.targets ensures 0 <= x < arena.high <= arena.capacity { LiveByteBelowHigh(x); }
      EffectAgrees(k, arena.device[..], One(), written);
      Extend(trace, start, Ran(k));
      var view := View(k, arena.device[..]);
      var out := k.run(view);
      RunOnDevice(k, out);
      written := written + k.targets * out.Keys;
      synced := false;
      trace := trace + [Ran(k)];
    }

    method RunOnDevice(k: Kernel, out: map<int, Byte>)
      requires arena.Shape() && out == k.run(View(k, arena.device[..]))
      modifies arena.device
      ensures arena.device[..] == Effect(k, old(arena.device[..]))
    {
      ghost var before := arena.device[..];
      for i := 0 to arena.capacity
        invariant forall x :: 0 <= x < arena.capacity ==>
                    arena.device[x] == if x < i && x in k.targets && x in out then out[x] else before[x]
      {
        if i in k.targets && i in out {
          arena.device[i] := out[i];
        }
      }
    }

    method Alloc(size: int, align: int) returns (p: int)
      requires Valid() && Request(size, align, arena.capacity)
      modifies arena
      ensures Valid()
      ensures (p, arena.Contents()) == Allocated(arena.base, arena.capacity, old(arena.Contents()), size, align)
      ensures p == 0 ==> arena.live == old(arena.live)
      ensures p != 0 ==>
        && p !in old(arena.live) && p in arena.live && arena.live == old(arena.live)[p := arena.live[p]]
        && arena.live[p].offset == p - arena.base && size <= arena.live[p].size
    {
      hide AllocInv, ReusedFirstFit, NoneFits, ExactTiling, Agree, OneMemory, OneLog, Request;
      p := arena.Allocate(size, align);
    }

    method Dealloc(p: int)
      requires Valid()
      modifies arena
      ensures Valid() && arena.live == old(arena.live) - {p}
      ensures arena.Contents() == Released(old(arena.Contents()), p)
    {
      hide AllocInv, ExactTiling, Agree, OneMemory, OneLog;
      arena.Deallocate(p);
    }

    lemma WrittenIs()
      requires Valid()
      ensures written == OneWritten(trace, start) && arena.capacity > 0 && (depth == 0 ==> synced)
    {
      hide OneWritten;
    }

    // ---- arbitrary programs --------------------------------------------------------

    /** When a step is allowed. */
    lemma Guards(s: Step)
      requires Valid()
      ensures var ok := Exec(Setup(), Now(), s).1;
        && (s.Write? ==> (ok <==> depth == 0 && LiveByte(s.x)))
        && (s.Read? ==> (ok <==> s.x in written && (arena.uma || synced)))
        && (s.Read? && depth == 0 && s.x in written ==> ok)
        && (s.Launch? ==> (ok <==> depth > 0 && s.k.sources <= written && AllLive(s.k.targets)))
        && (s.Migrate? ==> (ok <==> depth > 0))
        && (s.Release? ==> ok)
        && (s.Allocate? ==>
              var a := Pow2(s.exponent);
              ok <==> s.size + 2 * (if a > 256 then a else 256) + arena.capacity < 0x1_0000_0000_0000_0000)
    {
      hide Valid, Allocated, Released, Touched, OneMemory, OneLog, OneWritten, LiveIn, ExecAll;
      WrittenIs();
    }

    /** A step other than a scope: done when it is allowed, else skipped. */
    method PerformLeaf(s: Step) returns (done: bool)
      requires Valid() && !s.Scope?
      modifies this, arena, arena.host, arena.device
      ensures Valid() && (Now(), done) == Exec(Setup(), old(Now()), s)
    {
      hide Valid, Allocated, Released, Touched, OneMemory, OneLog, OneWritten, LiveIn;
      WrittenIs();
      done := true;
      match s
      case Write(x, v) =>
        if depth == 0 && LiveByte(x) { HostStore(x, v); } else { done := false; }
      case Read(x) =>
        if x in written && HostCurrent() { var v := HostLoad(x); } else { done := false; }
      case Allocate(size, e) =>
        PowerOfTwo(e);
        if size + 2 * Max(Pow2(e), DEFAULT_ALIGNMENT) + arena.capacity < WORD {
          var p := Alloc(size, Pow2(e));
        } else {
          done := false;
        }
      case Release(p) =>
        Dealloc(p);
      case Launch(k) =>
        if depth > 0 && k.sources <= written && AllLive(k.targets) { Dispatch(k); } else { done := false; }
      case Migrate =>
        if depth > 0 { Sync(); } else { done := false; }
    }

    /** One step of a program: exactly what the step means, and whether it was allowed. */
    method Perform(s: Step) returns (done: bool)
      requires Valid()
      modifies this, arena, arena.host, arena.device
      ensures Valid() && (Now(), done) == Exec(Setup(), old(Now()), s)
      ensures s.Write? ==> (done <==> old(depth == 0 && LiveByte(s.x)))
      ensures s.Read? ==> (done <==> old(s.x in written && (arena.uma || synced)))
      ensures s.Read? && old(depth == 0 && s.x in written) ==> done
      ensures s.Launch? ==> (done <==> old(depth > 0 && s.k.sources <= written && AllLive(s.k.targets)))
      ensures s.Migrate? ==> (done <==> old(depth) > 0)
      ensures s.Release? ==> done
      ensures s.Allocate? ==> var a := Pow2(s.exponent);
        done <==> s.size + 2 * (if a > 256 then a else 256) + arena.capacity < 0x1_0000_0000_0000_0000
      decreases s, 0
    {
      hide Valid, Allocated, Released, Touched, OneMemory, OneLog, OneWritten, LiveIn, Allowed, After;
      WrittenIs();
      Guards(s);
      match s
      case Scope(body) =>
        Enter();
        LegalEvents(Setup(), Now(), body);
        done := Run(body);
        Exit();
      case _ =>
        done := PerformLeaf(s);
    }

    /** A whole program. */
    method Run(steps: seq<Step>) returns (done: bool)
      requires Valid()
      modifies this, arena, arena.host, arena.device
      ensures Valid() && (Now(), done) == ExecAll(Setup(), old(Now()), steps)
      decreases steps
    {
      hide Exec, ExecAll;
      done := true;
      ghost var s := Now();
      ExecNothing(Setup(), s, steps[..0]);
      for i := 0 to |steps|
        invariant Valid() && (Now(), done) == ExecAll(Setup(), s, steps[..i])
      {
        ExecExtend(Setup(), s, steps, i);
        var d := Perform(steps[i]);
        done := done && d;
      }
      assert steps[..|steps|] == steps;
    }
  }

  lemma ExecNothing(c: Config, s: State, steps: seq<Step>)
    requires c.capacity >= 0 && steps == []
    ensures ExecAll(c, s, steps) == (s, true)
  {
  }

  lemma PowerOfTwo(e: nat)
    ensures IsPow2(Pow2(e))
  {
  }

  /** A legal program on an idle machine: afterwards every byte that the one-memory run of its
      text has written has on the host the value of that run, and the host has read exactly
      the values of that run. */
  method RunsAsOneMemory(m: Machine, steps: seq<Step>) returns (done: bool)
    requires m.Valid() && m.depth == 0
    modifies m, m.arena, m.arena.host, m.arena.device
    ensures m.Valid() && m.depth == 0
    ensures (m.Now(), done) == ExecAll(m.Setup(), old(m.Now()), steps)
    ensures done ==> var t := old(m.trace) + Events(steps);
      && m.trace == t && m.log == OneLog(t, m.start) && m.written == OneWritten(t, m.start)
      && forall x :: x in OneWritten(t, m.start) ==>
           0 <= x < m.arena.capacity && m.arena.host[x] == OneMemory(t, m.start)[x]
  {
    hide OneMemory, OneLog, OneWritten, ExecAll;
    LegalEvents(m.Setup(), m.Now(), steps);
    done := m.Run(steps);
    assert m.HostCurrent();
    assert Agree(m.arena.host[..], m.One(), m.written);
  }

  // ---- what the host sees ----------------------------------------------------------

  /** None of the events writes byte x. */
  ghost predicate Spares(events: seq<Event>, x: int) {
    forall i {:trigger events[i]} :: 0 <= i < |events| ==>
      && !(events[i].Store? && events[i].at == x)
      && !(events[i].Ran? && x in events[i].kernel.targets)
  }

  /** No step of the program stores to byte x or launches a kernel that may write it. */
  predicate LeavesAlone(steps: seq<Step>, x: int) {
    steps == [] || (LeavesAlone(steps[..|steps| - 1], x) && StepLeavesAlone(steps[|steps| - 1], x))
  }

  predicate StepLeavesAlone(step: Step, x: int) {
    match step
    case Write(y, _) => y != x
    case Launch(k) => x !in k.targets
    case Scope(body) => LeavesAlone(body, x)
    case _ => true
  }

  lemma {:induction false} LeavesAloneSpares(steps: seq<Step>, x: int)
    requires LeavesAlone(steps, x)
    ensures Spares(Events(steps), x)
    decreases steps
  {
    if steps != [] {
      LeavesAloneSpares(steps[..|steps| - 1], x);
      match steps[|steps| - 1]
      case Scope(body) => LeavesAloneSpares(body, x);
      case _ =>
    }
  }

  /** The last store to a byte stays until something writes the byte again. */
  lemma {:induction false} LastStore(before: seq<Event>, x: int, v: Byte, after: seq<Event>, mem: seq<Byte>)
    requires 0 <= x < |mem| && Spares(after, x)
    ensures OneMemory(before + [Store(x, v)] + after, mem)[x] == v
    decreases |after|
  {
    if after == [] {
      assert before + [Store(x, v)] + after == before + [Store(x, v)];
      Extend(before, mem, Store(x, v));
    } else {
      var init, e := after[..|after| - 1], after[|after| - 1];
      var events := before + [Store(x, v)] + init;
      assert before + [Store(x, v)] + after == events + [e];
      assert forall i :: 0 <= i < |init| ==> init[i] == after[i];
      LastStore(before, x, v, init, mem);
      Extend(events, mem, e);
      assert !(e.Store? && e.at == x) && !(e.Ran? && x in e.kernel.targets);
    }
  }

  lemma {:induction false} EventsThen(p: seq<Step>, q: seq<Step>)
    ensures Events(p + q) == Events(p) + Events(q)
    decreases |q|
  {
    if q == [] {
      assert p + q == p;
    } else {
      var init := q[..|q| - 1];
      assert (p + q)[..|p + q| - 1] == p + init;
      EventsThen(p, init);
    }
  }

  /** A byte stored by the host reads back as stored, whatever operations, nested to any depth,
      run in between, as long as none of them may write it. */
  method StoreSurvives(m: Machine, first: seq<Step>, x: int, v: Byte, rest: seq<Step>) returns (read: Byte)
    requires m.Valid() && m.depth == 0 && Legal(m.Setup(), m.Now(), first + [Write(x, v)] + rest)
    requires LeavesAlone(rest, x)
    modifies m, m.arena, m.arena.host, m.arena.device
    ensures m.Valid() && m.depth == 0 && 0 <= x < m.arena.host.Length
    ensures m.arena.host[x] == v && read == v && |m.log| > 0 && m.log[|m.log| - 1] == v
  {
    hide OneMemory, OneLog, OneWritten, ExecAll, Spares, LeavesAlone, Events;
    ghost var trace := m.trace;
    var steps := first + [Write(x, v)] + rest;
    EventsThen(first + [Write(x, v)], rest);
    EventsThen(first, [Write(x, v)]);
    OneStoreEvent(x, v);
    LeavesAloneSpares(rest, x);
    var done := RunsAsOneMemory(m, steps);
    ghost var before := trace + Events(first);
    assert m.trace == before + [Store(x, v)] + Events(rest);
    StoreIsWritten(before, x, v, Events(rest), m.start);
    LastStore(before, x, v, Events(rest), m.start);
    read := m.HostLoad(x);
  }

  lemma OneStoreEvent(x: int, v: Byte)
    ensures Events([Write(x, v)]) == [Store(x, v)]
  {
    assert [Write(x, v)][..0] == [];
  }

  lemma {:induction false} StoreIsWritten(before: seq<Event>, x: int, v: Byte, after: seq<Event>, mem: seq<Byte>)
    ensures x in OneWritten(before + [Store(x, v)] + after, mem)
    decreases |after|
  {
    hide OneMemory, Touched;
    if after == [] {
      assert before + [Store(x, v)] + after == before + [Store(x, v)];
      Extend(before, mem, Store(x, v));
    } else {
      var init, e := after[..|after| - 1], after[|after| - 1];
      assert before + [Store(x, v)] + after == before + [Store(x, v)] + init + [e];
      StoreIsWritten(before, x, v, init, mem);
      Extend(before + [Store(x, v)] + init, mem, e);
    }
  }

  /** One operation with one kernel, seen from the host: the kernel's outputs for the host values
      of its sources, and every other written byte as before. */
  method OperationOnHost(m: Machine, k: Kernel)
    requires m.Valid() && m.depth == 0 && k.sources <= m.written && m.AllLive(k.targets)
    modifies m, m.arena.host, m.arena.device
    ensures m.Valid() && m.depth == 0
    ensures forall x :: x in old(m.written) || x in k.targets ==> 0 <= x < m.arena.host.Length
    ensures var out := k.run(map y | y in k.sources :: old(m.arena.host[y]));
      && (forall x :: x in k.targets && x in out ==> m.arena.host[x] == out[x])
      && (forall x :: x in old(m.written) && !(x in k.targets && x in out) ==> m.arena.host[x] == old(m.arena.host[x]))
  {
    hide OneMemory, OneLog, OneWritten, AllocInv, LiveIn;
    ghost var one := m.One();
    m.WrittenIs();
    assert Agree(m.arena.host[..], one, m.written);
    forall x | x in k.targets ensures 0 <= x < m.arena.capacity { m.LiveByteBelowHigh(x); }
    Extend(m.trace, m.start, Ran(k));
    m.Enter();
    m.Dispatch(k);
    m.Exit();
    assert Agree(m.arena.host[..], Effect(k, one), m.written);
    ghost var input := map y | y in k.sources :: old(m.arena.host[y]);
    assert input == View(k, one);
    forall x | x in k.targets && x in k.run(input) ensures m.arena.host[x] == k.run(input)[x] {
      assert x in Touched(k, one) && x in m.written;
      assert m.arena.host[..][x] == Effect(k, one)[x];
    }
  }

  /** Staged memory refines unified memory: a program that is legal on a staged machine is
      legal on a one-memory machine in the same state, and both end with the same loads
      returned and the same host value in every byte written. */
  method StagedRefinesUnified(staged: Machine, unified: Machine, steps: seq<Step>) returns (done: bool)
    requires staged.Valid() && unified.Valid() && staged.depth == 0 && staged.Now() == unified.Now()
    requires unified.Setup() == staged.Setup().(uma := true)
    requires staged != unified && staged.arena != unified.arena
    requires {staged.arena.host, staged.arena.device} !! {unified.arena.host, unified.arena.device}
    modifies staged, staged.arena, staged.arena.host, staged.arena.device
    modifies unified, unified.arena, unified.arena.host, unified.arena.device
    ensures staged.Valid() && unified.Valid()
    ensures done <==> Legal(staged.Setup(), old(staged.Now()), steps)
    ensures done ==>
      && staged.Now() == unified.Now() && staged.log == unified.log && staged.written == unified.written
      && forall x :: x in staged.written ==>
           0 <= x < staged.arena.capacity && staged.arena.host[x] == unified.arena.host[x]
  {
    hide OneMemory, OneLog, OneWritten, ExecAll;
    ghost var s := staged.Now();
    done := RunsAsOneMemory(staged, steps);
    if done {
      LegalOnOneMemory(staged.Setup(), s, steps);
      LegalEvents(staged.Setup(), s, steps);
      var also := RunsAsOneMemory(unified, steps);
    }
  }
}
