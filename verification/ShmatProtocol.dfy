/** The injected shmat of strace-4.6/cde.c: begin_setup_shmat rewrites a traced system call into one that
    attaches the tracer's shared memory, finish_setup_shmat undoes it and makes the child repeat its call.
    The driver is trace_syscall_entering / trace_syscall_exiting of strace-4.6/syscall.c.

    The kernel and ptrace are environment steps: at an entry stop orig_ax holds the call's number and ax
    -ENOSYS; executing the two-byte system call instruction at ip enters with orig_ax = ax and ip past it. */
module ShmatProtocol {
  import opened Machine
  import opened ByteOrder

  /** The three compiled variants: a 32-bit host, a 64-bit host with a 64-bit or a 32-bit target. */
  datatype Arch = I386 | X8664 | Emu32

  const ENOSYS := TWO_64 - 38
  const NR_IPC := 117
  const IPC_SHMAT := 21
  const NR_SHMAT := 30

  datatype Regs = Regs(origAx: nat, ax: nat, ip: nat, bx: nat, cx: nat, dx: nat, si: nat, di: nat, bp: nat, r10: nat, others: seq<nat>)

  /** The fields of the tcb; childshm is 0 for NULL. */
  datatype Tcb = Tcb(childshm: nat, settingUp: bool, savedRegs: Regs, savedAddr: nat, savedWord: seq<byte>)

  /** The traced process as ptrace shows it. */
  datatype Child = Child(regs: Regs, mem: seq<byte>)

  /** Width of a long: what PEEKDATA and POKEDATA move. */
  function Long(a: Arch): nat { if a.I386? then 4 else 8 }

  predicate ViaIpc(a: Arch) { a.I386? || a.Emu32? }

  // ----- begin, finish, end of execve as functions -----

  function InjectedRegs(a: Arch, r: Regs, shmid: nat, addr: nat): Regs
  {
    if ViaIpc(a) then r.(origAx := NR_IPC, bx := IPC_SHMAT, cx := shmid, dx := 0, si := addr, di := 0, bp := 0)
    else r.(origAx := NR_SHMAT, di := shmid, si := 0, dx := 0)
  }

  /** None: there already is a segment, which the source asserts against, or the word at the free address
      could not be peeked, a fatal error. */
  function Begin(a: Arch, t: Tcb, c: Child, shmid: nat, freeAddr: nat): Option<(Tcb, Child)>
  {
    if t.childshm != 0 then None
    else if ViaIpc(a) && freeAddr + Long(a) > |c.mem| then None
    else
      var t' := t.(savedRegs := c.regs, settingUp := true);
      var t'' := if ViaIpc(a) then t'.(savedAddr := freeAddr, savedWord := c.mem[freeAddr..freeAddr + Long(a)]) else t';
      Some((t'', c.(regs := InjectedRegs(a, c.regs, shmid, freeAddr))))
  }

  /** The registers finish_setup_shmat puts back: the call's number again in ax, ip on the instruction. */
  function Rewound(r: Regs): Regs { r.(ax := r.origAx, ip := (r.ip - 2) % TWO_64) }

  /** None: one of the assertions fails. */
  function Finish(a: Arch, t: Tcb, c: Child): Option<(Tcb, Child)>
  {
    if ViaIpc(a) then
      if c.regs.origAx != NR_IPC || c.regs.ax != 0 || t.savedAddr + Long(a) > |c.mem| || |t.savedWord| != Long(a) then None
      else
        var shm := LittleEndian(c.mem[t.savedAddr..t.savedAddr + Long(a)]) % TWO_32;
        if shm == 0 then None
        else Some((t.(childshm := shm, settingUp := false, savedRegs := Rewound(t.savedRegs)),
                   Child(Rewound(t.savedRegs), PutAt(c.mem, t.savedAddr, t.savedWord))))
    else if c.regs.origAx != NR_SHMAT || c.regs.ax == 0 then None
    else Some((t.(childshm := c.regs.ax, settingUp := false, savedRegs := Rewound(t.savedRegs)),
               c.(regs := Rewound(t.savedRegs))))
  }

  function EndExecve(execMode: bool, t: Tcb): Tcb { if execMode then t.(childshm := 0) else t }

  // ----- the environment -----

  /** The arguments of a system call by the ABI of the target: i386 in ebx, ecx, edx, esi, edi, ebp; x86-64 in
      rdi, rsi, rdx, r10 and two more. */
  function SyscallArg(a: Arch, r: Regs, n: nat): nat
    requires 1 <= n <= 5
  {
    if a.X8664? then (if n == 1 then r.di else if n == 2 then r.si else if n == 3 then r.dx else if n == 4 then r.r10 else 0)
    else if n == 1 then r.bx else if n == 2 then r.cx else if n == 3 then r.dx else if n == 4 then r.si else r.di
  }

  /** What the kernel is asked for: to attach a segment at a hint with flags, the address to be stored in memory
      or returned; or something else. */
  datatype Request = Shmat(id: nat, hint: nat, flags: nat, store: Option<nat>) | Other

  /** System call 30 of x86-64 is shmat(id, hint, flags). System call 117 of i386 is ipc(call, first, second,
      third, ptr), and its call 21 attaches segment first with flags second at hint ptr, storing at third. */
  function Asked(a: Arch, r: Regs): Request
  {
    if a.X8664? then
      if r.origAx == 30 then Shmat(SyscallArg(a, r, 1), SyscallArg(a, r, 2), SyscallArg(a, r, 3), None) else Other
    else if r.origAx == 117 && SyscallArg(a, r, 1) == 21 then
      Shmat(SyscallArg(a, r, 2), SyscallArg(a, r, 5), SyscallArg(a, r, 3), Some(SyscallArg(a, r, 4)))
    else Other
  }

  /** What the kernel makes of a request. */
  datatype ShmatResult = Attached(addr: nat) | Failed(errno: nat)

  predicate ValidResult(a: Arch, res: ShmatResult)
  {
    match res
    case Attached(addr) => 0 < addr < (if ViaIpc(a) then TWO_32 else TWO_64 - 4096)
    case Failed(errno) => 0 < errno < 4096
  }

  const EFAULT := 14

  /** sys_ipc stores the address as a 32-bit word and returns 0; shmat returns it. */
  function KernelRun(a: Arch, c: Child, res: ShmatResult): Child
    requires ValidResult(a, res)
  {
    match (Asked(a, c.regs), res)
    case (Other, _) => c.(regs := c.regs.(ax := ENOSYS))
    case (Shmat(_, _, _, _), Failed(errno)) => c.(regs := c.regs.(ax := TWO_64 - errno))
    case (Shmat(_, _, _, None), Attached(addr)) => c.(regs := c.regs.(ax := addr))
    case (Shmat(_, _, _, Some(p)), Attached(addr)) =>
      if p + 4 > |c.mem| then c.(regs := c.regs.(ax := TWO_64 - EFAULT))
      else Child(c.regs.(ax := 0), PutAt(c.mem, p, ToLittleEndian(addr, 4)))
  }

  /** The request is for the tracer's segment, anywhere and without flags; i386 stores the address at word. */
  predicate AsksForSegment(a: Arch, r: Regs, shmid: nat, word: nat)
  {
    Asked(a, r) == Shmat(shmid, 0, 0, if a.X8664? then None else Some(word))
  }

  /** The child runs the system call instruction ip points at. */
  function Enter(r: Regs): Regs { r.(origAx := r.ax, ax := ENOSYS, ip := (r.ip + 2) % TWO_64) }

  // ----- one injection -----

  lemma PeekedAddress(a: Arch, mem: seq<byte>, p: nat, addr: nat)
    requires ViaIpc(a) && p + Long(a) <= |mem| && addr < TWO_32
    ensures LittleEndian(PutAt(mem, p, ToLittleEndian(addr, 4))[p..p + Long(a)]) % TWO_32 == addr
  {
    var after := PutAt(mem, p, ToLittleEndian(addr, 4));
    var word := after[p..p + Long(a)];
    assert word[..4] == after[p..p + 4];
    LowWord(word);
    LittleEndianOfBytes(addr, 4);
    Pow2Known();
    SmallMod(addr, TWO_32);
  }

  /** A long's value modulo 2^32 is the value of its first four bytes. */
  lemma LowWord(bs: seq<byte>)
    requires |bs| == 4 || |bs| == 8
    ensures LittleEndian(bs) % TWO_32 == LittleEndian(bs[..4])
  {
    BytesOfLittleEndian(bs[..4]);
    Pow2Known();
    if |bs| == 4 {
      assert bs[..4] == bs;
      SmallMod(LittleEndian(bs), TWO_32);
    } else {
      var v := LittleEndian(bs);
      BytesOfLittleEndian(bs);
      LowBytes(v, 8, 4);
      LittleEndianOfBytes(v, 4);
    }
  }

  /** Writing over a few bytes and then poking the saved word back is no change at all. */
  lemma PokeBack(mem: seq<byte>, p: nat, n: nat, bs: seq<byte>)
    requires |bs| <= n && p + n <= |mem|
    ensures PutAt(PutAt(mem, p, bs), p, mem[p..p + n]) == mem
  {
    var x := PutAt(PutAt(mem, p, bs), p, mem[p..p + n]);
    forall k | 0 <= k < |mem| ensures x[k] == mem[k] {
      if p <= k < p + n { assert x[p..p + n][k - p] == mem[p..p + n][k - p]; }
    }
  }

  /** When an injection can begin. */
  predicate CanBegin(a: Arch, t: Tcb, c: Child, freeAddr: nat)
  {
    t.childshm == 0 && (a.I386? ==> freeAddr + 4 <= |c.mem|) && (a.Emu32? ==> freeAddr + 8 <= |c.mem|)
  }

  /** An injection that attaches: the kernel is asked for the tracer's segment; the child re-enters its original system call with every register and
      every byte of memory as at the first entry, and childshm is where the segment now lies. */
  lemma InjectionInvisible(a: Arch, t: Tcb, c: Child, shmid: nat, freeAddr: nat, addr: nat)
    requires c.regs.ax == ENOSYS && 2 <= c.regs.ip < TWO_64 && ValidResult(a, Attached(addr))
    ensures var begun := Begin(a, t, c, shmid, freeAddr);
            (begun.Some? <==> CanBegin(a, t, c, freeAddr))
            && (begun.Some? ==>
                  begun.value.0.settingUp && AsksForSegment(a, begun.value.1.regs, shmid, freeAddr)
                  && var done := Finish(a, begun.value.0, KernelRun(a, begun.value.1, Attached(addr)));
                     done.Some? && Enter(done.value.1.regs) == c.regs && done.value.1.mem == c.mem
                     && done.value.0.childshm == addr && !done.value.0.settingUp)
  {
    SmallMod(c.regs.ip - 2, TWO_64);
    SmallMod(c.regs.ip, TWO_64);
    if ViaIpc(a) && CanBegin(a, t, c, freeAddr) {
      PeekedAddress(a, c.mem, freeAddr, addr);
      PokeBack(c.mem, freeAddr, Long(a), ToLittleEndian(addr, 4));
    }
  }

  /** One that fails: the ipc variants stop at an assertion; the native variant takes the negated errno for
      an address, although the registers and memory are still put back. */
  lemma FailedInjection(a: Arch, t: Tcb, c: Child, shmid: nat, freeAddr: nat, errno: nat)
    requires c.regs.ax == ENOSYS && 2 <= c.regs.ip < TWO_64 && ValidResult(a, Failed(errno))
    ensures var begun := Begin(a, t, c, shmid, freeAddr);
            (begun.Some? <==> CanBegin(a, t, c, freeAddr))
            && (begun.Some? ==>
                  var done := Finish(a, begun.value.0, KernelRun(a, begun.value.1, Failed(errno)));
                  && (ViaIpc(a) ==> done.None?)
                  && (!ViaIpc(a) ==>
                        done.Some? && done.value.0.childshm == TWO_64 - errno
                        && Enter(done.value.1.regs) == c.regs && done.value.1.mem == c.mem))
  {
    SmallMod(c.regs.ip - 2, TWO_64);
    SmallMod(c.regs.ip, TWO_64);
  }

  // ----- the tcb's methods -----

  class Tracee {
    const arch: Arch
    const execMode: bool
    const shmid: nat
    var childshm: nat
    var settingUp: bool
    var savedRegs: Regs
    var savedAddr: nat
    var savedWord: seq<byte>
    var regs: Regs
    var mem: seq<byte>

    ghost function TcbOf(): Tcb
      reads this
    {
      Tcb(childshm, settingUp, savedRegs, savedAddr, savedWord)
    }

    ghost function ChildOf(): Child
      reads this
    {
      Child(regs, mem)
    }

    /** alloc_tcb_cde_fields: no segment in the child yet. */
    constructor (arch: Arch, execMode: bool, shmid: nat, regs: Regs, mem: seq<byte>)
      ensures this.arch == arch && this.execMode == execMode && this.shmid == shmid
      ensures childshm == 0 && !settingUp && ChildOf() == Child(regs, mem)
    {
      this.arch, this.execMode, this.shmid := arch, execMode, shmid;
      childshm, settingUp := 0, false;
      savedRegs, savedAddr, savedWord := regs, 0, [];
      this.regs, this.mem := regs, mem;
    }

    /** begin_setup_shmat; freeAddr is what find_free_addr found in /proc/pid/maps. */
    method BeginSetupShmat(freeAddr: nat) returns (ok: bool)
      modifies this
      ensures ok == Begin(arch, old(TcbOf()), old(ChildOf()), shmid, freeAddr).Some?
      ensures ok ==> (TcbOf(), ChildOf()) == Begin(arch, old(TcbOf()), old(ChildOf()), shmid, freeAddr).value
    {
      if childshm != 0 { return false; }
      savedRegs := regs;
      var cur := regs;
      if ViaIpc(arch) {
        if freeAddr + Long(arch) > |mem| { return false; }
        savedAddr := freeAddr;
        savedWord := mem[savedAddr..savedAddr + Long(arch)];
        cur := cur.(origAx := NR_IPC, bx := IPC_SHMAT);
        cur := cur.(cx := shmid, dx := 0, si := savedAddr, di := 0, bp := 0);
      } else {
        cur := cur.(origAx := NR_SHMAT, di := shmid, si := 0, dx := 0);
      }
      regs := cur;
      settingUp := true;
      return true;
    }

    /** finish_setup_shmat; not ok when an assertion fails. */
    method FinishSetupShmat() returns (ok: bool)
      modifies this
      ensures ok == Finish(arch, old(TcbOf()), old(ChildOf())).Some?
      ensures ok ==> (TcbOf(), ChildOf()) == Finish(arch, old(TcbOf()), old(ChildOf())).value
    {
      var attached := 0;
      if ViaIpc(arch) {
        if regs.origAx != NR_IPC || regs.ax != 0 { return false; }
        if savedAddr + Long(arch) > |mem| || |savedWord| != Long(arch) { return false; }
        attached := LittleEndian(mem[savedAddr..savedAddr + Long(arch)]) % TWO_32;
        if attached == 0 { return false; }
        mem := PutAt(mem, savedAddr, savedWord);
      } else {
        if regs.origAx != NR_SHMAT { return false; }
        attached := regs.ax;
        if attached == 0 { return false; }
      }
      childshm := attached;
      savedRegs := savedRegs.(ax := savedRegs.origAx);
      savedRegs := savedRegs.(ip := (savedRegs.ip - 2) % TWO_64);
      regs := savedRegs;
      settingUp := false;
      return true;
    }

    /** CDE_end_execve */
    method CdeEndExecve()
      modifies this
      ensures TcbOf() == EndExecve(execMode, old(TcbOf())) && ChildOf() == old(ChildOf())
    {
      if execMode { childshm := 0; }
    }
  }

  // ----- whole runs -----

  /** What the tracer's handler does with a call at an entry: leave it alone, without the segment; or make
      sure of the segment and then point argument registers into it, each at an offset. The path handlers
      for one argument ask for the segment only once they know that they redirect; those for two ask first
      and then rewrite two arguments, one or none. The execve handler leaves ignored and missing programs
      alone, redirects the path of a static one, and rewrites path and argv of the others; while auditing it
      asks for the segment and rewrites nothing. */
  datatype Handling = Ignore | Rewrite(args: map<nat, nat>)

  function ExecveNumber(a: Arch): nat { if ViaIpc(a) then 11 else 59 }

  /** Whether the system call at an entry stop is an execve. */
  predicate IsExecve(a: Arch, r: Regs) { r.origAx == ExecveNumber(a) }

  /** The handlings there are: outside exec mode only execve asks for the segment, and writes nothing. */
  predicate Allowed(a: Arch, execMode: bool, r: Regs, h: Handling)
  {
    h.Rewrite? ==> h.args.Keys <= {1, 2, 3, 4} && (execMode || (IsExecve(a, r) && h.args == map[]))
  }

  datatype Place = User | Entered | Returned

  /** A call as the kernel finally ran it: the arguments the tracer rewrote, the segment's address it
      believed in, the address where the segment really lay, and whether the last shmat succeeded. */
  datatype Ran = Ran(child: Child, args: map<nat, nat>, shm: nat, live: nat, ok: bool)

  /** call is the child's own outstanding call, from its first entry until the kernel has run it; args is
      what the handler rewrote at the latest entry and inExecve whether that was an execve's.
      attached is where the segment lies in the current image, 0 for nowhere; execdSince tells whether a
      successful execve has replaced the image the last setup attached it to; injected lists what the kernel
      was asked for by the injected calls; setups counts the finished
      setups since the last exit of an execve, in exec mode, or since the start. */
  datatype World = World(
    arch: Arch, execMode: bool, shmid: nat,
    tcb: Tcb, child: Child, place: Place, args: map<nat, nat>, inExecve: bool,
    call: Option<Child>, requested: seq<Child>, executed: seq<Ran>, injected: seq<Request>,
    attached: nat, setups: nat, lastSetupOk: bool, execdSince: bool)

  /** The handler's decision comes with every entry: the files it depends on may change between an entry
      and its repetition. */
  datatype Event =
    | Call(regs: Regs, mem: seq<byte>, handling: Handling, freeAddr: nat)
    | Repeat(handling: Handling, freeAddr: nat)
    | RunInjected(res: ShmatResult)
    | RunOwn(ax: nat, mem: seq<byte>, execOk: bool)
    | Leave

  /** An argument register after the handler: childshm plus an offset, in the tracer's long. */
  function Argument(a: Arch, args: map<nat, nat>, n: nat, shm: nat, was: nat): nat
  {
    if n in args then (shm + args[n]) % (if a.I386? then TWO_32 else TWO_64) else was
  }

  /** The registers the handlers write; for the fourth argument of a 64-bit target that is rcx. */
  function Redirected(a: Arch, args: map<nat, nat>, r: Regs, shm: nat): Regs
  {
    if ViaIpc(a) then
      r.(bx := Argument(a, args, 1, shm, r.bx), cx := Argument(a, args, 2, shm, r.cx),
         dx := Argument(a, args, 3, shm, r.dx), si := Argument(a, args, 4, shm, r.si))
    else
      r.(di := Argument(a, args, 1, shm, r.di), si := Argument(a, args, 2, shm, r.si),
         dx := Argument(a, args, 3, shm, r.dx), cx := Argument(a, args, 4, shm, r.cx))
  }

  /** The arguments as the kernel sees them: those rewritten are the offsets into the segment, all others as they
      were. The fourth of a 64-bit target, which the kernel takes from r10, is never rewritten. */
  predicate ArgumentsSeen(a: Arch, args: map<nat, nat>, asked: Regs, ran: Regs, shm: nat)
  {
    forall n :: 1 <= n <= 5 ==>
      SyscallArg(a, ran, n) == if n in args && (n < 4 || !a.X8664?) then (shm + args[n]) % (if a.I386? then TWO_32 else TWO_64)
                               else SyscallArg(a, asked, n)
  }

  /** No other register changes, but rcx, which the 64-bit kernel does not look at. */
  predicate OthersKept(a: Arch, asked: Regs, ran: Regs)
  {
    if a.X8664? then ran.(di := asked.di, si := asked.si, dx := asked.dx, cx := asked.cx) == asked
    else ran.(bx := asked.bx, cx := asked.cx, dx := asked.dx, si := asked.si) == asked
  }

  lemma RedirectedSeen(a: Arch, args: map<nat, nat>, r: Regs, shm: nat)
    requires args.Keys <= {1, 2, 3, 4}
    ensures ArgumentsSeen(a, args, r, Redirected(a, args, r, shm), shm) && OthersKept(a, r, Redirected(a, args, r, shm))
  {
    assert 5 !in args;
  }

  /** Every rewritten argument reaches the kernel exactly when the fourth of a 64-bit target is not among them,
      unless it had that value already. */
  lemma RewrittenSeenExactly(a: Arch, args: map<nat, nat>, r: Regs, shm: nat)
    requires args.Keys <= {1, 2, 3, 4}
    ensures var width := if a.I386? then TWO_32 else TWO_64;
            (forall n :: n in args ==> SyscallArg(a, Redirected(a, args, r, shm), n) == (shm + args[n]) % width)
            <==> (a.X8664? && 4 in args ==> r.r10 == (shm + args[4]) % width)
  {
    RedirectedSeen(a, args, r, shm);
    var ran := Redirected(a, args, r, shm);
    forall n | n in args ensures 1 <= n <= 4 {}
    if a.X8664? && 4 in args { assert SyscallArg(a, ran, 4) == r.r10; }
  }

  /** The handler at a syscall-entry stop. */
  function AtEntry(w: World, h: Handling, freeAddr: nat): Option<World>
  {
    var u := w.(place := Entered, args := map[], inExecve := IsExecve(w.arch, w.child.regs));
    if !Allowed(w.arch, w.execMode, w.child.regs, h) then None
    else if h.Ignore? then Some(u)
    else if w.tcb.childshm == 0 then
      match Begin(w.arch, w.tcb, w.child, w.shmid, freeAddr)
      case None => None
      case Some((t, c)) => Some(u.(tcb := t, child := c))
    else Some(u.(args := h.args, child := w.child.(regs := Redirected(w.arch, h.args, w.child.regs, w.tcb.childshm))))
  }

  /** The handler at a syscall-exit stop. */
  function AtExit(w: World): Option<World>
  {
    if w.tcb.settingUp then
      match Finish(w.arch, w.tcb, w.child)
      case None => None
      case Some((t, c)) => Some(w.(place := User, tcb := t, child := c, setups := w.setups + 1, execdSince := false))
    else if w.inExecve then
      Some(w.(place := User, tcb := EndExecve(w.execMode, w.tcb), setups := if w.execMode then 0 else w.setups))
    else Some(w.(place := User))
  }

  /** One event; None when it cannot happen in this world, or the tracer gives up. */
  function Step(w: World, e: Event): Option<World>
  {
    match e
    case Call(r, mem, h, freeAddr) =>
      if w.place != User || w.call.Some? || r.ax != ENOSYS || !(2 <= r.ip < TWO_64) then None
      else
        var asked := Child(r, mem);
        AtEntry(w.(child := asked, call := Some(asked), requested := w.requested + [asked]), h, freeAddr)
    case Repeat(h, freeAddr) =>
      if w.place != User || w.call.None? then None
      else AtEntry(w.(child := w.child.(regs := Enter(w.child.regs))), h, freeAddr)
    case RunInjected(res) =>
      if w.place != Entered || !w.tcb.settingUp || !ValidResult(w.arch, res) then None
      else
        var request := Asked(w.arch, w.child.regs);
        var ours := request.Shmat? && request.id == w.shmid && res.Attached?;
        Some(w.(place := Returned, child := KernelRun(w.arch, w.child, res), injected := w.injected + [request],
                attached := if ours then res.addr else w.attached, lastSetupOk := ours))
    case RunOwn(ax, mem, execOk) =>
      if w.place != Entered || w.tcb.settingUp then None
      else
        var gone := w.inExecve && execOk;
        Some(w.(place := Returned, child := Child(w.child.regs.(ax := ax), mem), call := None,
                executed := w.executed + [Ran(w.child, w.args, w.tcb.childshm, w.attached, w.lastSetupOk)],
                attached := if gone then 0 else w.attached, execdSince := w.execdSince || gone))
    case Leave => if w.place != Returned then None else AtExit(w)
  }

  predicate Run(w: World, es: seq<Event>, v: World)
    decreases es
  {
    if es == [] then v == w
    else Step(w, es[0]).Some? && Run(Step(w, es[0]).value, es[1..], v)
  }

  predicate Initial(w: World)
  {
    && w.tcb.childshm == 0 && !w.tcb.settingUp && w.place == User && w.call == None
    && w.requested == [] && w.executed == [] && w.injected == [] && w.attached == 0 && w.setups == 0 && !w.execdSince
  }

  // ----- the invariant of every run -----

  /** The setup flag, the saved state and the null segment go together, from the injecting entry to the
      exit that finishes it. */
  predicate SetupInv(w: World)
  {
    w.tcb.settingUp ==>
      && w.tcb.childshm == 0 && w.place != User && w.call.Some?
      && (w.execMode || IsExecve(w.arch, w.call.value.regs))
      && w.tcb.savedRegs == w.call.value.regs
      && w.child.regs.origAx == (if ViaIpc(w.arch) then NR_IPC else NR_SHMAT)
      && (w.place == Entered ==> AsksForSegment(w.arch, w.child.regs, w.shmid, w.tcb.savedAddr))
      && (ViaIpc(w.arch) ==> Borrowed(w))
      && (!ViaIpc(w.arch) ==> w.child.mem == w.call.value.mem)
      && (w.place == Returned ==> ResultInv(w))
  }

  /** The borrowed word: poking back what was saved restores the child's memory. */
  predicate Borrowed(w: World)
    requires w.call.Some?
  {
    var mem := w.call.value.mem;
    && w.tcb.savedAddr + Long(w.arch) <= |mem| == |w.child.mem|
    && w.tcb.savedWord == mem[w.tcb.savedAddr..w.tcb.savedAddr + Long(w.arch)]
    && PutAt(w.child.mem, w.tcb.savedAddr, w.tcb.savedWord) == mem
  }

  /** Where finish_setup_shmat will look, it finds the address the kernel attached at. */
  predicate ResultInv(w: World)
    requires ViaIpc(w.arch) ==> w.call.Some? && Borrowed(w)
  {
    if ViaIpc(w.arch) then
      && (w.lastSetupOk <==> w.child.regs.ax == 0)
      && (w.lastSetupOk ==> LittleEndian(w.child.mem[w.tcb.savedAddr..w.tcb.savedAddr + Long(w.arch)]) % TWO_32 == w.attached)
    else if w.lastSetupOk then w.child.regs.ax == w.attached
    else TWO_64 - 4096 < w.child.regs.ax < TWO_64
  }

  /** An outstanding call is about to run as asked, or to be repeated exactly. */
  predicate CallInv(w: World)
  {
    && (w.call.Some? ==> w.call.value.regs.ax == ENOSYS && 2 <= w.call.value.regs.ip < TWO_64)
    && (w.call.Some? && w.place == User ==>
          && w.tcb.childshm != 0 && !w.tcb.settingUp
          && Enter(w.child.regs) == w.call.value.regs && w.child.mem == w.call.value.mem)
    && (w.place == Entered ==> w.call.Some? && w.inExecve == IsExecve(w.arch, w.call.value.regs))
    && (w.place == Entered && !w.tcb.settingUp ==>
          Faithful(w.arch, w.execMode, w.call.value, Ran(w.child, w.args, w.tcb.childshm, w.attached, w.lastSetupOk)))
    && (w.place == Returned && !w.tcb.settingUp ==>
          && w.call.None? && w.requested != []
          && w.inExecve == IsExecve(w.arch, w.requested[|w.requested| - 1].regs))
  }

  /** The kernel ran the call the child asked for: the same memory, number and arguments, but for the
      arguments rewritten to point into the segment, which lies where they point if shmat attached
      it; outside exec mode nothing is rewritten. */
  predicate Faithful(a: Arch, execMode: bool, asked: Child, ran: Ran)
  {
    && ran.child.mem == asked.mem
    && ran.args.Keys <= {1, 2, 3, 4} && (!execMode ==> ran.args == map[])
    && ArgumentsSeen(a, ran.args, asked.regs, ran.child.regs, ran.shm) && OthersKept(a, asked.regs, ran.child.regs)
    && (ran.args != map[] ==> ran.shm != 0 && (ran.live == ran.shm <==> ran.ok))
  }

  /** Every call is run once, in order, as asked; only the outstanding one has not been run. */
  predicate LedgerInv(w: World)
  {
    && |w.requested| == |w.executed| + (if w.call.Some? then 1 else 0)
    && (w.call.Some? ==> w.requested[|w.executed|] == w.call.value)
    && forall k :: 0 <= k < |w.executed| ==> Faithful(w.arch, w.execMode, w.requested[k], w.executed[k])
  }

  /** At most one setup between execve exits, and childshm is the segment's address exactly while the
      last setup attached it and no execve has since replaced the image. */
  predicate SegmentInv(w: World)
  {
    && w.setups == (if w.tcb.childshm != 0 then 1 else 0)
    && w.attached < TWO_64 - 4096
    && (w.tcb.childshm != 0 ==> (w.attached == w.tcb.childshm <==> w.lastSetupOk && !w.execdSince))
    && (w.tcb.childshm != 0 && w.execMode && w.place != Returned ==> !w.execdSince)
    && (w.place == Returned && w.execdSince && w.execMode && w.tcb.childshm != 0 ==> w.inExecve)
  }

  /** Only the tracer's segment is ever asked for. */
  predicate InjectedInv(w: World)
  {
    forall k :: 0 <= k < |w.injected| ==>
      var request := w.injected[k];
      request.Shmat? && request.id == w.shmid && request.hint == 0 && request.flags == 0
  }

  predicate Inv(w: World) { SetupInv(w) && CallInv(w) && LedgerInv(w) && SegmentInv(w) && InjectedInv(w) }

  lemma InitialInv(w: World)
    requires Initial(w)
    ensures Inv(w)
  {
  }

  /** At an entry: u is the world with the outstanding call just (re-)entered. */
  lemma EntryKeeps(u: World, h: Handling, freeAddr: nat)
    requires u.call.Some? && u.place == User && !u.tcb.settingUp && u.child == u.call.value
    requires u.child.regs.ax == ENOSYS && 2 <= u.child.regs.ip < TWO_64
    requires LedgerInv(u) && SegmentInv(u) && InjectedInv(u) && AtEntry(u, h, freeAddr).Some?
    ensures Inv(AtEntry(u, h, freeAddr).value)
  {
    var v := AtEntry(u, h, freeAddr).value;
    if !v.tcb.settingUp {
      assert v.args.Keys <= {1, 2, 3, 4};
      RedirectedSeen(u.arch, v.args, u.child.regs, u.tcb.childshm);
    }
    if v.tcb.settingUp && ViaIpc(u.arch) {
      PokeBack(u.child.mem, freeAddr, Long(u.arch), []);
      PutNothing(u.child.mem, freeAddr);
    }
  }

  lemma InjectedKeeps(w: World, res: ShmatResult)
    requires Inv(w) && Step(w, RunInjected(res)).Some?
    ensures Inv(Step(w, RunInjected(res)).value)
  {
    if ViaIpc(w.arch) && res.Attached? {
      var p := w.tcb.savedAddr;
      PeekedAddress(w.arch, w.child.mem, p, res.addr);
      OverwriteThenRestore(w.child.mem, p, ToLittleEndian(res.addr, 4), w.tcb.savedWord);
    }
  }

  lemma OverwriteThenRestore(mem: seq<byte>, p: nat, bs: seq<byte>, word: seq<byte>)
    requires |bs| <= |word| && p + |word| <= |mem|
    ensures PutAt(PutAt(mem, p, bs), p, word) == PutAt(mem, p, word)
  {
    var x, y := PutAt(PutAt(mem, p, bs), p, word), PutAt(mem, p, word);
    forall k | 0 <= k < |mem| ensures x[k] == y[k] {
      if p <= k < p + |word| { assert x[p..p + |word|][k - p] == word[k - p] == y[p..p + |word|][k - p]; }
    }
  }

  lemma OwnKeeps(w: World, ax: nat, mem: seq<byte>, execOk: bool)
    requires Inv(w) && Step(w, RunOwn(ax, mem, execOk)).Some?
    ensures Inv(Step(w, RunOwn(ax, mem, execOk)).value)
  {
    var v := Step(w, RunOwn(ax, mem, execOk)).value;
    forall k | 0 <= k < |v.executed| ensures Faithful(v.arch, v.execMode, v.requested[k], v.executed[k]) {
      if k < |w.executed| { assert v.executed[k] == w.executed[k]; }
    }
  }

  lemma LeaveKeeps(w: World)
    requires Inv(w) && Step(w, Leave).Some?
    ensures Inv(Step(w, Leave).value)
  {
    if w.tcb.settingUp {
      SmallMod(w.tcb.savedRegs.ip - 2, TWO_64);
      SmallMod(w.tcb.savedRegs.ip, TWO_64);
    }
  }

  lemma StepKeeps(w: World, e: Event)
    requires Inv(w) && Step(w, e).Some?
    ensures Inv(Step(w, e).value)
  {
    match e
    case Call(r, mem, h, freeAddr) =>
      var asked := Child(r, mem);
      EntryKeeps(w.(child := asked, call := Some(asked), requested := w.requested + [asked]), h, freeAddr);
    case Repeat(h, freeAddr) => EntryKeeps(w.(child := w.child.(regs := Enter(w.child.regs))), h, freeAddr);
    case RunInjected(res) => InjectedKeeps(w, res);
    case RunOwn(ax, mem, execOk) => OwnKeeps(w, ax, mem, execOk);
    case Leave => LeaveKeeps(w);
  }

  lemma {:induction false} RunKeeps(w: World, es: seq<Event>, v: World)
    requires Inv(w) && Run(w, es, v)
    ensures Inv(v)
    decreases es
  {
    if es != [] {
      StepKeeps(w, es[0]);
      RunKeeps(Step(w, es[0]).value, es[1..], v);
    }
  }

  /** Every run of the protocol, from a fresh tcb. A setup in progress has no segment yet, and there is none
      at a system call entry, so begin_setup_shmat's assertion cannot fail. Every injected call asks the kernel
      for the tracer's own segment, at no address and without flags. The kernel runs the child's calls
      once each and in order, with their own memory and registers but for redirected arguments; the last
      one asked for may still be outstanding. The segment is set up at most once between execve exits,
      whatever the tracer did with the execves, and outside exec mode at most once at all.
      While childshm is set it is the segment's address exactly when the last shmat attached and no execve
      has replaced the image since, and in exec mode none has when a call enters. */
  lemma EveryRun(w: World, es: seq<Event>, v: World)
    requires Initial(w) && Run(w, es, v)
    ensures v.tcb.settingUp ==> v.tcb.childshm == 0 && v.place != User
    ensures v.tcb.settingUp && v.place == Entered ==> AsksForSegment(v.arch, v.child.regs, v.shmid, v.tcb.savedAddr)
    ensures forall k :: 0 <= k < |v.injected| ==>
              v.injected[k].Shmat? && v.injected[k].id == v.shmid && v.injected[k].hint == 0 && v.injected[k].flags == 0
    ensures |v.requested| == |v.executed| + (if v.call.Some? then 1 else 0)
    ensures forall k :: 0 <= k < |v.executed| ==> Faithful(v.arch, v.execMode, v.requested[k], v.executed[k])
    ensures v.setups <= 1
    ensures v.tcb.childshm != 0 ==> (v.attached == v.tcb.childshm <==> v.lastSetupOk && !v.execdSince)
    ensures v.tcb.childshm != 0 && v.execMode && v.place == User ==> !v.execdSince
  {
    InitialInv(w);
    RunKeeps(w, es, v);
  }

  /** When a call is over, the segment is forgotten exactly if it was an execve, by its number, in exec mode; any
      other call leaves childshm as it is. */
  lemma ForgottenExactly(w: World, es: seq<Event>, v: World)
    requires Initial(w) && Run(w, es, v) && v.place == Returned && !v.tcb.settingUp
    ensures v.requested != [] && |v.executed| == |v.requested| && Step(v, Leave).Some?
    ensures var call, after := v.requested[|v.requested| - 1].regs.origAx, Step(v, Leave).value;
            var execve := if v.arch.X8664? then call == 59 else call == 11;
            after.tcb.childshm == if execve && v.execMode then 0 else v.tcb.childshm
  {
    InitialInv(w);
    RunKeeps(w, es, v);
  }

  /** After a finished injection the repeated call enters with exactly the state of the first entry and is
      not injected again: it runs next. */
  lemma RepeatRuns(w: World, es: seq<Event>, v: World, h: Handling, freeAddr: nat)
    requires Initial(w) && Run(w, es, v) && v.place == User && v.call.Some?
    ensures Enter(v.child.regs) == v.call.value.regs && v.child.mem == v.call.value.mem
    ensures Allowed(v.arch, v.execMode, v.call.value.regs, h) ==>
              Step(v, Repeat(h, freeAddr)).Some? && !Step(v, Repeat(h, freeAddr)).value.tcb.settingUp
  {
    InitialInv(w);
    RunKeeps(w, es, v);
  }

  /** In audit mode childshm outlives the image: the setup for one execve leaves a pointer that the
      execve itself makes dangle. */
  lemma AuditModeDangles(w: World, r: Regs, mem: seq<byte>, addr: nat) returns (es: seq<Event>, v: World)
    requires Initial(w) && w.arch.X8664? && !w.execMode
    requires IsExecve(w.arch, r) && r.ax == ENOSYS && 2 <= r.ip < TWO_64 && 0 < addr < TWO_64 - 4096
    ensures Run(w, es, v) && v.place == User && v.tcb.childshm == addr && v.attached == 0
  {
    var e0, e1, e2 := Call(r, mem, Rewrite(map[]), 0), RunInjected(Attached(addr)), Repeat(Rewrite(map[]), 0);
    var e3 := RunOwn(0, mem, true);
    var w1 := Step(w, e0).value;
    var w2 := Step(w1, e1).value;
    var w3 := Step(w2, Leave).value;
    var w4 := Step(w3, e2).value;
    var w5 := Step(w4, e3).value;
    v := Step(w5, Leave).value;
    RunOne(w5, Leave, [], v);
    RunOne(w4, e3, [Leave], v);
    RunOne(w3, e2, [e3] + [Leave], v);
    RunOne(w2, Leave, [e2] + ([e3] + [Leave]), v);
    RunOne(w1, e1, [Leave] + ([e2] + ([e3] + [Leave])), v);
    RunOne(w, e0, [e1] + ([Leave] + ([e2] + ([e3] + [Leave]))), v);
    es := [e0] + ([e1] + ([Leave] + ([e2] + ([e3] + [Leave]))));
  }

  lemma RunOne(w: World, e: Event, rest: seq<Event>, v: World)
    requires Step(w, e).Some? && Run(Step(w, e).value, rest, v)
    ensures Run(w, [e] + rest, v)
  {
    assert ([e] + rest)[1..] == rest;
  }
}
