/**
  Functional specification of the Pintos system-call layer
  (src/userprog/syscall.c): how a trapped frame is decoded, which user
  addresses are accepted, and what each handler does to the calling
  process. The imperative handlers in module Syscall are proved equal to
  these functions; the lemmas here state what the functions guarantee.
*/
module SyscallSpec {

  import opened Wrappers
  import opened Machine
  import opened Decimal

  /** Lowest address at which a user program image is loaded. */
  const IMAGE_BASE: int := 0x0804_8000

  /** The system calls, numbered 0 to 12 in this order. */
  datatype SyscallNr =
    | Halt | Exit | Exec | Wait | Create | Remove | Open
    | Filesize | Read | Write | Seek | Tell | Close

  function NrCode(nr: SyscallNr): Word
  {
    match nr
    case Halt => 0
    case Exit => 1
    case Exec => 2
    case Wait => 3
    case Create => 4
    case Remove => 5
    case Open => 6
    case Filesize => 7
    case Read => 8
    case Write => 9
    case Seek => 10
    case Tell => 11
    case Close => 12
  }

  /** The `case` label a syscall number selects; None is the `default` branch. */
  function DecodeNr(n: Word): (r: Option<SyscallNr>)
    ensures r.Some? ==> NrCode(r.value) == n
  {
    if n == 0 then Some(Halt)
    else if n == 1 then Some(Exit)
    else if n == 2 then Some(Exec)
    else if n == 3 then Some(Wait)
    else if n == 4 then Some(Create)
    else if n == 5 then Some(Remove)
    else if n == 6 then Some(Open)
    else if n == 7 then Some(Filesize)
    else if n == 8 then Some(Read)
    else if n == 9 then Some(Write)
    else if n == 10 then Some(Seek)
    else if n == 11 then Some(Tell)
    else if n == 12 then Some(Close)
    else None
  }

  /** Every number selects the call it encodes, and only numbers 0 to 12 select any call. */
  lemma DecodeNrCode(n: Word, nr: SyscallNr)
    ensures DecodeNr(n) == Some(nr) <==> n == NrCode(nr)
    ensures DecodeNr(n).None? <==> !(0 <= n <= 12)
  {
  }

  /** How many argument words the dispatcher copies for each call. */
  function ArgCount(nr: SyscallNr): (r: nat)
    ensures r <= 3 && (nr == Halt ==> r == 0)
  {
    match nr
    case Exit | Exec | Wait | Remove | Open => 1
    case Create => 2
    case Write => 3
    case Halt | Filesize | Read | Seek | Tell | Close => 0
  }

  // ---------------------------------------------------------------------
  // The calling process and its environment

  /** The `struct file` object that the file system hands out. */
  type FileRef = nat

  /** An element of a thread's `files_list`: an open file and its descriptor. */
  datatype OpenFile = OpenFile(file: FileRef, fd: int)

  /**
    What the handlers change: the console output, the current thread's
    `exit_status` and `files_list`, and the global descriptor counter.
  */
  datatype Proc = Proc(output: seq<Byte>, exitStatus: int, files: seq<OpenFile>, nextFid: int)

  /**
    What the handlers only read: the current thread's name, its address
    space (the bytes readable at each address) and the set of user pages its
    page directory maps.
  */
  datatype Context = Context(name: seq<Byte>, mem: Memory, mapped: set<Addr>)

  /**
    The answers of the file system and process collaborators for one trap.
    `filesysOpen` answers None for a NULL `struct file *`.
  */
  datatype Env = Env(
    filesysCreate: (Addr, U32) -> bool,
    filesysOpen: Addr -> Option<FileRef>,
    filesysRemove: Addr -> bool,
    processExecute: Addr -> Word,
    processWait: Word -> Word)

  /**
    Descriptors start at 2, every descriptor in `files_list` was issued
    before the counter's current value, and they appear in issuing order.
  */
  ghost predicate ValidProc(s: Proc)
  {
    && 2 <= s.nextFid
    && (forall i :: 0 <= i < |s.files| ==> 2 <= s.files[i].fd < s.nextFid)
    && (forall i, j :: 0 <= i < j < |s.files| ==> s.files[i].fd < s.files[j].fd)
  }

  /** Mapped pages are page-aligned user pages, and a user address is readable iff its page is mapped. */
  ghost predicate ValidContext(ctx: Context)
  {
    && (forall p :: p in ctx.mapped ==> p % PGSIZE == 0 && IsUserVaddr(p))
    && (forall a: Addr :: IsUserVaddr(a) ==> (a in ctx.mem <==> PgRoundDown(a) in ctx.mapped))
  }

  // ---------------------------------------------------------------------
  // Address checks

  /**
    `file_available`: 0 above PHYS_BASE, 0 below the image base, 0 when the
    page directory has no page for the address, otherwise 1.
  */
  function FileAvailable(addr: Addr, mapped: set<Addr>): (r: int)
    ensures r == 0 || r == 1
    ensures r == 1 ==> IMAGE_BASE <= addr <= PHYS_BASE
  {
    if addr > PHYS_BASE then 0
    else if addr < IMAGE_BASE then 0
    else if PgRoundDown(addr) !in mapped then 0
    else 1
  }

  /** `file_available` accepts exactly the mapped addresses from the image base up to and including PHYS_BASE. */
  lemma FileAvailableIff(addr: Addr, mapped: set<Addr>)
    ensures FileAvailable(addr, mapped) == 0 || FileAvailable(addr, mapped) == 1
    ensures FileAvailable(addr, mapped) == 1 <==>
      IMAGE_BASE <= addr <= PHYS_BASE && PgRoundDown(addr) in mapped
  {
  }

  /**
    The range test lets PHYS_BASE itself through (the comparison is `>`);
    only the modelled page lookup rejects it, and in a well-formed address space it does.
  */
  lemma FileAvailableAtPhysBase(ctx: Context)
    ensures IMAGE_BASE <= PHYS_BASE && !(PHYS_BASE > PHYS_BASE)
    ensures FileAvailable(PHYS_BASE, ctx.mapped) == (if PHYS_BASE in ctx.mapped then 1 else 0)
    ensures ValidContext(ctx) ==> FileAvailable(PHYS_BASE, ctx.mapped) == 0
  {
    assert PgRoundDown(PHYS_BASE) == PHYS_BASE;
  }

  /** An address `file_available` accepts is a user address that can be read without faulting. */
  lemma FileAvailableIsReadable(ctx: Context, addr: Addr)
    requires ValidContext(ctx)
    requires FileAvailable(addr, ctx.mapped) == 1
    ensures IsUserVaddr(addr) && addr in ctx.mem
  {
    var p := PgRoundDown(addr);
    assert p in ctx.mapped;
    assert IsUserVaddr(p);
  }

  // ---------------------------------------------------------------------
  // Copying the argument words

  /** `(int*)base + i`: the address of argument slot `i`. */
  function Slot(base: Addr, i: nat): Addr
  {
    Offset(base, 4 * i)
  }

  /** Slot `i` passes `available_addr` and its word can be read. */
  predicate SlotOk(m: Memory, base: Addr, i: nat)
  {
    IsUserVaddr(Slot(base, i)) && LoadWord(m, Slot(base, i)).Loaded?
  }

  /**
    What `get_args` achieves: all the words, or the index of the slot at
    which it stopped, either because `available_addr` ended the process or
    because reading the slot faulted.
  */
  datatype ArgRead = Args(words: seq<Word>) | BadSlot(index: nat) | SlotFault(index: nat, addr: Addr)

  /** `get_args(base, arg, count)`, slot by slot from slot 0. */
  function ReadArgs(m: Memory, base: Addr, count: nat): (r: ArgRead)
    ensures r.Args? ==> |r.words| == count
    ensures !r.Args? ==> r.index < count
    decreases count
  {
    if count == 0 then Args([])
    else match ReadArgs(m, base, count - 1)
      case Args(ws) =>
        var a := Slot(base, count - 1);
        if !IsUserVaddr(a) then BadSlot(count - 1)
        else (match LoadWord(m, a)
          case PageFault(p) => SlotFault(count - 1, p)
          case Loaded(w) => Args(ws + [w]))
      case stopped => stopped
  }

  /**
    `get_args` copies all `count` words exactly when every slot is a user
    address that can be read.
  */
  lemma {:induction false} ReadArgsSucceeds(m: Memory, base: Addr, n: nat)
    ensures ReadArgs(m, base, n).Args? <==> forall i :: 0 <= i < n ==> SlotOk(m, base, i)
    decreases n
  {
    if n > 0 {
      ReadArgsSucceeds(m, base, n - 1);
      if ReadArgs(m, base, n - 1).Args? && !SlotOk(m, base, n - 1) {
        assert !ReadArgs(m, base, n).Args?;
      }
    }
  }

  /** On success, word i of the copy is the word stored in slot i. */
  lemma {:induction false} ReadArgsWords(m: Memory, base: Addr, n: nat)
    ensures ReadArgs(m, base, n).Args? ==>
      forall i :: 0 <= i < n ==> Loaded(ReadArgs(m, base, n).words[i]) == LoadWord(m, Slot(base, i))
    decreases n
  {
    if n > 0 && ReadArgs(m, base, n).Args? {
      ReadArgsWords(m, base, n - 1);
      var ws := ReadArgs(m, base, n - 1).words;
      assert ReadArgs(m, base, n).words == ws + [LoadWord(m, Slot(base, n - 1)).value];
    }
  }

  /**
    When `get_args` stops, every slot before the one it stopped at was
    accepted and read, and that one was refused by `available_addr` or
    faulted.
  */
  lemma {:induction false} ReadArgsStops(m: Memory, base: Addr, n: nat)
    ensures !ReadArgs(m, base, n).Args? ==>
      && (forall i :: 0 <= i < ReadArgs(m, base, n).index ==> SlotOk(m, base, i))
      && (ReadArgs(m, base, n).BadSlot? ==> !IsUserVaddr(Slot(base, ReadArgs(m, base, n).index)))
      && (ReadArgs(m, base, n).SlotFault? ==>
          && IsUserVaddr(Slot(base, ReadArgs(m, base, n).index))
          && LoadWord(m, Slot(base, ReadArgs(m, base, n).index)) == PageFault(ReadArgs(m, base, n).addr))
    decreases n
  {
    if n > 0 {
      var r := ReadArgs(m, base, n);
      var prev := ReadArgs(m, base, n - 1);
      if !r.Args? {
        if prev.Args? {
          ReadArgsSucceeds(m, base, n - 1);
          assert r.index == n - 1;
        } else {
          ReadArgsStops(m, base, n - 1);
          assert r == prev;
        }
      }
    }
  }

  /** Once `get_args` has stopped, reading further slots changes nothing. */
  lemma {:induction false} ReadArgsPersists(m: Memory, base: Addr, k: nat, n: nat)
    requires k <= n
    requires !ReadArgs(m, base, k).Args?
    ensures ReadArgs(m, base, n) == ReadArgs(m, base, k)
    decreases n
  {
    if k < n {
      ReadArgsPersists(m, base, k, n - 1);
    }
  }

  /**
    The first slot at or above PHYS_BASE ends `get_args`, whatever the slots
    after it hold.
  */
  lemma ReadArgsStopsAtFirstBadSlot(m: Memory, base: Addr, n: nat, j: nat)
    requires j < n
    requires forall i :: 0 <= i < j ==> SlotOk(m, base, i)
    requires !IsUserVaddr(Slot(base, j))
    ensures ReadArgs(m, base, n) == BadSlot(j)
  {
    ReadArgsSucceeds(m, base, j);
    assert ReadArgs(m, base, j + 1) == BadSlot(j);
    ReadArgsPersists(m, base, j + 1, n);
  }

  // ---------------------------------------------------------------------
  // Handlers

  /** How a handler ends: it returns a value, or the process exits, or the kernel faults. */
  datatype Ret<+T> = Returns(value: T) | Exits(status: Word) | Faults(addr: Addr)

  /** A handler's effect on the process together with how it ended. */
  datatype Step<+T> = Step(proc: Proc, ret: Ret<T>)

  /** The line `exit` prints: "<name>: exit(<status>)\n". */
  function ExitMessage(name: seq<Byte>, status: int): seq<Byte>
  {
    name + Ascii(": exit(") + FormatInt(status) + Ascii(")\n")
  }

  /** `exit(status)`: the message is printed and `exit_status` recorded. */
  function ExitSpec(s: Proc, name: seq<Byte>, status: int): (r: Proc)
    ensures r.exitStatus == status && r.files == s.files && r.nextFid == s.nextFid
    ensures s.output < r.output
  {
    s.(output := s.output + ExitMessage(name, status), exitStatus := status)
  }

  /** The exit message names the thread and carries a status that reads back as the one given. */
  lemma ExitMessageStatus(name: seq<Byte>, status: int)
    ensures var msg := ExitMessage(name, status);
      var text := FormatInt(status);
      && msg[..|name|] == name
      && msg[|name|..|name| + 7] == Ascii(": exit(")
      && msg[|name| + 7..|msg| - 2] == text
      && msg[|msg| - 2..] == Ascii(")\n")
      && ParseInt(text) == status
  {
    FormatIntRoundTrip(status);
  }

  /** `exit(42)` from a thread named "child" prints "child: exit(42)". */
  lemma ExitMessageChild()
    ensures ExitMessage(Ascii("child"), 42) == Ascii("child: exit(42)\n")
  {
    assert FormatInt(42) == Ascii("42");
  }

  /**
    `create(file, initial_size)`: a NULL or unavailable path ends the process
    with status -1; otherwise the file system's answer is returned.
  */
  function CreateSpec(s: Proc, ctx: Context, env: Env, file: Addr, initialSize: U32): (r: Step<bool>)
    ensures !r.ret.Faults?
    ensures r.ret.Returns? ==> r.proc == s && file != 0
    ensures r.ret.Exits? ==> r.ret.status == -1 && r.proc.exitStatus == -1 && r.proc.files == s.files && r.proc.nextFid == s.nextFid
  {
    if file == 0 then Step(ExitSpec(s, ctx.name, -1), Exits(-1))
    else if FileAvailable(file, ctx.mapped) == 0 then Step(ExitSpec(s, ctx.name, -1), Exits(-1))
    else Step(s, Returns(env.filesysCreate(file, initialSize)))
  }

  /**
    `create` validates its path before it consults the file system: a path
    that is NULL or fails `file_available` ends the process with status -1
    whatever the file system would answer; any other path leaves the process
    unchanged and returns the file system's answer.
  */
  lemma CreateValidatesFirst(s: Proc, ctx: Context, env: Env, env': Env, file: Addr, size: U32)
    ensures file == 0 || FileAvailable(file, ctx.mapped) != 1 ==>
      && CreateSpec(s, ctx, env, file, size) == CreateSpec(s, ctx, env', file, size)
      && CreateSpec(s, ctx, env, file, size) == Step(ExitSpec(s, ctx.name, -1), Exits(-1))
    ensures file != 0 && FileAvailable(file, ctx.mapped) == 1 ==>
      CreateSpec(s, ctx, env, file, size) == Step(s, Returns(env.filesysCreate(file, size)))
  {
    FileAvailableIff(file, ctx.mapped);
  }

  /**
    `open(file)`: -1 when the path is unavailable or the file system cannot
    open it; otherwise the next descriptor, recorded at the back of
    `files_list`.
  */
  function OpenSpec(s: Proc, mapped: set<Addr>, env: Env, file: Addr): (r: Step<int>)
    ensures r.ret.Returns? && (r.ret.value == -1 || r.ret.value == s.nextFid)
    ensures r.proc.output == s.output && r.proc.exitStatus == s.exitStatus
  {
    if FileAvailable(file, mapped) == 0 then Step(s, Returns(-1))
    else match env.filesysOpen(file)
      case None => Step(s, Returns(-1))
      case Some(f) =>
        Step(s.(files := s.files + [OpenFile(f, s.nextFid)], nextFid := s.nextFid + 1), Returns(s.nextFid))
  }

  /**
    `open` has two outcomes. It fails with -1, leaving `files_list` and the
    counter as they were, exactly when the path is unavailable or the file
    system returns NULL. Otherwise it returns a descriptor larger than every
    descriptor issued before, and `files_list` gains exactly that one entry at
    its back.
  */
  lemma OpenOutcomes(s: Proc, mapped: set<Addr>, env: Env, file: Addr)
    requires ValidProc(s)
    ensures var st := OpenSpec(s, mapped, env, file);
      && st.ret.Returns?
      && ValidProc(st.proc)
      && (st.ret.value == -1 <==> FileAvailable(file, mapped) != 1 || env.filesysOpen(file).None?)
      && (st.ret.value == -1 ==> st.proc == s)
      && (st.ret.value != -1 ==>
          && st.ret.value == s.nextFid
          && st.proc.files == s.files + [OpenFile(env.filesysOpen(file).value, st.ret.value)]
          && st.proc.nextFid == st.ret.value + 1
          && (forall i :: 0 <= i < |s.files| ==> s.files[i].fd < st.ret.value)
          && st.proc.output == s.output && st.proc.exitStatus == s.exitStatus)
  {
    FileAvailableIff(file, mapped);
  }

  /**
    `write(fd, buffer, size)`: to the console (fd 1) the `size` bytes at
    `buffer` are output and `size` returned; any other fd returns -1.
  */
  function WriteSpec(s: Proc, mem: Memory, fd: Word, buffer: Addr, size: U32): (r: Step<int>)
    ensures r.proc.files == s.files && r.proc.nextFid == s.nextFid && r.proc.exitStatus == s.exitStatus
    ensures r.ret.Faults? ==> fd == 1 && r.proc == s
    ensures fd != 1 ==> r.ret == Returns(-1) && r.proc == s
  {
    if fd == 1 then
      match LoadBytes(mem, buffer, size)
      case PageFault(p) => Step(s, Faults(p))
      case Loaded(bytes) => Step(s.(output := s.output + bytes), Returns(ToI32(size)))
    else Step(s, Returns(-1))
  }

  /**
    A console write outputs exactly the `size` bytes at `buffer`, in order,
    and its result read as `unsigned` is `size`; a write to any other
    descriptor outputs nothing and returns -1.
  */
  lemma WriteOutcomes(s: Proc, mem: Memory, fd: Word, buffer: Addr, size: U32)
    ensures var st := WriteSpec(s, mem, fd, buffer, size);
      && st.proc.files == s.files && st.proc.nextFid == s.nextFid && st.proc.exitStatus == s.exitStatus
      && (fd != 1 ==> st == Step(s, Returns(-1)))
      && (fd == 1 && (forall i :: 0 <= i < size ==> Offset(buffer, i) in mem) ==>
          && st.ret.Returns? && ToU32(st.ret.value) == size
          && |st.proc.output| == |s.output| + size
          && st.proc.output[..|s.output|] == s.output
          && (forall i :: 0 <= i < size ==> st.proc.output[|s.output| + i] == mem[Offset(buffer, i)]))
      && (fd == 1 && !(forall i :: 0 <= i < size ==> Offset(buffer, i) in mem) ==>
          st.ret.Faults? && st.proc == s)
  {
    LoadBytesAt(mem, buffer, size);
  }

  // ---------------------------------------------------------------------
  // The dispatcher

  /** How a trap ends. */
  datatype Outcome =
    | Resumed             // the handler returned to user mode
    | Exited(status: Word) // the thread was ended through `exit`
    | PoweredOff          // `halt`
    | Faulted(addr: Addr)  // the kernel dereferenced an unmapped address

  /** The process, the result register and the ending of a trap. */
  datatype Trap = Trap(proc: Proc, eax: U32, outcome: Outcome)

  /** A C `bool` stored in `eax`. */
  function BoolWord(b: bool): U32
  {
    if b then 1 else 0
  }

  /** Ends a trap after a handler: its result goes to `eax` when it returns. */
  function Complete<T>(st: Step<T>, eax: U32, word: T -> U32): Trap
  {
    match st.ret
    case Returns(v) => Trap(st.proc, word(v), Resumed)
    case Exits(c) => Trap(st.proc, eax, Exited(c))
    case Faults(a) => Trap(st.proc, eax, Faulted(a))
  }

  /** The body of one `case` of the dispatcher, given the copied argument words. */
  function Invoke(nr: SyscallNr, args: seq<Word>, s: Proc, ctx: Context, eax: U32, env: Env): (r: Trap)
    requires |args| == ArgCount(nr)
    ensures r.outcome.PoweredOff? <==> nr == Halt
    ensures r.outcome.Exited? ==> r.proc.exitStatus == r.outcome.status
  {
    match nr
    case Exit => Trap(ExitSpec(s, ctx.name, args[0]), eax, Exited(args[0]))
    case Exec => Trap(s, ToU32(env.processExecute(ToU32(args[0]))), Resumed)
    case Wait => Trap(s, ToU32(env.processWait(args[0])), Resumed)
    case Create => Complete(CreateSpec(s, ctx, env, ToU32(args[0]), ToU32(args[1])), eax, BoolWord)
    case Remove => Trap(s, BoolWord(env.filesysRemove(ToU32(args[0]))), Resumed)
    case Open => Complete(OpenSpec(s, ctx.mapped, env, ToU32(args[0])), eax, ToU32)
    case Write => Complete(WriteSpec(s, ctx.mem, args[0], ToU32(args[1]), ToU32(args[2])), eax, ToU32)
    case Halt => Trap(s, eax, PoweredOff)
    case Filesize | Read | Seek | Tell | Close => Trap(s, eax, Resumed)
  }

  /**
    `syscall_handler`: reads the call number at `esp`, copies the call's
    argument words from `esp + 4` on, and runs the handler.
  */
  function Handle(s: Proc, ctx: Context, esp: Addr, eax: U32, env: Env): (r: Trap)
    ensures r.outcome.PoweredOff? ==> LoadWord(ctx.mem, esp) == Loaded(NrCode(Halt))
    ensures r.outcome.Exited? ==> r.proc.exitStatus == r.outcome.status
  {
    match LoadWord(ctx.mem, esp)
    case PageFault(p) => Trap(s, eax, Faulted(p))
    case Loaded(n) =>
      match DecodeNr(n)
      case None => Trap(s, eax, Resumed)
      case Some(nr) => HandleCall(nr, s, ctx, esp, eax, env)
  }

  /** One `case` of the dispatcher: `halt`, or the argument copy followed by the handler. */
  function HandleCall(nr: SyscallNr, s: Proc, ctx: Context, esp: Addr, eax: U32, env: Env): (r: Trap)
    ensures r.outcome.PoweredOff? <==> nr == Halt
    ensures r.outcome.Exited? ==> r.proc.exitStatus == r.outcome.status
  {
    if nr == Halt then Trap(s, eax, PoweredOff)
    else match ReadArgs(ctx.mem, Offset(esp, 4), ArgCount(nr))
      case BadSlot(_) => Trap(ExitSpec(s, ctx.name, -1), eax, Exited(-1))
      case SlotFault(_, p) => Trap(s, eax, Faulted(p))
      case Args(ws) => Invoke(nr, ws, s, ctx, eax, env)
  }

  /** Argument slot i of a trap lies at `esp + 4 + 4 * i`. */
  lemma ArgSlotAddress(esp: Addr, i: nat)
    ensures Slot(Offset(esp, 4), i) == Offset(esp, 4 + 4 * i)
  {
    OffsetAdd(esp, 4, 4 * i);
  }

  /**
    When the first ArgCount(nr) slots above the number are readable user
    addresses, the handler runs on exactly the words stored at
    `esp + 4 + 4 * i` for i < ArgCount(nr), whatever lies beyond them.
  */
  lemma HandleUsesArgWords(s: Proc, ctx: Context, esp: Addr, eax: U32, env: Env, nr: SyscallNr)
    requires LoadWord(ctx.mem, esp) == Loaded(NrCode(nr)) && nr != Halt
    requires forall i :: 0 <= i < ArgCount(nr) ==> SlotOk(ctx.mem, Offset(esp, 4), i)
    ensures ReadArgs(ctx.mem, Offset(esp, 4), ArgCount(nr)).Args?
    ensures var ws := ReadArgs(ctx.mem, Offset(esp, 4), ArgCount(nr)).words;
      && |ws| == ArgCount(nr)
      && (forall i :: 0 <= i < |ws| ==> Loaded(ws[i]) == LoadWord(ctx.mem, Offset(esp, 4 + 4 * i)))
      && Handle(s, ctx, esp, eax, env) == Invoke(nr, ws, s, ctx, eax, env)
  {
    DecodeNrCode(NrCode(nr), nr);
    ReadArgsSucceeds(ctx.mem, Offset(esp, 4), ArgCount(nr));
    ReadArgsWords(ctx.mem, Offset(esp, 4), ArgCount(nr));
    forall i | 0 <= i < ArgCount(nr) {
      ArgSlotAddress(esp, i);
    }
  }

  /**
    The first argument slot at or above PHYS_BASE among the ArgCount(nr) the
    call copies ends the process with status -1; `eax` is left alone and no
    handler runs.
  */
  lemma HandleKillsOnBadSlot(s: Proc, ctx: Context, esp: Addr, eax: U32, env: Env, nr: SyscallNr, j: nat)
    requires LoadWord(ctx.mem, esp) == Loaded(NrCode(nr)) && nr != Halt
    requires j < ArgCount(nr) && !IsUserVaddr(Offset(esp, 4 + 4 * j))
    requires forall i :: 0 <= i < j ==> SlotOk(ctx.mem, Offset(esp, 4), i)
    ensures Handle(s, ctx, esp, eax, env) == Trap(ExitSpec(s, ctx.name, -1), eax, Exited(-1))
  {
    DecodeNrCode(NrCode(nr), nr);
    ArgSlotAddress(esp, j);
    ReadArgsStopsAtFirstBadSlot(ctx.mem, Offset(esp, 4), ArgCount(nr), j);
  }

  /**
    `halt`, the five unimplemented calls and unknown numbers read no argument
    slot: halt powers off, the others return leaving everything, `eax`
    included, as it was.
  */
  lemma HandleArglessCalls(s: Proc, ctx: Context, esp: Addr, eax: U32, env: Env)
    requires LoadWord(ctx.mem, esp).Loaded?
    ensures var n := LoadWord(ctx.mem, esp).value;
      && (n == NrCode(Halt) ==> Handle(s, ctx, esp, eax, env) == Trap(s, eax, PoweredOff))
      && (DecodeNr(n).None? || DecodeNr(n).value in {Filesize, Read, Seek, Tell, Close} ==>
          Handle(s, ctx, esp, eax, env) == Trap(s, eax, Resumed))
  {
  }

  /** Each handler, run on its copied argument words, keeps the descriptor discipline. */
  lemma InvokePreservesValid(nr: SyscallNr, args: seq<Word>, s: Proc, ctx: Context, eax: U32, env: Env)
    requires |args| == ArgCount(nr)
    requires ValidProc(s)
    ensures var t := Invoke(nr, args, s, ctx, eax, env);
      && ValidProc(t.proc)
      && s.nextFid <= t.proc.nextFid
      && s.files <= t.proc.files
  {
    match nr
    case Open => OpenOutcomes(s, ctx.mapped, env, ToU32(args[0]));
    case Write => WriteOutcomes(s, ctx.mem, args[0], ToU32(args[1]), ToU32(args[2]));
    case Create => assert CreateSpec(s, ctx, env, ToU32(args[0]), ToU32(args[1])).proc.files == s.files;
    case _ =>
  }

  /**
    No trap undoes the descriptor discipline: the counter never goes back,
    `files_list` only grows at its back, and descriptors stay unique and in
    issuing order.
  */
  lemma HandlePreservesValid(s: Proc, ctx: Context, esp: Addr, eax: U32, env: Env)
    requires ValidProc(s)
    ensures var t := Handle(s, ctx, esp, eax, env);
      && ValidProc(t.proc)
      && s.nextFid <= t.proc.nextFid
      && s.files <= t.proc.files
  {
    match LoadWord(ctx.mem, esp)
    case PageFault(_) =>
    case Loaded(n) =>
      match DecodeNr(n)
      case None =>
      case Some(nr) =>
        var read := ReadArgs(ctx.mem, Offset(esp, 4), ArgCount(nr));
        if nr != Halt && read.Args? {
          InvokePreservesValid(nr, read.words, s, ctx, eax, env);
        }
  }
}
