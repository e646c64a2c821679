/**
  The system-call layer as the kernel runs it (src/userprog/syscall.c):
  `get_args` fills an argument array slot by slot, `new_fid` bumps a
  counter, `open` appends to the thread's `files_list`, `exit` records the
  status, and the dispatcher stores each handler's result in the trapped
  frame's `eax`. Each method is proved to do what the matching function of
  module SyscallSpec describes.
*/
module Syscall {

  import opened Wrappers
  import opened Machine
  import opened SyscallSpec

  /** The trapped register frame: the user stack pointer and the result register. */
  class IntrFrame {
    const esp: Addr
    var eax: U32

    constructor (esp: Addr, eax: U32)
      ensures this.esp == esp && this.eax == eax
    {
      this.esp := esp;
      this.eax := eax;
    }
  }

  /**
    The state a system call of the current thread can see: the thread's name
    and address space (read only here), the console output, the thread's
    `exit_status` and `files_list`, the global descriptor counter, and
    whether the global file-system lock is held.
  */
  class Kernel {
    const name: seq<Byte>
    const mem: Memory
    const mapped: set<Addr>
    var output: seq<Byte>
    var exitStatus: int
    var files: seq<OpenFile>
    var nextFid: int
    ghost var filesysLockHeld: bool

    function State(): Proc
      reads this
    {
      Proc(output, exitStatus, files, nextFid)
    }

    function Ctx(): Context
    {
      Context(name, mem, mapped)
    }

    /** Between system calls the descriptor discipline holds and the file-system lock is free. */
    ghost predicate Valid()
      reads this
    {
      ValidProc(State()) && ValidContext(Ctx()) && !filesysLockHeld
    }

    /**
      A thread about to trap, with no file open yet. The console output and
      the descriptor counter are shared by all threads, so they start from
      whatever earlier threads left: the counter is at least its initial 2.
    */
    constructor (name: seq<Byte>, mem: Memory, mapped: set<Addr>, output: seq<Byte>, exitStatus: int, fid: int)
      requires ValidContext(Context(name, mem, mapped))
      requires 2 <= fid
      ensures Valid()
      ensures Ctx() == Context(name, mem, mapped)
      ensures State() == Proc(output, exitStatus, [], fid)
    {
      this.name := name;
      this.mem := mem;
      this.mapped := mapped;
      this.output := output;
      this.exitStatus := exitStatus;
      files := [];
      nextFid := fid;
      filesysLockHeld := false;
    }

    method AcquireFilesysLock()
      requires !filesysLockHeld
      modifies this`filesysLockHeld
      ensures filesysLockHeld
    {
      filesysLockHeld := true;
    }

    method ReleaseFilesysLock()
      requires filesysLockHeld
      modifies this`filesysLockHeld
      ensures !filesysLockHeld
    {
      filesysLockHeld := false;
    }

    /** `filesys_create(file, initial_size)`, which may only be called with the file-system lock held. */
    method FilesysCreate(env: Env, file: Addr, initialSize: U32) returns (created: bool)
      requires filesysLockHeld
      ensures created == env.filesysCreate(file, initialSize)
    {
      created := env.filesysCreate(file, initialSize);
    }

    /** `filesys_open(file)`, which may only be called with the file-system lock held. */
    method FilesysOpen(env: Env, file: Addr) returns (f: Option<FileRef>)
      requires filesysLockHeld
      ensures f == env.filesysOpen(file)
    {
      f := env.filesysOpen(file);
    }

    /** `process_execute(cmd_line)`, which may only be called with the file-system lock held. */
    method ProcessExecute(env: Env, cmdLine: Addr) returns (tid: Word)
      requires filesysLockHeld
      ensures tid == env.processExecute(cmdLine)
    {
      tid := env.processExecute(cmdLine);
    }

    /** `exit(status)`: prints the exit line and records the status; the thread then ends. */
    method Exit(status: Word)
      modifies this`output, this`exitStatus
      ensures State() == ExitSpec(old(State()), name, status)
    {
      output := output + ExitMessage(name, status);
      exitStatus := status;
    }

    /** `available_addr(addr)`: ends the process with status -1 unless `addr` is a user address. */
    method AvailableAddr(addr: Addr) returns (exited: bool)
      modifies this`output, this`exitStatus
      ensures exited == !IsUserVaddr(addr)
      ensures State() == if exited then ExitSpec(old(State()), name, -1) else old(State())
    {
      exited := false;
      if !IsUserVaddr(addr) {
        Exit(-1);
        exited := true;
      }
    }

    /**
      `get_args(esp, args, count)`: checks and copies slot after slot. Up to
      the slot where it stops, `args` holds the words read; from there on
      `args` is untouched.
    */
    method GetArgs(esp: Addr, args: array<Word>, count: nat) returns (r: ArgRead)
      requires count <= args.Length
      modifies this`output, this`exitStatus, args
      ensures r == ReadArgs(mem, esp, count)
      ensures var stop := if r.Args? then count else r.index;
        && ReadArgs(mem, esp, stop) == Args(args[..stop])
        && forall k :: stop <= k < args.Length ==> args[k] == old(args[k])
      ensures State() == if r.BadSlot? then ExitSpec(old(State()), name, -1) else old(State())
    {
      var i := 0;
      while i < count
        invariant i <= count
        invariant ReadArgs(mem, esp, i) == Args(args[..i])
        invariant forall k :: i <= k < args.Length ==> args[k] == old(args[k])
        invariant State() == old(State())
      {
        var temp := Offset(esp, 4 * i);
        var exited := AvailableAddr(temp);
        if exited {
          r := BadSlot(i);
          assert ReadArgs(mem, esp, i + 1) == r;
          ReadArgsPersists(mem, esp, i + 1, count);
          return;
        }
        var word := LoadWord(mem, temp);
        if word.PageFault? {
          r := SlotFault(i, word.addr);
          assert ReadArgs(mem, esp, i + 1) == r;
          ReadArgsPersists(mem, esp, i + 1, count);
          return;
        }
        args[i] := word.value;
        assert args[..i + 1] == args[..i] + [word.value];
        assert ReadArgs(mem, esp, i + 1) == Args(args[..i + 1]);
        i := i + 1;
      }
      r := Args(args[..count]);
    }

    /** `new_fid`: returns the counter and advances it by one. */
    method NewFid() returns (fid: int)
      modifies this`nextFid
      ensures fid == old(nextFid) && nextFid == fid + 1
      ensures old(ValidProc(State())) ==>
        && ValidProc(State()) && 2 <= fid
        && forall i :: 0 <= i < |files| ==> files[i].fd < fid
    {
      fid := nextFid;
      nextFid := nextFid + 1;
    }

    /** `create(file, initial_size)`; the file system is consulted under the lock, which is released. */
    method Create(env: Env, file: Addr, initialSize: U32) returns (r: Ret<bool>)
      requires !filesysLockHeld
      modifies this`output, this`exitStatus, this`filesysLockHeld
      ensures !filesysLockHeld
      ensures Step(State(), r) == CreateSpec(old(State()), Ctx(), env, file, initialSize)
    {
      if file == 0 {
        Exit(-1);
        return Exits(-1);
      }
      if FileAvailable(file, mapped) == 0 {
        Exit(-1);
        return Exits(-1);
      }
      AcquireFilesysLock();
      var created := FilesysCreate(env, file, initialSize);
      ReleaseFilesysLock();
      r := Returns(created);
    }

    /** `remove(file)`: the file system's answer, with no check of the path. */
    method Remove(env: Env, file: Addr) returns (removed: bool)
      ensures removed == env.filesysRemove(file)
    {
      removed := env.filesysRemove(file);
    }

    /** `exec(cmd_line)`: the new process's id, obtained under the file-system lock, which is released. */
    method Exec(env: Env, cmdLine: Addr) returns (tid: Word)
      requires !filesysLockHeld
      modifies this`filesysLockHeld
      ensures !filesysLockHeld
      ensures tid == env.processExecute(cmdLine)
    {
      AcquireFilesysLock();
      tid := ProcessExecute(env, cmdLine);
      ReleaseFilesysLock();
    }

    /** `wait(pid)`: the status the process collaborator reports. */
    method Wait(env: Env, pid: Word) returns (status: Word)
      ensures status == env.processWait(pid)
    {
      status := env.processWait(pid);
    }

    /** `write(fd, buffer, size)`: only the console is served. */
    method Write(fd: Word, buffer: Addr, size: U32) returns (r: Ret<int>)
      modifies this`output
      ensures Step(State(), r) == WriteSpec(old(State()), mem, fd, buffer, size)
    {
      if fd == 1 {
        var bytes := LoadBytes(mem, buffer, size);
        if bytes.PageFault? {
          return Faults(bytes.addr);
        }
        output := output + bytes.value;
        return Returns(ToI32(size));
      }
      r := Returns(-1);
    }

    /**
      `open(file)`: on success a fresh descriptor from `new_fid` is pushed at
      the back of `files_list`; the lock taken for the file system is released.
    */
    method Open(env: Env, file: Addr) returns (fd: int)
      requires !filesysLockHeld
      modifies this`files, this`nextFid, this`filesysLockHeld
      ensures !filesysLockHeld
      ensures Step(State(), Returns(fd)) == OpenSpec(old(State()), mapped, env, file)
      ensures old(ValidProc(State())) ==> ValidProc(State())
    {
      if ValidProc(State()) {
        OpenOutcomes(State(), mapped, env, file);
      }
      if FileAvailable(file, mapped) == 0 {
        return -1;
      }
      AcquireFilesysLock();
      var f := FilesysOpen(env, file);
      ReleaseFilesysLock();
      if f.None? {
        return -1;
      }
      fd := NewFid();
      files := files + [OpenFile(f.value, fd)];
    }

    /** How a trap ends when `get_args` stopped early. */
    static function Abandoned(read: ArgRead): Outcome
      requires !read.Args?
    {
      if read.BadSlot? then Exited(-1) else Faulted(read.addr)
    }

    /** `case SYS_EXIT`: one argument word, the status, then `exit`. */
    method SysExit(f: IntrFrame, env: Env, args: array<Word>) returns (o: Outcome)
      requires args.Length == 10
      modifies this`output, this`exitStatus, args
      ensures Trap(State(), f.eax, o) == HandleCall(SyscallNr.Exit, old(State()), Ctx(), f.esp, f.eax, env)
    {
      var read := GetArgs(Offset(f.esp, 4), args, 1);
      if !read.Args? {
        return Abandoned(read);
      }
      Exit(args[0]);
      o := Exited(args[0]);
    }

    /** `case SYS_EXEC`: one argument word, the command line, then `exec`. */
    method SysExec(f: IntrFrame, env: Env, args: array<Word>) returns (o: Outcome)
      requires args.Length == 10 && !filesysLockHeld
      modifies this`output, this`exitStatus, this`filesysLockHeld, args, f`eax
      ensures !filesysLockHeld
      ensures Trap(State(), f.eax, o) == HandleCall(SyscallNr.Exec, old(State()), Ctx(), f.esp, old(f.eax), env)
    {
      var read := GetArgs(Offset(f.esp, 4), args, 1);
      if !read.Args? {
        return Abandoned(read);
      }
      var tid := Exec(env, ToU32(args[0]));
      f.eax := ToU32(tid);
      o := Resumed;
    }

    /** `case SYS_WAIT`: one argument word, the pid, then `wait`. */
    method SysWait(f: IntrFrame, env: Env, args: array<Word>) returns (o: Outcome)
      requires args.Length == 10
      modifies this`output, this`exitStatus, args, f`eax
      ensures Trap(State(), f.eax, o) == HandleCall(SyscallNr.Wait, old(State()), Ctx(), f.esp, old(f.eax), env)
    {
      var read := GetArgs(Offset(f.esp, 4), args, 1);
      if !read.Args? {
        return Abandoned(read);
      }
      var status := Wait(env, args[0]);
      f.eax := ToU32(status);
      o := Resumed;
    }

    /** `case SYS_CREATE`: two argument words, the path and the size, then `create`. */
    method SysCreate(f: IntrFrame, env: Env, args: array<Word>) returns (o: Outcome)
      requires args.Length == 10 && !filesysLockHeld
      modifies this`output, this`exitStatus, this`filesysLockHeld, args, f`eax
      ensures !filesysLockHeld
      ensures Trap(State(), f.eax, o) == HandleCall(SyscallNr.Create, old(State()), Ctx(), f.esp, old(f.eax), env)
    {
      var read := GetArgs(Offset(f.esp, 4), args, 2);
      if !read.Args? {
        return Abandoned(read);
      }
      var created := Create(env, ToU32(args[0]), ToU32(args[1]));
      if created.Exits? {
        return Exited(created.status);
      }
      f.eax := BoolWord(created.value);
      o := Resumed;
    }

    /** `case SYS_REMOVE`: one argument word, the path, then `remove`. */
    method SysRemove(f: IntrFrame, env: Env, args: array<Word>) returns (o: Outcome)
      requires args.Length == 10
      modifies this`output, this`exitStatus, args, f`eax
      ensures Trap(State(), f.eax, o) == HandleCall(SyscallNr.Remove, old(State()), Ctx(), f.esp, old(f.eax), env)
    {
      var read := GetArgs(Offset(f.esp, 4), args, 1);
      if !read.Args? {
        return Abandoned(read);
      }
      var removed := Remove(env, ToU32(args[0]));
      f.eax := BoolWord(removed);
      o := Resumed;
    }

    /** `case SYS_OPEN`: one argument word, the path, then `open`. */
    method SysOpen(f: IntrFrame, env: Env, args: array<Word>) returns (o: Outcome)
      requires args.Length == 10 && !filesysLockHeld
      modifies this`output, this`exitStatus, this`files, this`nextFid, this`filesysLockHeld, args, f`eax
      ensures !filesysLockHeld
      ensures Trap(State(), f.eax, o) == HandleCall(SyscallNr.Open, old(State()), Ctx(), f.esp, old(f.eax), env)
    {
      var read := GetArgs(Offset(f.esp, 4), args, 1);
      if !read.Args? {
        return Abandoned(read);
      }
      var fd := Open(env, ToU32(args[0]));
      f.eax := ToU32(fd);
      o := Resumed;
    }

    /** `case SYS_WRITE`: three argument words, descriptor, buffer and size, then `write`. */
    method SysWrite(f: IntrFrame, env: Env, args: array<Word>) returns (o: Outcome)
      requires args.Length == 10
      modifies this`output, this`exitStatus, args, f`eax
      ensures Trap(State(), f.eax, o) == HandleCall(SyscallNr.Write, old(State()), Ctx(), f.esp, old(f.eax), env)
    {
      var read := GetArgs(Offset(f.esp, 4), args, 3);
      if !read.Args? {
        return Abandoned(read);
      }
      var written := Write(args[0], ToU32(args[1]), ToU32(args[2]));
      if written.Faults? {
        return Faulted(written.addr);
      }
      f.eax := ToU32(written.value);
      o := Resumed;
    }

    /**
      `syscall_handler(f)`: dispatches on the word at `f->esp`; the calls
      without a handler and unknown numbers fall through doing nothing.
    */
    method SyscallHandler(f: IntrFrame, env: Env) returns (o: Outcome)
      requires Valid()
      modifies this, f
      ensures Valid()
      ensures Trap(State(), f.eax, o) == Handle(old(State()), Ctx(), f.esp, old(f.eax), env)
    {
      HandlePreservesValid(State(), Ctx(), f.esp, f.eax, env);
      var args := new Word[10];
      var number := LoadWord(mem, f.esp);
      if number.PageFault? {
        return Faulted(number.addr);
      }
      var call := DecodeNr(number.value);
      if call.None? {
        return Resumed;
      }
      match call.value {
        case Halt => o := PoweredOff;
        case Exit => o := SysExit(f, env, args);
        case Exec => o := SysExec(f, env, args);
        case Wait => o := SysWait(f, env, args);
        case Create => o := SysCreate(f, env, args);
        case Remove => o := SysRemove(f, env, args);
        case Open => o := SysOpen(f, env, args);
        case Write => o := SysWrite(f, env, args);
        case Filesize => o := Resumed;
        case Read => o := Resumed;
        case Seek => o := Resumed;
        case Tell => o := Resumed;
        case Close => o := Resumed;
      }
    }
  }
}
