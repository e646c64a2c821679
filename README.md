# Pintos system calls and frame table, modelled in Dafny

This project models two kernel components of a Pintos student project and
proves properties of the model.

- **The system-call layer** (`src/userprog/syscall.c`). A trap enters
  `syscall_handler` with the user stack pointer `esp`. The handler reads the
  call number at `esp`. It copies the call's argument words from `esp + 4` on
  with `get_args`, which checks each slot with `available_addr` before reading
  it. It then runs the handler and stores the result in the frame's `eax`.
  The handlers are `exit`, `exec`, `wait`, `create`, `remove`, `open` and
  `write`. `file_available` is the path check used by `create` and `open`.
  `new_fid` issues file descriptors from a global counter that starts at 2.
- **The frame table** (`src/vm/frame.c`). It is a hash table of frame entries
  keyed by the kernel address of a physical frame. Each entry records the user
  page the frame backs. `frame_get_page` takes a free page from the user pool
  and records it. `frame_free_page` removes the entry and gives the page back.

## Layout

| file | module | contents |
|---|---|---|
| `wrappers.dfy` | `Wrappers` | `Option`, standing for a pointer that may be NULL |
| `machine.dfy` | `Machine` | 32-bit addresses whose arithmetic wraps; C `int` and `unsigned` conversions; `PHYS_BASE` = 0xC0000000; 4 KiB pages; little-endian loads from an address space |
| `decimal.dfy` | `Decimal` | the `%d` rendering used by the exit message, and a parser that inverts it |
| `syscall_spec.dfy` | `SyscallSpec` | the system-call layer as functions (`FileAvailable`, `ReadArgs`, `CreateSpec`, `OpenSpec`, `WriteSpec`, `Handle`, …) and the lemmas about them |
| `syscall.dfy` | `Syscall` | classes `IntrFrame` and `Kernel`: the handlers as methods that update state in place. `Exit`, `Create`, `Write`, `Open`, the per-call dispatch methods and `SyscallHandler` are proved equal to their functions in `SyscallSpec`. `Remove`, `Exec` and `Wait` are stated directly in terms of the `Env` collaborators. |
| `frame.dfy` | `Frame` | the frame table as a map plus a free-page set, its operations as functions and lemmas, and class `FrameTable`, whose methods are proved against those functions |

### How the model represents the source

- **Addresses and integers.** Addresses are unsigned 32-bit values, and
  `p + d` wraps modulo 2^32 (`Machine.Offset`). `int` is a signed 32-bit
  `Word`. The casts `(const char*)args[0]` and `(unsigned)args[1]` are
  `ToU32`. `write` returns its `unsigned` size as an `int`, which is `ToI32`.
  `f->eax` is a `U32`, so a returned `-1` is stored as 0xFFFFFFFF.
- **Memory.** The address space is a map from each readable address to its
  byte. A read from an address outside the map is a page fault, which is the
  `Faulted` outcome. `mapped` is the set of user pages in the page directory.
  `ValidContext` ties the two together: a user address is readable exactly
  when its page is mapped.
- **Syscall numbers.** The numbers follow the order of the enumeration:
  `Halt` = 0, …, `Close` = 12.
- **Argument slots.** `(int*)esp + i` with `esp = f->esp + 4` puts argument
  `i` at `esp + 4 + 4 * i` (`ArgSlotAddress`).
- **Collaborators.** `filesys_create`, `filesys_open`, `filesys_remove`,
  `process_execute` and `process_wait` are the fields of an `Env`. An `Env`
  is a set of arbitrary functions supplied with each trap. The lemmas hold for
  every `Env`.
- **Terminal outcomes.** `halt` and `thread_exit` never return. They are the
  `PoweredOff` and `Exited(status)` outcomes of a trap. `exit` first appends
  `"<name>: exit(<status>)\n"` to the output and records `exit_status`.
- **The file-system lock.** It is a ghost flag. `create`, `exec` and `open`
  must find it free and leave it free again. The calls to `filesys_create`,
  `filesys_open` and `process_execute` go through `Kernel.FilesysCreate`,
  `Kernel.FilesysOpen` and `Kernel.ProcessExecute`, which require the lock to
  be held. So the verifier checks that each of these calls is made under the lock.
- **The page pool.** `palloc`'s user pool is a set of free pages. Which free
  page `palloc_get_page` returns is not fixed, so `GetPageSpec` is a relation
  and `FrameTable.PallocGetPage` picks any free page.
- **`frame_insert` on an existing key.** `hash_insert` does not replace an
  element that is already there. The table is then unchanged and
  `frame_insert` returns true. A fresh insertion returns false.

### Behaviour of the code the model keeps

- `available_addr` checks only `addr < PHYS_BASE`. It checks neither the image
  base nor whether the page is mapped. An argument slot on an unmapped user
  page is therefore read and faults (`SlotFault`).
- The syscall-number word at `esp` is read without any check.
- `write` buffers, `remove` paths and `exec` command lines are not validated.
- `file_available` compares with `>`, so `PHYS_BASE` itself passes its range
  test and reaches the page lookup. The model's lookup, a test for
  membership in `mapped`, rejects it (`FileAvailableAtPhysBase`).
- `write` to any descriptor other than 1 returns -1. Unknown syscall numbers
  and the calls `filesize`, `read`, `seek`, `tell` and `close` do nothing and
  leave `eax` as it was.
- The eviction branch of `frame_get_page` evicts nothing. If it returns, it
  returns NULL and has changed nothing. The model keeps only that case.

## Model

| member | source | states |
|---|---|---|
| `SyscallSpec.DecodeNr` | src/userprog/syscall.c:36-82 | the `case` label the number at `esp` selects, or None for `default`; a selected label's number is the number read |
| `SyscallSpec.ArgCount` | src/userprog/syscall.c:40-73 | how many words each `case` copies with `get_args`: 1 for exit, exec, wait, remove and open, 2 for create, 3 for write, 0 (no copy) for the rest; never more than 3 |
| `SyscallSpec.FileAvailable` | src/userprog/syscall.c:174-182 | `file_available`'s three tests in order; the result is 0 or 1, and 1 only from the image base up to `PHYS_BASE` |
| `SyscallSpec.ExitSpec` | src/userprog/syscall.c:92-98 | `exit`'s effect: the output grows by the exit line (`ExitMessage`, the `printf` format at line 94), `exit_status` becomes the status, `files_list` and the counter are untouched |
| `SyscallSpec.CreateSpec` | src/userprog/syscall.c:100-110 | `create` never faults; when it returns, the process is unchanged and the path was not NULL; when it exits, the status is -1 and only the output and `exit_status` change |
| `SyscallSpec.OpenSpec` | src/userprog/syscall.c:135-155 | `open` always returns, with -1 or the counter's value; output and `exit_status` are untouched |
| `SyscallSpec.WriteSpec` | src/userprog/syscall.c:127-133 | `write` never touches `files_list`, the counter or `exit_status`; any fd but 1 returns -1 with no output; only a console write can fault, and then nothing is output |
| `SyscallSpec.Invoke` | src/userprog/syscall.c:37-79 | the body of each `case` given its copied words: only `halt` powers off, and a trap that exits records its status in `exit_status` |
| `SyscallSpec.HandleCall` | src/userprog/syscall.c:37-79 | one `case`: halt, or `get_args` followed by the handler; `exit(-1)` on a refused slot; powers off exactly for `halt`, and an exit records its status |
| `SyscallSpec.Handle` | src/userprog/syscall.c:31-86 | `syscall_handler` as a function of the process, address space, `esp` and `eax`; it powers off only when the number at `esp` is that of `halt`, and an exit records its status |
| `SyscallSpec.DecodeNrCode` | src/userprog/syscall.c:36-82 | each number 0–12 selects exactly the call it encodes; every other number falls to `default` |
| `SyscallSpec.FileAvailableIff` | src/userprog/syscall.c:174-182 | `file_available` returns only 0 or 1, and returns 1 iff `0x08048000 <= addr <= PHYS_BASE` and the page of `addr` is mapped |
| `SyscallSpec.FileAvailableAtPhysBase` | src/userprog/syscall.c:175-179 | because the test is `>`, `PHYS_BASE` passes the range checks and is decided by the modelled page lookup alone; in a well-formed address space that lookup rejects it |
| `SyscallSpec.FileAvailableIsReadable` | src/userprog/syscall.c:174-182 | an address that `file_available` accepts is a user address that can be read without faulting |
| `SyscallSpec.ReadArgs` | src/userprog/syscall.c:165-172 | `get_args`, reading slot `i` at `Slot(esp, i)`, which is `(int*)esp + i` at line 168; when it completes it has copied exactly `count` words; when it stops early, it stops at a slot index below `count` |
| `SyscallSpec.ReadArgsSucceeds` | src/userprog/syscall.c:165-172 | `get_args` copies all `count` words iff every slot is a user address whose word can be read |
| `SyscallSpec.ReadArgsWords` | src/userprog/syscall.c:165-172 | on success, `arg[i]` is the word stored at slot `i` (`esp + 4*i`) for every `i < count` |
| `SyscallSpec.ReadArgsStops` | src/userprog/syscall.c:158-172 | when `get_args` stops, every earlier slot was accepted and read, and the stopping slot was refused by `available_addr` (at or above `PHYS_BASE`) or faulted |
| `SyscallSpec.ReadArgsPersists` | src/userprog/syscall.c:165-172 | once `get_args` has stopped, later slots change nothing |
| `SyscallSpec.ReadArgsStopsAtFirstBadSlot` | src/userprog/syscall.c:158-171 | the first slot at or above `PHYS_BASE` ends `get_args` at that slot, whatever the later slots hold |
| `SyscallSpec.ArgSlotAddress` | src/userprog/syscall.c:41 | argument slot `i` of a trap is at `f->esp + 4 + 4*i`, modulo 2^32 |
| `SyscallSpec.ExitMessageStatus` | src/userprog/syscall.c:92-98 | the exit line `ExitMessage` is the thread name, `": exit("`, the status in decimal and `")\n"`, and the decimal text reads back as the status |
| `SyscallSpec.ExitMessageChild` | src/userprog/syscall.c:94 | `exit(42)` in a thread named `child` prints `child: exit(42)` |
| `SyscallSpec.CreateValidatesFirst` | src/userprog/syscall.c:100-110 | a NULL path, or one that fails `file_available`, ends the process with status -1, whatever the file system would answer; any other path returns `filesys_create`'s answer and changes nothing else |
| `SyscallSpec.OpenOutcomes` | src/userprog/syscall.c:135-155 | `open` returns -1 iff the path fails `file_available` or `filesys_open` returns NULL, and then `files_list` and the counter are unchanged; otherwise it returns the counter's value, which is larger than every earlier descriptor, appends exactly one entry with it at the back of `files_list`, and advances the counter |
| `SyscallSpec.WriteOutcomes` | src/userprog/syscall.c:127-133 | `write(1, buf, size)` with a readable buffer appends exactly the `size` bytes at `buf`, in order, and returns `size` (as `unsigned`); any other fd returns -1 with no output; `files_list`, the counter and `exit_status` are untouched |
| `SyscallSpec.HandleUsesArgWords` | src/userprog/syscall.c:36-82 | when the first ArgCount slots are readable user addresses, the handler runs on exactly the words at `esp + 4 + 4*i` for `i` < ArgCount (1 for exit/exec/wait/remove/open, 2 for create, 3 for write), whatever lies beyond |
| `SyscallSpec.HandleKillsOnBadSlot` | src/userprog/syscall.c:40-72 | the first copied argument slot at or above `PHYS_BASE` ends the process with status -1, leaves `eax` alone and runs no handler |
| `SyscallSpec.HandleArglessCalls` | src/userprog/syscall.c:36-82 | `halt` powers off; filesize, read, seek, tell, close and unknown numbers read no slot and leave the process and `eax` unchanged |
| `SyscallSpec.InvokePreservesValid` | src/userprog/syscall.c:40-73 | each handler, run on its copied argument words, keeps descriptors at least 2, unique and in issuing order, never lowers the counter and only extends `files_list` at its back |
| `SyscallSpec.HandlePreservesValid` | src/userprog/syscall.c:31-86 | no trap lowers the descriptor counter or shrinks `files_list`, which only grows at its back; descriptors stay at least 2, unique and in issuing order |
| `Decimal.DigitsRoundTrip` | src/userprog/syscall.c:94 | the decimal digits of a natural number are digits, have no leading zero and read back as the number |
| `Decimal.FormatIntRoundTrip` | src/userprog/syscall.c:94 | the `%d` rendering of an `int`, `FormatInt`, reads back as the same `int` |
| `Syscall.Kernel.constructor` | src/userprog/syscall.c:184-187 | the descriptor counter is the shared one, at any value from its initial 2 up, and the console output is whatever earlier threads printed; `files_list` starts empty and the state is valid |
| `Syscall.Kernel.AcquireFilesysLock` | src/userprog/syscall.c:106 | `lock_acquire(&filesys_lock)`, as at lines 106, 117 and 139: the lock must be free, and afterwards it is held |
| `Syscall.Kernel.ReleaseFilesysLock` | src/userprog/syscall.c:108 | `lock_release(&filesys_lock)`, as at lines 108, 119 and 141: the lock must be held, and afterwards it is free |
| `Syscall.Kernel.Exit` | src/userprog/syscall.c:92-98 | appends the exit line to the output and sets `exit_status` to the status |
| `Syscall.Kernel.AvailableAddr` | src/userprog/syscall.c:158-163 | exits with status -1 iff `addr >= PHYS_BASE`, and otherwise changes nothing |
| `Syscall.Kernel.GetArgs` | src/userprog/syscall.c:165-172 | the loop's result is `ReadArgs`; up to the stopping slot `args` holds the words read, from there on `args` is untouched; only a refused slot changes the process, by `exit(-1)` |
| `Syscall.Kernel.NewFid` | src/userprog/syscall.c:184-187 | returns the counter and leaves it one higher, so successive ids strictly increase and never repeat; with the descriptor invariant in force, the id is at least 2, exceeds every descriptor in `files_list`, and the invariant still holds |
| `Syscall.Kernel.Create` | src/userprog/syscall.c:100-110 | behaves as `CreateSpec`; `filesys_create` is reached through `FilesysCreate`, which requires the file-system lock to be held; the lock is free again afterwards |
| `Syscall.Kernel.FilesysCreate` | src/userprog/syscall.c:106-108 | `filesys_create` is called only with the file-system lock held, and its answer is passed on |
| `Syscall.Kernel.Remove` | src/userprog/syscall.c:112-114 | returns `filesys_remove`'s answer for the unchecked path |
| `Syscall.Kernel.Exec` | src/userprog/syscall.c:116-121 | returns `process_execute`'s answer, obtained through `ProcessExecute`, which requires the file-system lock to be held; the lock is free again afterwards |
| `Syscall.Kernel.ProcessExecute` | src/userprog/syscall.c:117-119 | `process_execute` is called only with the file-system lock held, and its answer is passed on |
| `Syscall.Kernel.Wait` | src/userprog/syscall.c:123-125 | returns `process_wait`'s answer |
| `Syscall.Kernel.Write` | src/userprog/syscall.c:127-133 | behaves as `WriteSpec`: appends to the output only for fd 1 |
| `Syscall.Kernel.Open` | src/userprog/syscall.c:135-155 | behaves as `OpenSpec`, taking the descriptor from `NewFid`, and keeps the descriptor invariant; `filesys_open` is reached through `FilesysOpen`, which requires the file-system lock to be held; the lock is free again afterwards |
| `Syscall.Kernel.FilesysOpen` | src/userprog/syscall.c:139-141 | `filesys_open` is called only with the file-system lock held, and its result is passed on |
| `Syscall.Kernel.SysExit` | src/userprog/syscall.c:40-44 | copies one word and exits with it, as `HandleCall(Exit, …)` |
| `Syscall.Kernel.SysExec` | src/userprog/syscall.c:45-48 | copies one word and stores `exec`'s result in `eax`, as `HandleCall(Exec, …)` |
| `Syscall.Kernel.SysWait` | src/userprog/syscall.c:49-53 | copies one word and stores `wait`'s result in `eax`, as `HandleCall(Wait, …)` |
| `Syscall.Kernel.SysCreate` | src/userprog/syscall.c:54-57 | copies two words and stores `create`'s result in `eax` unless the process exits, as `HandleCall(Create, …)` |
| `Syscall.Kernel.SysRemove` | src/userprog/syscall.c:58-61 | copies one word and stores `remove`'s result in `eax`, as `HandleCall(Remove, …)` |
| `Syscall.Kernel.SysOpen` | src/userprog/syscall.c:62-65 | copies one word and stores `open`'s result in `eax`, as `HandleCall(Open, …)` |
| `Syscall.Kernel.SysWrite` | src/userprog/syscall.c:70-73 | copies three words and stores `write`'s result in `eax`, as `HandleCall(Write, …)` |
| `Syscall.Kernel.SyscallHandler` | src/userprog/syscall.c:31-86 | the new process state, `eax` and outcome are exactly `Handle` of the old ones, and the descriptor invariant and the free lock are kept |
| `Frame.FrameVal` | src/vm/frame.c:8-11 | `frame_val`: the entry's kernel address converted to `int`, which converts back to that address |
| `Frame.FrameLess` | src/vm/frame.c:13-17 | `frame_less`: comparison of kernel addresses; entries it orders have different kernel addresses |
| `Frame.InsertSpec` | src/vm/frame.c:19-29 | `frame_insert`: the flag tells whether the kernel address was already in the table; afterwards it is, and the pool is untouched |
| `Frame.GetPageSpec` | src/vm/frame.c:31-54 | `frame_get_page` as a relation, with `IsUserRequest` as the `flags & PAL_USER` test at line 32: NULL exactly when nothing changes; a page returned came from the pool, has left it and is in the table |
| `Frame.FreePageSpec` | src/vm/frame.c:56-62 | `frame_free_page`: afterwards the page has no entry and is in the pool; no entry is added and no free page is lost |
| `Frame.FrameLessStrictOrder` | src/vm/frame.c:13-17 | `frame_less` is irreflexive, asymmetric and transitive |
| `Frame.FrameTableKeyedByKaddr` | src/vm/frame.c:8-17 | two entries are the same table element iff their `kaddr` agree, and `frame_val` hashes them equally iff their `kaddr` agree |
| `Frame.InsertOutcomes` | src/vm/frame.c:19-29 | `frame_insert` returns false on a fresh key, mapping it to `uaddr` and growing the table by one; it returns true when the key existed, changing nothing; the pool and other entries are untouched |
| `Frame.GetPageNull` | src/vm/frame.c:31-54 | without `PAL_USER`, `frame_get_page` returns NULL and changes neither the table nor the pool; with the pool exhausted, the eviction branch, if it returns, does the same (the non-terminating loop and the NULL iterator are not modelled) |
| `Frame.GetPageTakesFreePage` | src/vm/frame.c:35-41 | with a free page, `frame_get_page` returns a page from the pool, removes it from the pool and maps it to `uaddr`; the table grows by exactly that entry |
| `Frame.FreePageOutcomes` | src/vm/frame.c:56-62 | `frame_free_page(k)` leaves no entry for `k`, puts `k` in the pool, changes no other entry and keeps frames either free or in use |
| `Frame.GetThenFreeRoundTrip` | src/vm/frame.c:35-62 | `frame_get_page` returning `k` followed by `frame_free_page(k)` restores the table and the pool |
| `Frame.GetPageConservesFrames` | src/vm/frame.c:31-54 | `frame_get_page` keeps the set of frames, free or in use, and its size |
| `Frame.FreePageConservesFrames` | src/vm/frame.c:56-62 | freeing a frame in use keeps the set of frames and its size |
| `Frame.FrameTable.constructor` | src/vm/frame.c:3-6 | `frame_init` leaves an empty table beside the pool |
| `Frame.FrameTable.Insert` | src/vm/frame.c:19-29 | updates the table as `InsertSpec` says and returns its flag; inserting a page that is not free keeps frames either free or in use |
| `Frame.FrameTable.PallocGetPage` | src/vm/frame.c:35 | returns NULL iff the pool is empty, and otherwise a free page, which leaves the pool; frames stay either free or in use |
| `Frame.FrameTable.GetPage` | src/vm/frame.c:31-54 | the old state, new state and result satisfy `GetPageSpec`, and frames stay either free or in use |
| `Frame.FrameTable.FreePage` | src/vm/frame.c:56-62 | the new state is `FreePageSpec` of the old one |

## Left out

- `syscall_init` is not modelled: it registers the interrupt handler and initialises the lock. `Kernel`'s constructor only sets up the state a trap starts from.
- `halt` is the `PoweredOff` outcome; `shutdown_power_off` is not modelled.
- `thread_exit` is not modelled: after `exit` the trap ends with `Exited`, and thread teardown is not represented.
- `printf` and `putbuf` are modelled only by what they append to an output byte sequence. Console locking and the order of output across threads are not modelled.
- A page fault taken by the kernel ends the trap with `Faulted`. What Pintos's page-fault handler then does is not part of this model. A `write` whose buffer faults part-way outputs nothing in the model.
- `filesys_create`, `filesys_open`, `filesys_remove`, `process_execute` and `process_wait` are arbitrary functions of their arguments. Their reading of the user string, and the file system and process state behind them, are not modelled.
- The `malloc` of the `one_file` record in `open`, and of the entry in `frame_insert`, are not modelled. Neither is the entry leaked when `hash_insert` finds an existing key.
- Syscall.Kernel.constructor: one thread is modelled at a time. The descriptor counter and the console output, which all threads share, are handed to its `Kernel` when it is built and read back from it afterwards. They are not held in one object that several `Kernel`s alias.
- Syscall.Kernel.NewFid: the counter is an unbounded integer, so the signed overflow after 2^31 - 2 calls is not modelled.
- Concurrency is not modelled. That covers the locks' blocking, the unlocked `new_fid` counter and `frame_lock`, which no function in `src/vm/frame.c` takes.
- The global `exit_status` declared in `src/userprog/syscall.h` is not modelled; `exit` writes the thread's own field. The header holds only declarations.
- Frame.FrameTable.FreePage: models the evident intent, which is to delete the entry keyed by the given page and return that page to the pool. The code casts the page address to a `frame_entry *`, looks the entry up through fields of that cast, frees the entry and then reads `kaddr` from the cast pointer to choose the page it returns. None of that pointer handling is modelled.
- The eviction branch of `frame_get_page` is modelled only for the case where it returns, and then it returns NULL and changes nothing. `hash_first` and `hash_next` receive `frame_table_clock` by value, so nothing in the branch assigns it. With a non-NULL cursor the `while` loop never ends. With a NULL cursor, `hash_first` receives a NULL iterator. Neither the non-terminating loop, nor the NULL iterator, nor the console message is modelled.
- `pagedir_get_page` is modelled as a lookup of the address's page in `mapped`. Its own precondition that the address be a user address is not modelled; `src/userprog/pagedir.c` is not part of this model. A path of exactly `PHYS_BASE` passes the range tests of `file_available` and reaches that lookup. The model then answers 0, where the real lookup's precondition would fail.
- `palloc` internals are not modelled. That covers zeroing under `PAL_ZERO`, the panic under `PAL_ASSERT` when the pool is empty, and the assertion against freeing a page that is already free.
- `frame_destroy` has an empty body and is not modelled.
