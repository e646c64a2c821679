/**
  The 32-bit x86 machine that Pintos runs on, as far as the system-call layer
  sees it: unsigned 32-bit addresses whose arithmetic wraps, the signed C
  `int`, the user/kernel split at PHYS_BASE, 4 KiB pages, and little-endian
  loads from the current address space.
*/
module Machine {

  import opened Wrappers

  const WORD_MODULUS: int := 0x1_0000_0000
  const INT_MIN: int := -0x8000_0000

  /** Base of kernel virtual memory (threads/vaddr.h); user addresses lie below it. */
  const PHYS_BASE: int := 0xC000_0000
  /** Size of a page. */
  const PGSIZE: int := 0x1000

  /** An unsigned 32-bit value: a pointer, an `unsigned`, or the `eax` register. */
  type U32 = x: int | 0 <= x < 0x1_0000_0000
  type Addr = U32
  /** A C `int` on this machine. */
  type Word = x: int | INT_MIN <= x < -INT_MIN
  type Byte = x: int | 0 <= x < 0x100

  /** Conversion of any integer to `unsigned` (or to a pointer): reduction modulo 2^32. */
  function ToU32(x: int): (r: U32)
    ensures (r - x) % WORD_MODULUS == 0
  {
    x % WORD_MODULUS
  }

  /** Conversion of any integer to `int`, two's complement, as gcc does on x86. */
  function ToI32(x: int): (r: Word)
    ensures ToU32(r) == ToU32(x)
  {
    var u := x % WORD_MODULUS;
    if u < 0x8000_0000 then u else u - WORD_MODULUS
  }

  lemma ModOfMultiple(x: int, k: int)
    ensures (x + k * WORD_MODULUS) % WORD_MODULUS == x % WORD_MODULUS
  {
  }

  /** `int` and `unsigned` are two views of the same 32 bits. */
  lemma SignedUnsignedRoundTrip(w: Word, u: U32)
    ensures ToI32(ToU32(w)) == w
    ensures ToU32(ToI32(u)) == u
    ensures ToU32(u) == u
  {
  }

  /** Pointer arithmetic `p + d` on a 32-bit machine. */
  function Offset(a: Addr, d: int): (r: Addr)
    ensures 0 <= a + d < WORD_MODULUS ==> r == a + d
  {
    ToU32(a + d)
  }

  lemma {:induction false} OffsetAdd(a: Addr, d1: int, d2: int)
    ensures Offset(Offset(a, d1), d2) == Offset(a, d1 + d2)
  {
    var q := (a + d1) / WORD_MODULUS;
    assert Offset(a, d1) == a + d1 - q * WORD_MODULUS;
    ModOfMultiple(a + d1 + d2, -q);
  }

  /** `is_user_vaddr`: the address lies below the kernel. */
  predicate IsUserVaddr(a: Addr)
  {
    a < PHYS_BASE
  }

  /** `pg_round_down`: the first address of the page holding `a`. */
  function PgRoundDown(a: Addr): (r: Addr)
    ensures r <= a < r + PGSIZE && r % PGSIZE == 0
  {
    a - a % PGSIZE
  }

  /**
    The bytes readable at each virtual address of the current address space;
    an address that is absent is not mapped and reading it faults.
  */
  type Memory = map<Addr, Byte>

  /** The result of a read: the value, or the first address that faulted. */
  datatype Load<+T> = Loaded(value: T) | PageFault(addr: Addr)

  /** Reads `n` consecutive bytes starting at `a`, as `putbuf` does. */
  function LoadBytes(m: Memory, a: Addr, n: nat): (r: Load<seq<Byte>>)
    ensures r.Loaded? ==> |r.value| == n
    ensures r.PageFault? ==> r.addr !in m
    decreases n
  {
    if n == 0 then Loaded([])
    else if a !in m then PageFault(a)
    else match LoadBytes(m, Offset(a, 1), n - 1)
      case PageFault(p) => PageFault(p)
      case Loaded(rest) => Loaded([m[a]] + rest)
  }

  /** A read of `n` bytes succeeds exactly when every byte is mapped, and yields those bytes in order. */
  lemma {:induction false} LoadBytesAt(m: Memory, a: Addr, n: nat)
    ensures LoadBytes(m, a, n).Loaded? <==> forall i :: 0 <= i < n ==> Offset(a, i) in m
    ensures LoadBytes(m, a, n).Loaded? ==>
      forall i :: 0 <= i < n ==> LoadBytes(m, a, n).value[i] == m[Offset(a, i)]
    decreases n
  {
    if n > 0 {
      var b := Offset(a, 1);
      LoadBytesAt(m, b, n - 1);
      forall i | 1 <= i < n
        ensures Offset(b, i - 1) == Offset(a, i)
      {
        OffsetAdd(a, 1, i - 1);
      }
      assert Offset(a, 0) == a;
      if LoadBytes(m, a, n).Loaded? {
        var r := LoadBytes(m, a, n).value;
        forall i | 0 <= i < n
          ensures Offset(a, i) in m && r[i] == m[Offset(a, i)]
        {
          if i > 0 {
            assert Offset(b, i - 1) in m;
          }
        }
      } else if forall i :: 0 <= i < n ==> Offset(a, i) in m {
        assert a in m;
        forall i | 0 <= i < n - 1
          ensures Offset(b, i) in m
        {
          assert Offset(b, (i + 1) - 1) == Offset(a, i + 1);
        }
        assert false;
      }
    }
  }

  /** Little-endian value of four bytes, as a C `int`. */
  function LittleEndian(b0: Byte, b1: Byte, b2: Byte, b3: Byte): Word
  {
    ToI32(b0 + 0x100 * b1 + 0x1_0000 * b2 + 0x100_0000 * b3)
  }

  /** `*(int*)a`: reads the 32-bit word stored at `a`. */
  function LoadWord(m: Memory, a: Addr): Load<Word>
  {
    match LoadBytes(m, a, 4)
    case PageFault(p) => PageFault(p)
    case Loaded(bs) => Loaded(LittleEndian(bs[0], bs[1], bs[2], bs[3]))
  }
}
