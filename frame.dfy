/**
  The frame table of the virtual-memory layer (src/vm/frame.c): a hash table
  of frame entries keyed by the kernel address of a physical frame, each
  recording the user page it backs, together with the user pool of free
  pages that `palloc` hands frames out of.
*/
module Frame {

  import opened Wrappers
  import opened Machine

  /** `struct frame_entry`: a frame, by its kernel address, and the user page it backs. */
  datatype FrameEntry = FrameEntry(kaddr: Addr, uaddr: Addr)

  /** `frame_val`: the hash of an entry, its kernel address converted to `int`. */
  function FrameVal(e: FrameEntry): (r: Word)
    ensures ToU32(r) == e.kaddr
  {
    ToI32(e.kaddr)
  }

  /** `frame_less`: entries are ordered by kernel address. */
  predicate FrameLess(a: FrameEntry, b: FrameEntry): (r: bool)
    ensures r ==> a.kaddr != b.kaddr
  {
    a.kaddr < b.kaddr
  }

  /** The hash table takes two entries for the same element when neither is less than the other. */
  predicate SameElement(a: FrameEntry, b: FrameEntry)
  {
    !FrameLess(a, b) && !FrameLess(b, a)
  }

  /** `frame_less` is a strict order: irreflexive, asymmetric and transitive. */
  lemma FrameLessStrictOrder(a: FrameEntry, b: FrameEntry, c: FrameEntry)
    ensures !FrameLess(a, a)
    ensures FrameLess(a, b) ==> !FrameLess(b, a)
    ensures FrameLess(a, b) && FrameLess(b, c) ==> FrameLess(a, c)
  {
  }

  /**
    The table is keyed by kernel address: two entries are the same element of
    the table exactly when their kernel addresses agree, and `frame_val`
    gives them the same hash exactly then.
  */
  lemma FrameTableKeyedByKaddr(a: FrameEntry, b: FrameEntry)
    ensures SameElement(a, b) <==> a.kaddr == b.kaddr
    ensures FrameVal(a) == FrameVal(b) <==> a.kaddr == b.kaddr
  {
    SignedUnsignedRoundTrip(0, a.kaddr);
    SignedUnsignedRoundTrip(0, b.kaddr);
  }

  /** Allocation flags of `palloc` (threads/palloc.h). */
  const PAL_USER: bv32 := 4

  predicate IsUserRequest(flags: bv32)
  {
    flags & PAL_USER != 0
  }

  /**
    The frame table as a map from kernel address to user address, and the
    free pages of the user pool.
  */
  datatype Frames = Frames(table: map<Addr, Addr>, pool: set<Addr>)

  /** A frame is either free in the pool or recorded in the table, never both. */
  ghost predicate ValidFrames(fr: Frames)
  {
    fr.pool !! fr.table.Keys
  }

  /**
    `frame_insert(uaddr, kaddr)`: `hash_insert` adds the entry only when no
    entry has that kernel address; the result is true when one already had it.
  */
  function InsertSpec(fr: Frames, uaddr: Addr, kaddr: Addr): (r: (Frames, bool))
    ensures r.1 == (kaddr in fr.table) && kaddr in r.0.table && r.0.pool == fr.pool
  {
    if kaddr in fr.table then (fr, true)
    else (fr.(table := fr.table[kaddr := uaddr]), false)
  }

  /**
    `frame_insert` returns false on a fresh insertion, after which the table
    maps `kaddr` to `uaddr` and has one more entry; it returns true when an
    entry with `kaddr` already existed, and then nothing changes, so the table
    keeps one entry per kernel address. The pool and the other entries are
    never touched.
  */
  lemma InsertOutcomes(fr: Frames, uaddr: Addr, kaddr: Addr)
    ensures var (fr', existed) := InsertSpec(fr, uaddr, kaddr);
      && existed == (kaddr in fr.table)
      && fr'.pool == fr.pool
      && kaddr in fr'.table
      && (!existed ==> fr'.table[kaddr] == uaddr && |fr'.table| == |fr.table| + 1)
      && (existed ==> fr' == fr)
      && (forall k :: k != kaddr ==> (k in fr'.table <==> k in fr.table))
      && (forall k :: k != kaddr && k in fr.table ==> fr'.table[k] == fr.table[k])
  {
  }

  /**
    `frame_get_page(flags, uaddr)`, as a relation between the state before,
    the state after and the page returned (None for NULL). A request without
    PAL_USER gets NULL; otherwise a free page of the pool is taken and
    recorded against `uaddr`; with the pool empty the eviction branch, in the
    case where it returns at all, changes nothing and returns NULL. Which free page `palloc` picks is left open.
  */
  ghost predicate GetPageSpec(fr: Frames, flags: bv32, uaddr: Addr, fr': Frames, r: Option<Addr>): (b: bool)
    ensures b ==> (r.None? <==> fr' == fr)
    ensures b && r.Some? ==> r.value in fr.pool && r.value !in fr'.pool && r.value in fr'.table
  {
    if !IsUserRequest(flags) then r == None && fr' == fr
    else if fr.pool == {} then r == None && fr' == fr
    else r.Some? && r.value in fr.pool && fr' == InsertSpec(fr.(pool := fr.pool - {r.value}), uaddr, r.value).0
  }

  /** `frame_free_page(k)`: the entry keyed `k` is removed and `k` returned to the pool. */
  function FreePageSpec(fr: Frames, k: Addr): (r: Frames)
    ensures k !in r.table && k in r.pool && r.table.Keys <= fr.table.Keys && fr.pool <= r.pool
  {
    Frames(fr.table - {k}, fr.pool + {k})
  }

  /** A request without PAL_USER, and a request against an exhausted pool, return NULL and change nothing. */
  lemma GetPageNull(fr: Frames, flags: bv32, uaddr: Addr, fr': Frames, r: Option<Addr>)
    requires GetPageSpec(fr, flags, uaddr, fr', r)
    requires !IsUserRequest(flags) || fr.pool == {}
    ensures r == None && fr' == fr
  {
  }

  /**
    A user request against a pool with a free page returns one of its free
    pages, which leaves the pool and is afterwards mapped to `uaddr`; the
    table grows by exactly that entry and the other entries stay as they were.
  */
  lemma GetPageTakesFreePage(fr: Frames, flags: bv32, uaddr: Addr, fr': Frames, r: Option<Addr>)
    requires ValidFrames(fr)
    requires GetPageSpec(fr, flags, uaddr, fr', r)
    requires IsUserRequest(flags) && fr.pool != {}
    ensures r.Some? && r.value in fr.pool
    ensures fr'.pool == fr.pool - {r.value}
    ensures fr'.table == fr.table[r.value := uaddr]
    ensures r.value !in fr.table && |fr'.table| == |fr.table| + 1
    ensures ValidFrames(fr')
  {
    InsertOutcomes(fr.(pool := fr.pool - {r.value}), uaddr, r.value);
  }

  /**
    `frame_free_page(k)` leaves no entry keyed `k`, puts `k` in the pool and
    changes no other entry; it keeps frames either free or in use.
  */
  lemma FreePageOutcomes(fr: Frames, k: Addr)
    ensures var fr' := FreePageSpec(fr, k);
      && k !in fr'.table && k in fr'.pool
      && fr'.pool - {k} == fr.pool - {k}
      && (forall j :: j != k ==> (j in fr'.table <==> j in fr.table))
      && (forall j :: j != k && j in fr.table ==> fr'.table[j] == fr.table[j])
      && (k in fr.table ==> |fr'.table| == |fr.table| - 1)
      && (ValidFrames(fr) ==> ValidFrames(fr'))
  {
  }

  /** Getting a page and freeing the page obtained restores both the table and the pool. */
  lemma GetThenFreeRoundTrip(fr: Frames, flags: bv32, uaddr: Addr, fr': Frames, k: Addr)
    requires ValidFrames(fr)
    requires GetPageSpec(fr, flags, uaddr, fr', Some(k))
    ensures FreePageSpec(fr', k) == fr
  {
    GetPageTakesFreePage(fr, flags, uaddr, fr', Some(k));
    assert fr'.table - {k} == fr.table;
    assert fr'.pool + {k} == fr.pool;
  }

  /**
    Getting a page neither creates nor loses a frame: the frames, free or in
    use, are the same set before and after, with the same count.
  */
  lemma GetPageConservesFrames(fr: Frames, flags: bv32, uaddr: Addr, fr': Frames, r: Option<Addr>)
    requires ValidFrames(fr)
    requires GetPageSpec(fr, flags, uaddr, fr', r)
    ensures fr'.pool + fr'.table.Keys == fr.pool + fr.table.Keys
    ensures |fr'.pool| + |fr'.table| == |fr.pool| + |fr.table|
  {
    if r.Some? {
      var k := r.value;
      GetPageTakesFreePage(fr, flags, uaddr, fr', r);
      assert fr'.table.Keys == fr.table.Keys + {k};
      assert |fr'.pool| == |fr.pool| - 1;
    }
  }

  /** Freeing a page in use neither creates nor loses a frame. */
  lemma FreePageConservesFrames(fr: Frames, k: Addr)
    requires ValidFrames(fr)
    requires k in fr.table
    ensures FreePageSpec(fr, k).pool + FreePageSpec(fr, k).table.Keys == fr.pool + fr.table.Keys
    ensures |FreePageSpec(fr, k).pool| + |FreePageSpec(fr, k).table| == |fr.pool| + |fr.table|
  {
    var freed := FreePageSpec(fr, k);
    assert freed.table.Keys == fr.table.Keys - {k};
    assert k !in fr.pool;
    assert |freed.pool| == |fr.pool| + 1;
  }

  /** The frame table and the user pool, updated in place. */
  class FrameTable {
    var table: map<Addr, Addr>
    var pool: set<Addr>

    function State(): Frames
      reads this
    {
      Frames(table, pool)
    }

    ghost predicate Valid()
      reads this
    {
      ValidFrames(State())
    }

    /** `frame_init`: an empty table beside the user pool's free pages. */
    constructor (freePages: set<Addr>)
      ensures State() == Frames(map[], freePages)
      ensures Valid()
    {
      table := map[];
      pool := freePages;
    }

    /** `frame_insert(uaddr, kaddr)`. */
    method Insert(uaddr: Addr, kaddr: Addr) returns (existed: bool)
      modifies this`table
      ensures (State(), existed) == InsertSpec(old(State()), uaddr, kaddr)
      ensures old(Valid()) && kaddr !in old(pool) ==> Valid()
    {
      if kaddr in table {
        return true;
      }
      table := table[kaddr := uaddr];
      existed := false;
    }

    /** `palloc_get_page` on the user pool: some free page, or NULL when none is left. */
    method PallocGetPage() returns (page: Option<Addr>)
      modifies this`pool
      ensures old(pool) == {} ==> page == None && pool == old(pool)
      ensures old(pool) != {} ==> page.Some? && page.value in old(pool) && pool == old(pool) - {page.value}
      ensures old(Valid()) ==> Valid()
    {
      if pool == {} {
        return None;
      }
      var k :| k in pool;
      pool := pool - {k};
      page := Some(k);
    }

    /** `frame_get_page(flags, uaddr)`. */
    method GetPage(flags: bv32, uaddr: Addr) returns (r: Option<Addr>)
      requires Valid()
      modifies this
      ensures Valid()
      ensures GetPageSpec(old(State()), flags, uaddr, State(), r)
    {
      if !IsUserRequest(flags) {
        return None;
      }
      var frame := PallocGetPage();
      if frame.Some? {
        var _ := Insert(uaddr, frame.value);
        GetPageTakesFreePage(old(State()), flags, uaddr, State(), frame);
        return frame;
      }
      // The pool is exhausted: when the eviction branch returns, it has changed nothing and returns NULL.
      r := None;
    }

    /** `frame_free_page(k)`: the entry keyed `k` goes and the page returns to the pool. */
    method FreePage(k: Addr)
      requires Valid()
      modifies this
      ensures Valid()
      ensures State() == FreePageSpec(old(State()), k)
    {
      table := table - {k};
      pool := pool + {k};
    }
  }
}
