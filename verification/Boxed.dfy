/**
  The "ask for the size, then fetch" protocol: `make_boxed` on the global
  allocator, and `get_variable_boxed` on top of it.
 */
module Boxed {
  import opened Bytes
  import opened Uefi
  import opened BootServices
  import opened Allocator
  import VariableKeys

  /** The answer of a fetch function to a buffer; a note is what it reports beside the data. */
  datatype Reply = Filled(data: seq<Byte>, note: nat) | Failed(status: Status, needed: Option<nat>)

  /** A fetch function: its answer to the call with the given number and buffer length. */
  type Fetch = (nat, nat) -> Reply

  /** It fills no more than the buffer. */
  ghost predicate GoodFetch(fetch: Fetch) {
    forall call: nat, len: nat :: fetch(call, len).Filled? ==> |fetch(call, len).data| <= len
  }

  /** The first call asks for `n` bytes, and the second one fetches the data. */
  ghost predicate Fetches(fetch: Fetch, n: nat, data: seq<Byte>) {
    && fetch(0, 0) == Failed(BufferTooSmall, Some(n))
    && fetch(1, n).Filled? && fetch(1, n).data == data
  }

  /** `Undefined` is an allocation of no bytes, which `GlobalAlloc::alloc` forbids; the model ends there. */
  datatype BoxResult = Boxed(ptr: nat, data: seq<Byte>, note: nat) | BoxError(status: Status) | Panicked | Undefined

  /** The layout that makes room for `len` bytes: sizes are multiples of the alignment. */
  function PaddedLayout(len: nat, align: nat): Layout
    requires align > 0
  {
    Layout(RoundUp(len, align), align)
  }

  ghost predicate MemoryHolds(mem: map<nat, Byte>, at: nat, data: seq<Byte>) {
    forall a :: at <= a < at + |data| ==> a in mem && mem[a] == data[a - at]
  }

  /** The size that the call with an empty buffer asks for; success is unexpected there. */
  function RequiredSize(first: Reply): Result<nat, Status> {
    match first
    case Failed(status, needed) => if status == BufferTooSmall && needed.Some? then Ok(needed.value) else Err(status)
    case Filled(_, _) => Err(Unsupported)
  }

  // ----- What happens to the heap

  /** The box is a live block with its data in memory. */
  ghost predicate HoldsBox(heap: Session, box: BoxResult, layout: Layout)
    reads heap, heap.bs
  {
    && box.Boxed? && heap.bs.active
    && box.ptr in heap.blocks && heap.blocks[box.ptr].layout == layout
    && MemoryHolds(heap.bs.mem, box.ptr, box.data)
  }

  /** Blocks, lost regions and the ledger are as before. */
  twostate predicate Unchanged(heap: Session)
    reads heap, heap.bs
  {
    heap.blocks == old(heap.blocks) && heap.leaked == old(heap.leaked) && heap.bs.live == old(heap.bs.live)
  }

  /** The only change is one more region, lost at address zero. */
  twostate predicate OneRegionLost(heap: Session, layout: Layout)
    reads heap, heap.bs
  {
    && heap.blocks == old(heap.blocks)
    && old(heap.leaked) == {} && heap.leaked == {Region(Pool, 0, layout.PoolSize())}
    && heap.bs.live == old(heap.bs.live) + heap.leaked
  }

  /** The only change is one more block, in a region of its own. */
  twostate predicate OneBlockMore(heap: Session, ptr: nat)
    reads heap, heap.bs
  {
    && ptr !in old(heap.blocks) && ptr in heap.blocks
    && heap.blocks == old(heap.blocks)[ptr := heap.blocks[ptr]]
    && heap.leaked == old(heap.leaked)
    && heap.blocks[ptr].region !in old(heap.bs.live)
    && heap.bs.live == old(heap.bs.live) + {heap.blocks[ptr].region}
  }

  /** That block is the box. */
  twostate predicate OneBoxMore(heap: Session, box: BoxResult, layout: Layout)
    reads heap, heap.bs
  {
    HoldsBox(heap, box, layout) && OneBlockMore(heap, box.ptr)
  }

  /** The firmware provided the memory. */
  twostate predicate Provided(heap: Session, layout: Layout)
    reads heap, heap.bs
  {
    Obtainable(layout, heap.bs.policy, old(heap.bs.live), old(heap.bs.tick), heap.bs.active)
  }

  /** The memory was refused, or granted at address zero and lost. */
  twostate predicate OutOfMemory(heap: Session, layout: Layout, r: BoxResult)
    reads heap, heap.bs
  {
    && r == BoxError(OutOfResources)
    && if Leaks(layout, heap.bs.policy, old(heap.bs.live), old(heap.bs.tick), heap.bs.active)
       then OneRegionLost(heap, layout)
       else Unchanged(heap)
  }

  /** What allocating and fetching does, given the second reply. */
  twostate predicate Fetched(heap: Session, second: Reply, layout: Layout, r: BoxResult)
    reads heap, heap.bs
  {
    if !Provided(heap, layout) then OutOfMemory(heap, layout, r)
    else
      match second
      case Filled(data, note) => r.Boxed? && r.data == data && r.note == note && OneBoxMore(heap, r, layout)
      case Failed(status, _) => r == BoxError(status) && Unchanged(heap)
  }

  /** `make_boxed`. */
  method MakeBoxed(heap: Session, fetch: Fetch, align: nat) returns (r: BoxResult)
    requires heap.Valid() && GoodFetch(fetch) && IsPow2(align)
    modifies heap`blocks, heap`leaked, heap.bs`live, heap.bs`tick, heap.bs`mem
    ensures heap.Valid() && heap.bs.KeepsMemoryOf(old(Owned(heap.blocks)))
    ensures fetch(0, 0).Filled? ==> r == BoxError(Unsupported) && Unchanged(heap)
    ensures fetch(0, 0).Failed? && !(fetch(0, 0).status == BufferTooSmall && fetch(0, 0).needed.Some?) ==>
              r == BoxError(fetch(0, 0).status) && Unchanged(heap)
    ensures fetch(0, 0).Failed? && fetch(0, 0).status == BufferTooSmall && fetch(0, 0).needed.Some? ==>
              var n := fetch(0, 0).needed.value;
              if RoundUp(n, align) > ISIZE_MAX then r == Panicked && Unchanged(heap)
              else if n == 0 then r == Undefined && Unchanged(heap)
              else Fetched(heap, fetch(1, n), PaddedLayout(n, align), r)
  {
    match RequiredSize(fetch(0, 0)) {
      case Err(status) =>
        r := BoxError(status);
      case Ok(n) =>
        var layout := PaddedLayout(n, align);
        if layout.size > ISIZE_MAX {
          r := Panicked;
        } else if layout.size == 0 {
          r := Undefined;
        } else {
          PaddedTwice(n, align);
          r := AllocateAndFetch(heap, fetch(1, n), layout);
        }
    }
  }

  /** Allocate the buffer, let the second call fill it, and give it back if that call fails. */
  method AllocateAndFetch(heap: Session, second: Reply, layout: Layout) returns (r: BoxResult)
    requires heap.Valid() && layout.Ok() && (second.Filled? ==> |second.data| <= layout.size)
    modifies heap`blocks, heap`leaked, heap.bs`live, heap.bs`tick, heap.bs`mem
    ensures heap.Valid() && heap.bs.KeepsMemoryOf(old(Owned(heap.blocks)))
    ensures Fetched(heap, second, layout, r)
  {
    var ptr, region := heap.Alloc(layout);
    if ptr == 0 {
      return BoxError(OutOfResources);
    }
    r := FillOrGiveBack(heap, second, ptr, layout, old(heap.blocks));
  }

  /** The second half, when the newest block is the buffer. */
  method FillOrGiveBack(heap: Session, second: Reply, ptr: nat, layout: Layout, ghost others: map<nat, Block>)
    returns (r: BoxResult)
    requires heap.Valid() && heap.bs.active && ptr in heap.blocks && heap.blocks[ptr].layout == layout
    requires ptr !in others && heap.blocks == others[ptr := heap.blocks[ptr]]
    requires second.Filled? ==> |second.data| <= layout.size
    modifies heap`blocks, heap.bs`live, heap.bs`tick, heap.bs`mem
    ensures heap.Valid() && heap.bs.KeepsMemoryOf(Owned(others))
    ensures match second
            case Filled(data, note) =>
              && r == Boxed(ptr, data, note) && HoldsBox(heap, r, layout)
              && heap.blocks == old(heap.blocks) && heap.bs.live == old(heap.bs.live)
            case Failed(status, _) =>
              && r == BoxError(status) && heap.blocks == others
              && heap.bs.live == old(heap.bs.live) - {old(heap.blocks[ptr].region)}
  {
    match second {
      case Filled(data, note) =>
        ghost var mem := FillKeeps(heap, ptr, data, others);
        heap.Write(ptr, ptr, data);
        r := Boxed(ptr, data, note);
      case Failed(status, _) =>
        GiveBack(heap, ptr, layout, others);
        r := BoxError(status);
    }
  }

  lemma FillKeeps(heap: Session, ptr: nat, data: seq<Byte>, others: map<nat, Block>) returns (mem: map<nat, Byte>)
    requires heap.Valid() && ptr in heap.blocks && |data| <= heap.blocks[ptr].layout.size
    requires ptr !in others && heap.blocks == others[ptr := heap.blocks[ptr]]
    ensures mem == WithBytes(heap.bs.mem, ptr, data)
    ensures MemoryHolds(mem, ptr, data) && Keeps(heap.bs.mem, mem, Owned(others))
  {
    Apart(heap.bs.mem, heap.bs.live, heap.blocks, ptr, others);
    mem := WithBytes(heap.bs.mem, ptr, data);
    WriteKeeps(heap.bs.mem, ptr, data, Owned(others), heap.blocks[ptr].layout.size);
  }

  /** No region reaches into the bytes from `at` on. */
  ghost predicate Away(regions: set<Region>, at: nat, size: nat) {
    forall r :: r in regions ==> r.base + r.size <= at || at + size <= r.base
  }

  lemma WriteKeeps(mem: map<nat, Byte>, at: nat, data: seq<Byte>, regions: set<Region>, size: nat)
    requires |data| <= size && Away(regions, at, size)
    ensures MemoryHolds(WithBytes(mem, at, data), at, data)
    ensures Keeps(mem, WithBytes(mem, at, data), regions)
  {
  }

  /** No region of another block reaches into a block. */
  lemma Apart(mem: map<nat, Byte>, live: set<Region>, blocks: map<nat, Block>, ptr: nat, others: map<nat, Block>)
    requires LedgerOk(live) && BlocksOk(mem, blocks) && Owned(blocks) <= live
    requires ptr in blocks && ptr !in others && blocks == others[ptr := blocks[ptr]]
    ensures Away(Owned(others), ptr, blocks[ptr].layout.size)
  {
    BlockInRegion(mem, ptr, blocks[ptr]);
    forall r | r in Owned(others)
      ensures r.base + r.size <= ptr || ptr + blocks[ptr].layout.size <= r.base
    {
      OtherRegion(mem, live, blocks, ptr, others, r);
    }
  }

  lemma OtherRegion(mem: map<nat, Byte>, live: set<Region>, blocks: map<nat, Block>, ptr: nat,
                    others: map<nat, Block>, r: Region)
    requires LedgerOk(live) && BlocksOk(mem, blocks) && Owned(blocks) <= live
    requires ptr in blocks && ptr !in others && blocks == others[ptr := blocks[ptr]] && r in Owned(others)
    ensures Disjoint(r, blocks[ptr].region)
  {
    var p :| p in others && others[p].region == r;
    assert p in blocks && blocks[p] == others[p] && p != ptr;
    assert blocks[p].region in Owned(blocks) && blocks[ptr].region in Owned(blocks);
  }

  /** Deallocate the newest block. */
  method GiveBack(heap: Session, ptr: nat, layout: Layout, ghost others: map<nat, Block>)
    requires heap.Valid() && heap.bs.active && ptr in heap.blocks && heap.blocks[ptr].layout == layout
    requires ptr !in others && heap.blocks == others[ptr := heap.blocks[ptr]]
    modifies heap`blocks, heap.bs`live, heap.bs`tick, heap.bs`mem
    ensures heap.Valid() && heap.blocks == others && heap.bs.KeepsMemoryOf(Owned(others))
    ensures heap.bs.live == old(heap.bs.live) - {old(heap.blocks[ptr].region)}
  {
    AddRemove(others, ptr, heap.blocks[ptr]);
    var _ := heap.Dealloc(ptr, layout);
  }

  lemma AddRemove<K, V>(m: map<K, V>, k: K, v: V)
    requires k !in m
    ensures m[k := v] - {k} == m
  {
  }

  lemma PaddedTwice(n: nat, align: nat)
    requires align > 0
    ensures RoundUp(RoundUp(n, align), align) == RoundUp(n, align)
  {
  }

  // ----- Dropping a box

  /**
    A box is dropped with the layout of its own length.  That is the layout it
    was allocated with exactly when both calls agree on the padded length.
   */
  lemma DropMatchesAllocationIff(n: nat, len: nat, align: nat)
    requires align > 0 && len <= n
    ensures PaddedLayout(len, align) == PaddedLayout(n, align) <==> n - len <= RoundUp(len, align) - len
  {
    if n <= RoundUp(len, align) {
      ClosestMultiples(RoundUp(len, align), RoundUp(n, align), align);
    }
  }

  lemma ClosestMultiples(a: nat, b: nat, align: nat)
    requires align > 0 && a % align == 0 && b % align == 0 && a - align < b < a + align
    ensures a == b
  {
    var k := b / align - a / align;
    assert k * align == b - a;
  }

  /** A wrong layout matters for an empty box, which is not deallocated at all, and for whole pages. */
  predicate DropReleases(n: nat, len: nat, align: nat)
    requires align > 0
  {
    len > 0 && (align == PAGE_SIZE ==> RoundUp(len, align) == RoundUp(n, align))
  }

  lemma PaddedStrategy(n: nat, len: nat, align: nat)
    requires align > 0
    ensures SameStrategy(PaddedLayout(len, align), PaddedLayout(n, align))
    ensures PaddedLayout(len, align).PageShortcut() <==> align == PAGE_SIZE
  {
  }

  /**
    Dropping a box that was made for `n` bytes and holds no more: its region
    is released exactly when the box is not empty and, for whole pages, has
    the padded length it was made for; otherwise the heap stays as it is.
   */
  method Drop(heap: Session, box: BoxResult, align: nat, ghost n: nat) returns (panicked: bool)
    requires heap.Valid() && align > 0 && box.Boxed? && |box.data| <= n && HoldsBox(heap, box, PaddedLayout(n, align))
    modifies heap`blocks, heap.bs`live, heap.bs`tick, heap.bs`mem
    ensures heap.Valid() && heap.bs.KeepsMemoryOf(Owned(heap.blocks))
    ensures panicked <==> box.data != [] && !DropReleases(n, |box.data|, align)
    ensures if DropReleases(n, |box.data|, align)
            then heap.blocks == old(heap.blocks) - {box.ptr}
                && heap.bs.live == old(heap.bs.live) - {old(heap.blocks[box.ptr].region)}
            else Unchanged(heap)
  {
    if box.data == [] {
      return false;
    }
    PaddedStrategy(n, |box.data|, align);
    panicked := heap.Dealloc(box.ptr, PaddedLayout(|box.data|, align));
  }

  /**
    Box, then drop, for a first call that asks for `n` bytes and a second one
    that fetches some: blocks and ledger are as before exactly when dropping
    releases the region; otherwise the block stays.
   */
  method BoxAndDrop(heap: Session, fetch: Fetch, ghost n: nat, ghost data: seq<Byte>, align: nat)
    returns (r: BoxResult, panicked: bool)
    requires heap.Valid() && GoodFetch(fetch) && IsPow2(align)
    requires Fetches(fetch, n, data)
    modifies heap`blocks, heap`leaked, heap.bs`live, heap.bs`tick, heap.bs`mem
    ensures heap.Valid() && heap.bs.KeepsMemoryOf(old(Owned(heap.blocks)))
    ensures var layout := PaddedLayout(n, align);
            if layout.size > ISIZE_MAX then r == Panicked && Unchanged(heap)
            else if n == 0 then r == Undefined && Unchanged(heap)
            else if !Provided(heap, layout) then OutOfMemory(heap, layout, r)
            else
              && r.Boxed? && r.data == data
              && if DropReleases(n, |data|, align) then !panicked && Unchanged(heap)
                 else OneBlockMore(heap, r.ptr) && (panicked <==> data != [])
  {
    r := MakeBoxed(heap, fetch, align);
    panicked := false;
    if r.Boxed? {
      AddRemove(old(heap.blocks), r.ptr, heap.blocks[r.ptr]);
      panicked := Drop(heap, r, align, n);
    }
  }

  /** When both calls see the same data, dropping releases the region. */
  lemma SameDataIsReleased(n: nat, align: nat)
    requires align > 0 && n > 0
    ensures DropReleases(n, n, align)
  {
  }

  /** A first call that asks for a byte more than a page and a second one that fetches a page: the box stays. */
  method ShorterPagesAreNotReleased(heap: Session, fetch: Fetch, ghost page: seq<Byte>)
    returns (r: BoxResult, panicked: bool)
    requires heap.Valid() && GoodFetch(fetch) && |page| == PAGE_SIZE && Fetches(fetch, PAGE_SIZE + 1, page)
    modifies heap`blocks, heap`leaked, heap.bs`live, heap.bs`tick, heap.bs`mem
    ensures heap.Valid()
    ensures if Provided(heap, Layout(2 * PAGE_SIZE, PAGE_SIZE)) then r.Boxed? && panicked && OneBlockMore(heap, r.ptr)
            else OutOfMemory(heap, Layout(2 * PAGE_SIZE, PAGE_SIZE), r)
  {
    PageIsPow2();
    r, panicked := BoxAndDrop(heap, fetch, PAGE_SIZE + 1, page, PAGE_SIZE);
  }

  lemma PageIsPow2()
    ensures IsPow2(PAGE_SIZE) && RoundUp(PAGE_SIZE + 1, PAGE_SIZE) == 2 * PAGE_SIZE
  {
    assert Pow2(4) == 16;
    assert Pow2(8) == 256;
    assert Pow2(12) == PAGE_SIZE;
  }

  // ----- Variables

  datatype Variable = Variable(data: seq<Byte>, attributes: nat)

  type VariableStore = map<VariableKeys.VariableKey, Variable>

  /** `get_variable` on an unchanging store. */
  function GetVariable(store: VariableStore, key: VariableKeys.VariableKey, bufLen: nat): Reply {
    if key !in store then Failed(NotFound, None)
    else if bufLen < |store[key].data| then Failed(BufferTooSmall, Some(|store[key].data|))
    else Filled(store[key].data, store[key].attributes)
  }

  /** `get_variable_boxed`: exactly the stored bytes and attributes, or why not. */
  method GetVariableBoxed(heap: Session, store: VariableStore, key: VariableKeys.VariableKey)
    returns (r: BoxResult, attributes: nat)
    requires heap.Valid()
    modifies heap`blocks, heap`leaked, heap.bs`live, heap.bs`tick, heap.bs`mem
    ensures heap.Valid() && heap.bs.KeepsMemoryOf(old(Owned(heap.blocks)))
    ensures key !in store ==> r == BoxError(NotFound) && Unchanged(heap)
    ensures key in store ==>
              var layout := PaddedLayout(|store[key].data|, 1);
              if store[key].data == [] then r == BoxError(Unsupported) && Unchanged(heap)
              else if |store[key].data| > ISIZE_MAX then r == Panicked && Unchanged(heap)
              else if !Provided(heap, layout) then OutOfMemory(heap, layout, r)
              else r.Boxed? && Variable(r.data, attributes) == store[key] && OneBoxMore(heap, r, layout)
  {
    var fetch := (call: nat, len: nat) => GetVariable(store, key, len);
    assert IsPow2(1) by {
      assert Pow2(0) == 1;
    }
    r := MakeBoxed(heap, fetch, 1);
    attributes := if r.Boxed? then r.note else 0;
  }
}
