/**
  The global allocator over boot services.  A session is everything one
  application does with it: allocations, deallocations with the same layout,
  and writes to its own blocks, while the firmware and other drivers keep
  allocating, freeing and writing elsewhere.
 */
module Allocator {
  import opened Bytes
  import opened Uefi
  import opened BootServices

  const WORD: nat := 8
  const ISIZE_MAX: nat := 0x7fff_ffff_ffff_ffff

  function Pow2(k: nat): (p: nat)
    ensures p > 0
  {
    if k == 0 then 1 else 2 * Pow2(k - 1)
  }

  ghost predicate IsPow2(n: nat) {
    exists k: nat :: n == Pow2(k)
  }

  /** The size, padded to a multiple of the alignment. */
  function RoundUp(n: nat, align: nat): (r: nat)
    requires align > 0
    ensures n <= r < n + align
    ensures r % align == 0
    ensures n > 0 ==> align <= r
  {
    var r := n + AlignOffset(n, align);
    MultipleAtLeast(r, align);
    r
  }

  lemma MultipleAtLeast(r: nat, align: nat)
    requires align > 0 && r % align == 0
    ensures r > 0 ==> align <= r
  {
  }

  /** Rust's `Layout`; the size is positive because `GlobalAlloc::alloc` demands it. */
  datatype Layout = Layout(size: nat, align: nat)
  {
    ghost predicate Ok() {
      size > 0 && IsPow2(align) && RoundUp(size, align) <= ISIZE_MAX
    }

    /** Layouts that are whole, page-aligned pages. */
    predicate PageShortcut() {
      size % PAGE_SIZE == 0 && align == PAGE_SIZE
    }

    /** Bytes that a pool allocation for the layout asks for. */
    function PoolSize(): nat {
      if align > 8 then size + align else size
    }

    /** Layouts that need room for a hidden back pointer. */
    predicate Padded() {
      !PageShortcut() && align > 8
    }
  }

  /** Layouts that are freed the same way: with the same alignment, and both or neither as whole pages. */
  predicate SameStrategy(used: Layout, made: Layout) {
    used.align == made.align && (used.PageShortcut() <==> made.PageShortcut())
  }

  /** Adding the alignment to the size does not overflow a machine word. */
  lemma SizePlusAlign(l: Layout)
    requires l.Ok()
    ensures l.size + l.align < ADDRESS_LIMIT
  {
  }

  /** A block handed out to the application, and the firmware allocation it lives in. */
  datatype Block = Block(layout: Layout, region: Region)

  /** The eight bytes at `at` hold a pointer. */
  ghost predicate HoldsWord(mem: map<nat, Byte>, at: nat, value: nat) {
    forall a :: at <= a < at + WORD ==> a in mem && mem[a] == LeBytes(value, WORD)[a - at]
  }

  function ReadWord(mem: map<nat, Byte>, at: nat): (v: nat)
    requires forall a :: at <= a < at + WORD ==> a in mem
  {
    LeValue(seq(WORD, k requires 0 <= k < WORD => mem[at + k]))
  }

  function Addresses(at: nat, n: nat): (s: set<nat>)
    ensures forall a :: a in s <==> at <= a < at + n
  {
    if n == 0 then {} else Addresses(at, n - 1) + {at + n - 1}
  }

  /** Memory with `data` written at `at`. */
  function WithBytes(mem: map<nat, Byte>, at: nat, data: seq<Byte>): (m: map<nat, Byte>)
    ensures forall a :: at <= a < at + |data| ==> a in m && m[a] == data[a - at]
    ensures forall a :: a in mem && !(at <= a < at + |data|) ==> a in m && m[a] == mem[a]
    ensures forall a :: a in m && !(at <= a < at + |data|) ==> a in mem
  {
    map a | a in mem.Keys + Addresses(at, |data|) :: if at <= a < at + |data| then data[a - at] else mem[a]
  }

  lemma ReadBack(mem: map<nat, Byte>, at: nat, value: nat)
    requires HoldsWord(mem, at, value) && value < ADDRESS_LIMIT
    ensures ReadWord(mem, at) == value
  {
    var word := seq(WORD, k requires 0 <= k < WORD => mem[at + k]);
    assert word == LeBytes(value, WORD);
    Pow256Limit();
    LeValueOfBytes(value, WORD);
  }

  lemma Pow256Limit()
    ensures Pow256(8) == ADDRESS_LIMIT
  {
    assert Pow256(2) == 0x1_0000;
    assert Pow256(4) == 0x1_0000_0000;
    assert Pow256(6) == 0x1_0000_0000_0000;
  }

  // ----- Alignment

  lemma Mod(x: nat, q: nat, a: nat)
    requires a > 0 && x == q * a
    ensures x % a == 0
  {
    var k := q - x / a;
    assert k * a == x % a;
  }

  lemma {:induction false} Pow2Multiple(k: nat, j: nat)
    requires j <= k
    ensures exists q: nat :: Pow2(k) == q * Pow2(j)
  {
    if j < k {
      Pow2Multiple(k - 1, j);
      var q: nat :| Pow2(k - 1) == q * Pow2(j);
      assert Pow2(k) == (2 * q) * Pow2(j);
    } else {
      assert Pow2(k) == 1 * Pow2(j);
    }
  }

  /** An alignment above eight is a multiple of sixteen, and the others are few. */
  lemma BigAlignments(align: nat)
    requires IsPow2(align)
    ensures if align > 8 then align % 16 == 0 else align in {1, 2, 4, 8}
  {
    var k :| align == Pow2(k);
    SmallPowers();
    if k >= 4 {
      Pow2Multiple(k, 4);
    }
  }

  lemma SmallPowers()
    ensures Pow2(0) == 1 && Pow2(1) == 2 && Pow2(2) == 4 && Pow2(3) == 8 && Pow2(4) == 16
  {
  }

  /** `align_offset`: the distance to the next multiple of `align`, zero if already there. */
  function AlignOffset(p: nat, align: nat): (o: nat)
    requires align > 0
    ensures o < align
    ensures (p + o) % align == 0
  {
    if p % align == 0 then 0
    else
      Mod(p + (align - p % align), p / align + 1, align);
      align - p % align
  }

  /** The offset the allocator uses: never zero, so that the back pointer fits below the block. */
  lemma PaddedOffset(base: nat, align: nat)
    requires IsPow2(align) && align > 8 && base % 8 == 0
    ensures var o := AlignOffset(base, align);
            var offset := if o == 0 then align else o;
            WORD <= offset <= align && (base + offset) % align == 0
  {
    BigAlignments(align);
    var o := AlignOffset(base, align);
    if o == 0 {
      Mod(base + align, base / align + 1, align);
    } else {
      MultipleOfEight(base + o, align);
      AtLeastAWord(base, o);
    }
  }

  lemma AtLeastAWord(base: nat, o: nat)
    requires base % 8 == 0 && (base + o) % 8 == 0 && o > 0
    ensures o >= WORD
  {
  }

  lemma MultipleOfEight(p: nat, align: nat)
    requires align > 0 && align % 16 == 0 && p % align == 0
    ensures p % 8 == 0
  {
    var q, h := p / align, align / 8;
    assert p == q * align && align == h * 8;
    MulAssociative(q, h, 8);
    Mod(p, q * h, 8);
  }

  lemma MulAssociative(a: nat, b: nat, c: nat)
    ensures a * (b * c) == (a * b) * c
  {
  }

  lemma SmallAlignments(p: nat, align: nat)
    requires IsPow2(align) && align <= 8 && p % 8 == 0
    ensures p % align == 0
  {
    BigAlignments(align);
    DividesEight(p, align);
  }

  lemma DividesEight(p: nat, align: nat)
    requires align in {1, 2, 4, 8} && p % 8 == 0
    ensures p % align == 0
  {
    var q := p / 8;
    if align == 2 {
      assert p == 2 * (4 * q);
    } else if align == 4 {
      assert p == 4 * (2 * q);
    }
  }

  // ----- Blocks

  /** What holds of every block that has been handed out. */
  ghost predicate BlockOk(mem: map<nat, Byte>, p: nat, b: Block) {
    && b.layout.Ok() && b.region.Ok()
    && p > 0 && p % b.layout.align == 0
    && if b.layout.PageShortcut() then b.region == Region(Pages, p, b.layout.size)
       else if !b.layout.Padded() then b.region == Region(Pool, p, b.layout.size)
       else && b.region.service == Pool
            && b.region.size == b.layout.size + b.layout.align
            && 0 < b.region.base && b.region.base + WORD <= p <= b.region.base + b.layout.align
            && HoldsWord(mem, p - WORD, b.region.base)
  }

  /** A block, and the hidden word below it if there is one, lie inside the block's region. */
  lemma BlockInRegion(mem: map<nat, Byte>, p: nat, b: Block)
    requires BlockOk(mem, p, b)
    ensures b.region.base <= p && p + b.layout.size <= b.region.base + b.region.size
    ensures b.layout.Padded() ==> b.region.base <= p - WORD
  {
  }

  function Owned(blocks: map<nat, Block>): set<Region> {
    set p | p in blocks :: blocks[p].region
  }

  ghost predicate BlocksOk(mem: map<nat, Byte>, blocks: map<nat, Block>) {
    && (forall p :: p in blocks ==> BlockOk(mem, p, blocks[p]))
    && (forall p, q :: p in blocks && q in blocks && p != q ==> blocks[p].region != blocks[q].region)
  }

  /** Blocks stay as they are when the memory of their regions is untouched. */
  lemma BlocksKept(mem: map<nat, Byte>, mem': map<nat, Byte>, blocks: map<nat, Block>)
    requires BlocksOk(mem, blocks)
    requires Keeps(mem, mem', Owned(blocks))
    ensures BlocksOk(mem', blocks)
  {
    forall p | p in blocks
      ensures BlockOk(mem', p, blocks[p])
    {
      BlockKept(mem, mem', blocks, p);
    }
  }

  lemma BlockKept(mem: map<nat, Byte>, mem': map<nat, Byte>, blocks: map<nat, Block>, p: nat)
    requires p in blocks && BlockOk(mem, p, blocks[p])
    requires Keeps(mem, mem', Owned(blocks))
    ensures BlockOk(mem', p, blocks[p])
  {
    var r := blocks[p].region;
    assert r in Owned(blocks);
    BlockInRegion(mem, p, blocks[p]);
    forall a | r.base <= a < p && a in mem
      ensures a in mem' && mem'[a] == mem[a]
    {
      assert r.Contains(a);
    }
  }

  lemma OwnedWith(blocks: map<nat, Block>, p: nat, b: Block)
    requires p !in blocks
    ensures Owned(blocks[p := b]) == Owned(blocks) + {b.region}
  {
    var more := blocks[p := b];
    forall r | r in Owned(blocks) + {b.region}
      ensures r in Owned(more)
    {
      if r in Owned(blocks) {
        var q :| q in blocks && blocks[q].region == r;
        assert more[q].region == r;
      } else {
        assert more[p].region == r;
      }
    }
  }

  /** A block in a fresh region is none of the others. */
  lemma FreshBlock(live: set<Region>, mem: map<nat, Byte>, blocks: map<nat, Block>, ptr: nat, b: Block)
    requires LedgerOk(live) && Owned(blocks) <= live && BlocksOk(mem, blocks)
    requires Fresh(live, b.region) && BlockOk(mem, ptr, b)
    ensures ptr !in blocks
    ensures forall p :: p in blocks ==> blocks[p].region != b.region
  {
    BlockInRegion(mem, ptr, b);
    forall p | p in blocks
      ensures p != ptr && blocks[p].region != b.region
    {
      assert blocks[p].region in Owned(blocks);
      BlockInRegion(mem, p, blocks[p]);
    }
  }

  lemma BlockAdded(live: set<Region>, mem: map<nat, Byte>, blocks: map<nat, Block>, ptr: nat, b: Block)
    requires LedgerOk(live) && Owned(blocks) <= live && BlocksOk(mem, blocks)
    requires Fresh(live, b.region) && BlockOk(mem, ptr, b)
    ensures ptr !in blocks && b.region !in live
    ensures BlocksOk(mem, blocks[ptr := b]) && Owned(blocks[ptr := b]) == Owned(blocks) + {b.region}
  {
    FreshIsNew(live, b.region);
    FreshBlock(live, mem, blocks, ptr, b);
    OwnedWith(blocks, ptr, b);
  }

  lemma OwnedWithout(mem: map<nat, Byte>, blocks: map<nat, Block>, p: nat)
    requires p in blocks && BlocksOk(mem, blocks)
    ensures Owned(blocks - {p}) == Owned(blocks) - {blocks[p].region}
  {
    var rest := blocks - {p};
    forall r | r in Owned(blocks) - {blocks[p].region}
      ensures r in Owned(rest)
    {
      var q :| q in blocks && blocks[q].region == r;
      assert rest[q].region == r;
    }
  }

  datatype Action =
    | DoAlloc(layout: Layout)
    | DoDealloc(ptr: nat)
    | DoWrite(ptr: nat, at: nat, data: seq<Byte>)
    | DoElsewhere

  /** The one way to lose memory: a pool request that the firmware grants at address zero. */
  predicate Leaks(layout: Layout, policy: Policy, live: set<Region>, tick: nat, active: bool) {
    active && !layout.PageShortcut() && policy(live, PoolRequest(layout.PoolSize()), tick) == Granted(0)
  }

  /** The firmware will provide the memory for the layout, at an address that is not zero. */
  predicate Obtainable(layout: Layout, policy: Policy, live: set<Region>, tick: nat, active: bool) {
    && active
    && if layout.PageShortcut()
       then PagesOutcome(policy, live, tick, PagesRequest(AnyPages, layout.size / PAGE_SIZE)).Ok?
       else var answer := policy(live, PoolRequest(layout.PoolSize()), tick); answer.Granted? && answer.base != 0
  }

  // ----- Runs

  /** What an action did. */
  datatype Event =
    | Allocated(ptr: nat, block: Block)
    | NotAllocated(layout: Layout)
    | Freed(ptr: nat, block: Block)
    | Wrote(ptr: nat, at: nat, data: seq<Byte>)
    | Nothing
    | Interference

  /** What the firmware's answers depend on: its ledger and the number of the call. */
  datatype Moment = Moment(live: set<Region>, tick: nat)

  /** The addresses lie in the block at `ptr`. */
  predicate Writable(blocks: map<nat, Block>, ptr: nat, at: nat, n: nat) {
    ptr in blocks && ptr <= at && at + n <= ptr + blocks[ptr].layout.size
  }

  /**
    What an action does is determined by the live blocks and, for an
    allocation, by the firmware's answer at that moment.
   */
  predicate Explains(event: Event, action: Action, blocks: map<nat, Block>, policy: Policy, now: Moment, active: bool) {
    match action
    case DoAlloc(layout) =>
      if Obtainable(layout, policy, now.live, now.tick, active)
      then && event.Allocated? && event.block.layout == layout
           && event.ptr !in blocks && event.block.region !in now.live
      else event == NotAllocated(layout)
    case DoDealloc(ptr) => event == if ptr in blocks && active then Freed(ptr, blocks[ptr]) else Nothing
    case DoWrite(ptr, at, data) =>
      event == if Writable(blocks, ptr, at, |data|) then Wrote(ptr, at, data) else Nothing
    case DoElsewhere => event == Interference
  }

  /** The ledger after an event of this application. */
  function LedgerAfter(event: Event, policy: Policy, now: Moment, active: bool): set<Region> {
    match event
    case Allocated(_, b) => now.live + {b.region}
    case NotAllocated(layout) =>
      if Leaks(layout, policy, now.live, now.tick, active) then now.live + {Region(Pool, 0, layout.PoolSize())}
      else now.live
    case Freed(_, b) => now.live - {b.region}
    case _ => now.live
  }

  predicate Follows(event: Event, policy: Policy, now: Moment, next: Moment, active: bool) {
    now.tick <= next.tick && (!event.Interference? ==> next.live == LedgerAfter(event, policy, now, active))
  }

  /** A log of a run: every event is the one its action leads to, from one moment to the next. */
  predicate LogOk(log: seq<Event>, moments: seq<Moment>, actions: seq<Action>, start: map<nat, Block>,
                  policy: Policy, active: bool)
  {
    && |log| == |actions| && |moments| == |log| + 1
    && (log == [] ||
        var n := |log| - 1;
        && LogOk(log[..n], moments[..n + 1], actions[..n], start, policy, active)
        && Explains(log[n], actions[n], Replay(start, log[..n]), policy, moments[n], active)
        && Follows(log[n], policy, moments[n], moments[n + 1], active))
  }

  lemma WriteExplained(event: Event, ptr: nat, at: nat, data: seq<Byte>, blocks: map<nat, Block>,
                       policy: Policy, now: Moment, active: bool)
    requires event == if Writable(blocks, ptr, at, |data|) then Wrote(ptr, at, data) else Nothing
    ensures Explains(event, DoWrite(ptr, at, data), blocks, policy, now, active)
    ensures Follows(event, policy, now, now, active) && Replayed(blocks, event) == blocks
  {
  }

  /** The bytes that a block is to hold: those written to it last. */
  function Expected(start: map<nat, Byte>, log: seq<Event>): map<nat, Byte> {
    if log == [] then start else Effect(Expected(start, log[..|log| - 1]), log[|log| - 1])
  }

  function Effect(bytes: map<nat, Byte>, event: Event): map<nat, Byte> {
    match event
    case Freed(ptr, b) => map a | a in bytes && !(ptr <= a < ptr + b.layout.size) :: bytes[a]
    case Wrote(_, at, data) => WithBytes(bytes, at, data)
    case _ => bytes
  }

  /** The live blocks according to the log. */
  function Replay(start: map<nat, Block>, log: seq<Event>): map<nat, Block> {
    if log == [] then start else Replayed(Replay(start, log[..|log| - 1]), log[|log| - 1])
  }

  function Replayed(blocks: map<nat, Block>, event: Event): map<nat, Block> {
    match event
    case Allocated(ptr, b) => blocks[ptr := b]
    case Freed(ptr, _) => blocks - {ptr}
    case _ => blocks
  }

  lemma {:induction false} LogStep(log: seq<Event>, event: Event, moments: seq<Moment>, next: Moment,
                                   actions: seq<Action>, i: nat, blocks: map<nat, Block>, bytes: map<nat, Byte>,
                                   policy: Policy, active: bool)
    requires i < |actions| && LogOk(log, moments, actions[..i], blocks, policy, active)
    requires Explains(event, actions[i], Replay(blocks, log), policy, moments[i], active)
    requires Follows(event, policy, moments[i], next, active)
    ensures LogOk(log + [event], moments + [next], actions[..i + 1], blocks, policy, active)
    ensures Expected(bytes, log + [event]) == Effect(Expected(bytes, log), event)
    ensures Replay(blocks, log + [event]) == Replayed(Replay(blocks, log), event)
  {
    assert (log + [event])[..i] == log && actions[..i + 1][..i] == actions[..i];
    assert (moments + [next])[..i + 1] == moments;
  }

  predicate InBlock(blocks: map<nat, Block>, a: nat) {
    exists p :: p in blocks && p <= a < p + blocks[p].layout.size
  }

  /** The bytes of blocks that are in memory. */
  function Contents(mem: map<nat, Byte>, blocks: map<nat, Block>): map<nat, Byte> {
    map a | a in mem && InBlock(blocks, a) :: mem[a]
  }

  /** Memory holds the bytes, and they all belong to blocks. */
  ghost predicate Intact(bytes: map<nat, Byte>, mem: map<nat, Byte>, blocks: map<nat, Block>) {
    forall a :: a in bytes ==> a in mem && mem[a] == bytes[a] && InBlock(blocks, a)
  }

  lemma KeptIntact(bytes: map<nat, Byte>, mem: map<nat, Byte>, mem': map<nat, Byte>, blocks: map<nat, Block>)
    requires Intact(bytes, mem, blocks) && BlocksOk(mem, blocks)
    requires Keeps(mem, mem', Owned(blocks))
    ensures Intact(bytes, mem', blocks)
  {
    forall a | a in bytes
      ensures a in mem' && mem'[a] == bytes[a]
    {
      var p :| p in blocks && p <= a < p + blocks[p].layout.size;
      assert blocks[p].region in Owned(blocks);
      BlockInRegion(mem, p, blocks[p]);
      assert blocks[p].region.Contains(a);
    }
  }

  lemma IntactWith(bytes: map<nat, Byte>, mem: map<nat, Byte>, blocks: map<nat, Block>, p: nat, b: Block)
    requires Intact(bytes, mem, blocks) && p !in blocks
    ensures Intact(bytes, mem, blocks[p := b])
  {
    forall a | a in bytes
      ensures InBlock(blocks[p := b], a)
    {
      var q :| q in blocks && q <= a < q + blocks[q].layout.size;
      assert q in blocks[p := b] && blocks[p := b][q] == blocks[q];
    }
  }

  lemma IntactWithout(bytes: map<nat, Byte>, mem: map<nat, Byte>, blocks: map<nat, Block>, p: nat)
    requires Intact(bytes, mem, blocks) && p in blocks
    ensures Intact(Effect(bytes, Freed(p, blocks[p])), mem, blocks - {p})
  {
    var rest := blocks - {p};
    forall a | a in Effect(bytes, Freed(p, blocks[p]))
      ensures InBlock(rest, a)
    {
      var q :| q in blocks && q <= a < q + blocks[q].layout.size;
      assert q in rest && rest[q] == blocks[q];
    }
  }

  lemma IntactWritten(bytes: map<nat, Byte>, mem: map<nat, Byte>, blocks: map<nat, Block>, p: nat, at: nat,
                      data: seq<Byte>)
    requires Intact(bytes, mem, blocks) && Writable(blocks, p, at, |data|)
    ensures Intact(Effect(bytes, Wrote(p, at, data)), WithBytes(mem, at, data), blocks)
  {
    forall a | a in WithBytes(bytes, at, data)
      ensures InBlock(blocks, a)
    {
      if at <= a < at + |data| {
        assert p <= a < p + blocks[p].layout.size;
      } else {
        assert a in bytes;
      }
    }
  }

  datatype Change = Change(add: set<Region>, remove: set<Region>, mem: map<nat, Byte>)

  /** What the rest of the machine does, given its regions, everyone else's, memory and the step number. */
  type Neighbour = (set<Region>, set<Region>, map<nat, Byte>, nat) -> Change

  /** The rest of the machine frees only its own regions, keeps the ledger in order and writes only outside ours. */
  ghost predicate GoodNeighbour(n: Neighbour) {
    forall foreign: set<Region>, mine: set<Region>, mem: map<nat, Byte>, step: nat ::
      var c := n(foreign, mine, mem, step);
      LedgerOk(foreign + mine) && foreign !! mine ==>
        && c.remove <= foreign && c.add !! (foreign + mine) && LedgerOk(foreign - c.remove + mine + c.add)
        && Keeps(mem, c.mem, mine)
  }

  /**
    Where a block lies, read off the firmware's answer: whole pages if the
    layout is page-aligned pages, the start of a pool allocation if eight
    bytes of alignment are enough, and otherwise behind at least eight bytes
    of a pool allocation that is larger by the alignment.
   */
  ghost predicate ByStrategy(layout: Layout, policy: Policy, live: set<Region>, tick: nat, active: bool,
                             ptr: nat, region: Region)
  {
    if !active then ptr == 0
    else if layout.size % 4096 == 0 && layout.align == 4096 then
      match PagesOutcome(policy, live, tick, PagesRequest(AnyPages, layout.size / 4096))
      case Ok(base) => ptr == base && region == Region(Pages, base, layout.size)
      case Err(_) => ptr == 0
    else if layout.align <= 8 then
      match policy(live, PoolRequest(layout.size), tick)
      case Granted(base) => ptr == base && region == Region(Pool, base, layout.size)
      case Refused(_) => ptr == 0
    else
      match policy(live, PoolRequest(layout.size + layout.align), tick)
      case Granted(base) =>
        && region == Region(Pool, base, layout.size + layout.align)
        && if base == 0 then ptr == 0 else base + 8 <= ptr <= base + layout.align
      case Refused(_) => ptr == 0
  }

  /** A firmware that grants its first pool request at address zero and refuses everything else. */
  function ZeroFirst(live: set<Region>, request: Request, tick: nat): Answer {
    if live == {} && request.PoolRequest? && request.size <= ADDRESS_LIMIT then Granted(0) else Refused(OutOfResources)
  }

  /** The specification allows that firmware, and with it an allocation of eight bytes is lost. */
  lemma ConformingFirmwareMayLeak()
    ensures Conforming(ZeroFirst)
    ensures Leaks(Layout(8, 8), ZeroFirst, {}, 0, true)
  {
  }

  class Session {
    const bs: BootServices
    /** Live blocks of the application. */
    var blocks: map<nat, Block>
    /** Pool regions that the firmware granted at address zero and the crate refused to use. */
    var leaked: set<Region>
    /** Everything else that is allocated in the machine. */
    var foreign: set<Region>

    ghost predicate Valid()
      reads this, bs
    {
      && bs.Valid()
      && BlocksOk(bs.mem, blocks)
      && bs.live == Owned(blocks) + leaked + foreign
      && Owned(blocks) !! leaked !! foreign
      && (forall r :: r in leaked ==> r.service == Pool && r.base == 0)
    }

    constructor (bs: BootServices)
      requires bs.Valid()
      ensures Valid() && this.bs == bs && blocks == map[] && leaked == {} && foreign == bs.live
    {
      this.bs, blocks, leaked, foreign := bs, map[], {}, bs.live;
    }

    /** `alloc_pool_aligned`. */
    method AllocPoolAligned(size: nat, align: nat) returns (ptr: nat, region: Region)
      requires bs.Valid() && size > 0 && IsPow2(align) && align > 8 && size + align < ADDRESS_LIMIT
      modifies bs`live, bs`tick, bs`mem
      ensures bs.Valid() && bs.KeepsMemoryOf(old(bs.live)) && bs.tick >= old(bs.tick)
      ensures ptr == 0 ==>
                if old(bs.policy(bs.live, PoolRequest(size + align), bs.tick)) == Granted(0)
                then region == Region(Pool, 0, size + align) && Fresh(old(bs.live), region)
                    && bs.live == old(bs.live) + {region}
                else bs.live == old(bs.live)
      ensures ptr != 0 ==>
                && Fresh(old(bs.live), region) && bs.live == old(bs.live) + {region}
                && region.service == Pool && region.size == size + align < ADDRESS_LIMIT
                && 0 < region.base && region.base + WORD <= ptr <= region.base + align
                && ptr % align == 0
                && HoldsWord(bs.mem, ptr - WORD, region.base)
      ensures var answer := old(bs.policy(bs.live, PoolRequest(size + align), bs.tick));
              && (ptr != 0 <==> answer.Granted? && answer.base != 0)
              && (answer.Granted? ==> region == Region(Pool, answer.base, size + align))
    {
      var full := bs.AllocatePool(size + align);
      if full.Err? {
        return 0, Region(Pool, 0, size + align);
      }
      var fullPtr := full.value;
      region := Region(Pool, fullPtr, size + align);
      var offset := AlignOffset(fullPtr, align);
      if offset == 0 {
        offset := align;
      }
      PaddedOffset(fullPtr, align);
      ptr := fullPtr + offset;
      bs.mem := WithBytes(bs.mem, ptr - WORD, LeBytes(fullPtr, WORD));
    }

    /** Whole pages. */
    method AllocWholePages(layout: Layout) returns (ptr: nat, region: Region)
      requires bs.Valid() && layout.Ok() && layout.PageShortcut()
      modifies bs`live, bs`tick, bs`mem
      ensures bs.Valid() && bs.KeepsMemoryOf(old(bs.live)) && bs.tick >= old(bs.tick)
      ensures var request := PagesRequest(AnyPages, layout.size / PAGE_SIZE);
              ptr != 0 <==> PagesOutcome(bs.policy, old(bs.live), old(bs.tick), request).Ok?
      ensures ptr == 0 ==> bs.live == old(bs.live)
      ensures ptr != 0 ==>
                && Fresh(old(bs.live), region) && bs.live == old(bs.live) + {region}
                && BlockOk(bs.mem, ptr, Block(layout, region))
      ensures ByStrategy(layout, bs.policy, old(bs.live), old(bs.tick), true, ptr, region)
    {
      var count := (layout.size + PAGE_SIZE - 1) / PAGE_SIZE;
      assert count == layout.size / PAGE_SIZE && count * PAGE_SIZE == layout.size;
      var r := bs.AllocatePages(AnyPages, count);
      match r {
        case Ok(base) => ptr, region := base, Region(Pages, base, count * PAGE_SIZE);
        case Err(_) => ptr, region := 0, Region(Pages, 0, 0);
      }
    }

    /** From the pool, directly or with room for the back pointer. */
    method AllocFromPool(layout: Layout) returns (ptr: nat, region: Region)
      requires bs.Valid() && layout.Ok() && !layout.PageShortcut()
      modifies bs`live, bs`tick, bs`mem
      ensures bs.Valid() && bs.KeepsMemoryOf(old(bs.live)) && bs.tick >= old(bs.tick)
      ensures var answer := old(bs.policy(bs.live, PoolRequest(layout.PoolSize()), bs.tick));
              && (ptr != 0 <==> answer.Granted? && answer.base != 0)
              && (ptr == 0 ==>
                    if answer == Granted(0)
                    then region == Region(Pool, 0, layout.PoolSize()) && Fresh(old(bs.live), region)
                        && bs.live == old(bs.live) + {region}
                    else bs.live == old(bs.live))
      ensures ptr != 0 ==>
                && Fresh(old(bs.live), region) && bs.live == old(bs.live) + {region}
                && BlockOk(bs.mem, ptr, Block(layout, region))
      ensures ByStrategy(layout, bs.policy, old(bs.live), old(bs.tick), true, ptr, region)
    {
      if layout.align <= 8 {
        var r := bs.AllocatePool(layout.size);
        match r {
          case Ok(base) =>
            SmallAlignments(base, layout.align);
            ptr, region := base, Region(Pool, base, layout.size);
          case Err(_) =>
            ptr, region := 0, Region(Pool, 0, layout.size);
        }
      } else {
        SizePlusAlign(layout);
        ptr, region := AllocPoolAligned(layout.size, layout.align);
      }
    }

    /** `GlobalAlloc::alloc`: three strategies, chosen by the layout; zero is the null pointer. */
    method AllocRaw(layout: Layout) returns (ptr: nat, region: Region)
      requires bs.Valid() && layout.Ok()
      modifies bs`live, bs`tick, bs`mem
      ensures bs.Valid() && bs.KeepsMemoryOf(old(bs.live)) && bs.tick >= old(bs.tick)
      ensures ptr != 0 <==> Obtainable(layout, bs.policy, old(bs.live), old(bs.tick), bs.active)
      ensures ptr == 0 ==>
                if Leaks(layout, bs.policy, old(bs.live), old(bs.tick), bs.active)
                then region == Region(Pool, 0, layout.PoolSize()) && Fresh(old(bs.live), region)
                    && bs.live == old(bs.live) + {region}
                else bs.live == old(bs.live)
      ensures ptr != 0 ==>
                && Fresh(old(bs.live), region) && bs.live == old(bs.live) + {region}
                && BlockOk(bs.mem, ptr, Block(layout, region))
      ensures ByStrategy(layout, bs.policy, old(bs.live), old(bs.tick), bs.active, ptr, region)
    {
      if !bs.active {
        ptr, region := 0, Region(Pool, 0, 0);
      } else if layout.PageShortcut() {
        ptr, region := AllocWholePages(layout);
      } else {
        ptr, region := AllocFromPool(layout);
      }
    }

    /** Allocation as the application sees it. */
    method Alloc(layout: Layout) returns (ptr: nat, region: Region)
      requires Valid() && layout.Ok()
      modifies this`blocks, this`leaked, bs`live, bs`tick, bs`mem
      ensures Valid()
      ensures ptr != 0 <==> Obtainable(layout, bs.policy, old(bs.live), old(bs.tick), bs.active)
      ensures ptr == 0 ==>
                && blocks == old(blocks)
                && if Leaks(layout, bs.policy, old(bs.live), old(bs.tick), bs.active)
                   then old(leaked) == {} && leaked == {Region(Pool, 0, layout.PoolSize())}
                       && bs.live == old(bs.live) + leaked
                   else leaked == old(leaked) && bs.live == old(bs.live)
      ensures ptr != 0 ==>
                && leaked == old(leaked)
                && ptr !in old(blocks) && blocks == old(blocks)[ptr := Block(layout, region)]
                && region !in old(bs.live) && bs.live == old(bs.live) + {region}
      ensures bs.KeepsMemoryOf(old(Owned(blocks))) && bs.tick >= old(bs.tick)
    {
      ptr, region := AllocRaw(layout);
      BlocksKept(old(bs.mem), bs.mem, blocks);
      if ptr != 0 {
        BlockAdded(old(bs.live), bs.mem, blocks, ptr, Block(layout, region));
        blocks := blocks[ptr := Block(layout, region)];
      } else {
        leaked := leaked + (bs.live - Owned(blocks) - leaked - foreign);
      }
    }

    /**
      `GlobalAlloc::dealloc` with the alignment of the allocation: it frees
      the firmware allocation that the block was made from, unless boot
      services are gone or the size of whole pages is wrong.
     */
    method DeallocRaw(ptr: nat, layout: Layout, ghost b: Block) returns (panicked: bool)
      requires bs.Valid() && BlockOk(bs.mem, ptr, b) && SameStrategy(layout, b.layout) && b.region in bs.live
      modifies bs`live, bs`tick, bs`mem
      ensures bs.Valid() && bs.KeepsMemoryOf(bs.live) && bs.tick >= old(bs.tick)
      ensures panicked <==> !bs.active || (layout.PageShortcut() && layout.size != b.layout.size)
      ensures bs.live == if panicked then old(bs.live) else old(bs.live) - {b.region}
    {
      if !bs.active {
        return true;
      }
      if layout.PageShortcut() {
        var count := (layout.size + PAGE_SIZE - 1) / PAGE_SIZE;
        assert count * PAGE_SIZE == layout.size;
        assert Region(Pages, ptr, layout.size) in bs.live ==> layout.size == b.layout.size;
        var status := bs.FreePages(ptr, count);
        panicked := status.Some?;
      } else if layout.align <= 8 {
        var status := bs.FreePool(ptr);
        panicked := status.Some?;
      } else {
        ReadBack(bs.mem, ptr - WORD, b.region.base);
        var actual := ReadWord(bs.mem, ptr - WORD);
        if actual == 0 {
          panicked := true;
        } else {
          var status := bs.FreePool(actual);
          panicked := status.Some?;
        }
      }
    }

    /** Deallocation as the application sees it. */
    method Dealloc(ptr: nat, layout: Layout) returns (panicked: bool)
      requires Valid() && ptr in blocks && SameStrategy(layout, blocks[ptr].layout)
      modifies this`blocks, bs`live, bs`tick, bs`mem
      ensures Valid()
      ensures panicked <==> !bs.active || (layout.PageShortcut() && layout.size != old(blocks[ptr].layout.size))
      ensures panicked ==> blocks == old(blocks) && bs.live == old(bs.live)
      ensures !panicked ==>
                && blocks == old(blocks) - {ptr}
                && bs.live == old(bs.live) - {old(blocks[ptr].region)}
      ensures bs.KeepsMemoryOf(Owned(blocks)) && bs.tick >= old(bs.tick)
    {
      assert blocks[ptr].region in Owned(blocks);
      panicked := DeallocRaw(ptr, layout, blocks[ptr]);
      if !panicked {
        OwnedWithout(old(bs.mem), blocks, ptr);
        blocks := blocks - {ptr};
      }
      BlocksKept(old(bs.mem), bs.mem, blocks);
    }

    /** The application writes to an address in one of its blocks. */
    method Write(ptr: nat, at: nat, data: seq<Byte>)
      requires Valid() && Writable(blocks, ptr, at, |data|)
      modifies bs`mem
      ensures Valid() && bs.mem == WithBytes(old(bs.mem), at, data)
    {
      bs.mem := WithBytes(bs.mem, at, data);
      forall p | p in blocks
        ensures BlockOk(bs.mem, p, blocks[p])
      {
        WordsOutsideBlocks(old(bs.mem), p, ptr);
      }
    }

    /** No byte of a block is part of a hidden word, its own or another's. */
    lemma WordsOutsideBlocks(mem: map<nat, Byte>, p: nat, ptr: nat)
      requires bs.Valid() && BlocksOk(mem, blocks) && Owned(blocks) <= bs.live
      requires p in blocks && ptr in blocks
      ensures blocks[p].layout.Padded() ==> p <= ptr || ptr + blocks[ptr].layout.size <= p - WORD
    {
      assert blocks[p].region in Owned(blocks) && blocks[ptr].region in Owned(blocks);
      BlockInRegion(mem, p, blocks[p]);
      BlockInRegion(mem, ptr, blocks[ptr]);
    }

    /** Live blocks are aligned, lie in live regions and do not overlap. */
    lemma BlocksDisjoint(p: nat, q: nat)
      requires Valid() && p in blocks && q in blocks
      ensures p % blocks[p].layout.align == 0
      ensures blocks[p].region in bs.live
      ensures p != q ==> blocks[p].region != blocks[q].region
      ensures p != q ==> p + blocks[p].layout.size <= q || q + blocks[q].layout.size <= p
    {
      assert blocks[p].region in Owned(blocks) && blocks[q].region in Owned(blocks);
      assert p != q ==> Disjoint(blocks[p].region, blocks[q].region);
      BlockInRegion(bs.mem, p, blocks[p]);
      BlockInRegion(bs.mem, q, blocks[q]);
    }

    /** At most one region is ever lost, the one at address zero. */
    lemma AtMostOneLeak()
      requires Valid()
      ensures |leaked| <= 1
    {
      if leaked != {} {
        var r :| r in leaked;
        forall q | q in leaked
          ensures q == r
        {
          assert q in bs.live && r in bs.live;
        }
        assert leaked == {r};
      }
    }

    /** The rest of the machine allocates, frees and writes outside the regions of this application. */
    method Elsewhere(neighbour: Neighbour, step: nat)
      requires Valid() && GoodNeighbour(neighbour)
      modifies this`foreign, bs`live, bs`mem
      ensures Valid() && bs.KeepsMemoryOf(Owned(blocks))
      ensures var c := neighbour(old(foreign), old(Owned(blocks) + leaked), old(bs.mem), step);
              && bs.mem == c.mem
              && bs.live == old(bs.live) - c.remove + c.add && foreign == old(foreign) - c.remove + c.add
    {
      ghost var mine := Owned(blocks) + leaked;
      var c := neighbour(foreign, Owned(blocks) + leaked, bs.mem, step);
      assert foreign + mine == bs.live;
      assert foreign - c.remove + mine + c.add == bs.live - c.remove + c.add;
      assert forall a :: Covered(Owned(blocks), a) ==> Covered(mine, a);
      BlocksKept(bs.mem, c.mem, blocks);
      bs.live := bs.live - c.remove + c.add;
      bs.mem := c.mem;
      foreign := foreign - c.remove + c.add;
    }

    ghost function Now(): Moment
      reads bs
    {
      Moment(bs.live, bs.tick)
    }

    /** What has been done explains the live blocks and the bytes that they hold. */
    ghost predicate Accounts(bytes: map<nat, Byte>, expected: map<nat, Block>)
      reads this, bs
    {
      Intact(bytes, bs.mem, blocks) && blocks == expected
    }

    /** The event is what the action leads to from the old state, and the new state follows from it. */
    twostate predicate Did(event: Event, action: Action, bytes: map<nat, Byte>)
      reads this, bs
    {
      && Explains(event, action, old(blocks), bs.policy, Moment(old(bs.live), old(bs.tick)), bs.active)
      && Follows(event, bs.policy, Moment(old(bs.live), old(bs.tick)), Moment(bs.live, bs.tick), bs.active)
      && Accounts(Effect(bytes, event), Replayed(old(blocks), event))
    }

    /** One action. */
    method Act(action: Action, neighbour: Neighbour, step: nat, ghost bytes: map<nat, Byte>)
      returns (ghost event: Event)
      requires Valid() && GoodNeighbour(neighbour) && (action.DoAlloc? ==> action.layout.Ok())
      requires Intact(bytes, bs.mem, blocks)
      modifies this`blocks, this`leaked, this`foreign, bs`live, bs`tick, bs`mem
      ensures Valid() && Did(event, action, bytes)
    {
      match action {
        case DoAlloc(layout) =>
          event := ActAlloc(layout, bytes);
        case DoDealloc(ptr) =>
          event := ActDealloc(ptr, bytes);
        case DoWrite(ptr, at, data) =>
          event := ActWrite(ptr, at, data, bytes);
        case DoElsewhere =>
          event := ActElsewhere(neighbour, step, bytes);
      }
    }

    method ActAlloc(layout: Layout, ghost bytes: map<nat, Byte>) returns (ghost event: Event)
      requires Valid() && layout.Ok() && Intact(bytes, bs.mem, blocks)
      modifies this`blocks, this`leaked, bs`live, bs`tick, bs`mem
      ensures Valid() && Did(event, DoAlloc(layout), bytes)
    {
      var ptr, region := Alloc(layout);
      KeptIntact(bytes, old(bs.mem), bs.mem, old(blocks));
      if ptr == 0 {
        event := NotAllocated(layout);
      } else {
        IntactWith(bytes, bs.mem, old(blocks), ptr, Block(layout, region));
        event := Allocated(ptr, Block(layout, region));
      }
    }

    method ActDealloc(ptr: nat, ghost bytes: map<nat, Byte>) returns (ghost event: Event)
      requires Valid() && Intact(bytes, bs.mem, blocks)
      modifies this`blocks, bs`live, bs`tick, bs`mem
      ensures Valid() && Did(event, DoDealloc(ptr), bytes)
    {
      if ptr !in blocks {
        return Nothing;
      }
      ghost var b := blocks[ptr];
      IntactWithout(bytes, bs.mem, blocks, ptr);
      var panicked := Dealloc(ptr, blocks[ptr].layout);
      event := if panicked then Nothing else Freed(ptr, b);
      KeptIntact(Effect(bytes, event), old(bs.mem), bs.mem, blocks);
    }

    method ActWrite(ptr: nat, at: nat, data: seq<Byte>, ghost bytes: map<nat, Byte>) returns (ghost event: Event)
      requires Valid() && Intact(bytes, bs.mem, blocks)
      modifies bs`mem
      ensures Valid() && Did(event, DoWrite(ptr, at, data), bytes)
    {
      event := if Writable(blocks, ptr, at, |data|) then Wrote(ptr, at, data) else Nothing;
      WriteExplained(event, ptr, at, data, blocks, bs.policy, Now(), bs.active);
      if Writable(blocks, ptr, at, |data|) {
        WriteIntact(ptr, at, data, bytes);
      }
    }

    method WriteIntact(ptr: nat, at: nat, data: seq<Byte>, ghost bytes: map<nat, Byte>)
      requires Valid() && Writable(blocks, ptr, at, |data|) && Intact(bytes, bs.mem, blocks)
      modifies bs`mem
      ensures Valid() && Intact(Effect(bytes, Wrote(ptr, at, data)), bs.mem, blocks)
    {
      IntactWritten(bytes, bs.mem, blocks, ptr, at, data);
      Write(ptr, at, data);
    }

    method ActElsewhere(neighbour: Neighbour, step: nat, ghost bytes: map<nat, Byte>) returns (ghost event: Event)
      requires Valid() && GoodNeighbour(neighbour) && Intact(bytes, bs.mem, blocks)
      modifies this`foreign, bs`live, bs`mem
      ensures Valid() && Did(event, DoElsewhere, bytes)
    {
      Elsewhere(neighbour, step);
      KeptIntact(bytes, old(bs.mem), bs.mem, blocks);
      event := Interference;
    }

    /** The log of some actions leads from the first moment to now, and explains the blocks and their bytes. */
    ghost predicate Recorded(log: seq<Event>, moments: seq<Moment>, actions: seq<Action>,
                             first: Moment, start: map<nat, Block>, bytes: map<nat, Byte>)
      reads this, bs
    {
      && LogOk(log, moments, actions, start, bs.policy, bs.active)
      && moments[0] == first && moments[|log|] == Now()
      && Accounts(Expected(bytes, log), Replay(start, log))
    }

    method RunStep(actions: seq<Action>, i: nat, neighbour: Neighbour,
                   ghost log: seq<Event>, ghost moments: seq<Moment>,
                   ghost first: Moment, ghost start: map<nat, Block>, ghost bytes: map<nat, Byte>)
      returns (ghost log': seq<Event>, ghost moments': seq<Moment>)
      requires Valid() && GoodNeighbour(neighbour)
      requires i < |actions| && (actions[i].DoAlloc? ==> actions[i].layout.Ok())
      requires Recorded(log, moments, actions[..i], first, start, bytes)
      modifies this`blocks, this`leaked, this`foreign, bs`live, bs`tick, bs`mem
      ensures Valid() && Recorded(log', moments', actions[..i + 1], first, start, bytes)
    {
      ghost var event;
      event := Act(actions[i], neighbour, i, Expected(bytes, log));
      LogStep(log, event, moments, Now(), actions, i, start, bytes, bs.policy, bs.active);
      log', moments' := log + [event], moments + [Now()];
    }

    /**
      Along every run the invariant holds: blocks are aligned, disjoint and in
      live regions of their own, the hidden words are intact, and every region
      of the ledger is owned by one block, lost at address zero, or foreign.
      Every allocation succeeds unless the firmware refuses it, every event
      changes the ledger by its own region only, the live blocks are those
      allocated and not freed, and every byte of theirs is the one last written
      there.
     */
    method Run(actions: seq<Action>, neighbour: Neighbour) returns (ghost log: seq<Event>, ghost moments: seq<Moment>)
      requires Valid() && GoodNeighbour(neighbour)
      requires forall i :: 0 <= i < |actions| && actions[i].DoAlloc? ==> actions[i].layout.Ok()
      modifies this`blocks, this`leaked, this`foreign, bs`live, bs`tick, bs`mem
      ensures Valid() && |leaked| <= 1
      ensures forall p, q :: p in blocks && q in blocks && p != q ==>
                p + blocks[p].layout.size <= q || q + blocks[q].layout.size <= p
      ensures blocks == map[] ==> bs.live == leaked + foreign
      ensures Recorded(log, moments, actions, old(Now()), old(blocks), old(Contents(bs.mem, blocks)))
    {
      ghost var first, start, bytes := Now(), blocks, Contents(bs.mem, blocks);
      log, moments := [], [first];
      for i := 0 to |actions|
        invariant Valid() && Recorded(log, moments, actions[..i], first, start, bytes)
      {
        log, moments := RunStep(actions, i, neighbour, log, moments, first, start, bytes);
      }
      assert actions[..|actions|] == actions;
      AtMostOneLeak();
      AllDisjoint();
    }

    lemma AllDisjoint()
      requires Valid()
      ensures forall p, q :: p in blocks && q in blocks && p != q ==>
                p + blocks[p].layout.size <= q || q + blocks[q].layout.size <= p
    {
      forall p, q | p in blocks && q in blocks && p != q
        ensures p + blocks[p].layout.size <= q || q + blocks[q].layout.size <= p
      {
        BlocksDisjoint(p, q);
      }
    }
  }
}
