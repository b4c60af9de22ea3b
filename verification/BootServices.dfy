/**
  Boot-services memory allocation.  The firmware is an arbitrary policy that
  answers requests so that live regions never overlap and are aligned as
  section 7.2 of the UEFI Specification 2.10 demands; `BootServices` also
  holds the thin wrappers of the crate, with the retry for pages at address
  zero.
 */
module BootServices {
  import opened Bytes
  import opened Uefi

  const PAGE_SIZE: nat := 4096
  /** One past the last address of a 64-bit machine. */
  const ADDRESS_LIMIT: nat := 0x1_0000_0000_0000_0000

  datatype Service = Pool | Pages

  /** A live firmware allocation, in bytes. */
  datatype Region = Region(service: Service, base: nat, size: nat)
  {
    predicate Contains(a: nat) { base <= a < base + size }

    /** The region that a request to free memory means; a pool request gives no size. */
    predicate Named(service: Service, base: nat, size: Option<nat>) {
      this.service == service && this.base == base && (size.Some? ==> this.size == size.value)
    }

    predicate Ok() {
      && size > 0
      && base + size <= ADDRESS_LIMIT
      && (service.Pool? ==> base % 8 == 0)
      && (service.Pages? ==> base % PAGE_SIZE == 0 && size % PAGE_SIZE == 0)
    }
  }

  predicate Disjoint(r: Region, q: Region) {
    r.base + r.size <= q.base || q.base + q.size <= r.base
  }

  predicate Covered(live: set<Region>, a: nat) {
    exists r :: r in live && r.Contains(a)
  }

  /** The memory of these regions is the same before and after. */
  ghost predicate Keeps(before: map<nat, Byte>, after: map<nat, Byte>, regions: set<Region>) {
    forall a :: a in before && Covered(regions, a) ==> a in after && after[a] == before[a]
  }

  ghost predicate LedgerOk(live: set<Region>) {
    && (forall r :: r in live ==> r.Ok())
    && (forall r, q :: r in live && q in live && r != q ==> Disjoint(r, q))
  }

  ghost predicate Fresh(live: set<Region>, r: Region) {
    r.Ok() && forall q :: q in live ==> Disjoint(r, q)
  }

  lemma FreshIsNew(live: set<Region>, r: Region)
    requires Fresh(live, r)
    ensures r !in live
    ensures LedgerOk(live) ==> LedgerOk(live + {r})
  {
  }

  datatype AllocateType = AnyPages | MaxAddress(limit: nat) | Address(addr: nat)

  datatype Request = PoolRequest(size: nat) | PagesRequest(ty: AllocateType, count: nat)
  {
    function RegionAt(base: nat): Region {
      match this
      case PoolRequest(size) => Region(Pool, base, size)
      case PagesRequest(_, count) => Region(Pages, base, count * PAGE_SIZE)
    }

    predicate Positive() {
      match this
      case PoolRequest(size) => size > 0
      case PagesRequest(_, count) => count > 0
    }

    /** The address constraint of the request. */
    predicate Admits(base: nat) {
      match this
      case PagesRequest(MaxAddress(limit), count) => base + count * PAGE_SIZE <= limit + 1
      case PagesRequest(Address(addr), _) => base == addr
      case _ => true
    }
  }

  datatype Answer = Granted(base: nat) | Refused(status: Status)

  /** The firmware's answer to a request, as a function of the live regions and the number of the call. */
  type Policy = (set<Region>, Request, nat) -> Answer

  ghost predicate Conforming(policy: Policy) {
    forall live: set<Region>, request: Request, tick: nat :: LedgerOk(live) && request.Positive() ==>
      match policy(live, request, tick)
      case Granted(base) => Fresh(live, request.RegionAt(base)) && request.Admits(base)
      case Refused(_) => true
  }

  /** Two attempts at most: the second answer counts when the first is address zero, which is then still taken. */
  function PagesOutcome(policy: Policy, live: set<Region>, tick: nat, request: Request): Result<nat, Status> {
    match policy(live, request, tick)
    case Refused(status) => Err(status)
    case Granted(base) =>
      if base != 0 then Ok(base)
      else
        match policy(live + {request.RegionAt(0)}, request, tick + 1)
        case Refused(status) => Err(status)
        case Granted(again) => Ok(again)
  }

  class BootServices {
    const policy: Policy
    /** What the firmware leaves in memory that no region covers, call by call. */
    const scribble: nat -> map<nat, Byte>
    /** The system table still has a boot services pointer. */
    var active: bool
    var live: set<Region>
    var tick: nat
    var mem: map<nat, Byte>

    ghost predicate Valid()
      reads this
    {
      LedgerOk(live) && Conforming(policy)
    }

    /** Any conforming firmware, with any regions already allocated. */
    constructor (policy: Policy, scribble: nat -> map<nat, Byte>, live: set<Region>)
      requires Conforming(policy) && LedgerOk(live)
      ensures Valid() && active && this.policy == policy && this.scribble == scribble && this.live == live
      ensures tick == 0 && mem == map[]
    {
      this.policy, this.scribble := policy, scribble;
      this.active, this.live, this.tick, this.mem := true, live, 0, map[];
    }

    twostate predicate KeepsMemoryOf(regions: set<Region>)
      reads this
    {
      Keeps(old(mem), mem, regions)
    }

    /** The firmware call itself. */
    method Call(request: Request) returns (answer: Answer)
      requires Valid() && request.Positive()
      modifies this`live, this`tick, this`mem
      ensures Valid() && KeepsMemoryOf(old(live)) && tick == old(tick) + 1
      ensures answer == old(policy(live, request, tick))
      ensures answer.Refused? ==> live == old(live)
      ensures answer.Granted? ==>
                && live == old(live) + {request.RegionAt(answer.base)}
                && Fresh(old(live), request.RegionAt(answer.base))
                && request.Admits(answer.base)
    {
      answer := policy(live, request, tick);
      mem := scribble(tick) + map a | a in mem && Covered(live, a) :: mem[a];
      tick := tick + 1;
      if answer.Granted? {
        FreshIsNew(live, request.RegionAt(answer.base));
        live := live + {request.RegionAt(answer.base)};
      }
    }

    /** Free the regions that a free request names: with a conforming client, exactly one. */
    method Release(service: Service, base: nat, size: Option<nat>) returns (status: Option<Status>)
      requires Valid()
      modifies this`live, this`tick, this`mem
      ensures Valid() && KeepsMemoryOf(live) && tick == old(tick) + 1
      ensures live == set r | r in old(live) && !r.Named(service, base, size)
      ensures status.None? <==> live != old(live)
    {
      var rest := set r | r in live && !r.Named(service, base, size);
      status := if rest == live then Some(NotFound) else None;
      live := rest;
      mem := scribble(tick) + map a | a in mem && Covered(live, a) :: mem[a];
      tick := tick + 1;
    }

    lemma ReleasesOne(r: Region)
      requires Valid() && r in live
      ensures (set q | q in live && !q.Named(r.service, r.base, None)) == live - {r}
      ensures (set q | q in live && !q.Named(r.service, r.base, Some(r.size))) == live - {r}
    {
    }

    /**
      `allocate_pages`: a region at address zero is given back after a second
      attempt, and only then.
     */
    method AllocatePages(ty: AllocateType, count: nat) returns (r: Result<nat, Status>)
      requires Valid() && count > 0
      modifies this`live, this`tick, this`mem
      ensures Valid() && KeepsMemoryOf(old(live)) && tick > old(tick)
      ensures r == PagesOutcome(policy, old(live), old(tick), PagesRequest(ty, count))
      ensures match old(policy(live, PagesRequest(ty, count), tick))
              case Refused(status) => r == Err(status)
              case Granted(base) =>
                if base != 0 then r == Ok(base)
                else
                  match old(policy(live + {Region(Pages, 0, count * PAGE_SIZE)}, PagesRequest(ty, count), tick + 1))
                  case Refused(status) => r == Err(status)
                  case Granted(again) => r == Ok(again)
      ensures r.Err? ==> live == old(live)
      ensures r.Ok? ==>
                && r.value != 0
                && Fresh(old(live), Region(Pages, r.value, count * PAGE_SIZE))
                && live == old(live) + {Region(Pages, r.value, count * PAGE_SIZE)}
                && PagesRequest(ty, count).Admits(r.value)
    {
      var request := PagesRequest(ty, count);
      var first := Call(request);
      if first.Refused? {
        return Err(first.status);
      }
      if first.base != 0 {
        return Ok(first.base);
      }
      ghost var zero := request.RegionAt(0);
      var again := Call(request);
      ReleasesOne(zero);
      var _ := Release(Pages, first.base, Some(count * PAGE_SIZE));
      if again.Refused? {
        assert live == old(live);
        return Err(again.status);
      }
      assert Disjoint(request.RegionAt(again.base), zero);
      assert live == old(live) + {request.RegionAt(again.base)};
      r := if again.base != 0 then Ok(again.base) else Err(OutOfResources);
    }

    /** `allocate_pool`: a success at address zero is reported as an error, and the region stays allocated. */
    method AllocatePool(size: nat) returns (r: Result<nat, Status>)
      requires Valid() && size > 0
      modifies this`live, this`tick, this`mem
      ensures Valid() && KeepsMemoryOf(old(live)) && tick > old(tick)
      ensures match old(policy(live, PoolRequest(size), tick))
              case Refused(status) => r == Err(status) && live == old(live)
              case Granted(base) =>
                && r == (if base == 0 then Err(OutOfResources) else Ok(base))
                && Fresh(old(live), Region(Pool, base, size))
                && live == old(live) + {Region(Pool, base, size)}
    {
      var answer := Call(PoolRequest(size));
      match answer {
        case Refused(status) => r := Err(status);
        case Granted(base) => r := if base != 0 then Ok(base) else Err(OutOfResources);
      }
    }

    /** `free_pages` on a live region gives back that region and no other. */
    method FreePages(base: nat, count: nat) returns (status: Option<Status>)
      requires Valid()
      modifies this`live, this`tick, this`mem
      ensures Valid() && KeepsMemoryOf(live) && tick > old(tick)
      ensures live == old(live) - {Region(Pages, base, count * PAGE_SIZE)}
      ensures status.None? <==> Region(Pages, base, count * PAGE_SIZE) in old(live)
    {
      status := Release(Pages, base, Some(count * PAGE_SIZE));
    }

    /** `free_pool` gives back the pool region that starts at `base`. */
    method FreePool(base: nat) returns (status: Option<Status>)
      requires Valid()
      modifies this`live, this`tick, this`mem
      ensures Valid() && KeepsMemoryOf(live) && tick > old(tick)
      ensures forall r :: r in old(live) && r.Named(Pool, base, None) ==> live == old(live) - {r} && status.None?
      ensures (forall r :: r in old(live) ==> !r.Named(Pool, base, None)) ==> live == old(live) && status.Some?
    {
      forall r | r in live && r.Named(Pool, base, None)
        ensures (set q | q in live && !q.Named(Pool, base, None)) == live - {r}
      {
        ReleasesOne(r);
      }
      status := Release(Pool, base, None);
    }
  }
}
