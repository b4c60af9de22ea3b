/**
  The iterator over variable keys: repeated `GetNextVariableName` calls with a
  name buffer that grows on demand (section 8.2.2 of the UEFI Specification
  2.10).
 */
module VariableKeys {
  import opened Bytes
  import opened Uefi
  import opened Ucs2

  const INITIAL_NAME_LEN: nat := 512

  /** A variable's name, without its null, and vendor. */
  datatype VariableKey = VariableKey(name: seq<U16>, vendor: nat)

  /** Firmware names are non-empty and end at their null; their characters may be invalid. */
  predicate NameOk(name: seq<U16>) {
    name != [] && NUL_16 !in name
  }

  ghost predicate StoreOk(store: seq<VariableKey>) {
    && (forall i :: 0 <= i < |store| ==> NameOk(store[i].name))
    && (forall i, j :: 0 <= i < j < |store| ==> store[i] != store[j])
  }

  /** The buffer starts with a name and its null. */
  ghost predicate HoldsName(buf: seq<U16>, name: seq<U16>) {
    |name| < |buf| && buf[..|name|] == name && buf[|name|] == NUL_16
  }

  /** The characters before the first null. */
  function NameIn(buf: seq<U16>): (name: seq<U16>)
    ensures NUL_16 !in name && name <= buf
  {
    if buf == [] || buf[0] == NUL_16 then [] else [buf[0]] + NameIn(buf[1..])
  }

  lemma {:induction false} NameInBuffer(buf: seq<U16>, name: seq<U16>)
    requires HoldsName(buf, name) && NUL_16 !in name
    ensures NameIn(buf) == name
  {
    if name == [] {
    } else {
      assert buf[0] == name[0];
      assert buf[1..][..|name| - 1] == name[1..];
      NameInBuffer(buf[1..], name[1..]);
    }
  }

  function IndexOf(store: seq<VariableKey>, key: VariableKey): (i: nat)
    ensures i <= |store|
    ensures i < |store| ==> store[i] == key
    ensures i == |store| ==> key !in store
  {
    if store == [] then 0 else if store[0] == key then 0 else 1 + IndexOf(store[1..], key)
  }

  class Firmware {
    const store: seq<VariableKey>
    /** What the firmware leaves in the buffer behind the name it writes. */
    const leftover: (nat, nat) -> U16
    /** The status with which a call fails on its own account. */
    const fault: nat -> Option<Status>
    var tick: nat

    ghost predicate Valid()
      reads this
    {
      && StoreOk(store)
      && forall t :: fault(t) != Some(NotFound) && fault(t) != Some(BufferTooSmall)
    }

    constructor (store: seq<VariableKey>, leftover: (nat, nat) -> U16, fault: nat -> Option<Status>)
      requires StoreOk(store) && forall t :: fault(t) != Some(NotFound) && fault(t) != Some(BufferTooSmall)
      ensures Valid() && this.store == store && this.leftover == leftover && this.fault == fault && tick == 0
    {
      this.store, this.leftover, this.fault := store, leftover, fault;
      tick := 0;
    }

    /** `GetNextVariableName`: the buffer holds the previous name on entry; sizes are in bytes. */
    method GetNextVariableName(buf: seq<U16>, vendor: nat)
      returns (status: Option<Status>, sizeInBytes: nat, buf': seq<U16>, vendor': nat)
      requires Valid()
      modifies this`tick
      ensures tick == old(tick) + 1
      ensures status.Some? ==> buf' == buf && vendor' == vendor
      ensures fault(old(tick)).Some? ==> status == fault(old(tick))
      ensures fault(old(tick)).None? ==>
                var next := NextIndex(store, buf, vendor);
                if next.None? then status == Some(InvalidParameter)
                else if next.value == |store| then status == Some(NotFound)
                else if |buf| < |store[next.value].name| + 1
                then status == Some(BufferTooSmall) && sizeInBytes == 2 * (|store[next.value].name| + 1)
                else && status.None? && |buf'| == |buf|
                     && HoldsName(buf', store[next.value].name) && vendor' == store[next.value].vendor
    {
      status, sizeInBytes, buf', vendor' := fault(tick), 2 * |buf|, buf, vendor;
      if status.None? {
        var next := NextIndex(store, buf, vendor);
        if next.None? {
          status := Some(InvalidParameter);
        } else if next.value == |store| {
          status := Some(NotFound);
        } else {
          var key := store[next.value];
          if sizeInBytes < 2 * (|key.name| + 1) {
            status, sizeInBytes := Some(BufferTooSmall), 2 * (|key.name| + 1);
          } else {
            var t := tick;
            buf' := key.name + [NUL_16] + seq(|buf| - |key.name| - 1, k requires k >= 0 => leftover(t, k));
            vendor' := key.vendor;
          }
        }
      }
      tick := tick + 1;
    }
  }

  /** The variable after the one named in the buffer; an empty name means the start. */
  function NextIndex(store: seq<VariableKey>, buf: seq<U16>, vendor: nat): (n: Option<nat>)
    ensures n.Some? ==> n.value <= |store|
  {
    var name := NameIn(buf);
    if name == [] then Some(0)
    else
      var i := IndexOf(store, VariableKey(name, vendor));
      if i == |store| then None else Some(i + 1)
  }

  /** `get_next_variable_key`: the required size comes back in characters. */
  method GetNextVariableKey(fw: Firmware, name: seq<U16>, vendor: nat)
    returns (r: Result<(), (Status, Option<nat>)>, name': seq<U16>, vendor': nat)
    requires fw.Valid()
    modifies fw`tick
    ensures fw.tick == old(fw.tick) + 1
    ensures r.Err? ==> name' == name && vendor' == vendor
    ensures fw.fault(old(fw.tick)).Some? ==> r == Err((fw.fault(old(fw.tick)).value, None))
    ensures fw.fault(old(fw.tick)).None? ==>
              var next := NextIndex(fw.store, name, vendor);
              if next.None? then r == Err((InvalidParameter, None))
              else if next.value == |fw.store| then r == Err((NotFound, None))
              else if |name| < |fw.store[next.value].name| + 1
              then r == Err((BufferTooSmall, Some(|fw.store[next.value].name| + 1)))
              else && r.Ok? && |name'| == |name|
                   && HoldsName(name', fw.store[next.value].name) && vendor' == fw.store[next.value].vendor
  {
    var status, size;
    status, size, name', vendor' := fw.GetNextVariableName(name, vendor);
    match status {
      case None => r := Ok(());
      case Some(s) => r := Err((s, if s == BufferTooSmall then Some(size / 2) else None));
    }
  }

  /** What iteration yields for a variable: its key, or an error for a name that is not UCS-2. */
  function ItemFor(key: VariableKey): Result<VariableKey, Status> {
    if IsText(key.name) then Ok(key) else Err(Unsupported)
  }

  function Item(store: seq<VariableKey>, i: nat): Option<Result<VariableKey, Status>> {
    if i < |store| then Some(ItemFor(store[i])) else None
  }

  /** Reading the buffer up to the null gives the firmware's name, or reports that it is invalid. */
  lemma ReadName(buf: seq<U16>, name: seq<U16>)
    requires HoldsName(buf, name) && NUL_16 !in name
    ensures UntilNul(buf).Ok? <==> IsText(name)
    ensures UntilNul(buf).Ok? ==> UntilNul(buf).value == name + [NUL_16]
  {
    var k := FirstSpecial(buf);
    if IsText(name) {
      FirstSpecialUnique(buf, |name|);
      assert buf[..|name| + 1] == name + [NUL_16];
    } else {
      var i :| 0 <= i < |name| && IsSpecial(name[i]);
      assert buf[i] == name[i];
      assert k <= i;
      assert buf[k] == name[k];
    }
  }

  class VariableKeys {
    var name: seq<U16>
    var vendor: nat
    var isDone: bool
    /** How many variables have been yielded. */
    ghost var position: nat

    /** Unless iteration has ended, the buffer and the vendor identify the variable yielded last. */
    ghost predicate Valid(store: seq<VariableKey>)
      reads this
    {
      !isDone ==>
        && position <= |store| && |name| > 0
        && HoldsName(name, if position == 0 then [] else store[position - 1].name)
        && (position > 0 ==> vendor == store[position - 1].vendor)
    }

    constructor (ghost store: seq<VariableKey>)
      ensures Valid(store) && !isDone && position == 0
    {
      name := seq(INITIAL_NAME_LEN, _ => NUL_16);
      vendor, isDone, position := 0, false, 0;
    }

    /** The firmware finds its place again from the buffer. */
    lemma PlaceInStore(store: seq<VariableKey>)
      requires StoreOk(store) && Valid(store) && !isDone
      ensures NextIndex(store, name, vendor) == Some(position)
    {
      NameInBuffer(name, if position == 0 then [] else store[position - 1].name);
      if position > 0 {
        assert IndexOf(store, store[position - 1]) == position - 1;
      }
    }

    /** Growing the buffer keeps the previous name, so that the retry resumes at the same key. */
    method Grow(size: nat, ghost store: seq<VariableKey>)
      requires Valid(store) && !isDone && size > |name|
      modifies this`name
      ensures Valid(store) && |name| == size
    {
      var grown := name + seq(size - |name|, _ => NUL_16);
      ghost var n := if position == 0 then 0 else |store[position - 1].name|;
      assert grown[..n] == name[..n];
      name := grown;
    }

    /** One call, which resumes behind the variable yielded last. */
    method Ask(fw: Firmware) returns (r: Result<(), (Status, Option<nat>)>, name': seq<U16>, vendor': nat)
      requires fw.Valid() && Valid(fw.store) && !isDone
      modifies fw`tick
      ensures Valid(fw.store) && fw.tick == old(fw.tick) + 1
      ensures match fw.fault(old(fw.tick))
              case Some(status) => r == Err((status, None))
              case None =>
                if position == |fw.store| then r == Err((NotFound, None))
                else if |name| <= |fw.store[position].name|
                then r == Err((BufferTooSmall, Some(|fw.store[position].name| + 1)))
                else r.Ok? && HoldsName(name', fw.store[position].name) && vendor' == fw.store[position].vendor
    {
      PlaceInStore(fw.store);
      r, name', vendor' := GetNextVariableKey(fw, name, vendor);
    }

    /** Ask for the next key, and once more with a larger buffer if the name does not fit. */
    method Fetch(fw: Firmware) returns (r: Result<(), (Status, Option<nat>)>, name': seq<U16>, vendor': nat)
      requires fw.Valid() && Valid(fw.store) && !isDone
      modifies this`name, fw`tick
      ensures Valid(fw.store) && fw.tick > old(fw.tick)
      ensures match Failure(fw, position, |old(name)|, old(fw.tick))
              case Some(t) => r.Err? && t < fw.tick && fw.fault(t) == Some(r.error.0) && r.error.0 != NotFound
              case None =>
                && (r.Ok? <==> position < |fw.store|) && (r.Err? ==> r.error.0 == NotFound)
                && NoFault(fw, old(fw.tick), fw.tick)
      ensures r.Ok? ==>
                && position < |fw.store|
                && HoldsName(name', fw.store[position].name) && vendor' == fw.store[position].vendor
    {
      r, name', vendor' := Ask(fw);
      if r.Err? && r.error.1.Some? {
        r, name', vendor' := Retry(fw, r.error.1.value);
      }
    }

    /** Ask again, with a buffer of the required size. */
    method Retry(fw: Firmware, size: nat) returns (r: Result<(), (Status, Option<nat>)>, name': seq<U16>, vendor': nat)
      requires fw.Valid() && Valid(fw.store) && !isDone
      requires position < |fw.store| && |name| < size == |fw.store[position].name| + 1
      modifies this`name, fw`tick
      ensures Valid(fw.store) && fw.tick == old(fw.tick) + 1
      ensures match fw.fault(old(fw.tick))
              case Some(status) => r == Err((status, None))
              case None =>
                r.Ok? && HoldsName(name', fw.store[position].name) && vendor' == fw.store[position].vendor
    {
      Grow(size, fw.store);
      r, name', vendor' := Ask(fw);
    }

    method Next(fw: Firmware) returns (item: Option<Result<VariableKey, Status>>)
      requires fw.Valid() && Valid(fw.store)
      modifies this, fw`tick
      ensures Valid(fw.store) && fw.tick >= old(fw.tick)
      ensures old(isDone) ==> item == None && isDone && position == old(position) && fw.tick == old(fw.tick)
      ensures !old(isDone) ==>
                match Failure(fw, old(position), |old(name)|, old(fw.tick))
                case Some(t) =>
                  isDone && t < fw.tick && fw.fault(t).Some? && item == Some(Err(fw.fault(t).value))
                case None =>
                  && item == Item(fw.store, old(position))
                  && (isDone <==> item == None)
                  && (!isDone ==> position == old(position) + 1)
                  && NoFault(fw, old(fw.tick), fw.tick)
    {
      if isDone {
        return None;
      }
      var r, name', vendor' := Fetch(fw);
      match r {
        case Ok(_) =>
          name, vendor := name', vendor';
          position := position + 1;
          ReadName(name, fw.store[position - 1].name);
          var text := FromU16UntilNul(name);
          if text.Err? {
            return Some(Err(Unsupported));
          }
          item := Some(Ok(VariableKey(text.value[..|text.value| - 1], vendor)));
        case Err((status, _)) =>
          isDone := true;
          item := if status == NotFound then None else Some(Err(status));
      }
    }
  }

  /**
    The call that fails on the firmware's own account: the first, or the
    second one that a short buffer makes necessary.
   */
  ghost function Failure(fw: Firmware, position: nat, bufLen: nat, tick: nat): (t: Option<nat>)
    ensures t.Some? ==> tick <= t.value <= tick + 1 && fw.fault(t.value).Some?
  {
    if fw.fault(tick).Some? then Some(tick)
    else if position < |fw.store| && bufLen <= |fw.store[position].name| && fw.fault(tick + 1).Some? then Some(tick + 1)
    else None
  }

  /** None of these firmware calls fails on its own account. */
  ghost predicate NoFault(fw: Firmware, first: nat, end: nat) {
    forall t :: first <= t < end ==> fw.fault(t).None?
  }

  /** One of them fails with this status. */
  ghost predicate Faulted(fw: Firmware, first: nat, end: nat, status: Status) {
    exists t :: first <= t < end && fw.fault(t) == Some(status)
  }

  /** What the calls yield when one of them fails: items up to there, the failure, then nothing. */
  function Expected(store: seq<VariableKey>, failed: Option<(nat, Status)>, i: nat)
    : Option<Result<VariableKey, Status>>
  {
    if failed.None? || i < failed.value.0 then Item(store, i)
    else if i == failed.value.0 then Some(Err(failed.value.1))
    else None
  }

  /**
    Any number of calls to a fresh iterator, over firmware that may fail at
    any time: one item per variable in firmware order, then nothing, for ever;
    a failure is yielded once, in the place of the next item, and ends it.
   */
  method Iterate(fw: Firmware, calls: nat)
    returns (items: seq<Option<Result<VariableKey, Status>>>, ghost failed: Option<(nat, Status)>)
    requires fw.Valid()
    modifies fw`tick
    ensures |items| == calls && forall i :: 0 <= i < calls ==> items[i] == Expected(fw.store, failed, i)
    ensures failed.None? ==> NoFault(fw, old(fw.tick), fw.tick)
    ensures failed.Some? ==> failed.value.0 <= |fw.store| && Faulted(fw, old(fw.tick), fw.tick, failed.value.1)
  {
    var iter := new VariableKeys(fw.store);
    items, failed := [], None;
    for n := 0 to calls
      invariant iter.Valid(fw.store) && fresh(iter) && fw.tick >= old(fw.tick)
      invariant |items| == n && forall i :: 0 <= i < n ==> items[i] == Expected(fw.store, failed, i)
      invariant if iter.isDone then (if failed.Some? then failed.value.0 < n else |fw.store| < n)
                else failed.None? && iter.position == n
      invariant failed.None? ==> NoFault(fw, old(fw.tick), fw.tick)
      invariant failed.Some? ==> failed.value.0 <= |fw.store| && Faulted(fw, old(fw.tick), fw.tick, failed.value.1)
    {
      ghost var failure := if iter.isDone then None else Failure(fw, iter.position, |iter.name|, fw.tick);
      var item := iter.Next(fw);
      items := items + [item];
      if failure.Some? {
        failed := Some((n, fw.fault(failure.value).value));
      }
    }
  }
}
