/**
 The buffer that native jobs borrow storage from (geometry/src/cache.rs, `capacity` and `Buffer`).
 Storage may be freed only when every use ever begun on it is known to be over. The allocator is
 the address it grants, or nothing; an address may come back once its storage has been freed.
 */
module NativeBuffer {
  import opened Wrappers
  import opened Words
  import S = StripStream

  const U64_MAX: nat := 0xFFFF_FFFF_FFFF_FFFF

  // ---------- capacities ----------

  predicate PowerOfTwo(n: nat) {
    n == 1 || (n > 1 && n % 2 == 0 && PowerOfTwo(n / 2))
  }

  function NextPowerOfTwo(n: nat): (p: nat)
    ensures PowerOfTwo(p) && n <= p
    ensures n >= 1 ==> p < 2 * n
  {
    if n <= 1 then 1 else 2 * NextPowerOfTwo((n + 1) / 2)
  }

  lemma {:induction false} PowersAreApart(p: nat, q: nat)
    requires PowerOfTwo(p) && PowerOfTwo(q) && p < q
    ensures 2 * p <= q
  {
    if p > 1 {
      PowersAreApart(p / 2, q / 2);
    }
  }

  lemma {:induction false} NextPowerIsLeast(n: nat, q: nat)
    requires PowerOfTwo(q) && n <= q
    ensures NextPowerOfTwo(n) <= q
  {
    if q < NextPowerOfTwo(n) {
      PowersAreApart(q, NextPowerOfTwo(n));
    }
  }

  /** The size given to a request: rounded up while that stays within the native limit. */
  function Capacity(required: nat): (size: Option<nat>)
    ensures size.None? <==> required > I32_MAX
    ensures size.Some? ==> required <= size.value <= I32_MAX
  {
    if S.ByteSize(required, 1).Err? then None
    else
      var rounded := NextPowerOfTwo(required);
      Some(if rounded <= I32_MAX then rounded else required)
  }

  const GEOMETRIC: nat := 0x4000_0000

  /** Requests of up to 2^30 bytes are rounded to a power of two; larger ones are taken as they are. */
  lemma {:induction false} CapacityIsGeometric(required: nat)
    requires required <= I32_MAX
    ensures required <= GEOMETRIC ==> PowerOfTwo(Capacity(required).value)
    ensures required > GEOMETRIC ==> Capacity(required) == Some(required)
  {
    GeometricIsPower();
    if required <= GEOMETRIC {
      NextPowerIsLeast(required, GEOMETRIC);
    } else {
      PowersAreApart(GEOMETRIC, NextPowerOfTwo(required));
    }
  }

  lemma {:induction false} GeometricIsPower()
    ensures PowerOfTwo(GEOMETRIC)
  {
    Thousandfold(1);
    Thousandfold(0x400);
    Thousandfold(0x10_0000);
  }

  lemma {:induction false} Double(p: nat)
    requires PowerOfTwo(p)
    ensures PowerOfTwo(2 * p)
  {
    assert 2 * p / 2 == p;
  }

  lemma {:induction false} Thousandfold(p: nat)
    requires PowerOfTwo(p)
    ensures PowerOfTwo(0x400 * p)
  {
    hide PowerOfTwo;
    Double(p);
    Double(2 * p);
    Double(4 * p);
    Double(8 * p);
    Double(0x10 * p);
    Double(0x20 * p);
    Double(0x40 * p);
    Double(0x80 * p);
    Double(0x100 * p);
    Double(0x200 * p);
  }

  // ---------- allocations ----------

  datatype Use = Use(address: nat, serial: nat)

  datatype Allocation = Allocation(address: nat, size: nat, usage: Option<Use>, completed: bool, pinned: bool)

  function Total(allocations: seq<Allocation>): nat {
    if allocations == [] then 0 else Total(allocations[..|allocations| - 1]) + allocations[|allocations| - 1].size
  }

  ghost predicate Growing(allocations: seq<Allocation>) {
    forall i, j | 0 <= i < j < |allocations| :: allocations[i].size < allocations[j].size
  }

  ghost predicate Apart(allocations: seq<Allocation>) {
    forall i, j | 0 <= i < j < |allocations| :: allocations[i].address != allocations[j].address
  }

  /** Powers of two that grow add up to less than twice the last. */
  lemma {:induction false} GeometricTotal(allocations: seq<Allocation>)
    requires allocations != [] && Growing(allocations)
    requires forall a | a in allocations :: PowerOfTwo(a.size)
    ensures Total(allocations) < 2 * allocations[|allocations| - 1].size
  {
    if |allocations| > 1 {
      var before := allocations[..|allocations| - 1];
      GeometricTotal(before);
      PowersAreApart(before[|before| - 1].size, allocations[|allocations| - 1].size);
    }
  }

  /** Some request of at most `limit` bytes is given this size. */
  ghost predicate Given(size: nat, limit: nat) {
    exists required: nat :: required <= limit && Capacity(required) == Some(size)
  }

  /** Growing allocations at different addresses whose sizes are given to requests of at most `limit` bytes. */
  ghost predicate Chosen(allocations: seq<Allocation>, limit: nat) {
    Growing(allocations) && Apart(allocations) && forall i | 0 <= i < |allocations| :: Given(allocations[i].size, limit)
  }

  ghost predicate UnderTwiceTheLast(allocations: seq<Allocation>) {
    allocations != [] ==> Total(allocations) < 2 * allocations[|allocations| - 1].size
  }

  /** 2^30 is the exact limit: for larger requests some growing allocations total twice the largest or more. */
  lemma {:induction false} BoundHoldsUpTo(limit: nat)
    requires limit <= I32_MAX
    ensures (forall allocations | Chosen(allocations, limit) :: UnderTwiceTheLast(allocations)) <==> limit <= GEOMETRIC
  {
    hide Capacity, Growing, Total, PowerOfTwo;
    if limit <= GEOMETRIC {
      forall allocations: seq<Allocation> | Chosen(allocations, limit) ensures UnderTwiceTheLast(allocations) {
        forall i | 0 <= i < |allocations| ensures PowerOfTwo(allocations[i].size) {
          assert Given(allocations[i].size, limit);
          var required: nat :| required <= limit && Capacity(required) == Some(allocations[i].size);
          CapacityIsGeometric(required);
        }
        if allocations != [] {
          GeometricTotal(allocations);
        }
      }
    } else {
      var allocations := TooMuch(limit);
      assert Chosen(allocations, limit) && !UnderTwiceTheLast(allocations);
    }
  }

  lemma {:induction false} TooMuch(limit: nat) returns (allocations: seq<Allocation>)
    requires GEOMETRIC < limit <= I32_MAX
    ensures Chosen(allocations, limit) && !UnderTwiceTheLast(allocations)
  {
    hide Capacity, Total, PowerOfTwo;
    var half := GEOMETRIC / 2;
    var sizes := if limit <= 3 * half then [half, GEOMETRIC, limit] else [GEOMETRIC, limit - 1, limit];
    assert Capacity(half) == Some(half) && Capacity(GEOMETRIC) == Some(GEOMETRIC) by {
      PowersKeepTheirSize();
    }
    CapacityIsGeometric(limit);
    if limit > 3 * half {
      CapacityIsGeometric(limit - 1);
    }
    allocations := seq(3, i requires 0 <= i < 3 => Allocation(i, sizes[i], None, false, false));
    TotalOfThree(allocations);
    forall i | 0 <= i < 3 ensures Given(allocations[i].size, limit) {
      assert sizes[i] <= limit && Capacity(sizes[i]) == Some(allocations[i].size);
    }
  }

  lemma {:induction false} PowersKeepTheirSize()
    ensures Capacity(GEOMETRIC / 2) == Some(GEOMETRIC / 2) && Capacity(GEOMETRIC) == Some(GEOMETRIC)
  {
    GeometricIsPower();
    assert PowerOfTwo(GEOMETRIC / 2);
    hide PowerOfTwo, NextPowerOfTwo;
    NextPowerIsLeast(GEOMETRIC, GEOMETRIC);
    NextPowerIsLeast(GEOMETRIC / 2, GEOMETRIC / 2);
  }

  lemma {:induction false} TotalOfThree(allocations: seq<Allocation>)
    requires |allocations| == 3
    ensures Total(allocations) == allocations[0].size + allocations[1].size + allocations[2].size
  {
    var two := allocations[..2];
    var one := two[..1];
    assert one[..0] == [];
    assert Total(one) == allocations[0].size;
    assert Total(two) == Total(one) + allocations[1].size;
  }

  // ---------- what is known about uses ----------

  /** One `BeginUse`: the use it returned, if any, and whether it was completed while it was the newest. */
  datatype Begun = Begun(use: Option<Use>, confirmed: bool)

  /** Every use begun on one allocation, oldest first. */
  type Life = seq<Begun>

  predicate AllOver(life: Life) {
    life != [] && forall k | 0 <= k < |life| :: life[k].confirmed
  }

  /** The life after a completion is acknowledged. */
  function Confirmed(life: Life, use: Use): Life {
    if life != [] && life[|life| - 1].use == Some(use) then life[|life| - 1 := Begun(Some(use), true)] else life
  }

  lemma {:induction false} ConfirmedIs(life: Life, use: Use)
    ensures |Confirmed(life, use)| == |life|
    ensures forall k | 0 <= k < |life| ::
              && Confirmed(life, use)[k].use == life[k].use
              && (Confirmed(life, use)[k].confirmed
                  <==> life[k].confirmed || (k == |life| - 1 && life[k].use == Some(use)))
  {
  }

  predicate Abandoned(life: Life) {
    exists k :: 0 <= k < |life| && (life[k].use.None? || (k < |life| - 1 && !life[k].confirmed))
  }

  /** The flags of an allocation say exactly what its life says. */
  ghost predicate Tied(a: Allocation, life: Life) {
    && (a.pinned <==> Abandoned(life))
    && (life == [] ==> a.usage.None? && !a.completed)
    && (life != [] && !a.pinned ==> a.usage == life[|life| - 1].use && (a.completed <==> life[|life| - 1].confirmed))
    && (forall k | 0 <= k < |life| :: life[k].confirmed ==> life[k].use.Some?)
    && (life != [] && a.usage.None? ==> a.pinned)
    && (a.usage.Some? ==> a.usage.value.address == a.address)
  }

  lemma {:induction false} UsedAtHome(a: Allocation, life: Life)
    requires Tied(a, life) && a.usage.Some?
    ensures a.usage.value.address == a.address
  {
  }

  /** Beginning another use keeps the flags in step, and pins what an unconfirmed use leaves behind. */
  lemma {:induction false} BeginTied(a: Allocation, life: Life, use: Option<Use>, after: Allocation)
    requires Tied(a, life) && (use.Some? ==> use.value.address == a.address)
    requires after == a.(pinned := a.pinned || (a.usage.Some? && !a.completed) || use.None?, completed := false,
                         usage := if use.Some? then use else a.usage)
    ensures Tied(after, life + [Begun(use, false)])
  {
    var longer := life + [Begun(use, false)];
    if Abandoned(life) {
      var k :| 0 <= k < |life| && (life[k].use.None? || (k < |life| - 1 && !life[k].confirmed));
      assert longer[k] == life[k];
    } else if life != [] && !life[|life| - 1].confirmed {
      assert longer[|life| - 1] == life[|life| - 1];
      assert Abandoned(longer);
    } else if use.None? {
      assert longer[|life|].use.None?;
    } else {
      forall k | 0 <= k < |longer| ensures longer[k].use.Some? && (k < |life| ==> longer[k].confirmed) {
        if k < |life| {
          assert longer[k] == life[k];
        }
      }
    }
  }

  /**
   Acknowledging a use completes the allocation whose newest use it is, and leaves every other
   allocation as it was.
   */
  lemma {:induction false} CompleteTied(a: Allocation, life: Life, use: Use)
    requires Tied(a, life)
    ensures a.usage == Some(use) ==> Tied(a.(completed := true), Confirmed(life, use))
    ensures a.usage != Some(use) ==> Tied(a, Confirmed(life, use))
  {
    var after := Confirmed(life, use);
    forall k | 0 <= k < |life| ensures after[k].use == life[k].use && (k < |life| - 1 ==> after[k] == life[k]) {
    }
    if Abandoned(life) {
      var k :| 0 <= k < |life| && (life[k].use.None? || (k < |life| - 1 && !life[k].confirmed));
      assert after[k].use.None? || (k < |after| - 1 && !after[k].confirmed);
    }
  }

  lemma {:induction false} TiedAllOver(a: Allocation, life: Life)
    requires Tied(a, life)
    ensures a.completed && !a.pinned <==> AllOver(life)
  {
    if a.completed && !a.pinned {
      forall k | 0 <= k < |life| ensures life[k].confirmed {
      }
    }
  }

  predicate Keeps(a: Allocation, latest: nat, published: nat) {
    a.address == latest || a.address == published || !a.completed || a.pinned
  }

  function Retained(allocations: seq<Allocation>, latest: nat, published: nat): (kept: seq<Allocation>)
    ensures forall a :: a in kept <==> a in allocations && Keeps(a, latest, published)
  {
    if allocations == [] then []
    else
      var last := allocations[|allocations| - 1];
      Retained(allocations[..|allocations| - 1], latest, published)
      + if Keeps(last, latest, published) then [last] else []
  }

  lemma {:induction false} RetainedInOrder(allocations: seq<Allocation>, latest: nat, published: nat)
    requires Growing(allocations) && Apart(allocations)
    ensures var kept := Retained(allocations, latest, published); Growing(kept) && Apart(kept)
  {
    hide Keeps;
    if allocations != [] {
      var before := allocations[..|allocations| - 1];
      var last := allocations[|allocations| - 1];
      RetainedInOrder(before, latest, published);
      LastIsLargest(Retained(before, latest, published), allocations);
    }
  }

  lemma {:induction false} LastIsLargest(some: seq<Allocation>, allocations: seq<Allocation>)
    requires allocations != [] && Growing(allocations) && Apart(allocations) && Growing(some) && Apart(some)
    requires forall a | a in some :: a in allocations[..|allocations| - 1]
    ensures Growing(some + [allocations[|allocations| - 1]]) && Apart(some + [allocations[|allocations| - 1]])
  {
    var last := allocations[|allocations| - 1];
    forall i | 0 <= i < |some| ensures some[i].size < last.size && some[i].address != last.address {
      assert some[i] in some;
      var k :| 0 <= k < |allocations| - 1 && allocations[k] == some[i];
    }
  }

  /** Update of an allocation's flags: the storage is the same. */
  ghost predicate SameStorage(before: seq<Allocation>, after: seq<Allocation>) {
    && |after| == |before|
    && forall i | 0 <= i < |after| :: after[i].address == before[i].address && after[i].size == before[i].size
  }

  ghost predicate Consistent(allocations: seq<Allocation>, nextUse: nat, lives: map<nat, Life>, issued: set<Use>,
                             largestRequest: nat) {
    && nextUse <= U64_MAX
    && Growing(allocations)
    && Apart(allocations)
    && (forall i | 0 <= i < |allocations| ::
          allocations[i].address in lives && Tied(allocations[i], lives[allocations[i].address]))
    && (forall u | u in issued :: u.serial <= nextUse)
    && (forall i | 0 <= i < |allocations| :: Given(allocations[i].size, largestRequest))
  }

  lemma {:induction false} Pushed(allocations: seq<Allocation>, nextUse: nat, lives: map<nat, Life>, issued: set<Use>,
                                  largestRequest: nat, address: nat, required: nat)
    requires Consistent(allocations, nextUse, lives, issued, largestRequest) && required <= I32_MAX
    requires forall i | 0 <= i < |allocations| :: allocations[i].address != address
    requires allocations != [] ==> allocations[|allocations| - 1].size < Capacity(required).value
    ensures Consistent(allocations + [Allocation(address, Capacity(required).value, None, false, false)],
                       nextUse, lives[address := []], issued,
                       if required > largestRequest then required else largestRequest)
  {
    hide Capacity, PowerOfTwo;
    CapacityIsGeometric(required);
    var added := Allocation(address, Capacity(required).value, None, false, false);
    assert Tied(added, []);
    var after := allocations + [added];
    forall i, j | 0 <= i < j < |after| ensures after[i].size < after[j].size && after[i].address != after[j].address {
      assert i < |allocations| && (i < |allocations| - 1 ==> allocations[i].size < allocations[|allocations| - 1].size);
    }
  }

  lemma {:induction false} Reused(allocations: seq<Allocation>, nextUse: nat, lives: map<nat, Life>, issued: set<Use>,
                                  largestRequest: nat, required: nat)
    requires Consistent(allocations, nextUse, lives, issued, largestRequest) && required > largestRequest
    ensures Consistent(allocations, nextUse, lives, issued, required)
  {
    hide Tied, Capacity;
  }

  /** New flags for allocation `i` and new lives keep everything consistent if they stay tied. */
  lemma {:induction false} Reflagged(before: seq<Allocation>, after: seq<Allocation>, nextUse: nat,
                                     lives: map<nat, Life>, issued: set<Use>, largestRequest: nat, laterUse: nat,
                                     laterLives: map<nat, Life>, laterIssued: set<Use>)
    requires Consistent(before, nextUse, lives, issued, largestRequest) && SameStorage(before, after)
    requires forall i | 0 <= i < |after| ::
               after[i].address in laterLives && Tied(after[i], laterLives[after[i].address])
    requires laterUse <= U64_MAX && forall u | u in laterIssued :: u.serial <= laterUse
    ensures Consistent(after, laterUse, laterLives, laterIssued, largestRequest)
  {
    hide Tied, Capacity;
  }

  lemma {:induction false} Reclaimed(allocations: seq<Allocation>, nextUse: nat, lives: map<nat, Life>,
                                     issued: set<Use>, largestRequest: nat, latest: nat, published: nat)
    requires Consistent(allocations, nextUse, lives, issued, largestRequest)
    ensures var kept := Retained(allocations, latest, published);
            && Consistent(kept, nextUse, lives, issued, largestRequest)
            && forall a | a in allocations ::
                 a.address in lives
                 && (a !in kept <==> AllOver(lives[a.address]) && a.address != published && a.address != latest)
  {
    hide Growing, Apart, Tied, AllOver, Given;
    RetainedInOrder(allocations, latest, published);
    forall a | a in allocations ensures a.completed && !a.pinned <==> AllOver(lives[a.address]) {
      TiedAllOver(a, lives[a.address]);
    }
    var kept := Retained(allocations, latest, published);
    forall i | 0 <= i < |kept| ensures kept[i] in allocations {
      assert kept[i] in kept;
    }
  }

  class Buffer {
    var allocations: seq<Allocation>
    var nextUse: nat
    // The life of the allocation at each live address.
    ghost var lives: map<nat, Life>
    // Every use ever returned.
    ghost var issued: set<Use>
    ghost var largestRequest: nat

    ghost predicate Valid()
      reads this
    {
      Consistent(allocations, nextUse, lives, issued, largestRequest)
    }

    constructor ()
      ensures Valid() && allocations == [] && issued == {} && largestRequest == 0
    {
      allocations, nextUse, lives, issued, largestRequest := [], 0, map[], {}, 0;
    }

    /** Storage for a request: the newest allocation if it is large enough, else a larger one. Nothing is freed. */
    method Prepare(required: nat, grant: Option<nat>) returns (address: Option<nat>)
      requires Valid()
      requires grant.Some? ==> forall a | a in allocations :: a.address != grant.value
      modifies this
      ensures Valid() && issued == old(issued) && nextUse == old(nextUse)
      ensures address.None? ==> allocations == old(allocations) && lives == old(lives)
      ensures address.Some? ==>
                && allocations != [] && allocations[|allocations| - 1].address == address.value
                && allocations[|allocations| - 1].size >= required
                && (|| (allocations == old(allocations) && lives == old(lives))
                    || (&& allocations[..|allocations| - 1] == old(allocations)
                        && grant == address && lives == old(lives)[address.value := []]
                        && Capacity(required) == Some(allocations[|allocations| - 1].size)))
      ensures address.None? <==>
                || required > I32_MAX
                || (grant.None? && (old(allocations) == []
                                    || old(allocations)[|old(allocations)| - 1].size < Capacity(required).value))
      ensures address.Some? ==>
                largestRequest == if required > old(largestRequest) then required else old(largestRequest)
    {
      hide Consistent, PowerOfTwo, Capacity;
      var size := Capacity(required);
      if size.None? {
        return None;
      }
      if allocations == [] || allocations[|allocations| - 1].size < size.value {
        if grant.None? {
          return None;
        }
        Pushed(allocations, nextUse, lives, issued, largestRequest, grant.value, required);
        allocations := allocations + [Allocation(grant.value, size.value, None, false, false)];
        lives := lives[grant.value := []];
      } else {
        if required > largestRequest {
          Reused(allocations, nextUse, lives, issued, largestRequest, required);
        }
      }
      address := Some(allocations[|allocations| - 1].address);
      if required > largestRequest {
        largestRequest := required;
      }
    }

    /** The place of an address, or the number of allocations. */
    method Find(address: nat) returns (i: nat)
      requires Valid()
      ensures i <= |allocations|
      ensures i < |allocations| ==> allocations[i].address == address
      ensures i == |allocations| ==> forall a | a in allocations :: a.address != address
    {
      i := 0;
      while i < |allocations| && allocations[i].address != address
        invariant i <= |allocations|
        invariant forall k | 0 <= k < i :: allocations[k].address != address
      {
        i := i + 1;
      }
    }

    /** Begins a use that no earlier completion can name, even if the address has been freed and granted again. */
    method BeginUse(address: nat) returns (use: Option<Use>)
      requires Valid()
      modifies this
      ensures Valid() && largestRequest == old(largestRequest)
      ensures SameStorage(old(allocations), allocations)
      ensures (exists a :: a in old(allocations) && a.address == address) ==>
                lives == old(lives)[address := old(lives)[address] + [Begun(use, false)]]
                && (use.None? <==> old(nextUse) == U64_MAX)
      ensures (forall a | a in old(allocations) :: a.address != address) ==>
                use.None? && allocations == old(allocations) && lives == old(lives)
      ensures use.Some? ==>
                use.value !in old(issued) && use.value.address == address && issued == old(issued) + {use.value}
      ensures use.None? ==> issued == old(issued)
    {
      hide Consistent, Tied;
      var i := Find(address);
      if i == |allocations| {
        return None;
      }
      LivesAreTied();
      ghost var before, earlier, uses, given := allocations, lives, nextUse, issued;
      var a := allocations[i];
      a := a.(pinned := a.pinned || (a.usage.Some? && !a.completed), completed := false);
      if nextUse == U64_MAX {
        a := a.(pinned := true);
        use := None;
      } else {
        nextUse := nextUse + 1;
        use := Some(Use(address, nextUse));
        a := a.(usage := use);
        issued := issued + {use.value};
      }
      BeginTied(allocations[i], lives[address], use, a);
      lives := lives[address := lives[address] + [Begun(use, false)]];
      allocations := allocations[i := a];
      forall k | 0 <= k < |allocations| ensures Tied(allocations[k], lives[allocations[k].address]) {
        assert before[k].address != address || k == i;
      }
      Reflagged(before, allocations, uses, earlier, given, largestRequest, nextUse, lives, issued);
    }

    /** Each live allocation's flags match its life, and addresses are distinct. */
    lemma {:induction false} LivesAreTied()
      requires Valid()
      ensures Apart(allocations) && nextUse <= U64_MAX && (forall u | u in issued :: u.serial <= nextUse)
      ensures forall i | 0 <= i < |allocations| ::
                allocations[i].address in lives && Tied(allocations[i], lives[allocations[i].address])
    {
    }

    method Complete(use: Use)
      requires Valid()
      modifies this`allocations, this`lives
      ensures Valid()
      ensures SameStorage(old(allocations), allocations)
      ensures lives.Keys == old(lives).Keys
      ensures forall address | address in old(lives) ::
                var before, after := old(lives)[address], lives[address];
                && |after| == |before|
                && forall k | 0 <= k < |before| ::
                     && after[k].use == before[k].use
                     && (after[k].confirmed
                         <==> before[k].confirmed || (k == |before| - 1 && before[k].use == Some(use)))
    {
      hide Consistent, Tied, Confirmed;
      LivesAreTied();
      ghost var before: seq<Allocation>, earlier: map<nat, Life> := allocations, lives;
      var i := 0;
      while i < |allocations| && allocations[i].usage != Some(use)
        invariant i <= |allocations|
        invariant forall k | 0 <= k < i :: allocations[k].usage != Some(use)
      {
        i := i + 1;
      }
      if i < |allocations| {
        allocations := allocations[i := allocations[i].(completed := true)];
      }
      lives := map address | address in lives :: Confirmed(lives[address], use);
      forall address: nat | address in earlier
        ensures |lives[address]| == |earlier[address]|
        ensures forall k | 0 <= k < |earlier[address]| ::
                  && lives[address][k].use == earlier[address][k].use
                  && (lives[address][k].confirmed
                      <==> earlier[address][k].confirmed
                           || (k == |earlier[address]| - 1 && earlier[address][k].use == Some(use)))
      {
        ConfirmedIs(earlier[address], use);
      }
      forall k | 0 <= k < |allocations| ensures Tied(allocations[k], lives[allocations[k].address]) {
        CompleteTied(before[k], earlier[before[k].address], use);
        if k != i && before[k].usage == Some(use) {
          UsedAtHome(before[k], earlier[before[k].address]);
          UsedAtHome(before[i], earlier[before[i].address]);
        }
      }
      Reflagged(before, allocations, nextUse, earlier, issued, largestRequest, nextUse, lives, issued);
    }

    /**
     Frees exactly the allocations whose every use was completed while it was the newest, other
     than the published one and the latest.
     */
    method Reclaim(published: nat)
      requires Valid()
      modifies this`allocations
      ensures Valid()
      ensures allocations == if old(allocations) == [] then []
                             else Retained(old(allocations), old(allocations)[|old(allocations)| - 1].address,
                                           published)
      ensures forall a | a in old(allocations) ::
                a !in allocations <==>
                  && lives[a.address] != [] && (forall k | 0 <= k < |lives[a.address]| :: lives[a.address][k].confirmed)
                  && a.address != published && a.address != old(allocations)[|old(allocations)| - 1].address
    {
      hide Consistent, Growing, Apart, Tied, Keeps;
      if allocations == [] {
        return;
      }
      var latest := allocations[|allocations| - 1].address;
      var kept: seq<Allocation> := [];
      for i := 0 to |allocations|
        invariant kept == Retained(allocations[..i], latest, published)
      {
        assert allocations[..i + 1][..i] == allocations[..i];
        if Keeps(allocations[i], latest, published) {
          kept := kept + [allocations[i]];
        }
      }
      assert allocations[..|allocations|] == allocations;
      Reclaimed(allocations, nextUse, lives, issued, largestRequest, latest, published);
      allocations := kept;
    }

    /**
     Whatever happens, the retained sizes grow and were given to accepted requests; while no such
     request exceeds 2^30 bytes, everything retained is less than twice the newest allocation.
     */
    lemma {:induction false} RetainedIsBounded()
      requires Valid() && allocations != []
      ensures Chosen(allocations, largestRequest)
      ensures largestRequest <= GEOMETRIC ==> Total(allocations) < 2 * allocations[|allocations| - 1].size
    {
      if largestRequest <= GEOMETRIC {
        BoundHoldsUpTo(largestRequest);
        assert UnderTwiceTheLast(allocations);
      }
    }
  }

  /** A use that is completed before the next one begins lets its storage go once a larger one is in use. */
  method FinishedStorageIsFreed(buffer: Buffer, a: Allocation, published: nat)
    requires buffer.Valid() && a in buffer.allocations && a.address in buffer.lives && buffer.lives[a.address] == []
    requires a != buffer.allocations[|buffer.allocations| - 1] && a.address != published
    modifies buffer
    ensures buffer.Valid()
    ensures old(buffer.nextUse) < U64_MAX ==> forall b | b in buffer.allocations :: b.address != a.address
  {
    hide *;
    buffer.LivesAreTied();
    ghost var latest := LatestIsApart(buffer.allocations, a);
    var use := buffer.BeginUse(a.address);
    SameLatest(old(buffer.allocations), buffer.allocations);
    if use.Some? {
      Finish(buffer, a.address, latest, use.value, published);
    }
  }

  method Finish(buffer: Buffer, address: nat, ghost latest: nat, use: Use, published: nat)
    requires buffer.Valid() && buffer.allocations != [] && address != latest && address != published
    requires buffer.allocations[|buffer.allocations| - 1].address == latest
    requires address in buffer.lives && buffer.lives[address] == [Begun(Some(use), false)]
    modifies buffer
    ensures buffer.Valid()
    ensures forall b | b in buffer.allocations :: b.address != address
  {
    hide *;
    ghost var begun := buffer.allocations;
    buffer.Complete(use);
    SameLatest(begun, buffer.allocations);
    assert |buffer.lives[address]| == 1 && buffer.lives[address][0].confirmed;
    ghost var completed := buffer.allocations;
    buffer.Reclaim(published);
    forall b | b in buffer.allocations ensures b.address != address {
      RetainedWere(completed, completed[|completed| - 1].address, published, b);
    }
  }

  lemma {:induction false} RetainedWere(allocations: seq<Allocation>, latest: nat, published: nat, a: Allocation)
    requires a in Retained(allocations, latest, published)
    ensures a in allocations
  {
  }

  lemma {:induction false} LatestIsApart(allocations: seq<Allocation>, a: Allocation) returns (latest: nat)
    requires Apart(allocations) && a in allocations && a != allocations[|allocations| - 1]
    ensures latest == allocations[|allocations| - 1].address != a.address
  {
    latest := allocations[|allocations| - 1].address;
  }

  lemma {:induction false} SameLatest(before: seq<Allocation>, after: seq<Allocation>)
    requires SameStorage(before, after) && before != []
    ensures after != [] && after[|after| - 1].address == before[|before| - 1].address
  {
  }
}
