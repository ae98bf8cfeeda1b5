/**
 What the calls of a run answer, told from the calls before them alone: when a completed creation
 is published, handed back or discarded, and when a release is granted.
 */
module WeaponTextureAnswers {
  import opened Wrappers
  import opened WeaponTextures
  import opened WeaponTextureRuns

  // ---------- completions ----------

  lemma {:induction false} RetiredAfter(s: State, e: Event, t: Token)
    requires |s.generations| == |s.releasing| == HANDLE_LIMIT && e.Callable() && !e.Completed?
    requires t in s.owners && t <= s.nextOwner && t in Step(s, e).owners
    requires !s.owners[t].retired ==>
               s.owners[t].info.resource in s.resources && s.resources[s.owners[t].info.resource] == t
    requires forall r | r in s.resources && s.resources[r] == t :: r == s.owners[t].info.resource
    ensures Step(s, e).owners[t].retired <==> s.owners[t].retired || Cleans(e, s.owners[t].info.resource)
  {
    hide PendingOf, Claimable, NextClaim;
  }

  /** A call retires an owner exactly if it cleans the owner's resource. */
  lemma {:induction false} StepRetires(s: State, e: Event, t: Token)
    requires Inv(s) && e.Callable() && t in s.owners && t in Step(s, e).owners
    ensures Step(s, e).owners[t].retired <==> s.owners[t].retired || Cleans(e, s.owners[t].info.resource)
  {
    assert OwnerOk(s, t);
    assert forall r | r in s.resources :: ResourceOk(s, r);
    CompletionStep(s, e);
    hide UniqueEntries, TextureOk, CreatedResult, Inv, Step;
    if !e.Completed? {
      RetiredAfter(s, e, t);
    }
  }

  /** Only a later call can have retired an owner that this call begins. */
  lemma {:induction false} NewOwnerIsNotRetired(es: Run, n: nat, t: Token)
    requires 0 < n <= |es| && t in At(es, n).owners && t !in At(es, n - 1).owners
    ensures !At(es, n).owners[t].retired
    ensures forall m | 0 <= m < n :: !Retires(es, m, t)
  {
    OnlyBeginAdds(At(es, n - 1), es[n - 1], t);
    forall m | 0 <= m < n ensures !Retires(es, m, t) {
      forall j: nat, resource | j < m && Begins(es, j, t, resource) ensures false {
        TokensGrow(es, j, n - 1);
      }
    }
  }

  /** An owner is retired exactly if some call has cleaned the resource it was begun for. */
  lemma {:induction false} RetiredByCleaning(es: Run, n: nat, t: Token)
    requires n <= |es| && t in At(es, n).owners
    ensures At(es, n).owners[t].retired <==> exists m :: 0 <= m < n && Retires(es, m, t)
  {
    hide Step, Init, Inv, Retires;
    if n == 0 {
      NoOwnersAtFirst(es);
    } else if t in At(es, n - 1).owners {
      RetiredByCleaning(es, n - 1, t);
      Reachable(es, n - 1);
      AtNext(es, n);
      StepRetires(At(es, n - 1), es[n - 1], t);
      RetiresItsResource(es, n - 1, t);
    } else {
      NewOwnerIsNotRetired(es, n, t);
    }
  }

  lemma {:induction false} AtNext(es: Run, n: nat)
    requires 0 < n <= |es|
    ensures At(es, n) == Step(At(es, n - 1), es[n - 1])
  {
  }

  /**
   A completed creation is kept by its owner if no call has cleaned the owner's resource since it
   was begun, is answered with exactly that texture for release if one has, and is discarded
   only where the creation no longer stands for anything.
   */
  lemma {:induction false} CompletionIsAnswered(es: Run, n: nat)
    requires n < |es| && es[n].Completed?
    ensures var s, ticket, pointer := At(es, n), es[n].ticket, es[n].pointer;
            var x := Texture(ticket.handle, ticket.generation, pointer);
            var answer := CreatedResult(s, ticket, pointer);
            if !Completable(s, ticket, pointer) then answer == Discarded
            else if exists m :: 0 <= m < n && Retires(es, m, ticket.owner) then answer == Retired(x)
            else
              && answer == Published
              && ticket.owner in At(es, n + 1).owners && x in At(es, n + 1).owners[ticket.owner].textures
  {
    var s, ticket, pointer := At(es, n), es[n].ticket, es[n].pointer;
    CompletableIsNotDiscarded(s, ticket, pointer);
    if Completable(s, ticket, pointer) {
      RetiredByCleaning(es, n, ticket.owner);
      if CreatedResult(s, ticket, pointer).Published? {
        AtNext(es, n + 1);
        CompletionStep(s, es[n]);
        PublishedEntry(s, ticket, pointer);
      }
    }
  }

  // ---------- registrations ----------

  lemma {:induction false} RemovedAfter(s: State, e: Event, t: Token)
    requires |s.generations| == |s.releasing| == HANDLE_LIMIT && e.Callable() && !e.Completed?
    requires t in s.owners && t <= s.nextOwner
    requires forall r | r in s.resources && s.resources[r] == t :: r == s.owners[t].info.resource
    ensures t !in Step(s, e).owners ==>
              && (s.owners[t].retired || Cleans(e, s.owners[t].info.resource))
              && (!s.owners[t].constructing || e == Finished(t))
    ensures t in Step(s, e).owners && s.owners[t].constructing && e != Finished(t) ==> Step(s, e).owners[t].constructing
  {
    hide PendingOf, Claimable, NextClaim, Registers, Reservable, IndexOf;
  }

  lemma {:induction false} CompletionRemoves(s: State, e: Event, t: Token)
    requires |s.generations| == |s.releasing| == HANDLE_LIMIT && e.Callable() && e.Completed? && t in s.owners
    ensures t !in Step(s, e).owners ==> s.owners[t].retired && !s.owners[t].constructing
    ensures t in Step(s, e).owners ==> Step(s, e).owners[t].constructing == s.owners[t].constructing
  {
    hide CreatedResult;
  }

  /** An owner goes only when it is retired and its construction has finished. */
  lemma {:induction false} StepRemoves(s: State, e: Event, t: Token)
    requires Inv(s) && e.Callable() && t in s.owners
    ensures t !in Step(s, e).owners ==>
              && (s.owners[t].retired || Cleans(e, s.owners[t].info.resource))
              && (!s.owners[t].constructing || e == Finished(t))
    ensures t in Step(s, e).owners && s.owners[t].constructing && e != Finished(t) ==> Step(s, e).owners[t].constructing
  {
    assert OwnerOk(s, t);
    assert forall r | r in s.resources :: ResourceOk(s, r);
    hide UniqueEntries, TextureOk, Inv, Step, Cleans;
    if e.Completed? {
      CompletionRemoves(s, e, t);
    } else {
      RemovedAfter(s, e, t);
    }
  }

  /** An owner is there from its beginning on while its construction lasts or its resource has not been cleaned. */
  lemma {:induction false} OwnerIsLive(es: Run, j: nat, n: nat, t: Token, resource: nat)
    requires Begins(es, j, t, resource) && j < n <= |es|
    requires (forall m | j < m < n :: es[m] != Finished(t)) || (forall m | 0 <= m < n :: !Retires(es, m, t))
    ensures t in At(es, n).owners
    ensures (forall m | j < m < n :: es[m] != Finished(t)) ==> At(es, n).owners[t].constructing
  {
    hide Step, Init, Inv, Retires;
    AtNext(es, n);
    if n == j + 1 {
      BeginsOwner(At(es, j), es[j]);
    } else {
      OwnerIsLive(es, j, n - 1, t, resource);
      Reachable(es, n - 1);
      StepRemoves(At(es, n - 1), es[n - 1], t);
      RetiredByCleaning(es, n - 1, t);
      RetiresItsResource(es, n - 1, t);
    }
  }

  lemma {:induction false} BeginsOwner(s: State, e: Event)
    requires |s.generations| == |s.releasing| == HANDLE_LIMIT && e.Callable() && e.Began?
    ensures Take(s, e.info.resource).nextOwner + 1 in Step(s, e).owners
    ensures Step(s, e).owners[Take(s, e.info.resource).nextOwner + 1].constructing
  {
  }

  /** Such an owner gets a ticket for every handle of the table but the first, for the handle's generation now. */
  lemma {:induction false} TicketIsIssued(es: Run, j: nat, n: nat, t: Token, h: nat, resource: nat)
    requires Begins(es, j, t, resource) && j < n < |es| && es[n] == Registered(t, h)
    requires (forall m | j < m < n :: es[m] != Finished(t)) || (forall m | 0 <= m < n :: !Retires(es, m, t))
    ensures TicketOf(At(es, n), t, h)
            == if 0 < h < 4096 then Some(CreationTicket(t, h, At(es, n).generations[h])) else None
  {
    hide Retires, Begins, At;
    OwnerIsLive(es, j, n, t, resource);
  }

  // ---------- releases ----------

  /** A claim granted by call `i` that neither a finish nor a reservation has ended before call `n`. */
  ghost predicate Outstanding(es: Run, i: nat, n: nat) {
    i < n <= |es| && GrantedAt(es, i) && forall k | i < k < n :: !EndsClaim(es[k], ClaimAt(es, i))
  }

  lemma {:induction false} StepClaims(s: State, e: Event, h: nat)
    requires |s.generations| == |s.releasing| == HANDLE_LIMIT && e.Callable() && Reservable(h)
    requires forall k | 0 <= k < HANDLE_LIMIT && s.releasing[k].Some? :: s.releasing[k].value.handle == k
    ensures Step(s, e).releasing[h]
            == if e.AskedRelease? && e.handle == h && Claimable(s, h, e.pointer, e.expected) then Some(NextClaim(s, h))
               else if s.releasing[h].Some? && EndsClaim(e, s.releasing[h].value) then None
               else s.releasing[h]
  {
    hide Protectors, Mismatched;
  }

  lemma {:induction false} ClaimsAreInPlace(s: State)
    requires Inv(s)
    ensures forall k | 0 <= k < HANDLE_LIMIT && s.releasing[k].Some? ::
              s.releasing[k].value.handle == k && s.releasing[k].value.generation == s.generations[k]
  {
    forall k | 0 <= k < HANDLE_LIMIT && s.releasing[k].Some?
      ensures s.releasing[k].value.handle == k && s.releasing[k].value.generation == s.generations[k]
    {
      assert ClaimOk(s, k);
    }
  }

  /** A handle is being released exactly while a grant for it is outstanding. */
  lemma {:induction false} ReleasingIsOutstanding(es: Run, n: nat, h: nat)
    requires n <= |es| && Reservable(h)
    ensures At(es, n).releasing[h].Some? <==> exists i: nat :: Outstanding(es, i, n) && es[i].handle == h
    ensures forall i: nat | Outstanding(es, i, n) && es[i].handle == h :: At(es, n).releasing[h] == Some(ClaimAt(es, i))
  {
    forall i: nat | Outstanding(es, i, n) && es[i].handle == h ensures At(es, n).releasing[h] == Some(ClaimAt(es, i)) {
      ClaimStaysOutstanding(es, i, n);
    }
    if At(es, n).releasing[h].Some? {
      var i := GrantOf(es, n, h);
    }
  }

  lemma {:induction false} GrantOf(es: Run, n: nat, h: nat) returns (i: nat)
    requires n <= |es| && Reservable(h) && At(es, n).releasing[h].Some?
    ensures Outstanding(es, i, n) && es[i].handle == h && At(es, n).releasing[h] == Some(ClaimAt(es, i))
  {
    if n == 0 {
      NothingReleasing(es, h);
    }
    var s, e := At(es, n - 1), es[n - 1];
    Reachable(es, n - 1);
    ClaimsAreInPlace(s);
    AtNext(es, n);
    StepClaims(s, e, h);
    hide Step, Init, Inv, EndsClaim, Claimable;
    if e.AskedRelease? && e.handle == h && GrantedAt(es, n - 1) {
      i := n - 1;
    } else {
      i := GrantOf(es, n - 1, h);
    }
  }

  lemma {:induction false} NothingReleasing(es: Run, h: nat)
    requires Reservable(h)
    ensures At(es, 0).releasing[h].None?
  {
  }

  /**
   A release is granted exactly for a handle of the table and a real pointer, when no owner has the
   handle's current texture pending or completed at that pointer, no earlier grant for the handle is
   outstanding, and an expected texture is the one the handle and the pointer name now.
   */
  lemma {:induction false} ReleaseIsGranted(es: Run, n: nat)
    requires n < |es| && es[n].AskedRelease?
    ensures var s, e := At(es, n), es[n];
            GrantedAt(es, n) <==>
              && 0 < e.handle < 4096
              && e.pointer != 0 && e.pointer != 0xFFFF_FFFF
              && (forall t, x | t in s.owners && x in s.owners[t].textures
                                && x.handle == e.handle && x.generation == s.generations[e.handle] ::
                    x.pointer != 0 && x.pointer != e.pointer)
              && (forall i: nat | Outstanding(es, i, n) :: es[i].handle != e.handle)
              && (e.expected.Some? ==> e.expected.value == Texture(e.handle, s.generations[e.handle], e.pointer))
  {
    var s, e := At(es, n), es[n];
    if 0 < e.handle < 4096 {
      ReleasingIsOutstanding(es, n, e.handle);
      NobodyProtects(s, e.handle, e.pointer);
      hide Outstanding, Protectors;
    }
  }

  lemma {:induction false} NobodyProtects(s: State, handle: nat, pointer: nat)
    requires handle < |s.generations|
    ensures Protectors(s, handle, pointer) == {} <==>
              forall t, x | t in s.owners && x in s.owners[t].textures
                            && x.handle == handle && x.generation == s.generations[handle] ::
                x.pointer != 0 && x.pointer != pointer
  {
    if Protectors(s, handle, pointer) == {} {
      forall t, x | t in s.owners && x in s.owners[t].textures
                    && x.handle == handle && x.generation == s.generations[handle]
        ensures x.pointer != 0 && x.pointer != pointer
      {
        assert t !in Protectors(s, handle, pointer);
      }
    } else {
      var t :| t in Protectors(s, handle, pointer);
    }
  }
}
