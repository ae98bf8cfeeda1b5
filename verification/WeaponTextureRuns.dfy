/**
 Every run of the ownership machine: any sequence of native callbacks, in any interleaving.
 Conservation of texture identities, eventual emptiness, and safety of release claims.
 */
module WeaponTextureRuns {
  import opened Wrappers
  import opened WeaponTextures
  import opened WeaponTextureIndex

  datatype Event =
    | Reserved(reserved: nat)
    | Began(info: OwnerInfo)
    | Finished(token: Token)
    | Registered(token: Token, handle: nat)
    | Completed(ticket: CreationTicket, pointer: nat)
    | Took(resource: nat)
    | TookAll
    | AskedRelease(handle: nat, pointer: nat, expected: Option<Texture>)
    | EndedRelease(claim: ReleaseClaim)
  {
    /** Claims carry the handle they were granted for, which is always in range. */
    predicate Callable() {
      EndedRelease? ==> claim.handle < HANDLE_LIMIT
    }
  }

  type Run = es: seq<Event> | forall e | e in es :: e.Callable() witness []

  ghost function Step(s: State, e: Event): (r: State)
    requires |s.generations| == |s.releasing| == HANDLE_LIMIT && e.Callable()
    ensures |r.generations| == |r.releasing| == HANDLE_LIMIT
    ensures s.nextGeneration <= r.nextGeneration && s.nextRelease <= r.nextRelease
  {
    match e
    case Reserved(h) => Reserve(s, h)
    case Began(info) => Begin(s, info)
    case Finished(t) => Finish(s, t)
    case Registered(t, h) => Pending(s, t, h)
    case Completed(ticket, p) => Created(s, ticket, p)
    case Took(r) => Take(s, r)
    case TookAll => TakeAll(s)
    case AskedRelease(h, p, x) => PrepareRelease(s, h, p, x)
    case EndedRelease(c) => FinishRelease(s, c)
  }

  lemma {:induction false} StepKeepsInv(s: State, e: Event)
    requires Inv(s) && e.Callable()
    ensures Inv(Step(s, e))
  {
    match e
    case Reserved(h) => ReserveKeepsInv(s, h);
    case Began(info) => BeginKeepsInv(s, info);
    case Finished(t) => FinishKeepsInv(s, t);
    case Registered(t, h) => PendingKeepsInv(s, t, h);
    case Completed(ticket, p) => CreatedKeepsInv(s, ticket, p);
    case Took(r) => TakeKeepsInv(s, r);
    case TookAll => TakeAllKeepsInv(s);
    case AskedRelease(h, p, x) => PrepareReleaseKeepsInv(s, h, p, x);
    case EndedRelease(c) => FinishReleaseKeepsInv(s, c);
  }

  /** The state after the first `n` events. */
  ghost function At(es: Run, n: nat): (s: State)
    requires n <= |es|
    ensures |s.generations| == |s.releasing| == HANDLE_LIMIT
  {
    if n == 0 then Init() else Step(At(es, n - 1), es[n - 1])
  }

  lemma {:induction false} Reachable(es: Run, n: nat)
    requires n <= |es|
    ensures Inv(At(es, n))
  {
    if n > 0 {
      Reachable(es, n - 1);
      StepKeepsInv(At(es, n - 1), es[n - 1]);
    }
  }

  // ---------- conservation ----------

  /** How often a list names texture `x`. */
  ghost function Times(textures: seq<Texture>, x: Texture): nat {
    if textures == [] then 0 else (if textures[0] == x then 1 else 0) + Times(textures[1..], x)
  }

  /** How often owner `t` holds the completed texture `x`. */
  ghost function Held(s: State, t: Token, x: Texture): nat {
    if t in s.owners && x.pointer != 0 then Times(s.owners[t].textures, x) else 0
  }

  /**
   The owner still waits for or holds this very creation, its handle names it still, and the pointer is
   a real one.
   */
  ghost predicate Completable(s: State, ticket: CreationTicket, pointer: nat) {
    && ticket.owner in s.owners
    && (exists y ::
          && y in s.owners[ticket.owner].textures
          && y.handle == ticket.handle && y.generation == ticket.generation)
    && ticket.handle < |s.generations| && s.generations[ticket.handle] == ticket.generation
    && pointer != 0 && pointer != 0xFFFF_FFFF
  }

  /** A creation completes for owner `t` as texture `x`; whatever the call answers, `x` is accounted for from now on. */
  ghost function Accepted(s: State, e: Event, t: Token, x: Texture): nat {
    if e.Completed? && e.ticket.owner == t && Completable(s, e.ticket, e.pointer)
       && x == Texture(e.ticket.handle, e.ticket.generation, e.pointer) then 1
    else 0
  }

  lemma {:induction false} CompletableIsNotDiscarded(s: State, ticket: CreationTicket, pointer: nat)
    ensures Completable(s, ticket, pointer) <==> !CreatedResult(s, ticket, pointer).Discarded?
  {
    if ticket.owner in s.owners {
      var textures := s.owners[ticket.owner].textures;
      var i := IndexOf(textures, ticket.handle, ticket.generation);
      if i < |textures| {
        assert textures[i] in textures;
      }
    }
  }

  /** What the call returns to its caller for release on behalf of owner `t`. */
  ghost function HandedList(s: State, e: Event, t: Token): seq<Texture> {
    match e
    case Began(info) =>
      if info.resource in s.resources && s.resources[info.resource] == t then TakenFrom(s, info.resource) else []
    case Took(r) =>
      if r in s.resources && s.resources[r] == t then TakenFrom(s, r) else []
    case TookAll => Surrendered(s, t)
    case Completed(ticket, p) =>
      var result := CreatedResult(s, ticket, p);
      if ticket.owner == t && result.Retired? then [result.texture] else []
    case _ => []
  }

  ghost function HandedBack(s: State, e: Event, t: Token, x: Texture): nat {
    Times(HandedList(s, e, t), x)
  }

  /** A registration completed a second time: its first pointer is overwritten or dropped. */
  ghost predicate CompletesAgain(s: State, e: Event) {
    && e.Completed?
    && EntryOf(s, e.ticket).Some?
    && s.owners[e.ticket.owner].textures[EntryOf(s, e.ticket).value].pointer != 0
  }

  ghost function Lost(s: State, e: Event, t: Token, x: Texture): nat {
    if CompletesAgain(s, e) && e.ticket.owner == t && x == s.owners[t].textures[EntryOf(s, e.ticket).value]
    then 1 else 0
  }

  lemma {:induction false} TimesConcat(a: seq<Texture>, b: seq<Texture>, x: Texture)
    ensures Times(a + b, x) == Times(a, x) + Times(b, x)
  {
    if a == [] {
      assert a + b == b;
    } else {
      assert (a + b)[1..] == a[1..] + b;
      TimesConcat(a[1..], b, x);
    }
  }

  lemma {:induction false} TimesSplit(textures: seq<Texture>, x: Texture)
    ensures Times(PublishedOf(textures), x) == if x.pointer != 0 then Times(textures, x) else 0
    ensures Times(PendingOf(textures), x) == if x.pointer == 0 then Times(textures, x) else 0
  {
    if textures != [] {
      TimesSplit(textures[1..], x);
      var head := [textures[0]];
      TimesConcat(if textures[0].pointer != 0 then head else [], PublishedOf(textures[1..]), x);
      TimesConcat(if textures[0].pointer == 0 then head else [], PendingOf(textures[1..]), x);
      assert Times(head, x) == if textures[0] == x then 1 else 0;
    }
  }

  lemma {:induction false} TimesBetween(a: seq<Texture>, y: Texture, b: seq<Texture>, x: Texture)
    ensures Times(a + ([y] + b), x) == Times(a + b, x) + if y == x then 1 else 0
  {
    TimesConcat(a, b, x);
    TimesConcat(a, [y] + b, x);
    assert ([y] + b)[1..] == b;
  }

  lemma {:induction false} TimesAround(textures: seq<Texture>, i: nat, y: Texture, x: Texture)
    requires i < |textures|
    ensures Times(textures, x) == Times(textures[..i] + textures[i + 1..], x) + if textures[i] == x then 1 else 0
    ensures Times(textures[i := y], x) == Times(textures[..i] + textures[i + 1..], x) + if y == x then 1 else 0
  {
    hide Times;
    var a, b := textures[..i], textures[i + 1..];
    TimesBetween(a, textures[i], b, x);
    TimesBetween(a, y, b, x);
    assert textures == a + ([textures[i]] + b);
    assert textures[i := y] == a + ([y] + b);
  }

  lemma {:induction false} CompletionConserves(s: State, ticket: CreationTicket, pointer: nat, x: Texture)
    ensures var e, t := Completed(ticket, pointer), ticket.owner;
            Held(Created(s, ticket, pointer), t, x) + HandedBack(s, e, t, x) + Lost(s, e, t, x)
            == Held(s, t, x) + Accepted(s, e, t, x)
  {
    CompletableIsNotDiscarded(s, ticket, pointer);
    hide Completable;
    if EntryOf(s, ticket).Some? {
      var i := EntryOf(s, ticket).value;
      var textures := s.owners[ticket.owner].textures;
      TimesAround(textures, i, textures[i].(pointer := pointer), x);
      if CreatedResult(s, ticket, pointer).Retired? {
        TimesConcat([CreatedResult(s, ticket, pointer).texture], [], x);
      }
      if !CreatedResult(s, ticket, pointer).Published? {
        var rest := textures[..i] + textures[i + 1..];
        assert Held(Created(s, ticket, pointer), ticket.owner, x) == if x.pointer != 0 then Times(rest, x) else 0;
      }
    }
  }

  /** Registration and removal of a finished owner move no completed texture. */
  lemma {:induction false} RegistrationConserves(s: State, u: Token, h: nat, t: Token, x: Texture)
    requires |s.generations| == HANDLE_LIMIT
    ensures Held(Pending(s, u, h), t, x) == Held(s, t, x)
  {
    if u == t && Registers(s, t, h) {
      TimesConcat(s.owners[t].textures, [Texture(h, s.generations[h], 0)], x);
    }
  }

  lemma {:induction false} TakingConserves(s: State, resource: nat, t: Token, x: Texture)
    ensures Held(Take(s, resource), t, x)
            + Times(if resource in s.resources && s.resources[resource] == t then TakenFrom(s, resource) else [], x)
            == Held(s, t, x)
  {
    if t in s.owners {
      TimesSplit(s.owners[t].textures, x);
    }
  }

  lemma {:induction false} BulkConserves(s: State, t: Token, x: Texture)
    ensures Held(TakeAll(s), t, x) + Times(Surrendered(s, t), x) == Held(s, t, x)
  {
    if t in s.owners {
      TimesSplit(s.owners[t].textures, x);
    }
  }

  lemma {:induction false} StepConserves(s: State, e: Event, t: Token, x: Texture)
    requires |s.generations| == |s.releasing| == HANDLE_LIMIT && e.Callable()
    requires s.nextOwner + 1 !in s.owners
    ensures Held(Step(s, e), t, x) + HandedBack(s, e, t, x) + Lost(s, e, t, x) == Held(s, t, x) + Accepted(s, e, t, x)
  {
    match e {
      case Completed(ticket, p) =>
        if ticket.owner == t {
          CompletionConserves(s, ticket, p, x);
        }
      case Registered(u, h) => RegistrationConserves(s, u, h, t, x);
      case Began(info) => TakingConserves(s, info.resource, t, x);
      case Took(r) => TakingConserves(s, r, t, x);
      case TookAll => BulkConserves(s, t, x);
      case _ =>
    }
  }

  lemma {:induction false} NextTokenIsFresh(es: Run, n: nat)
    requires n <= |es|
    ensures At(es, n).nextOwner + 1 !in At(es, n).owners
  {
    Reachable(es, n);
    assert forall t | t in At(es, n).owners :: OwnerOk(At(es, n), t);
  }

  ghost function AcceptedBy(es: Run, n: nat, t: Token, x: Texture): nat
    requires n <= |es|
  {
    if n == 0 then 0 else AcceptedBy(es, n - 1, t, x) + Accepted(At(es, n - 1), es[n - 1], t, x)
  }

  ghost function HandedBackBy(es: Run, n: nat, t: Token, x: Texture): nat
    requires n <= |es|
  {
    if n == 0 then 0 else HandedBackBy(es, n - 1, t, x) + HandedBack(At(es, n - 1), es[n - 1], t, x)
  }

  ghost function LostBy(es: Run, n: nat, t: Token, x: Texture): nat
    requires n <= |es|
  {
    if n == 0 then 0 else LostBy(es, n - 1, t, x) + Lost(At(es, n - 1), es[n - 1], t, x)
  }

  /** Nothing is accepted that is not held, handed back once, or lost to a repeated completion. */
  lemma {:induction false} Conservation(es: Run, n: nat, t: Token, x: Texture)
    requires n <= |es|
    ensures AcceptedBy(es, n, t, x) == Held(At(es, n), t, x) + HandedBackBy(es, n, t, x) + LostBy(es, n, t, x)
  {
    hide Step, Init, Held, Accepted, HandedBack, Lost;
    if n == 0 {
      NothingHeldAtFirst(es, t, x);
    } else {
      Conservation(es, n - 1, t, x);
      NextTokenIsFresh(es, n - 1);
      StepConserves(At(es, n - 1), es[n - 1], t, x);
    }
  }

  lemma {:induction false} NothingHeldAtFirst(es: Run, t: Token, x: Texture)
    ensures Held(At(es, 0), t, x) == 0
  {
  }

  /** A texture is held at most once, so an accepted one is either held or has been handed back. */
  lemma {:induction false} HeldAtMostOnce(textures: seq<Texture>, x: Texture)
    requires UniqueEntries(textures)
    ensures Times(textures, x) <= 1
    ensures Times(textures, x) > 0 ==> x in textures
  {
    if textures != [] {
      HeldAtMostOnce(textures[1..], x);
      assert forall i | 0 <= i < |textures[1..]| :: textures[1..][i] == textures[i + 1];
    }
  }

  /** Every texture that an owner took on is still held or has been handed back, as often as it was taken on. */
  ghost predicate Conserved(es: Run, n: nat)
    requires n <= |es|
  {
    forall t, x :: AcceptedBy(es, n, t, x) == Held(At(es, n), t, x) + HandedBackBy(es, n, t, x)
  }

  /** The token that beginning an owner returns. */
  ghost function TokenAt(es: Run, j: nat): Token
    requires j < |es|
  {
    At(es, j).nextOwner + 1
  }

  /** The call begins owner `t` for this resource. */
  ghost predicate Begins(es: Run, j: nat, t: Token, resource: nat) {
    j < |es| && es[j].Began? && TokenAt(es, j) == t && es[j].info.resource == resource
  }

  predicate Cleans(e: Event, resource: nat) {
    e.TookAll? || (e.Took? && e.resource == resource) || (e.Began? && e.info.resource == resource)
  }

  /** The call retires owner `t`: a bulk cleanup, or one for the resource that `t` was begun for. */
  ghost predicate Retires(es: Run, m: nat, t: Token) {
    m < |es| && exists j: nat, resource :: j < m && Begins(es, j, t, resource) && Cleans(es[m], resource)
  }

  /** The call answered that the completed texture was published. */
  ghost predicate PublishesAt(es: Run, k: nat) {
    k < |es| && es[k].Completed? && CreatedResult(At(es, k), es[k].ticket, es[k].pointer).Published?
  }

  predicate Completes(e: Event, ticket: CreationTicket) {
    e.Completed? && e.ticket == ticket
  }

  /** Since it was published by call `k`, the ticket was not completed and its owner not retired before call `n`. */
  ghost predicate Stands(es: Run, k: nat, n: nat) {
    && k < n <= |es| && PublishesAt(es, k)
    && forall m | k < m < n :: !Completes(es[m], es[k].ticket) && !Retires(es, m, es[k].ticket.owner)
  }

  /** A ticket is completed while its previous completion stands published. */
  ghost predicate CompletesPublished(es: Run, n: nat) {
    n < |es| && exists k: nat :: Stands(es, k, n) && Completes(es[n], es[k].ticket)
  }

  lemma {:induction false} TokenStep(s: State, e: Event)
    requires |s.generations| == |s.releasing| == HANDLE_LIMIT && e.Callable()
    ensures Step(s, e).nextOwner == s.nextOwner + if e.Began? then 1 else 0
  {
  }

  lemma {:induction false} TokensGrow(es: Run, i: nat, n: nat)
    requires i <= n <= |es|
    ensures At(es, i).nextOwner <= At(es, n).nextOwner
    ensures i < n && es[i].Began? ==> At(es, i).nextOwner < At(es, n).nextOwner
  {
    hide Step, Init;
    if i < n {
      TokensGrow(es, i, n - 1);
      TokenStep(At(es, n - 1), es[n - 1]);
    }
  }

  lemma {:induction false} StepKeepsInfo(s: State, e: Event, t: Token)
    requires |s.generations| == |s.releasing| == HANDLE_LIMIT && e.Callable()
    requires t in Step(s, e).owners && t in s.owners && t != s.nextOwner + 1
    ensures Step(s, e).owners[t].info == s.owners[t].info
  {
  }

  /** Every owner was begun, by one call, for the resource it has. */
  lemma {:induction false} OwnerWasBegun(es: Run, n: nat, t: Token)
    requires n <= |es| && t in At(es, n).owners
    ensures exists j: nat :: j < n && Begins(es, j, t, At(es, n).owners[t].info.resource)
  {
    if n > 0 {
      NextTokenIsFresh(es, n - 1);
      if t in At(es, n - 1).owners {
        OwnerWasBegun(es, n - 1, t);
        StepKeepsInfo(At(es, n - 1), es[n - 1], t);
      } else {
        OnlyBeginAdds(At(es, n - 1), es[n - 1], t);
        assert Begins(es, n - 1, t, At(es, n).owners[t].info.resource);
      }
    }
  }

  lemma {:induction false} RetiresItsResource(es: Run, m: nat, t: Token)
    requires m < |es| && t in At(es, m).owners
    ensures Retires(es, m, t) <==> Cleans(es[m], At(es, m).owners[t].info.resource)
  {
    OwnerWasBegun(es, m, t);
    var i: nat :| i < m && Begins(es, i, t, At(es, m).owners[t].info.resource);
    if Retires(es, m, t) {
      var j: nat, resource :| j < m && Begins(es, j, t, resource) && Cleans(es[m], resource);
      TokensGrow(es, if i < j then i else j, if i < j then j else i);
      assert i == j;
    }
  }

  /** A call that retires an owner leaves it at most its pending textures. */
  lemma {:induction false} CleanedOwner(s: State, e: Event, t: Token)
    requires |s.generations| == |s.releasing| == HANDLE_LIMIT && e.Callable()
    requires t in s.owners && t <= s.nextOwner && Cleans(e, s.owners[t].info.resource)
    requires s.owners[t].info.resource in s.resources && s.resources[s.owners[t].info.resource] == t
    requires t in Step(s, e).owners
    ensures Step(s, e).owners[t].textures == PendingOf(s.owners[t].textures)
  {
  }

  /** A call that neither completes a creation nor retires an owner leaves its textures, or adds a pending one. */
  lemma {:induction false} OtherOwner(s: State, e: Event, t: Token)
    requires |s.generations| == |s.releasing| == HANDLE_LIMIT && e.Callable()
    requires t in s.owners && t <= s.nextOwner && !e.Completed? && !Cleans(e, s.owners[t].info.resource)
    requires !s.owners[t].retired
    requires forall r | r in s.resources && s.resources[r] == t :: r == s.owners[t].info.resource
    ensures t in Step(s, e).owners
    ensures var before, after := s.owners[t].textures, Step(s, e).owners[t].textures;
            after == before || exists x: Texture :: x.pointer == 0 && after == before + [x]
  {
  }

  /** What the invariant says of an owner with a completed texture. */
  lemma {:induction false} PublishedOwner(s: State, t: Token, x: Texture)
    requires Inv(s) && t in s.owners && x in s.owners[t].textures && x.pointer != 0
    ensures |s.generations| == |s.releasing| == HANDLE_LIMIT
    ensures t <= s.nextOwner && !s.owners[t].retired && UniqueEntries(s.owners[t].textures)
    ensures s.owners[t].info.resource in s.resources && s.resources[s.owners[t].info.resource] == t
    ensures forall r | r in s.resources && s.resources[r] == t :: r == s.owners[t].info.resource
  {
    assert OwnerOk(s, t);
    assert forall r | r in s.resources :: ResourceOk(s, r);
  }

  lemma {:induction false} EntriesAfter(s: State, e: Event, t: Token)
    requires |s.generations| == |s.releasing| == HANDLE_LIMIT && e.Callable() && !e.Completed?
    requires t in s.owners && t <= s.nextOwner && t in Step(s, e).owners
    ensures var before, after := s.owners[t].textures, Step(s, e).owners[t].textures;
            || after == before || after == PendingOf(before)
            || exists x: Texture :: x.pointer == 0 && after == before + [x]
  {
  }

  lemma {:induction false} EntriesBefore(s: State, e: Event, t: Token, x: Texture)
    requires |s.generations| == |s.releasing| == HANDLE_LIMIT && e.Callable() && !e.Completed?
    requires t in s.owners && t <= s.nextOwner && t in Step(s, e).owners
    requires x in Step(s, e).owners[t].textures && x.pointer != 0
    ensures x in s.owners[t].textures
  {
    EntriesAfter(s, e, t);
    SplitMembers(s.owners[t].textures);
    hide Step, PendingOf;
  }

  /**
   A published texture is either fresh from its completion or was held before, and the call
   neither completed it nor retired its owner.
   */
  lemma {:induction false} PublishedBefore(s: State, e: Event, t: Token, x: Texture)
    requires Inv(s) && e.Callable() && t in Step(s, e).owners && x in Step(s, e).owners[t].textures && x.pointer != 0
    ensures var ticket := CreationTicket(t, x.handle, x.generation);
            || (e == Completed(ticket, x.pointer) && CreatedResult(s, ticket, x.pointer).Published?)
            || (t in s.owners && x in s.owners[t].textures && !Completes(e, ticket)
                && !Cleans(e, s.owners[t].info.resource))
  {
    hide Inv, Step, Created, CreatedResult, PendingOf, UniqueEntries;
    OwnerOf(s, t);
    CompletionStep(s, e);
    if t !in s.owners {
      OnlyBeginAdds(s, e, t);
    } else if e.Completed? {
      if e.ticket.owner == t {
        CompletedEntries(s, e.ticket, e.pointer, x);
      }
    } else {
      EntriesBefore(s, e, t, x);
      PublishedOwner(s, t, x);
      SplitMembers(s.owners[t].textures);
      if Cleans(e, s.owners[t].info.resource) {
        CleanedOwner(s, e, t);
      }
    }
  }

  lemma {:induction false} OwnerOf(s: State, t: Token)
    requires Inv(s)
    ensures |s.generations| == |s.releasing| == HANDLE_LIMIT
    ensures t in s.owners ==> t <= s.nextOwner && UniqueEntries(s.owners[t].textures)
  {
    assert t in s.owners ==> OwnerOk(s, t);
  }

  lemma {:induction false} CompletionStep(s: State, e: Event)
    requires |s.generations| == |s.releasing| == HANDLE_LIMIT && e.Callable()
    ensures e.Completed? ==> Step(s, e) == Created(s, e.ticket, e.pointer)
    ensures e.Completed? ==> forall t | t in s.owners && t != e.ticket.owner ::
                               t in Step(s, e).owners && Step(s, e).owners[t] == s.owners[t]
  {
  }

  lemma {:induction false} CompletedEntries(s: State, ticket: CreationTicket, pointer: nat, x: Texture)
    requires ticket.owner in s.owners && UniqueEntries(s.owners[ticket.owner].textures)
    requires ticket.owner in Created(s, ticket, pointer).owners
             && x in Created(s, ticket, pointer).owners[ticket.owner].textures
    ensures if x.handle == ticket.handle && x.generation == ticket.generation
            then CreatedResult(s, ticket, pointer).Published? && x.pointer == pointer
            else x in s.owners[ticket.owner].textures
  {
    var textures := s.owners[ticket.owner].textures;
    var i := IndexOf(textures, ticket.handle, ticket.generation);
    if i < |textures| {
      ReplacedEntry(textures, i, pointer, x);
    }
  }

  lemma {:induction false} ReplacedEntry(textures: seq<Texture>, i: nat, pointer: nat, x: Texture)
    requires UniqueEntries(textures) && i < |textures|
    ensures x in textures[i := textures[i].(pointer := pointer)] ==>
              if x.handle == textures[i].handle && x.generation == textures[i].generation then x.pointer == pointer
              else x in textures
    ensures x in textures[..i] + textures[i + 1..] ==>
              x in textures && (x.handle != textures[i].handle || x.generation != textures[i].generation)
  {
  }

  /** A published texture stays while its ticket is not completed again and its owner is not retired. */
  lemma {:induction false} PublishedStays(s: State, e: Event, t: Token, x: Texture)
    requires Inv(s) && e.Callable() && t in s.owners && x in s.owners[t].textures && x.pointer != 0
    requires !Completes(e, CreationTicket(t, x.handle, x.generation)) && !Cleans(e, s.owners[t].info.resource)
    ensures t in Step(s, e).owners && x in Step(s, e).owners[t].textures
  {
    hide Inv, Step, Created, UniqueEntries;
    PublishedOwner(s, t, x);
    CompletionStep(s, e);
    if e.Completed? {
      if e.ticket.owner == t {
        OtherEntryKept(s, e.ticket, e.pointer, x);
      }
    } else {
      OtherOwner(s, e, t);
    }
  }

  lemma {:induction false} OtherEntryKept(s: State, ticket: CreationTicket, pointer: nat, x: Texture)
    requires ticket.owner in s.owners && x in s.owners[ticket.owner].textures
    requires x.handle != ticket.handle || x.generation != ticket.generation
    ensures ticket.owner in Created(s, ticket, pointer).owners
    ensures x in Created(s, ticket, pointer).owners[ticket.owner].textures
  {
    if EntryOf(s, ticket).Some? {
      OtherEntryStays(s.owners[ticket.owner].textures, EntryOf(s, ticket).value, x, pointer);
    }
  }

  /** What an owner holds published stands since a completion that published it. */
  lemma {:induction false} PublicationOf(es: Run, n: nat, t: Token, x: Texture) returns (k: nat)
    requires n <= |es| && t in At(es, n).owners && x in At(es, n).owners[t].textures && x.pointer != 0
    ensures Stands(es, k, n) && es[k] == Completed(CreationTicket(t, x.handle, x.generation), x.pointer)
  {
    hide Inv, Step, Init, Created, CreatedResult;
    if n == 0 {
      NoOwnersAtFirst(es);
    }
    var s, e := At(es, n - 1), es[n - 1];
    Reachable(es, n - 1);
    PublishedBefore(s, e, t, x);
    if e == Completed(CreationTicket(t, x.handle, x.generation), x.pointer)
       && CreatedResult(s, e.ticket, x.pointer).Published? {
      k := n - 1;
    } else {
      k := PublicationOf(es, n - 1, t, x);
      RetiresItsResource(es, n - 1, t);
    }
  }

  lemma {:induction false} NoOwnersAtFirst(es: Run)
    ensures At(es, 0).owners == map[]
  {
  }

  lemma {:induction false} StandingIsPublished(es: Run, k: nat, n: nat)
    requires Stands(es, k, n)
    ensures k < n && es[k].Completed? && es[k].pointer != 0
  {
  }

  lemma {:induction false} PublishedEntry(s: State, ticket: CreationTicket, pointer: nat)
    requires CreatedResult(s, ticket, pointer).Published?
    ensures var after := Created(s, ticket, pointer);
            && ticket.owner in after.owners
            && Texture(ticket.handle, ticket.generation, pointer) in after.owners[ticket.owner].textures
  {
    var i := EntryOf(s, ticket).value;
    assert Created(s, ticket, pointer).owners[ticket.owner].textures[i]
           == Texture(ticket.handle, ticket.generation, pointer);
  }

  lemma {:induction false} PublicationStands(es: Run, k: nat, n: nat)
    requires Stands(es, k, n)
    ensures var ticket := es[k].ticket;
            && ticket.owner in At(es, n).owners
            && Texture(ticket.handle, ticket.generation, es[k].pointer) in At(es, n).owners[ticket.owner].textures
    decreases n
  {
    hide Inv, Step, Created, CreatedResult, Init;
    var ticket := es[k].ticket;
    var x := Texture(ticket.handle, ticket.generation, es[k].pointer);
    if n == k + 1 {
      CompletionStep(At(es, k), es[k]);
      PublishedEntry(At(es, k), ticket, es[k].pointer);
    } else {
      StandingIsPublished(es, k, n);
      PublicationStands(es, k, n - 1);
      Reachable(es, n - 1);
      RetiresItsResource(es, n - 1, ticket.owner);
      PublishedStays(At(es, n - 1), es[n - 1], ticket.owner, x);
    }
  }

  /** A completion loses a texture exactly when it completes a ticket whose previous completion stands published. */
  lemma {:induction false} LosesWhenPublished(es: Run, n: nat)
    requires n < |es|
    ensures CompletesAgain(At(es, n), es[n]) <==> CompletesPublished(es, n)
  {
    hide Inv, Step, Init, Created, UniqueEntries;
    var s, e := At(es, n), es[n];
    if CompletesAgain(s, e) {
      var x := s.owners[e.ticket.owner].textures[EntryOf(s, e.ticket).value];
      var k := PublicationOf(es, n, e.ticket.owner, x);
      assert Completes(e, es[k].ticket);
    }
    if CompletesPublished(es, n) {
      var k: nat :| Stands(es, k, n) && Completes(e, es[k].ticket);
      PublicationStands(es, k, n);
      Reachable(es, n);
      OwnerOf(s, e.ticket.owner);
      StandingIsPublished(es, k, n);
      FoundEntry(s.owners[e.ticket.owner].textures, Texture(e.ticket.handle, e.ticket.generation, es[k].pointer));
    }
  }

  lemma {:induction false} FoundEntry(textures: seq<Texture>, x: Texture)
    requires UniqueEntries(textures) && x in textures
    ensures var i := IndexOf(textures, x.handle, x.generation); i < |textures| && textures[i] == x
  {
    var j :| 0 <= j < |textures| && textures[j] == x;
  }

  ghost predicate NothingLost(es: Run, n: nat)
    requires n <= |es|
  {
    forall t, x :: LostBy(es, n, t, x) == 0
  }

  lemma {:induction false} ConservedIsNothingLost(es: Run, n: nat)
    requires n <= |es|
    ensures Conserved(es, n) <==> NothingLost(es, n)
  {
    forall t, x
      ensures AcceptedBy(es, n, t, x) == Held(At(es, n), t, x) + HandedBackBy(es, n, t, x) <==> LostBy(es, n, t, x) == 0
    {
      hide AcceptedBy, HandedBackBy, LostBy, Held, At;
      Conservation(es, n, t, x);
    }
  }

  lemma {:induction false} NothingLostIff(es: Run, n: nat)
    requires n <= |es|
    ensures NothingLost(es, n) <==> forall m | 0 <= m < n :: !CompletesAgain(At(es, m), es[m])
  {
    hide NothingLost, CompletesAgain, At;
    if n == 0 {
      LostNothingYet(es);
    } else {
      NothingLostIff(es, n - 1);
      LosesMore(es, n);
    }
  }

  lemma {:induction false} LostNothingYet(es: Run)
    ensures NothingLost(es, 0)
  {
  }

  lemma {:induction false} LosesMore(es: Run, n: nat)
    requires 0 < n <= |es|
    ensures NothingLost(es, n) <==> NothingLost(es, n - 1) && !CompletesAgain(At(es, n - 1), es[n - 1])
  {
    forall t, x ensures LostBy(es, n - 1, t, x) <= LostBy(es, n, t, x) {
    }
    if CompletesAgain(At(es, n - 1), es[n - 1]) {
      LosesOne(es, n);
    } else {
      forall t, x ensures LostBy(es, n, t, x) == LostBy(es, n - 1, t, x) {
      }
    }
    hide LostBy, At, CompletesAgain;
    if NothingLost(es, n) {
      LessLost(es, n);
    }
  }

  lemma {:induction false} LosesOne(es: Run, n: nat)
    requires 0 < n <= |es| && CompletesAgain(At(es, n - 1), es[n - 1])
    ensures !NothingLost(es, n)
  {
    var s, ticket := At(es, n - 1), es[n - 1].ticket;
    var x := s.owners[ticket.owner].textures[EntryOf(s, ticket).value];
    assert LostBy(es, n, ticket.owner, x) > 0;
  }

  lemma {:induction false} LessLost(es: Run, n: nat)
    requires 0 < n <= |es| && NothingLost(es, n)
    ensures NothingLost(es, n - 1)
  {
    if !NothingLost(es, n - 1) {
      var t, x :| LostBy(es, n - 1, t, x) != 0;
      assert LostBy(es, n, t, x) != 0;
    }
  }

  /** Textures are conserved exactly in the runs that complete no ticket whose previous completion stands published. */
  lemma {:induction false} ConservedUnlessCompletedAgain(es: Run)
    ensures Conserved(es, |es|) <==> forall n | 0 <= n < |es| :: !CompletesPublished(es, n)
  {
    hide Conserved, CompletesAgain, CompletesPublished, NothingLost, At;
    ConservedIsNothingLost(es, |es|);
    NothingLostIff(es, |es|);
    forall n | 0 <= n < |es| ensures CompletesAgain(At(es, n), es[n]) <==> CompletesPublished(es, n) {
      LosesWhenPublished(es, n);
    }
  }

  /** When no ticket is completed twice, each accepted texture is still held or was handed back, never both. */
  lemma {:induction false} ConservationWithSingleCompletions(es: Run, t: Token, x: Texture)
    requires forall i, j | 0 <= i < j < |es| && es[i].Completed? :: !Completes(es[j], es[i].ticket)
    ensures AcceptedBy(es, |es|, t, x) == Held(At(es, |es|), t, x) + HandedBackBy(es, |es|, t, x)
    ensures AcceptedBy(es, |es|, t, x) <= 1
    ensures Held(At(es, |es|), t, x) <= 1
  {
    AcceptedOnce(es, |es|, t, x);
    ConservedUnlessCompletedAgain(es);
    forall n | 0 <= n < |es| ensures !CompletesPublished(es, n) {
      forall k: nat | Stands(es, k, n) ensures !Completes(es[n], es[k].ticket) {
      }
    }
  }

  /** A texture is taken on once per completion of its ticket. */
  lemma {:induction false} AcceptedOnce(es: Run, n: nat, t: Token, x: Texture)
    requires n <= |es|
    requires forall i, j | 0 <= i < j < n && es[i].Completed? :: !Completes(es[j], es[i].ticket)
    ensures AcceptedBy(es, n, t, x) <= 1
    ensures AcceptedBy(es, n, t, x) > 0 ==>
              exists i :: 0 <= i < n && Completes(es[i], CreationTicket(t, x.handle, x.generation))
  {
    hide At, CreatedResult;
    if n > 0 {
      AcceptedOnce(es, n - 1, t, x);
      if Accepted(At(es, n - 1), es[n - 1], t, x) == 1 {
        assert Completes(es[n - 1], CreationTicket(t, x.handle, x.generation));
      }
    }
  }

  /** Two registrations of one handle share a ticket; when both creations complete, the first pointer is lost. */
  lemma {:induction false} SharedTicketLosesATexture()
    ensures exists es: Run ::
              && |es| == 5 && es[1] == es[2] == Registered(1, 1)
              && es[3].Completed? && Some(es[3].ticket) == TicketOf(At(es, 1), 1, 1)
              && es[4].Completed? && Some(es[4].ticket) == TicketOf(At(es, 2), 1, 1)
              && !Conserved(es, |es|)
  {
    var info := OwnerInfo(10, 220, 1, 0, 0, 0);
    var ticket := CreationTicket(1, 1, 0);
    var es: Run := [Began(info), Registered(1, 1), Registered(1, 1), Completed(ticket, 101), Completed(ticket, 102)];
    var s1 := Begin(Init(), info);
    assert s1.owners == map[1 := Owner(info, true, false, [])];
    var s2 := Pending(s1, 1, 1);
    assert s2.owners[1].textures == [Texture(1, 0, 0)];
    assert At(es, 1) == Step(At(es, 0), es[0]) == s1;
    assert At(es, 2) == Step(At(es, 1), es[1]) == s2;
    assert At(es, 3) == Step(At(es, 2), es[2]) == s2;
    assert PublishesAt(es, 3);
    assert Stands(es, 3, 4) && Completes(es[4], es[3].ticket);
    assert CompletesPublished(es, 4);
    ConservedUnlessCompletedAgain(es);
  }

  /** A bulk cleanup's list names each owner's textures, merging equal ones, and nothing else. */
  lemma {:induction false} BulkListMatchesHandedBack(s: State, textures: seq<Texture>, x: Texture)
    requires MergesAll(s, textures)
    ensures Times(textures, x) == if exists t :: x in HandedList(s, TookAll, t) then 1 else 0
  {
    forall t ensures x in HandedList(s, TookAll, t) <==> t in s.owners && x in Surrendered(s, t) {
    }
    DistinctOccursOnce(textures, x);
  }

  lemma {:induction false} DistinctOccursOnce(textures: seq<Texture>, x: Texture)
    requires forall i, j | 0 <= i < j < |textures| :: textures[i] != textures[j]
    ensures Times(textures, x) == if x in textures then 1 else 0
  {
    if textures != [] {
      DistinctOccursOnce(textures[1..], x);
      assert textures == [textures[0]] + textures[1..];
    }
  }

  // ---------- nothing is left behind ----------

  ghost function FinishedTokens(es: Run, n: nat): set<Token>
    requires n <= |es|
  {
    if n == 0 then {}
    else
      var s, e := At(es, n - 1), es[n - 1];
      FinishedTokens(es, n - 1) + if e.Finished? && e.token <= s.nextOwner then {e.token} else {}
  }

  /** Tickets issued and not completed since. */
  ghost function OpenTickets(es: Run, n: nat): set<CreationTicket>
    requires n <= |es|
  {
    if n == 0 then {}
    else
      var s, e := At(es, n - 1), es[n - 1];
      var open := OpenTickets(es, n - 1);
      match e
      case Registered(t, h) => (match TicketOf(s, t, h) case Some(ticket) => open + {ticket} case None => open)
      case Completed(ticket, _) => open - {ticket}
      case _ => open
  }

  ghost predicate Accounted(s: State, finished: set<Token>, open: set<CreationTicket>) {
    && (forall t | t in finished :: t <= s.nextOwner)
    && (forall t | t in s.owners && s.owners[t].constructing :: t !in finished)
    && (forall t | t in s.owners :: PendingAreOpen(t, s.owners[t].textures, open))
  }

  ghost predicate PendingAreOpen(t: Token, textures: seq<Texture>, open: set<CreationTicket>) {
    forall x | x in textures && x.pointer == 0 :: CreationTicket(t, x.handle, x.generation) in open
  }

  lemma {:induction false} RunIsAccounted(es: Run, n: nat)
    requires n <= |es|
    ensures Accounted(At(es, n), FinishedTokens(es, n), OpenTickets(es, n))
  {
    if n > 0 {
      RunIsAccounted(es, n - 1);
      Reachable(es, n - 1);
      var s, e := At(es, n - 1), es[n - 1];
      FinishedStep(es, n);
      forall t | t in At(es, n).owners
        ensures PendingAreOpen(t, At(es, n).owners[t].textures, OpenTickets(es, n))
      {
        OwnerAccounted(es, n, t);
      }
      hide Inv, Step, Init, PendingAreOpen, UniqueEntries, OpenTickets, FinishedTokens, At;
      forall t | t in s.owners ensures t <= s.nextOwner {
        OwnerOf(s, t);
      }
      FinishingIsRecorded(s, e, FinishedTokens(es, n - 1));
    }
  }

  lemma {:induction false} FinishedStep(es: Run, n: nat)
    requires 0 < n <= |es|
    ensures var s, e := At(es, n - 1), es[n - 1];
            && At(es, n) == Step(s, e)
            && FinishedTokens(es, n)
               == FinishedTokens(es, n - 1) + if e.Finished? && e.token <= s.nextOwner then {e.token} else {}
  {
  }

  lemma {:induction false} OwnerAccounted(es: Run, n: nat, t: Token)
    requires 0 < n <= |es| && t in At(es, n).owners
    requires Accounted(At(es, n - 1), FinishedTokens(es, n - 1), OpenTickets(es, n - 1))
    ensures PendingAreOpen(t, At(es, n).owners[t].textures, OpenTickets(es, n))
  {
    hide Inv, Step, Init, PendingAreOpen, UniqueEntries, FinishedTokens;
    var s, e := At(es, n - 1), es[n - 1];
    Reachable(es, n - 1);
    OwnerOf(s, t);
    if t in s.owners {
      PendingStaysOpen(s, e, t, OpenTickets(es, n - 1), OpenTickets(es, n));
    } else {
      OnlyBeginAdds(s, e, t);
      NothingPending(t, OpenTickets(es, n));
    }
  }

  lemma {:induction false} NothingPending(t: Token, open: set<CreationTicket>)
    ensures PendingAreOpen(t, [], open)
  {
  }

  lemma {:induction false} OnlyBeginAdds(s: State, e: Event, t: Token)
    requires |s.generations| == |s.releasing| == HANDLE_LIMIT && e.Callable()
    requires t in Step(s, e).owners && t !in s.owners
    ensures Step(s, e).owners[t].textures == [] && t == s.nextOwner + 1 && e.Began?
  {
  }

  lemma {:induction false} FinishingIsRecorded(s: State, e: Event, finished: set<Token>)
    requires |s.generations| == |s.releasing| == HANDLE_LIMIT && e.Callable()
    requires forall t | t in s.owners :: t <= s.nextOwner
    requires forall t | t in finished :: t <= s.nextOwner
    requires forall t | t in s.owners && s.owners[t].constructing :: t !in finished
    ensures var after := finished + if e.Finished? && e.token <= s.nextOwner then {e.token} else {};
            && (forall t | t in after :: t <= Step(s, e).nextOwner)
            && (forall t | t in Step(s, e).owners && Step(s, e).owners[t].constructing :: t !in after)
  {
    forall t | t in Step(s, e).owners && Step(s, e).owners[t].constructing
      ensures t !in finished && e != Finished(t)
    {
      if t in s.owners {
        StillConstructing(s, e, t);
      } else {
        OnlyBeginAdds(s, e, t);
      }
    }
  }

  lemma {:induction false} StillConstructing(s: State, e: Event, t: Token)
    requires |s.generations| == |s.releasing| == HANDLE_LIMIT && e.Callable()
    requires t in s.owners && t <= s.nextOwner && t in Step(s, e).owners && Step(s, e).owners[t].constructing
    ensures s.owners[t].constructing && e != Finished(t)
  {
  }

  lemma {:induction false} PendingStaysOpen(s: State, e: Event, t: Token, before: set<CreationTicket>,
                                            open: set<CreationTicket>)
    requires |s.generations| == |s.releasing| == HANDLE_LIMIT && e.Callable()
    requires t in s.owners && t in Step(s, e).owners && t <= s.nextOwner
    requires UniqueEntries(s.owners[t].textures) && PendingAreOpen(t, s.owners[t].textures, before)
    requires match e
             case Registered(u, h) =>
               (match TicketOf(s, u, h) case Some(ticket) => open == before + {ticket} case None => open == before)
             case Completed(ticket, _) => open == before - {ticket}
             case _ => open == before
    ensures PendingAreOpen(t, Step(s, e).owners[t].textures, open)
  {
    var textures := s.owners[t].textures;
    SplitMembers(textures);
    CompletionStep(s, e);
    if e.Completed? {
      hide Step, Created;
      if e.ticket.owner == t {
        CompletionLeavesOpen(s, e.ticket, e.pointer, before);
      }
    } else {
      EntriesAfter(s, e, t);
    }
  }

  lemma {:induction false} CompletionLeavesOpen(s: State, ticket: CreationTicket, pointer: nat,
                                                before: set<CreationTicket>)
    requires ticket.owner in s.owners && ticket.owner in Created(s, ticket, pointer).owners
    requires UniqueEntries(s.owners[ticket.owner].textures)
    requires PendingAreOpen(ticket.owner, s.owners[ticket.owner].textures, before)
    ensures PendingAreOpen(ticket.owner, Created(s, ticket, pointer).owners[ticket.owner].textures, before - {ticket})
  {
    var textures := s.owners[ticket.owner].textures;
    var after := Created(s, ticket, pointer).owners[ticket.owner].textures;
    forall x | x in after && x.pointer == 0
      ensures x in textures && (x.handle != ticket.handle || x.generation != ticket.generation)
    {
      CompletedEntries(s, ticket, pointer, x);
    }
  }

  /**
   When no resource is live, every construction has finished and every ticket has been completed,
   no owner, count or resource remains.
   */
  lemma {:induction false} NothingIsLeftBehind(es: Run, s: State, finished: set<Token>, open: set<CreationTicket>)
    requires s == At(es, |es|) && finished == FinishedTokens(es, |es|) && open == OpenTickets(es, |es|)
    requires s.resources == map[] && open == {}
    requires forall t | 0 < t <= s.nextOwner :: t in finished
    ensures NothingLeft(s)
  {
    RunIsAccounted(es, |es|);
    Reachable(es, |es|);
    NoneWithoutWork(s, finished);
  }

  ghost predicate NothingLeft(s: State) {
    && s.owners == map[]
    && forall h, g :: |Holders(s.owners, h, g)| == 0
  }

  lemma {:induction false} NoneWithoutWork(s: State, finished: set<Token>)
    requires Inv(s) && s.resources == map[] && Accounted(s, finished, {})
    requires forall t | 0 < t <= s.nextOwner :: t in finished
    ensures NothingLeft(s)
  {
    forall t | t in s.owners
      ensures false
    {
      assert OwnerOk(s, t);
      if s.owners[t].textures != [] {
        PendingHasTicket(s.owners[t].textures, t, {});
      }
    }
    assert s.owners.Keys == {};
    forall h, g ensures Holders(s.owners, h, g) == {} {
    }
  }

  lemma {:induction false} PendingHasTicket(textures: seq<Texture>, t: Token, open: set<CreationTicket>)
    requires textures != [] && PendingAreOpen(t, textures, open)
    requires forall x | x in textures :: x.pointer == 0
    ensures open != {}
  {
    assert textures[0] in textures;
    assert CreationTicket(t, textures[0].handle, textures[0].generation) in open;
  }

  // ---------- release claims ----------

  ghost predicate GrantedAt(es: Run, n: nat) {
    n < |es| && es[n].AskedRelease? && Claimable(At(es, n), es[n].handle, es[n].pointer, es[n].expected)
  }

  ghost function ClaimAt(es: Run, n: nat): ReleaseClaim
    requires GrantedAt(es, n)
  {
    NextClaim(At(es, n), es[n].handle)
  }

  /** No owner has the handle's current texture pending or published at that pointer. */
  lemma {:induction false} GrantsOnlyUnowned(es: Run, n: nat, t: Token, x: Texture)
    requires GrantedAt(es, n)
    requires t in At(es, n).owners && x in At(es, n).owners[t].textures
    requires x.handle == es[n].handle && x.generation == At(es, n).generations[x.handle]
    ensures x.pointer != 0 && x.pointer != es[n].pointer
  {
    assert t !in Protectors(At(es, n), es[n].handle, es[n].pointer);
  }

  ghost predicate EndsClaim(e: Event, claim: ReleaseClaim) {
    e == Reserved(claim.handle) || e == EndedRelease(claim)
  }

  lemma {:induction false} StepKeepsClaim(s: State, e: Event, claim: ReleaseClaim)
    requires |s.generations| == |s.releasing| == HANDLE_LIMIT && e.Callable()
    requires claim.handle < HANDLE_LIMIT && s.releasing[claim.handle] == Some(claim) && !EndsClaim(e, claim)
    ensures Step(s, e).releasing[claim.handle] == Some(claim)
  {
  }

  lemma {:induction false} ClaimStaysOutstanding(es: Run, i: nat, n: nat)
    requires GrantedAt(es, i) && i < n <= |es|
    requires forall k | i < k < n :: !EndsClaim(es[k], ClaimAt(es, i))
    ensures At(es, n).releasing[es[i].handle] == Some(ClaimAt(es, i))
  {
    if n > i + 1 {
      ClaimStaysOutstanding(es, i, n - 1);
      StepKeepsClaim(At(es, n - 1), es[n - 1], ClaimAt(es, i));
    }
  }

  /** Between two grants for one handle, the first was finished or the handle was reserved again. */
  lemma {:induction false} OneClaimAtATime(es: Run, i: nat, j: nat)
    requires GrantedAt(es, i) && GrantedAt(es, j) && i < j && es[i].handle == es[j].handle
    ensures exists k :: i < k < j && EndsClaim(es[k], ClaimAt(es, i))
  {
    if forall k | i < k < j :: !EndsClaim(es[k], ClaimAt(es, i)) {
      ClaimStaysOutstanding(es, i, j);
      assert false;
    }
  }

  lemma {:induction false} CountersGrow(es: Run, i: nat, n: nat)
    requires i <= n <= |es|
    ensures At(es, i).nextRelease <= At(es, n).nextRelease
    ensures At(es, i).nextGeneration <= At(es, n).nextGeneration
  {
    if i < n {
      CountersGrow(es, i, n - 1);
    }
  }

  /** A finish that arrives late for a superseded claim leaves the newer claim in force. */
  lemma {:induction false} SupersededFinishIsHarmless(es: Run, i: nat, j: nat, n: nat)
    requires GrantedAt(es, i) && GrantedAt(es, j) && i < j < n <= |es| && es[i].handle == es[j].handle
    requires At(es, n).releasing[es[j].handle] == Some(ClaimAt(es, j))
    ensures ClaimAt(es, i).identity < ClaimAt(es, j).identity
    ensures FinishRelease(At(es, n), ClaimAt(es, i)) == At(es, n)
  {
    assert At(es, i + 1) == Step(At(es, i), es[i]);
    CountersGrow(es, i + 1, j);
  }

  lemma {:induction false} StepGenerations(s: State, e: Event, h: nat)
    requires |s.generations| == |s.releasing| == HANDLE_LIMIT && e.Callable() && h < HANDLE_LIMIT
    ensures Step(s, e).generations[h]
            == if e == Reserved(h) && Reservable(h) then s.nextGeneration + 1 else s.generations[h]
  {
  }

  lemma {:induction false} ReservationIsFresh(es: Run, k: nat, n: nat)
    requires k < n <= |es| && es[k].Reserved? && Reservable(es[k].reserved)
    ensures At(es, n).generations[es[k].reserved] > At(es, k).nextGeneration
  {
    StepGenerations(At(es, n - 1), es[n - 1], es[k].reserved);
    if n > k + 1 {
      ReservationIsFresh(es, k, n - 1);
      CountersGrow(es, k, n - 1);
    }
  }

  lemma {:induction false} HandedBackIsOld(s: State, e: Event, t: Token, x: Texture)
    requires Inv(s) && x in HandedList(s, e, t)
    ensures Reservable(x.handle) && x.generation <= s.nextGeneration
  {
    if e.Completed? {
      assert OwnerOk(s, t);
      var textures := s.owners[t].textures;
      assert TextureOk(s, textures[EntryOf(s, e.ticket).value]);
    } else {
      assert x in Surrendered(s, t);
      SplitMembers(s.owners[t].textures);
      assert OwnerOk(s, t) && TextureOk(s, x);
    }
  }

  /** A claim for a snapshot handed back earlier: its handle has not been reserved since. */
  lemma {:induction false} SnapshotClaimIsCurrent(es: Run, i: nat, t: Token, x: Texture, j: nat)
    requires i < j && GrantedAt(es, j) && es[j].expected == Some(x)
    requires x in HandedList(At(es, i), es[i], t)
    ensures forall k | i <= k < j :: es[k] != Reserved(x.handle)
  {
    Reachable(es, i);
    HandedBackIsOld(At(es, i), es[i], t, x);
    forall k | i <= k < j
      ensures es[k] != Reserved(x.handle)
    {
      if es[k] == Reserved(x.handle) {
        ReservationIsFresh(es, k, j);
        CountersGrow(es, i, k);
        assert false;
      }
    }
  }

  ghost predicate HoldsPending(s: State, ticket: CreationTicket) {
    && ticket.owner in s.owners
    && Texture(ticket.handle, ticket.generation, 0) in s.owners[ticket.owner].textures
    && Current(s, ticket.handle, ticket.generation)
  }

  lemma {:induction false} PendingIsKept(s: State, e: Event, ticket: CreationTicket)
    requires |s.generations| == |s.releasing| == HANDLE_LIMIT && e.Callable()
    requires HoldsPending(s, ticket) && ticket.owner != s.nextOwner + 1
    requires e != Reserved(ticket.handle)
    requires e.Completed? ==> e.ticket != ticket
    ensures HoldsPending(Step(s, e), ticket)
  {
    StepGenerations(s, e, ticket.handle);
    SplitMembers(s.owners[ticket.owner].textures);
    if e.Completed? {
      OtherCompletionKeeps(s, e.ticket, e.pointer, ticket);
    }
  }

  lemma {:induction false} OtherCompletionKeeps(s: State, other: CreationTicket, pointer: nat, ticket: CreationTicket)
    requires ticket.owner in s.owners && other != ticket
    requires Texture(ticket.handle, ticket.generation, 0) in s.owners[ticket.owner].textures
    ensures ticket.owner in Created(s, other, pointer).owners
    ensures Texture(ticket.handle, ticket.generation, 0) in Created(s, other, pointer).owners[ticket.owner].textures
  {
    if other.owner == ticket.owner && EntryOf(s, other).Some? {
      OtherEntryStays(s.owners[ticket.owner].textures, EntryOf(s, other).value,
                      Texture(ticket.handle, ticket.generation, 0), pointer);
    }
  }

  lemma {:induction false} OtherEntryStays(textures: seq<Texture>, i: nat, x: Texture, pointer: nat)
    requires i < |textures| && x in textures
    requires textures[i].handle != x.handle || textures[i].generation != x.generation
    ensures x in textures[i := textures[i].(pointer := pointer)]
    ensures x in textures[..i] + textures[i + 1..]
  {
    var j :| 0 <= j < |textures| && textures[j] == x;
    assert textures[i := textures[i].(pointer := pointer)][j] == x;
    assert (textures[..i] + textures[i + 1..])[if j < i then j else j - 1] == x;
  }

  /**
   From registration until its own completion or a new reservation, no pointer whatever can be
   claimed for release on the handle: retirement, cleanup and other owners do not matter.
   */
  lemma {:induction false} PendingCreationIsProtected(es: Run, i: nat, ticket: CreationTicket, n: nat)
    requires i <= n < |es| && HoldsPending(At(es, i), ticket)
    requires forall k | i <= k < n :: es[k] != Reserved(ticket.handle)
    requires forall k | i <= k < n && es[k].Completed? :: es[k].ticket != ticket
    ensures HoldsPending(At(es, n), ticket)
    ensures es[n].AskedRelease? && es[n].handle == ticket.handle ==> !GrantedAt(es, n)
  {
    if i < n {
      PendingCreationIsProtected(es, i, ticket, n - 1);
      NextTokenIsFresh(es, n - 1);
      PendingIsKept(At(es, n - 1), es[n - 1], ticket);
    }
    if GrantedAt(es, n) && es[n].handle == ticket.handle {
      GrantsOnlyUnowned(es, n, ticket.owner, Texture(ticket.handle, ticket.generation, 0));
    }
  }

  /** Registering with an owner that has no completed entry for the handle starts that protection. */
  lemma {:induction false} RegistrationStartsProtection(s: State, t: Token, h: nat)
    requires Inv(s) && Registers(s, t, h)
    requires forall x | x in s.owners[t].textures && x.handle == h && x.generation == s.generations[h] :: x.pointer == 0
    ensures HoldsPending(Pending(s, t, h), TicketOf(s, t, h).value)
  {
    var textures, g := s.owners[t].textures, s.generations[h];
    var i := IndexOf(textures, h, g);
    if i < |textures| {
      assert textures[i] in textures;
      assert textures[i] == Texture(h, g, 0);
    } else {
      assert (textures + [Texture(h, g, 0)])[|textures|] == Texture(h, g, 0);
    }
  }
}
