/**
 Ownership of GPU textures by weapon resources, independent of the native slots that are
 reused underneath them (geometry/src/weapon_textures.rs).

 `State` is the abstract machine: it has no `owner_counts`. The class `Ownership` carries that
 index as a field and its invariant says the index always equals a scan over all owners.
 Counters that the source keeps in 64 bits are unbounded here.
 */
module WeaponTextures {
  import opened Wrappers

  const HANDLE_LIMIT: nat := 4096
  // usize::MAX of the 32-bit client: the native code's "no texture" pointer.
  const NO_POINTER: nat := 0xffff_ffff

  type Token = nat

  /** `pointer` is zero while GPU creation is pending. */
  datatype Texture = Texture(handle: nat, generation: nat, pointer: nat)

  datatype OwnerInfo = OwnerInfo(resource: nat, base: nat, count: nat, player: nat, weapon: nat, model: nat)

  datatype Owner = Owner(info: OwnerInfo, constructing: bool, retired: bool, textures: seq<Texture>)

  datatype CreationTicket = CreationTicket(owner: Token, handle: nat, generation: nat)

  datatype CreationResult = Published | Retired(texture: Texture) | Discarded

  datatype ReleaseClaim = ReleaseClaim(handle: nat, generation: nat, identity: nat)

  datatype ReleaseDecision = Protected(owner: OwnerInfo) | Claimed(claim: ReleaseClaim) | Ignored

  datatype State = State(generations: seq<nat>, nextGeneration: nat, nextOwner: nat, nextRelease: nat,
                         owners: map<Token, Owner>, resources: map<nat, Token>, releasing: seq<Option<ReleaseClaim>>)

  // ---------- textures of one owner ----------

  function IndexOf(textures: seq<Texture>, handle: nat, generation: nat): (i: nat)
    ensures i <= |textures|
    ensures i < |textures| ==> textures[i].handle == handle && textures[i].generation == generation
    ensures forall j | 0 <= j < i :: textures[j].handle != handle || textures[j].generation != generation
  {
    if textures == [] || (textures[0].handle == handle && textures[0].generation == generation) then 0
    else 1 + IndexOf(textures[1..], handle, generation)
  }

  ghost predicate HasEntry(textures: seq<Texture>, handle: nat, generation: nat) {
    exists i :: 0 <= i < |textures| && textures[i].handle == handle && textures[i].generation == generation
  }

  ghost predicate UniqueEntries(textures: seq<Texture>) {
    forall i, j | 0 <= i < j < |textures| ::
      textures[i].handle != textures[j].handle || textures[i].generation != textures[j].generation
  }

  function PublishedOf(textures: seq<Texture>): seq<Texture> {
    if textures == [] then []
    else (if textures[0].pointer != 0 then [textures[0]] else []) + PublishedOf(textures[1..])
  }

  function PendingOf(textures: seq<Texture>): seq<Texture> {
    if textures == [] then []
    else (if textures[0].pointer == 0 then [textures[0]] else []) + PendingOf(textures[1..])
  }

  lemma {:induction false} SplitMembers(textures: seq<Texture>)
    ensures forall x :: x in PublishedOf(textures) <==> x in textures && x.pointer != 0
    ensures forall x :: x in PendingOf(textures) <==> x in textures && x.pointer == 0
  {
    if textures != [] {
      SplitMembers(textures[1..]);
      assert textures == [textures[0]] + textures[1..];
    }
  }

  lemma {:induction false} SplitSnoc(textures: seq<Texture>, x: Texture)
    ensures PublishedOf(textures + [x]) == PublishedOf(textures) + if x.pointer != 0 then [x] else []
    ensures PendingOf(textures + [x]) == PendingOf(textures) + if x.pointer == 0 then [x] else []
  {
    if textures == [] {
      assert textures + [x] == [x];
    } else {
      assert (textures + [x])[1..] == textures[1..] + [x];
      SplitSnoc(textures[1..], x);
    }
  }

  lemma {:induction false} PendingKeepsUnique(textures: seq<Texture>)
    requires UniqueEntries(textures)
    ensures UniqueEntries(PendingOf(textures))
  {
    if textures != [] {
      PendingKeepsUnique(textures[1..]);
      SplitMembers(textures[1..]);
      var rest := PendingOf(textures[1..]);
      forall j | 0 <= j < |rest|
        ensures rest[j].handle != textures[0].handle || rest[j].generation != textures[0].generation
      {
        assert rest[j] in textures[1..];
      }
    }
  }

  lemma {:induction false} PublishedKeepsUnique(textures: seq<Texture>)
    requires UniqueEntries(textures)
    ensures UniqueEntries(PublishedOf(textures))
  {
    if textures != [] {
      PublishedKeepsUnique(textures[1..]);
      SplitMembers(textures[1..]);
      var rest := PublishedOf(textures[1..]);
      forall j | 0 <= j < |rest|
        ensures rest[j].handle != textures[0].handle || rest[j].generation != textures[0].generation
      {
        assert rest[j] in textures[1..];
      }
    }
  }

  // ---------- who refers to a handle ----------

  predicate Guards(texture: Texture, handle: nat, generation: nat, pointer: nat) {
    && texture.handle == handle
    && texture.generation == generation
    && (texture.pointer == 0 || texture.pointer == pointer)
  }

  /** The owners a full scan finds for this handle and pointer. */
  function Protectors(s: State, handle: nat, pointer: nat): set<Token> {
    if handle < |s.generations| then
      set t |
        t in s.owners && exists x :: x in s.owners[t].textures && Guards(x, handle, s.generations[handle], pointer)
    else {}
  }

  ghost function Holders(owners: map<Token, Owner>, handle: nat, generation: nat): set<Token> {
    set t | t in owners && HasEntry(owners[t].textures, handle, generation)
  }

  // ---------- the abstract machine ----------

  function Init(): State {
    State(seq(HANDLE_LIMIT, _ => 0), 0, 0, 0, map[], map[], seq(HANDLE_LIMIT, _ => None))
  }

  predicate Reservable(handle: nat) {
    0 < handle < HANDLE_LIMIT
  }

  function Reserve(s: State, handle: nat): State
    requires |s.generations| == |s.releasing| == HANDLE_LIMIT
  {
    if !Reservable(handle) then s
    else s.(nextGeneration := s.nextGeneration + 1,
            generations := s.generations[handle := s.nextGeneration + 1],
            releasing := s.releasing[handle := None])
  }

  predicate Removable(owner: Owner) {
    owner.retired && !owner.constructing && owner.textures == []
  }

  function RemoveFinished(s: State, token: Token): State {
    if token in s.owners && Removable(s.owners[token]) then s.(owners := s.owners - {token}) else s
  }

  function RetiredOwner(owner: Owner): Owner {
    owner.(retired := true, textures := PendingOf(owner.textures))
  }

  function Retire(s: State, token: Token): State {
    if token in s.owners then RemoveFinished(s.(owners := s.owners[token := RetiredOwner(s.owners[token])]), token)
    else s
  }

  function Surrendered(s: State, token: Token): seq<Texture> {
    if token in s.owners then PublishedOf(s.owners[token].textures) else []
  }

  function Take(s: State, resource: nat): State {
    if resource in s.resources then Retire(s.(resources := s.resources - {resource}), s.resources[resource]) else s
  }

  function TakenFrom(s: State, resource: nat): seq<Texture> {
    if resource in s.resources then Surrendered(s, s.resources[resource]) else []
  }

  function TakeAll(s: State): State {
    s.(resources := map[],
       owners := map t | t in s.owners && !Removable(RetiredOwner(s.owners[t])) :: RetiredOwner(s.owners[t]))
  }

  function Begin(s: State, info: OwnerInfo): State {
    var r := Take(s, info.resource);
    var token := r.nextOwner + 1;
    r.(nextOwner := token,
       owners := r.owners[token := Owner(info, true, false, [])],
       resources := r.resources[info.resource := token])
  }

  function Finish(s: State, token: Token): State {
    if token in s.owners
    then RemoveFinished(s.(owners := s.owners[token := s.owners[token].(constructing := false)]), token)
    else s
  }

  predicate Registers(s: State, token: Token, handle: nat) {
    Reservable(handle) && token in s.owners
  }

  function Pending(s: State, token: Token, handle: nat): State
    requires |s.generations| == HANDLE_LIMIT
  {
    if !Registers(s, token, handle) then s
    else
      var owner := s.owners[token];
      var generation := s.generations[handle];
      if IndexOf(owner.textures, handle, generation) < |owner.textures| then s
      else s.(owners := s.owners[token := owner.(textures := owner.textures + [Texture(handle, generation, 0)])])
  }

  function TicketOf(s: State, token: Token, handle: nat): Option<CreationTicket>
    requires |s.generations| == HANDLE_LIMIT
  {
    if Registers(s, token, handle) then Some(CreationTicket(token, handle, s.generations[handle])) else None
  }

  predicate Current(s: State, handle: nat, generation: nat) {
    handle < |s.generations| && s.generations[handle] == generation
  }

  predicate UsablePointer(pointer: nat) {
    pointer != 0 && pointer != NO_POINTER
  }

  /** The entry a completed creation refers to, if its owner still has one. */
  function EntryOf(s: State, ticket: CreationTicket): Option<nat> {
    if ticket.owner !in s.owners then None
    else
      var textures := s.owners[ticket.owner].textures;
      var i := IndexOf(textures, ticket.handle, ticket.generation);
      if i < |textures| then Some(i) else None
  }

  function CreatedResult(s: State, ticket: CreationTicket, pointer: nat): CreationResult {
    if EntryOf(s, ticket).None? then Discarded
    else if !Current(s, ticket.handle, ticket.generation) || !UsablePointer(pointer) then Discarded
    else if s.owners[ticket.owner].retired then Retired(Texture(ticket.handle, ticket.generation, pointer))
    else Published
  }

  function Created(s: State, ticket: CreationTicket, pointer: nat): State {
    match EntryOf(s, ticket)
    case None => s
    case Some(i) =>
      var owner := s.owners[ticket.owner];
      if CreatedResult(s, ticket, pointer).Published? then
        var textures := owner.textures[i := owner.textures[i].(pointer := pointer)];
        s.(owners := s.owners[ticket.owner := owner.(textures := textures)])
      else
        RemoveFinished(
          s.(owners := s.owners[ticket.owner := owner.(textures := owner.textures[..i] + owner.textures[i + 1..])]),
          ticket.owner)
  }

  predicate Mismatched(s: State, handle: nat, pointer: nat, expected: Option<Texture>)
    requires handle < |s.generations|
  {
    && expected.Some?
    && (|| expected.value.handle != handle
        || expected.value.pointer != pointer
        || expected.value.generation != s.generations[handle])
  }

  predicate Claimable(s: State, handle: nat, pointer: nat, expected: Option<Texture>)
    requires |s.generations| == |s.releasing| == HANDLE_LIMIT
  {
    && Reservable(handle)
    && UsablePointer(pointer)
    && Protectors(s, handle, pointer) == {}
    && s.releasing[handle].None?
    && !Mismatched(s, handle, pointer, expected)
  }

  function NextClaim(s: State, handle: nat): ReleaseClaim
    requires handle < |s.generations|
  {
    ReleaseClaim(handle, s.generations[handle], s.nextRelease + 1)
  }

  function PrepareRelease(s: State, handle: nat, pointer: nat, expected: Option<Texture>): State
    requires |s.generations| == |s.releasing| == HANDLE_LIMIT
  {
    if Claimable(s, handle, pointer, expected)
    then s.(nextRelease := s.nextRelease + 1, releasing := s.releasing[handle := Some(NextClaim(s, handle))])
    else s
  }

  function FinishRelease(s: State, claim: ReleaseClaim): State
    requires claim.handle < |s.releasing|
  {
    if s.releasing[claim.handle] == Some(claim) then s.(releasing := s.releasing[claim.handle := None]) else s
  }

  // ---------- what every operation keeps ----------

  ghost predicate TextureOk(s: State, x: Texture)
    requires |s.generations| == HANDLE_LIMIT
  {
    Reservable(x.handle) && x.generation <= s.generations[x.handle] && x.pointer != NO_POINTER
  }

  ghost predicate OwnerOk(s: State, token: Token)
    requires |s.generations| == HANDLE_LIMIT && token in s.owners
  {
    var owner := s.owners[token];
    && 0 < token <= s.nextOwner
    && UniqueEntries(owner.textures)
    && (forall x | x in owner.textures :: TextureOk(s, x))
    && !Removable(owner)
    && (owner.retired ==> forall x | x in owner.textures :: x.pointer == 0)
    && (!owner.retired ==> owner.info.resource in s.resources && s.resources[owner.info.resource] == token)
  }

  ghost predicate ResourceOk(s: State, resource: nat)
    requires resource in s.resources
  {
    var token := s.resources[resource];
    token in s.owners && !s.owners[token].retired && s.owners[token].info.resource == resource
  }

  ghost predicate ClaimOk(s: State, handle: nat)
    requires handle < |s.releasing| == |s.generations|
  {
    s.releasing[handle].Some? ==>
      var claim := s.releasing[handle].value;
      claim.handle == handle && claim.generation == s.generations[handle] && claim.identity <= s.nextRelease
  }

  ghost predicate Inv(s: State) {
    && |s.generations| == |s.releasing| == HANDLE_LIMIT
    && (forall h | 0 <= h < HANDLE_LIMIT :: s.generations[h] <= s.nextGeneration)
    && (forall t | t in s.owners :: OwnerOk(s, t))
    && (forall r | r in s.resources :: ResourceOk(s, r))
    && (forall h | 0 <= h < HANDLE_LIMIT :: ClaimOk(s, h))
  }

  lemma {:induction false} ReserveKeepsInv(s: State, handle: nat)
    requires Inv(s)
    ensures Inv(Reserve(s, handle))
  {
    var r := Reserve(s, handle);
    forall t | t in r.owners ensures OwnerOk(r, t) {
      assert OwnerOk(s, t);
      forall x | x in r.owners[t].textures ensures TextureOk(r, x) {
        assert TextureOk(s, x);
      }
    }
    forall k | k in r.resources ensures ResourceOk(r, k) {
      assert ResourceOk(s, k);
    }
    forall h | 0 <= h < HANDLE_LIMIT ensures ClaimOk(r, h) {
      assert ClaimOk(s, h);
    }
  }

  lemma {:induction false} OtherOwnerKept(s: State, r: State, token: Token, t: Token)
    requires Inv(s) && token in s.owners && t in s.owners && t != token
    requires r == s.(owners := r.owners, resources := r.resources)
    requires t in r.owners && r.owners[t] == s.owners[t]
    requires r.resources == s.resources
             || (!s.owners[token].retired && r.resources == s.resources - {s.owners[token].info.resource})
    ensures OwnerOk(r, t)
  {
    assert OwnerOk(s, t) && OwnerOk(s, token);
    forall x | x in s.owners[t].textures ensures TextureOk(r, x) {
      assert TextureOk(s, x);
    }
  }

  lemma {:induction false} ReplacedOwner(s: State, r: State, token: Token)
    requires Inv(s) && token in s.owners && token in r.owners && !Removable(r.owners[token])
    requires r == s.(owners := r.owners, resources := r.resources)
    requires r.owners[token].info == s.owners[token].info
    requires if r.resources == s.resources then r.owners[token].retired == s.owners[token].retired
             else r.owners[token].retired
    requires UniqueEntries(r.owners[token].textures)
    requires forall x | x in r.owners[token].textures :: TextureOk(s, x)
    requires r.owners[token].retired ==> forall x | x in r.owners[token].textures :: x.pointer == 0
    ensures OwnerOk(r, token)
  {
    assert OwnerOk(s, token);
    forall x | x in r.owners[token].textures ensures TextureOk(r, x) {
      assert TextureOk(s, x);
    }
  }

  /** Replacing one owner's record keeps the invariant when the new record is itself in order. */
  lemma {:induction false} ReplaceKeepsInv(s: State, r: State, token: Token)
    requires Inv(s) && token in s.owners
    requires r == s.(owners := r.owners, resources := r.resources)
    requires r.owners.Keys == s.owners.Keys
    requires forall t | t in s.owners && t != token :: r.owners[t] == s.owners[t]
    requires r.owners[token].info == s.owners[token].info
    requires if r.resources == s.resources
             then r.owners[token].retired == s.owners[token].retired
             else !s.owners[token].retired && r.owners[token].retired
                  && r.resources == s.resources - {s.owners[token].info.resource}
    requires UniqueEntries(r.owners[token].textures)
    requires forall x | x in r.owners[token].textures :: TextureOk(s, x)
    requires r.owners[token].retired ==> forall x | x in r.owners[token].textures :: x.pointer == 0
    ensures Inv(RemoveFinished(r, token))
    ensures !Removable(r.owners[token]) ==> Inv(r)
  {
    var f := RemoveFinished(r, token);
    forall t | t in f.owners && t != token ensures OwnerOk(f, t) {
      OtherOwnerKept(s, f, token, t);
    }
    if !Removable(r.owners[token]) {
      ReplacedOwner(s, r, token);
    }
    forall k | k in f.resources ensures ResourceOk(f, k) {
      ResourceKept(s, r, token, k);
    }
    hide Inv, OwnerOk, ResourceOk, UniqueEntries, TextureOk;
    OwnersAndResourcesInOrder(s, f);
  }

  lemma {:induction false} ResourceKept(s: State, r: State, token: Token, resource: nat)
    requires Inv(s) && token in s.owners && r.owners.Keys == s.owners.Keys
    requires forall t | t in s.owners && t != token :: r.owners[t] == s.owners[t]
    requires r.owners[token].info == s.owners[token].info
    requires if r.resources == s.resources then r.owners[token].retired == s.owners[token].retired
             else r.owners[token].retired && r.resources == s.resources - {s.owners[token].info.resource}
    requires resource in r.resources
    ensures ResourceOk(RemoveFinished(r, token), resource)
  {
    assert ResourceOk(s, resource);
  }

  lemma {:induction false} OwnersAndResourcesInOrder(s: State, r: State)
    requires Inv(s) && r == s.(owners := r.owners, resources := r.resources)
    requires forall t | t in r.owners :: OwnerOk(r, t)
    requires forall k | k in r.resources :: ResourceOk(r, k)
    ensures Inv(r)
  {
    hide OwnerOk, ResourceOk;
    forall h | 0 <= h < HANDLE_LIMIT ensures ClaimOk(r, h) {
      assert ClaimOk(s, h);
    }
  }

  lemma {:induction false} FinishKeepsInv(s: State, token: Token)
    requires Inv(s)
    ensures Inv(Finish(s, token))
  {
    if token in s.owners {
      assert OwnerOk(s, token);
      ReplaceKeepsInv(s, s.(owners := s.owners[token := s.owners[token].(constructing := false)]), token);
    }
  }

  lemma {:induction false} TakeKeepsInv(s: State, resource: nat)
    requires Inv(s)
    ensures Inv(Take(s, resource))
    ensures resource !in Take(s, resource).resources
  {
    if resource in s.resources {
      var token := s.resources[resource];
      assert ResourceOk(s, resource) && OwnerOk(s, token);
      PendingKeepsUnique(s.owners[token].textures);
      SplitMembers(s.owners[token].textures);
      var r := s.(resources := s.resources - {resource}, owners := s.owners[token := RetiredOwner(s.owners[token])]);
      ReplaceKeepsInv(s, r, token);
    }
  }

  lemma {:induction false} TakenResource(s: State, resource: nat)
    requires Inv(s)
    ensures resource !in Take(s, resource).resources && Take(s, resource).nextOwner == s.nextOwner
  {
  }

  lemma {:induction false} OwnerBesideNew(m: State, r: State, info: OwnerInfo, t: Token)
    requires Inv(m) && t in m.owners && info.resource !in m.resources
    requires r == m.(nextOwner := r.nextOwner, owners := r.owners,
                     resources := m.resources[info.resource := r.nextOwner])
    requires r.nextOwner == m.nextOwner + 1 && t in r.owners && r.owners[t] == m.owners[t]
    ensures OwnerOk(r, t)
  {
    assert OwnerOk(m, t);
    forall x | x in m.owners[t].textures ensures TextureOk(r, x) {
      assert TextureOk(m, x);
    }
  }

  lemma {:induction false} BeginKeepsInv(s: State, info: OwnerInfo)
    requires Inv(s)
    ensures Inv(Begin(s, info))
    ensures s.nextOwner + 1 !in s.owners && s.nextOwner + 1 !in Take(s, info.resource).owners
  {
    assert forall t | t in s.owners :: OwnerOk(s, t);
    TakeKeepsInv(s, info.resource);
    var m := Take(s, info.resource);
    var r := Begin(s, info);
    assert forall t | t in m.owners :: OwnerOk(m, t);
    assert r.nextOwner !in m.owners;
    TakenResource(s, info.resource);
    hide Take;
    forall t | t in r.owners && t != r.nextOwner ensures OwnerOk(r, t) {
      OwnerBesideNew(m, r, info, t);
    }
    assert OwnerOk(r, r.nextOwner);
    hide OwnerOk, UniqueEntries, TextureOk;
    forall k | k in r.resources ensures ResourceOk(r, k) {
      if k != info.resource {
        assert ResourceOk(m, k);
      }
    }
    forall h | 0 <= h < HANDLE_LIMIT ensures ClaimOk(r, h) {
      assert ClaimOk(m, h);
    }
  }

  lemma {:induction false} TakeAllKeepsInv(s: State)
    requires Inv(s)
    ensures Inv(TakeAll(s))
  {
    var r := TakeAll(s);
    forall t | t in r.owners ensures OwnerOk(r, t) {
      assert OwnerOk(s, t);
      PendingKeepsUnique(s.owners[t].textures);
      SplitMembers(s.owners[t].textures);
      forall x | x in r.owners[t].textures ensures TextureOk(r, x) {
        assert TextureOk(s, x);
      }
    }
    forall h | 0 <= h < HANDLE_LIMIT ensures ClaimOk(r, h) {
      assert ClaimOk(s, h);
    }
  }

  lemma {:induction false} PendingKeepsInv(s: State, token: Token, handle: nat)
    requires Inv(s)
    ensures Inv(Pending(s, token, handle))
  {
    if Registers(s, token, handle) {
      var owner := s.owners[token];
      var generation := s.generations[handle];
      assert OwnerOk(s, token);
      if IndexOf(owner.textures, handle, generation) == |owner.textures| {
        var x := Texture(handle, generation, 0);
        assert TextureOk(s, x);
        var textures := owner.textures + [x];
        assert UniqueEntries(textures);
        forall y | y in textures ensures TextureOk(s, y) && (owner.retired ==> y.pointer == 0) {
          assert y in owner.textures || y == x;
        }
        ReplaceKeepsInv(s, Pending(s, token, handle), token);
      }
    }
  }

  lemma {:induction false} RemovalKeepsUnique(textures: seq<Texture>, i: nat)
    requires UniqueEntries(textures) && i < |textures|
    ensures UniqueEntries(textures[..i] + textures[i + 1..])
    ensures forall x | x in textures[..i] + textures[i + 1..] :: x in textures
  {
  }

  lemma {:induction false} CreatedKeepsInv(s: State, ticket: CreationTicket, pointer: nat)
    requires Inv(s)
    ensures Inv(Created(s, ticket, pointer))
  {
    if EntryOf(s, ticket).Some? {
      var i := EntryOf(s, ticket).value;
      var owner := s.owners[ticket.owner];
      assert OwnerOk(s, ticket.owner);
      if CreatedResult(s, ticket, pointer).Published? {
        var textures := owner.textures[i := owner.textures[i].(pointer := pointer)];
        assert UniqueEntries(textures);
        forall x | x in textures ensures TextureOk(s, x) {
          assert TextureOk(s, owner.textures[i]);
          assert x in owner.textures || x == textures[i];
        }
        ReplaceKeepsInv(s, Created(s, ticket, pointer), ticket.owner);
      } else {
        var textures := owner.textures[..i] + owner.textures[i + 1..];
        RemovalKeepsUnique(owner.textures, i);
        ReplaceKeepsInv(s, s.(owners := s.owners[ticket.owner := owner.(textures := textures)]), ticket.owner);
      }
    }
  }

  lemma {:induction false} PrepareReleaseKeepsInv(s: State, handle: nat, pointer: nat, expected: Option<Texture>)
    requires Inv(s)
    ensures Inv(PrepareRelease(s, handle, pointer, expected))
  {
    var r := PrepareRelease(s, handle, pointer, expected);
    OnlyReleasesChange(s, r);
    forall h | 0 <= h < HANDLE_LIMIT ensures ClaimOk(r, h) {
      assert ClaimOk(s, h);
    }
  }

  lemma {:induction false} FinishReleaseKeepsInv(s: State, claim: ReleaseClaim)
    requires Inv(s) && claim.handle < HANDLE_LIMIT
    ensures Inv(FinishRelease(s, claim))
  {
    var r := FinishRelease(s, claim);
    OnlyReleasesChange(s, r);
    forall h | 0 <= h < HANDLE_LIMIT ensures ClaimOk(r, h) {
      assert ClaimOk(s, h);
    }
  }

  lemma {:induction false} OnlyReleasesChange(s: State, r: State)
    requires Inv(s) && r == s.(nextRelease := r.nextRelease, releasing := r.releasing)
    requires |r.releasing| == HANDLE_LIMIT
    ensures forall t | t in r.owners :: OwnerOk(r, t)
    ensures forall k | k in r.resources :: ResourceOk(r, k)
  {
    forall t | t in r.owners ensures OwnerOk(r, t) {
      assert OwnerOk(s, t);
      forall x | x in r.owners[t].textures ensures TextureOk(r, x) {
        assert TextureOk(s, x);
      }
    }
    forall k | k in r.resources ensures ResourceOk(r, k) {
      assert ResourceOk(s, k);
    }
  }
}
