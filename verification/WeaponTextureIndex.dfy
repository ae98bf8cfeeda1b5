/**
 The mutable ownership table. `ownerCounts` is kept incrementally; `Valid` says that it equals,
 for every handle, the number of owners a full scan finds holding the handle's current
 generation, so each decrement has something to subtract and the zero-count shortcut is exact.
 */
module WeaponTextureIndex {
  import opened Wrappers
  import opened WeaponTextures

  lemma {:induction false} HasEntrySplit(textures: seq<Texture>, handle: nat, generation: nat)
    requires UniqueEntries(textures)
    ensures HasEntry(textures, handle, generation)
            <==>
              HasEntry(PublishedOf(textures), handle, generation) || HasEntry(PendingOf(textures), handle, generation)
    ensures !(HasEntry(PublishedOf(textures), handle, generation) && HasEntry(PendingOf(textures), handle, generation))
  {
    if textures != [] {
      var x, rest := textures[0], textures[1..];
      HasEntrySplit(rest, handle, generation);
      HasEntryHead(textures, handle, generation);
      PublishedKeepsUnique(textures);
      PendingKeepsUnique(textures);
      if x.pointer != 0 {
        assert PublishedOf(textures)[1..] == PublishedOf(rest) && PendingOf(textures) == PendingOf(rest);
        HasEntryHead(PublishedOf(textures), handle, generation);
      } else {
        assert PendingOf(textures)[1..] == PendingOf(rest) && PublishedOf(textures) == PublishedOf(rest);
        HasEntryHead(PendingOf(textures), handle, generation);
      }
    }
  }

  lemma {:induction false} HasEntryHead(textures: seq<Texture>, handle: nat, generation: nat)
    requires textures != [] && UniqueEntries(textures)
    ensures var first := textures[0].handle == handle && textures[0].generation == generation;
            && (HasEntry(textures, handle, generation) <==> first || HasEntry(textures[1..], handle, generation))
            && !(first && HasEntry(textures[1..], handle, generation))
  {
    if HasEntry(textures, handle, generation) {
      var i :| 0 <= i < |textures| && textures[i].handle == handle && textures[i].generation == generation;
      if i > 0 {
        assert textures[1..][i - 1] == textures[i];
      }
    }
    if HasEntry(textures[1..], handle, generation) {
      var i :| 0 <= i < |textures[1..]| && textures[1..][i].handle == handle
               && textures[1..][i].generation == generation;
      assert textures[i + 1] == textures[1..][i];
    }
  }

  /** How replacing one owner moves the count of one handle. */
  lemma {:induction false} HoldersReplace(owners: map<Token, Owner>, token: Token, owner: Owner, handle: nat,
                                          generation: nat)
    requires token in owners
    ensures var had := HasEntry(owners[token].textures, handle, generation);
            var has := HasEntry(owner.textures, handle, generation);
            |Holders(owners[token := owner], handle, generation)|
            == |Holders(owners, handle, generation)| - (if had then 1 else 0) + (if has then 1 else 0)
  {
    var others := Holders(owners - {token}, handle, generation);
    HoldersOfOthers(owners, token, handle, generation);
    HoldersOfOthers(owners[token := owner], token, handle, generation);
    assert owners[token := owner] - {token} == owners - {token};
  }

  lemma {:induction false} HoldersOfOthers(owners: map<Token, Owner>, token: Token, handle: nat, generation: nat)
    requires token in owners
    ensures |Holders(owners, handle, generation)|
            == |Holders(owners - {token}, handle, generation)|
               + if HasEntry(owners[token].textures, handle, generation) then 1 else 0
  {
    var all, others := Holders(owners, handle, generation), Holders(owners - {token}, handle, generation);
    if HasEntry(owners[token].textures, handle, generation) {
      assert all == others + {token};
    } else {
      assert all == others;
    }
  }

  lemma {:induction false} HoldersWithoutEmpty(owners: map<Token, Owner>, token: Token)
    requires token in owners ==> owners[token].textures == []
    ensures forall h, g :: Holders(owners - {token}, h, g) == Holders(owners, h, g)
  {
    forall h, g
      ensures Holders(owners - {token}, h, g) == Holders(owners, h, g)
    {
      assert token !in Holders(owners, h, g);
    }
  }

  lemma {:induction false} AddEmptyOwner(owners: map<Token, Owner>, token: Token, owner: Owner)
    requires token !in owners && owner.textures == []
    ensures forall h, g :: Holders(owners[token := owner], h, g) == Holders(owners, h, g)
    ensures UniqueEntries(owner.textures)
  {
    assert owners[token := owner] - {token} == owners;
    HoldersWithoutEmpty(owners[token := owner], token);
  }

  /** What a bulk cleanup returns: every surrendered texture once, in whatever order owners are visited. */
  ghost predicate MergesAll(s: State, textures: seq<Texture>) {
    && (forall i, j | 0 <= i < j < |textures| :: textures[i] != textures[j])
    && (forall x :: x in textures <==> exists t :: t in s.owners && x in Surrendered(s, t))
  }

  lemma {:induction false} AppendHasEntry(textures: seq<Texture>, x: Texture, handle: nat, generation: nat)
    ensures HasEntry(textures + [x], handle, generation)
            <==> HasEntry(textures, handle, generation) || (x.handle == handle && x.generation == generation)
  {
    if HasEntry(textures, handle, generation) {
      var i :| 0 <= i < |textures| && textures[i].handle == handle && textures[i].generation == generation;
      assert (textures + [x])[i] == textures[i];
    }
    assert (textures + [x])[|textures|] == x;
  }

  lemma {:induction false} UpdateHasEntry(textures: seq<Texture>, i: nat, pointer: nat, handle: nat, generation: nat)
    requires i < |textures|
    ensures HasEntry(textures[i := textures[i].(pointer := pointer)], handle, generation)
            <==> HasEntry(textures, handle, generation)
  {
    var updated := textures[i := textures[i].(pointer := pointer)];
    assert forall j | 0 <= j < |textures| ::
      updated[j].handle == textures[j].handle && updated[j].generation == textures[j].generation;
  }

  lemma {:induction false} RemoveHasEntry(textures: seq<Texture>, i: nat, handle: nat, generation: nat)
    requires i < |textures| && UniqueEntries(textures)
    ensures var gone := textures[i].handle == handle && textures[i].generation == generation;
            var rest := textures[..i] + textures[i + 1..];
            && (HasEntry(textures, handle, generation) <==> gone || HasEntry(rest, handle, generation))
            && !(gone && HasEntry(rest, handle, generation))
  {
    var rest := textures[..i] + textures[i + 1..];
    if HasEntry(textures, handle, generation) {
      var j :| 0 <= j < |textures| && textures[j].handle == handle && textures[j].generation == generation;
      if j < i {
        assert rest[j] == textures[j];
      } else if j > i {
        assert rest[j - 1] == textures[j];
      }
    }
    if HasEntry(rest, handle, generation) {
      var j :| 0 <= j < |rest| && rest[j].handle == handle && rest[j].generation == generation;
      assert rest[j] == textures[if j < i then j else j + 1];
    }
  }

  /** Registering a current texture raises exactly its handle's count. */
  lemma {:induction false} AddCounts(owners: map<Token, Owner>, token: Token, handle: nat, generations: seq<nat>)
    requires token in owners && handle < |generations| && UniqueEntries(owners[token].textures)
    requires IndexOf(owners[token].textures, handle, generations[handle]) == |owners[token].textures|
    ensures var owner := owners[token];
            var textures := owner.textures + [Texture(handle, generations[handle], 0)];
            && UniqueEntries(textures)
            && forall h | 0 <= h < |generations| ::
                 |Holders(owners[token := owner.(textures := textures)], h, generations[h])|
                 == |Holders(owners, h, generations[h])| + if h == handle then 1 else 0
  {
    var owner, x := owners[token], Texture(handle, generations[handle], 0);
    var textures := owner.textures + [x];
    forall h | 0 <= h < |generations|
      ensures |Holders(owners[token := owner.(textures := textures)], h, generations[h])|
              == |Holders(owners, h, generations[h])| + if h == handle then 1 else 0
    {
      HoldersReplace(owners, token, owner.(textures := textures), h, generations[h]);
      AppendHasEntry(owner.textures, x, h, generations[h]);
    }
  }

  /** Bulk cleanup has retired every owner of `was` but those in `tokens`. */
  ghost predicate RetiredExcept(was: State, owners: map<Token, Owner>, tokens: set<Token>) {
    && (forall t :: t in owners <==> t in was.owners && (t in tokens || !Removable(RetiredOwner(was.owners[t]))))
    && (forall t | t in owners :: owners[t] == if t in tokens then was.owners[t] else RetiredOwner(was.owners[t]))
  }

  ghost predicate MergesExcept(was: State, tokens: set<Token>, textures: seq<Texture>) {
    && (forall i, j | 0 <= i < j < |textures| :: textures[i] != textures[j])
    && (forall x :: x in textures <==> exists t :: t in was.owners && t !in tokens && x in Surrendered(was, t))
  }

  lemma {:induction false} RetiredStep(was: State, s: State, tokens: set<Token>, token: Token)
    requires tokens <= was.owners.Keys && token in tokens && RetiredExcept(was, s.owners, tokens)
    ensures RetiredExcept(was, Retire(s, token).owners, tokens - {token})
    ensures Surrendered(s, token) == Surrendered(was, token)
  {
    assert token in s.owners && s.owners[token] == was.owners[token];
    var r := Retire(s, token);
    forall t
      ensures t in r.owners <==> t in was.owners && (t in tokens - {token} || !Removable(RetiredOwner(was.owners[t])))
    {
    }
  }

  lemma {:induction false} MergesStep(was: State, tokens: set<Token>, token: Token, listed: seq<Texture>,
                                      textures: seq<Texture>)
    requires token in tokens && token in was.owners && MergesExcept(was, tokens, listed)
    requires forall i, j | 0 <= i < j < |textures| :: textures[i] != textures[j]
    requires forall x :: x in textures <==> x in listed || x in Surrendered(was, token)
    ensures MergesExcept(was, tokens - {token}, textures)
  {
    forall x
      ensures x in textures <==> exists t :: t in was.owners && t !in tokens - {token} && x in Surrendered(was, t)
    {
    }
  }

  /** Publishing a pointer leaves every count alone. */
  lemma {:induction false} PublishCounts(owners: map<Token, Owner>, token: Token, i: nat, pointer: nat,
                                         generations: seq<nat>)
    requires token in owners && i < |owners[token].textures|
    ensures var owner := owners[token];
            var textures := owner.textures[i := owner.textures[i].(pointer := pointer)];
            forall h | 0 <= h < |generations| ::
              |Holders(owners[token := owner.(textures := textures)], h, generations[h])|
              == |Holders(owners, h, generations[h])|
  {
    var owner := owners[token];
    var textures := owner.textures[i := owner.textures[i].(pointer := pointer)];
    forall h | 0 <= h < |generations|
      ensures |Holders(owners[token := owner.(textures := textures)], h, generations[h])|
              == |Holders(owners, h, generations[h])|
    {
      HoldersReplace(owners, token, owner.(textures := textures), h, generations[h]);
      UpdateHasEntry(owner.textures, i, pointer, h, generations[h]);
    }
  }

  /** Dropping one entry lowers exactly the count it contributed to. */
  lemma {:induction false} DropCounts(owners: map<Token, Owner>, token: Token, i: nat, generations: seq<nat>)
    requires token in owners && i < |owners[token].textures| && UniqueEntries(owners[token].textures)
    ensures var owner := owners[token];
            var x := owner.textures[i];
            var rest := owner.textures[..i] + owner.textures[i + 1..];
            forall h | 0 <= h < |generations| ::
              |Holders(owners, h, generations[h])|
              == |Holders(owners[token := owner.(textures := rest)], h, generations[h])|
                 + if x.handle == h && x.generation == generations[h] then 1 else 0
  {
    var owner := owners[token];
    var x := owner.textures[i];
    var rest := owner.textures[..i] + owner.textures[i + 1..];
    forall h | 0 <= h < |generations|
      ensures |Holders(owners, h, generations[h])|
              == |Holders(owners[token := owner.(textures := rest)], h, generations[h])|
                 + if x.handle == h && x.generation == generations[h] then 1 else 0
    {
      HoldersReplace(owners, token, owner.(textures := rest), h, generations[h]);
      RemoveHasEntry(owner.textures, i, h, generations[h]);
    }
  }

  /** Push each new texture that is not listed yet. */
  method Append(listed: seq<Texture>, more: seq<Texture>) returns (textures: seq<Texture>)
    requires forall i, j | 0 <= i < j < |listed| :: listed[i] != listed[j]
    ensures forall i, j | 0 <= i < j < |textures| :: textures[i] != textures[j]
    ensures forall x :: x in textures <==> x in listed || x in more
  {
    textures := listed;
    var k := 0;
    while k < |more|
      invariant 0 <= k <= |more|
      invariant forall i, j | 0 <= i < j < |textures| :: textures[i] != textures[j]
      invariant forall x :: x in textures <==> x in listed || x in more[..k]
    {
      if more[k] !in textures {
        textures := textures + [more[k]];
      }
      assert more[..k + 1] == more[..k] + [more[k]];
      k := k + 1;
    }
    assert more[..k] == more;
  }

  class Ownership {
    var generations: seq<nat>
    var ownerCounts: seq<nat>
    var nextGeneration: nat
    var nextOwner: nat
    var nextRelease: nat
    var owners: map<Token, Owner>
    var resources: map<nat, Token>
    var releasing: seq<Option<ReleaseClaim>>

    ghost function View(): State
      reads this
    {
      State(generations, nextGeneration, nextOwner, nextRelease, owners, resources, releasing)
    }

    /** The redundant index agrees with a scan over all owners. */
    ghost predicate Indexed()
      reads this
    {
      && |generations| == |ownerCounts| == HANDLE_LIMIT
      && (forall t | t in owners :: UniqueEntries(owners[t].textures))
      && (forall h | 0 <= h < HANDLE_LIMIT :: ownerCounts[h] == |Holders(owners, h, generations[h])|)
    }

    ghost predicate Valid()
      reads this
    {
      Inv(View()) && Indexed()
    }

    constructor ()
      ensures Valid() && View() == Init()
    {
      generations := seq(HANDLE_LIMIT, _ => 0);
      ownerCounts := seq(HANDLE_LIMIT, _ => 0);
      nextGeneration, nextOwner, nextRelease := 0, 0, 0;
      owners, resources := map[], map[];
      releasing := seq(HANDLE_LIMIT, _ => None);
      new;
      forall h | 0 <= h < HANDLE_LIMIT ensures Holders(owners, h, generations[h]) == {} {
      }
    }

    method Reserve(handle: nat)
      requires Valid()
      modifies this
      ensures Valid() && View() == WeaponTextures.Reserve(old(View()), handle)
    {
      if handle == 0 || handle >= HANDLE_LIMIT {
        return;
      }
      ReserveKeepsInv(View(), handle);
      forall t | t in owners
        ensures UniqueEntries(owners[t].textures) && !HasEntry(owners[t].textures, handle, nextGeneration + 1)
      {
        assert OwnerOk(View(), t);
        forall i | 0 <= i < |owners[t].textures| ensures owners[t].textures[i].generation <= nextGeneration {
          assert TextureOk(View(), owners[t].textures[i]);
        }
      }
      assert Holders(owners, handle, nextGeneration + 1) == {};
      nextGeneration := nextGeneration + 1;
      generations := generations[handle := nextGeneration];
      ownerCounts := ownerCounts[handle := 0];
      releasing := releasing[handle := None];
    }

    method RemoveTextureReference(texture: Texture)
      requires |ownerCounts| == |generations|
      requires Current(View(), texture.handle, texture.generation) ==> ownerCounts[texture.handle] > 0
      modifies this`ownerCounts
      ensures ownerCounts == if Current(View(), texture.handle, texture.generation)
                             then old(ownerCounts)[texture.handle := old(ownerCounts)[texture.handle] - 1]
                             else old(ownerCounts)
    {
      if texture.handle < |generations| && generations[texture.handle] == texture.generation {
        ownerCounts := ownerCounts[texture.handle := ownerCounts[texture.handle] - 1];
      }
    }

    method RemoveFinished(token: Token)
      requires Indexed()
      modifies this`owners
      ensures Indexed() && View() == WeaponTextures.RemoveFinished(old(View()), token)
    {
      if token in owners && owners[token].retired && !owners[token].constructing && owners[token].textures == [] {
        HoldersWithoutEmpty(owners, token);
        owners := owners - {token};
      }
    }

    method RetireOwner(token: Token) returns (textures: seq<Texture>)
      requires Indexed()
      modifies this`owners, this`ownerCounts
      ensures Indexed() && View() == Retire(old(View()), token)
      ensures textures == Surrendered(old(View()), token)
    {
      textures := [];
      if token in owners {
        var owner := owners[token];
        var kept: seq<Texture>, i := [], 0;
        while i < |owner.textures|
          invariant 0 <= i <= |owner.textures| && Indexed() && View() == old(View())
          invariant textures == PublishedOf(owner.textures[..i]) && kept == PendingOf(owner.textures[..i])
        {
          SplitSnoc(owner.textures[..i], owner.textures[i]);
          assert owner.textures[..i + 1] == owner.textures[..i] + [owner.textures[i]];
          if owner.textures[i].pointer != 0 {
            textures := textures + [owner.textures[i]];
          } else {
            kept := kept + [owner.textures[i]];
          }
          i := i + 1;
        }
        assert owner.textures[..i] == owner.textures;
        PublishedKeepsUnique(owner.textures);
        PendingKeepsUnique(owner.textures);
        forall h | 0 <= h < HANDLE_LIMIT
          ensures ownerCounts[h] == |Holders(owners[token := RetiredOwner(owner)], h, generations[h])|
                                    + if HasEntry(textures, h, generations[h]) then 1 else 0
        {
          HasEntrySplit(owner.textures, h, generations[h]);
          HoldersReplace(owners, token, RetiredOwner(owner), h, generations[h]);
        }
        owners := owners[token := owner.(retired := true, textures := kept)];
      }
      DropReferences(textures);
      RemoveFinished(token);
    }

    /** Subtract each texture that an owner has just given up. */
    method DropReferences(textures: seq<Texture>)
      requires |generations| == |ownerCounts| == HANDLE_LIMIT
      requires UniqueEntries(textures)
      requires forall t | t in owners :: UniqueEntries(owners[t].textures)
      requires forall h | 0 <= h < HANDLE_LIMIT ::
        ownerCounts[h] == |Holders(owners, h, generations[h])| + if HasEntry(textures, h, generations[h]) then 1 else 0
      modifies this`ownerCounts
      ensures Indexed()
    {
      var k := 0;
      while k < |textures|
        invariant 0 <= k <= |textures| && |ownerCounts| == HANDLE_LIMIT
        invariant forall h | 0 <= h < HANDLE_LIMIT ::
          ownerCounts[h] == |Holders(owners, h, generations[h])|
                            + if HasEntry(textures[k..], h, generations[h]) then 1 else 0
      {
        var texture := textures[k];
        forall h | 0 <= h < HANDLE_LIMIT
          ensures var first := texture.handle == h && texture.generation == generations[h];
                  && (HasEntry(textures[k..], h, generations[h])
                      <==> first || HasEntry(textures[k + 1..], h, generations[h]))
                  && !(first && HasEntry(textures[k + 1..], h, generations[h]))
        {
          HasEntryHead(textures[k..], h, generations[h]);
          assert textures[k..][1..] == textures[k + 1..];
        }
        RemoveTextureReference(texture);
        k := k + 1;
      }
      assert textures[k..] == [];
    }

    method Take(resource: nat) returns (textures: seq<Texture>)
      requires Valid()
      modifies this
      ensures Valid() && View() == WeaponTextures.Take(old(View()), resource)
      ensures textures == TakenFrom(old(View()), resource)
    {
      TakeKeepsInv(View(), resource);
      textures := [];
      if resource in resources {
        var token := resources[resource];
        resources := resources - {resource};
        textures := RetireOwner(token);
      }
    }

    method TakeAll() returns (textures: seq<Texture>)
      requires Valid()
      modifies this
      ensures Valid() && View() == WeaponTextures.TakeAll(old(View()))
      ensures MergesAll(old(View()), textures)
    {
      ghost var was := View();
      TakeAllKeepsInv(was);
      resources := map[];
      textures := RetireAll();
    }

    method RetireAll() returns (textures: seq<Texture>)
      requires Indexed()
      modifies this`owners, this`ownerCounts
      ensures Indexed() && View() == WeaponTextures.TakeAll(old(View())).(resources := resources)
      ensures MergesAll(old(View()), textures)
    {
      ghost var was := View();
      textures := [];
      var tokens := owners.Keys;
      while tokens != {}
        invariant Indexed() && View() == was.(owners := owners)
        invariant tokens <= was.owners.Keys
        invariant RetiredExcept(was, owners, tokens) && MergesExcept(was, tokens, textures)
        decreases tokens
      {
        var token :| token in tokens;
        RetiredStep(was, View(), tokens, token);
        var surrendered := RetireOwner(token);
        var listed := textures;
        textures := Append(listed, surrendered);
        MergesStep(was, tokens, token, listed, textures);
        tokens := tokens - {token};
      }
    }

    method Finish(token: Token)
      requires Valid()
      modifies this
      ensures Valid() && View() == WeaponTextures.Finish(old(View()), token)
    {
      FinishKeepsInv(View(), token);
      if token in owners {
        var owner := owners[token].(constructing := false);
        forall h | 0 <= h < HANDLE_LIMIT
          ensures |Holders(owners[token := owner], h, generations[h])| == |Holders(owners, h, generations[h])|
        {
          HoldersReplace(owners, token, owner, h, generations[h]);
        }
        owners := owners[token := owner];
      }
      RemoveFinished(token);
    }

    method Begin(info: OwnerInfo) returns (token: Token, textures: seq<Texture>)
      requires Valid()
      modifies this
      ensures Valid() && View() == WeaponTextures.Begin(old(View()), info)
      ensures token == old(nextOwner) + 1 && token !in old(owners)
      ensures textures == TakenFrom(old(View()), info.resource)
    {
      hide Inv, UniqueEntries, Holders, HasEntry, Surrendered, Retire;
      BeginKeepsInv(View(), info);
      TakenResource(View(), info.resource);
      textures := Take(info.resource);
      nextOwner := nextOwner + 1;
      token := nextOwner;
      AddEmptyOwner(owners, token, Owner(info, true, false, []));
      owners := owners[token := Owner(info, true, false, [])];
      resources := resources[info.resource := token];
    }

    method Pending(token: Token, handle: nat) returns (ticket: Option<CreationTicket>)
      requires Valid()
      modifies this
      ensures Valid() && View() == WeaponTextures.Pending(old(View()), token, handle)
      ensures ticket == TicketOf(old(View()), token, handle)
    {
      PendingKeepsInv(View(), token, handle);
      if handle == 0 || handle >= HANDLE_LIMIT || token !in owners {
        return None;
      }
      var owner := owners[token];
      var generation := generations[handle];
      if IndexOf(owner.textures, handle, generation) == |owner.textures| {
        AddCounts(owners, token, handle, generations);
        owners := owners[token := owner.(textures := owner.textures + [Texture(handle, generation, 0)])];
        ownerCounts := ownerCounts[handle := ownerCounts[handle] + 1];
      }
      ticket := Some(CreationTicket(token, handle, generation));
    }

    method Created(ticket: CreationTicket, pointer: nat) returns (result: CreationResult)
      requires Valid()
      modifies this
      ensures Valid() && View() == WeaponTextures.Created(old(View()), ticket, pointer)
      ensures result == CreatedResult(old(View()), ticket, pointer)
    {
      hide Inv, UniqueEntries, Holders, HasEntry;
      CreatedKeepsInv(View(), ticket, pointer);
      Sized();
      var current := ticket.handle < |generations| && generations[ticket.handle] == ticket.generation;
      if ticket.owner !in owners {
        return Discarded;
      }
      var owner := owners[ticket.owner];
      var index := IndexOf(owner.textures, ticket.handle, ticket.generation);
      if index == |owner.textures| {
        return Discarded;
      }
      var valid := current && pointer != 0 && pointer != NO_POINTER;
      if valid && !owner.retired {
        SetPointer(ticket.owner, index, pointer);
        return Published;
      }
      var texture := owner.textures[index];
      RemoveEntry(ticket.owner, index);
      result := if valid then Retired(texture.(pointer := pointer)) else Discarded;
      RemoveFinished(ticket.owner);
    }

    lemma {:induction false} Sized()
      requires Valid()
      ensures |generations| == HANDLE_LIMIT
    {
    }

    method SetPointer(token: Token, index: nat, pointer: nat)
      requires Indexed() && token in owners && index < |owners[token].textures|
      modifies this`owners
      ensures Indexed()
      ensures var owner := old(owners)[token];
              var textures := owner.textures[index := owner.textures[index].(pointer := pointer)];
              owners == old(owners)[token := owner.(textures := textures)]
    {
      var owner := owners[token];
      PublishCounts(owners, token, index, pointer, generations);
      var textures := owner.textures[index := owner.textures[index].(pointer := pointer)];
      assert UniqueEntries(textures);
      owners := owners[token := owner.(textures := textures)];
    }

    method RemoveEntry(token: Token, index: nat)
      requires Indexed() && token in owners && index < |owners[token].textures|
      modifies this`owners, this`ownerCounts
      ensures Indexed()
      ensures var owner := old(owners)[token];
              owners == old(owners)[token := owner.(textures := owner.textures[..index] + owner.textures[index + 1..])]
    {
      var owner := owners[token];
      RemovalKeepsUnique(owner.textures, index);
      DropCounts(owners, token, index, generations);
      owners := owners[token := owner.(textures := owner.textures[..index] + owner.textures[index + 1..])];
      RemoveTextureReference(owner.textures[index]);
    }

    /** The shortcut on a zero count answers exactly as the full scan would. */
    method Protects(handle: nat, pointer: nat) returns (owner: Option<OwnerInfo>)
      requires Valid()
      ensures owner.None? <==> Protectors(View(), handle, pointer) == {}
      ensures owner.Some? ==> exists t :: t in Protectors(View(), handle, pointer) && owners[t].info == owner.value
    {
      if handle >= |generations| {
        return None;
      }
      var generation := generations[handle];
      forall t | t in Protectors(View(), handle, pointer) ensures t in Holders(owners, handle, generation) {
        var x :| x in owners[t].textures && Guards(x, handle, generation, pointer);
        var i :| 0 <= i < |owners[t].textures| && owners[t].textures[i] == x;
      }
      if ownerCounts[handle] == 0 {
        return None;
      }
      var tokens := owners.Keys;
      while tokens != {}
        invariant tokens <= owners.Keys
        invariant Protectors(View(), handle, pointer) <= tokens
        decreases tokens
      {
        var token :| token in tokens;
        if exists x | x in owners[token].textures :: Guards(x, handle, generation, pointer) {
          assert token in Protectors(View(), handle, pointer);
          return Some(owners[token].info);
        }
        tokens := tokens - {token};
      }
      owner := None;
    }

    method PrepareRelease(handle: nat, pointer: nat, expected: Option<Texture>) returns (decision: ReleaseDecision)
      requires Valid()
      modifies this
      ensures Valid() && View() == WeaponTextures.PrepareRelease(old(View()), handle, pointer, expected)
      ensures decision.Protected? <==> Protectors(old(View()), handle, pointer) != {}
      ensures decision.Protected? ==>
                exists t :: t in Protectors(old(View()), handle, pointer) && old(owners)[t].info == decision.owner
      ensures decision.Claimed? <==> Claimable(old(View()), handle, pointer, expected)
      ensures decision.Claimed? ==> decision.claim == NextClaim(old(View()), handle)
    {
      PrepareReleaseKeepsInv(View(), handle, pointer, expected);
      var owner := Protects(handle, pointer);
      if owner.Some? {
        return Protected(owner.value);
      }
      if || handle == 0
         || handle >= HANDLE_LIMIT
         || pointer == 0
         || pointer == NO_POINTER
         || releasing[handle].Some?
         || (expected.Some? && (|| expected.value.handle != handle
                                || expected.value.pointer != pointer
                                || expected.value.generation != generations[handle]))
      {
        return Ignored;
      }
      nextRelease := nextRelease + 1;
      var claim := ReleaseClaim(handle, generations[handle], nextRelease);
      releasing := releasing[handle := Some(claim)];
      decision := Claimed(claim);
    }

    method ClaimRelease(handle: nat, pointer: nat, expected: Option<Texture>) returns (claim: Option<ReleaseClaim>)
      requires Valid()
      modifies this
      ensures Valid() && View() == WeaponTextures.PrepareRelease(old(View()), handle, pointer, expected)
      ensures claim == if Claimable(old(View()), handle, pointer, expected)
                       then Some(NextClaim(old(View()), handle)) else None
    {
      var decision := PrepareRelease(handle, pointer, expected);
      claim := if decision.Claimed? then Some(decision.claim) else None;
    }

    /** Claims are made only by `PrepareRelease`, so their handle is always in range. */
    method FinishRelease(claim: ReleaseClaim)
      requires Valid() && claim.handle < HANDLE_LIMIT
      modifies this
      ensures Valid() && View() == WeaponTextures.FinishRelease(old(View()), claim)
    {
      FinishReleaseKeepsInv(View(), claim);
      if releasing[claim.handle] == Some(claim) {
        releasing := releasing[claim.handle := None];
      }
    }
  }
}
