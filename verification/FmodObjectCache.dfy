/**
 The object directory cache of one synchronous construction (geometry/src/fmod.rs, `ObjectCache`
 and `with_cached_objects`). Every lookup answers as a full reparse of its source would, through
 any nesting of scopes, errors included, as long as no open scope's own sources change.
 */
module FmodObjectCache {
  import opened Wrappers
  import opened Words
  import opened FmodBlocks

  // ---------- the two visitors ----------

  /** Collecting every child yields the directory. */
  lemma {:induction false} CollectGathers(blocks: seq<Block>, state: seq<Block>,
                                          visit: (seq<Block>, Block) -> Result<seq<Block>, Error>)
    requires forall s, b :: visit(s, b) == Ok(s + [b])
    ensures Fold(blocks, state, visit) == Ok(state + blocks)
  {
    if blocks == [] {
      assert state + blocks == state;
    } else {
      CollectGathers(blocks[1..], state + [blocks[0]], visit);
      assert state + [blocks[0]] + blocks[1..] == state + blocks;
    }
  }

  datatype Search = Search(next: nat, found: Option<Block>)

  /** Counting children and keeping the one at `index` yields that entry of the directory. */
  lemma {:induction false} SearchFinds(blocks: seq<Block>, state: Search, index: nat,
                                       visit: (Search, Block) -> Result<Search, Error>)
    requires forall s, b :: visit(s, b) == Ok(Search(s.next + 1, if s.next == index then Some(b) else s.found))
    requires state.next <= index ==> state.found.None?
    ensures Fold(blocks, state, visit).Ok?
    ensures Fold(blocks, state, visit).value.found
            == if state.next <= index < state.next + |blocks| then Some(blocks[index - state.next]) else state.found
  {
    if blocks != [] {
      SearchFinds(blocks[1..], visit(state, blocks[0]).value, index, visit);
    }
  }

  method RootOf(source: seq<byte>) returns (r: Result<Block, Error>)
    ensures r.Ok? ==> r.value.In(source) && Directory(source) == Children(source, r.value)
    ensures r.Err? ==> Directory(source) == Err(r.error)
  {
    var root := ReadBlock(source, 0, |source|);
    if root.Err? {
      return Err(root.error);
    }
    r := MainBlock(source, root.value);
  }

  /** The whole directory, as the cache stores it. */
  method ReadDirectory(source: seq<byte>) returns (r: Result<seq<Block>, Error>)
    ensures r == Directory(source)
  {
    var main := RootOf(source);
    if main.Err? {
      return Err(main.error);
    }
    var collect: (seq<Block>, Block) -> Result<seq<Block>, Error> :=
      (objects: seq<Block>, child: Block) => Ok(objects + [child]);
    r := VisitChildren(source, main.value, [], collect);
    ghost var children := Children(source, main.value);
    if children.Ok? {
      CollectGathers(children.value, [], collect);
      assert [] + children.value == children.value;
    }
  }

  /** Without a cache: one object, every sibling's header still validated. */
  method ReadUncached(source: seq<byte>, index: nat) returns (r: Result<Block, Error>)
    ensures r == match Directory(source)
                 case Err(error) => Err(error)
                 case Ok(objects) => if index < |objects| then Ok(objects[index]) else Err(ObjectIndex)
  {
    var main := RootOf(source);
    if main.Err? {
      return Err(main.error);
    }
    var search: (Search, Block) -> Result<Search, Error> :=
      (s: Search, child: Block) => Ok(Search(s.next + 1, if s.next == index then Some(child) else s.found));
    var visited := VisitChildren(source, main.value, Search(0, None), search);
    ghost var children := Children(source, main.value);
    if children.Ok? {
      SearchFinds(children.value, Search(0, None), index, search);
    }
    r := match visited
      case Err(error) => Err(error)
      case Ok(end) => match end.found case Some(block) => Ok(block) case None => Err(ObjectIndex);
  }

  // ---------- scopes ----------

  /** A directory remembered for the source at `address` of `length` bytes; never a live pointer. */
  datatype Cache = Cache(address: nat, length: nat, objects: seq<Block>)

  /** Where a source lies: its address and length. */
  type Place = (nat, nat)

  class ObjectScopes {
    var current: Option<Cache>
    var saved: seq<Option<Cache>>
    // What every source holds now.
    ghost var memory: map<Place, seq<byte>>
    // The places parsed in each open scope, the innermost last.
    ghost var parsed: seq<set<Place>>

    /** A scope's cache describes a source that this very scope has parsed. */
    ghost predicate Agrees(cache: Cache, places: set<Place>)
      reads this`memory
    {
      || cache == Cache(0, 0, [])
      || (&& (cache.address, cache.length) in places
          && (cache.address, cache.length) in memory
          && Directory(memory[(cache.address, cache.length)]) == Ok(cache.objects))
    }

    /** Each open scope has a cache of its own; outside all scopes there is none. */
    ghost predicate Valid()
      reads this
    {
      && |parsed| == |saved|
      && (current.Some? <==> saved != [])
      && (current.Some? ==> Agrees(current.value, parsed[|parsed| - 1]))
      && (saved != [] ==> saved[0].None?)
      && forall i | 0 < i < |saved| :: saved[i].Some? && Agrees(saved[i].value, parsed[i - 1])
    }

    constructor ()
      ensures Valid() && current.None? && saved == []
    {
      current, saved, parsed := None, [], [];
    }

    /** Sources may change, appear and vanish at any time, except where an open scope has parsed one. */
    ghost method Remap(contents: map<Place, seq<byte>>)
      requires Valid()
      requires forall i, place | 0 <= i < |parsed| && place in parsed[i] && place in memory ::
                 place in contents && contents[place] == memory[place]
      modifies this`memory
      ensures Valid() && memory == contents
    {
      memory := contents;
    }

    /** A construction starts with a cache of its own. */
    method Enter()
      requires Valid()
      modifies this`current, this`saved, this`parsed
      ensures Valid() && current == Some(Cache(0, 0, [])) && saved == old(saved) + [old(current)]
      ensures parsed == old(parsed) + [{}]
    {
      saved, parsed := saved + [current], parsed + [{}];
      current := Some(Cache(0, 0, []));
    }

    /**
     Return or unwinding gives the enclosing construction its cache back, and the sources that
     only the finished one has parsed may change again.
     */
    method Leave()
      requires Valid() && saved != []
      modifies this`current, this`saved, this`parsed
      ensures Valid() && current == old(saved)[|old(saved)| - 1] && saved == old(saved)[..|old(saved)| - 1]
      ensures parsed == old(parsed)[..|old(parsed)| - 1]
    {
      current := saved[|saved| - 1];
      saved, parsed := saved[..|saved| - 1], parsed[..|parsed| - 1];
    }

    /** A slice's address is never null, and what it holds is what memory holds there now. */
    method Object(address: nat, source: seq<byte>, index: nat) returns (r: Result<Block, Error>)
      requires Valid() && address != 0
      requires (address, |source|) in memory && memory[(address, |source|)] == source
      modifies this`current, this`parsed
      ensures Valid() && r == Lookup(source, index)
      ensures Directory(source).Err? ==> r == Err(Directory(source).error)
      ensures Directory(source).Ok? ==>
                var objects := Directory(source).value;
                && (index >= |objects| ==> r == Err(ObjectIndex))
                && (index < |objects| && objects[index].kind != 4 ==> r == Err(NotAnObject))
                && (index < |objects| && objects[index].kind == 4 ==> r == Ok(objects[index]))
      ensures current.Some? == old(current).Some?
      ensures parsed == if old(current).None? then old(parsed)
                        else old(parsed)[|old(parsed)| - 1 := old(parsed)[|old(parsed)| - 1] + {(address, |source|)}]
    {
      hide Directory;
      var found: Result<Block, Error>;
      if current.Some? {
        parsed := parsed[|parsed| - 1 := parsed[|parsed| - 1] + {(address, |source|)}];
        if current.value.address != address || current.value.length != |source| {
          var objects := ReadDirectory(source);
          if objects.Err? {
            return Err(objects.error);
          }
          current := Some(Cache(address, |source|, objects.value));
        }
        found := if index < |current.value.objects| then Ok(current.value.objects[index]) else Err(ObjectIndex);
      } else {
        found := ReadUncached(source, index);
      }
      if found.Ok? && found.value.kind != 4 {
        return Err(NotAnObject);
      }
      r := found;
    }
  }

  /**
   Two constructions inside a third may use one address for different sources: each lookup is that
   of the source that is there at the time, and the outer construction's cache survives both.
   */
  method AddressReusedInside(scopes: ObjectScopes, address: nat, first: seq<byte>, second: seq<byte>, index: nat,
                             ghost changed: map<Place, seq<byte>>)
    returns (one: Result<Block, Error>, other: Result<Block, Error>)
    requires scopes.Valid() && scopes.current.Some? && address != 0 && |first| == |second|
    requires (address, |first|) in scopes.memory && scopes.memory[(address, |first|)] == first
    requires forall i | 0 <= i < |scopes.parsed| :: (address, |first|) !in scopes.parsed[i]
    requires changed == scopes.memory[(address, |first|) := second]
    modifies scopes
    ensures scopes.Valid() && scopes.current == old(scopes.current) && scopes.saved == old(scopes.saved)
    ensures one == Lookup(first, index) && other == Lookup(second, index)
  {
    hide Lookup;
    scopes.Enter();
    one := scopes.Object(address, first, index);
    scopes.Leave();
    scopes.Remap(changed);
    scopes.Enter();
    other := scopes.Object(address, second, index);
    scopes.Leave();
  }
}
