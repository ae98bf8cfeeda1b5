/**
 Checked views of the recursive FMOD blocks (geometry/src/fmod.rs). A block is a range of one
 source; its header holds a kind, a child count and the block's size in bytes.
 */
module FmodBlocks {
  import opened Wrappers
  import opened Words

  const HEADER: nat := 12

  datatype Error =
    | TruncatedData
    | SmallBlock
    | TruncatedBlock
    | ChildCountExceedsBlock
    | NoMain
    | ObjectIndex
    | NotAnObject
    | NoVertexBlock
    | TruncatedVertices
    | NoFaceBlock
    | UnsupportedStripBlock(kind: u32)
    | StripCountExceedsBlock
    | StripLength
    | ShortMaterialMap
    | MaterialIdentifier
    | VertexIndex(index: u32)
    | NothingToDraw

  /** The bytes of the source from `start` up to `end`, header included. */
  datatype Block = Block(kind: u32, count: u32, start: nat, end: nat) {
    predicate In(source: seq<byte>) {
      start + HEADER <= end <= |source|
    }
  }

  /** A word of the source, refused beyond `limit`. */
  function ReadWord(source: seq<byte>, offset: nat, limit: nat): Result<u32, Error>
    requires limit <= |source|
  {
    if offset + 4 <= limit then Ok(WordAt(source, offset)) else Err(TruncatedData)
  }

  function ReadBlock(source: seq<byte>, start: nat, limit: nat): (r: Result<Block, Error>)
    requires limit <= |source|
    ensures r.Ok? ==> r.value.start == start && r.value.end <= limit && r.value.In(source)
    ensures r.Ok? ==> && r.value.kind == WordAt(source, start) && r.value.count == WordAt(source, start + 4)
                      && r.value.end == start + WordAt(source, start + 8)
    ensures r == Err(TruncatedData) <==> start + HEADER > limit
    ensures r == Err(SmallBlock) <==> start + HEADER <= limit && WordAt(source, start + 8) < HEADER
    ensures r == Err(TruncatedBlock) <==>
              && start + HEADER <= limit && WordAt(source, start + 8) >= HEADER
              && start + WordAt(source, start + 8) > limit
    ensures r.Err? ==> r.error in {TruncatedData, SmallBlock, TruncatedBlock}
  {
    if start + HEADER > limit then Err(TruncatedData)
    else
      var size := WordAt(source, start + 8);
      if size < HEADER then Err(SmallBlock)
      else if start + size > limit then Err(TruncatedBlock)
      else Ok(Block(WordAt(source, start), WordAt(source, start + 4), start, start + size))
  }

  /** The child headers that fill a range from the left; the first bad header refuses them all. */
  function ChildrenFrom(source: seq<byte>, at: nat, limit: nat, count: nat): (r: Result<seq<Block>, Error>)
    requires limit <= |source|
    ensures r.Ok? ==> |r.value| == count && forall b | b in r.value :: b.In(source) && at <= b.start && b.end <= limit
    decreases count
  {
    if count == 0 then Ok([])
    else
      match ReadBlock(source, at, limit)
      case Err(error) => Err(error)
      case Ok(block) =>
        match ChildrenFrom(source, block.end, limit, count - 1)
        case Err(error) => Err(error)
        case Ok(blocks) => Ok([block] + blocks)
  }

  function Children(source: seq<byte>, block: Block): (r: Result<seq<Block>, Error>)
    requires block.In(source)
    ensures r.Ok? ==> forall b | b in r.value :: b.In(source) && b.end <= block.end
  {
    if block.count > (block.end - block.start - HEADER) / HEADER then Err(ChildCountExceedsBlock)
    else ChildrenFrom(source, block.start + HEADER, block.end, block.count)
  }

  /** Children fill their block from its header on, one after the other, in the number it announces. */
  lemma {:induction false} ChildrenAdjoin(source: seq<byte>, block: Block)
    requires block.In(source) && Children(source, block).Ok?
    ensures var children := Children(source, block).value;
            && |children| == block.count
            && (children != [] ==>
                  children[0].start == block.start + HEADER && children[|children| - 1].end <= block.end)
            && (forall i | 0 < i < |children| :: children[i].start == children[i - 1].end)
            && forall i | 0 <= i < |children| :: ReadBlock(source, children[i].start, block.end) == Ok(children[i])
  {
    AdjoinFrom(source, block.start + HEADER, block.end, block.count);
  }

  lemma {:induction false} AdjoinFrom(source: seq<byte>, at: nat, limit: nat, count: nat)
    requires limit <= |source| && ChildrenFrom(source, at, limit, count).Ok?
    ensures var children := ChildrenFrom(source, at, limit, count).value;
            && |children| == count
            && (children != [] ==> children[0].start == at)
            && (forall i | 0 < i < |children| :: children[i].start == children[i - 1].end)
            && forall i | 0 <= i < |children| :: ReadBlock(source, children[i].start, limit) == Ok(children[i])
    decreases count
  {
    hide ReadBlock;
    if count > 0 {
      AdjoinFrom(source, ReadBlock(source, at, limit).value.end, limit, count - 1);
    }
  }

  function FirstOfKind(blocks: seq<Block>, kind: u32): (r: Option<Block>)
    ensures r.Some? ==> r.value in blocks && r.value.kind == kind
    ensures r.None? <==> forall b | b in blocks :: b.kind != kind
  {
    if blocks == [] then None
    else if blocks[0].kind == kind then Some(blocks[0])
    else FirstOfKind(blocks[1..], kind)
  }

  /** A visitor's outcome over a list: it stops at the visitor's first error. */
  function Fold<S>(blocks: seq<Block>, state: S, visit: (S, Block) -> Result<S, Error>): Result<S, Error> {
    if blocks == [] then Ok(state)
    else
      match visit(state, blocks[0])
      case Err(error) => Err(error)
      case Ok(next) => Fold(blocks[1..], next, visit)
  }

  /** A bad header anywhere among the siblings wins over any error of the visitor. */
  function Visited<S>(children: Result<seq<Block>, Error>, state: S,
                      visit: (S, Block) -> Result<S, Error>): Result<S, Error> {
    match children
    case Err(error) => Err(error)
    case Ok(blocks) => Fold(blocks, state, visit)
  }

  /** What a visit that already stands at `result` makes of the siblings still unread. */
  ghost function Continue<S>(result: Result<S, Error>, rest: Result<seq<Block>, Error>,
                             visit: (S, Block) -> Result<S, Error>)
    : Result<S, Error> {
    match result
    case Ok(state) => Visited(rest, state, visit)
    case Err(error) => (match rest case Err(header) => Err(header) case Ok(_) => Err(error))
  }

  /** Walks the children once, calling the visitor until it fails but reading every header. */
  method VisitChildren<S>(source: seq<byte>, block: Block, initial: S, visit: (S, Block) -> Result<S, Error>)
    returns (r: Result<S, Error>)
    requires block.In(source)
    ensures r == Visited(Children(source, block), initial, visit)
  {
    if block.count > (block.end - block.start - HEADER) / HEADER {
      return Err(ChildCountExceedsBlock);
    }
    var at := block.start + HEADER;
    var result := Ok(initial);
    for i := 0 to block.count
      invariant block.start + HEADER <= at <= block.end
      invariant Visited(Children(source, block), initial, visit)
             == Continue(result, ChildrenFrom(source, at, block.end, block.count - i), visit)
    {
      var child := ReadBlock(source, at, block.end);
      if child.Err? {
        return Err(child.error);
      }
      at := child.value.end;
      if result.Ok? {
        result := visit(result.value, child.value);
      }
    }
    r := result;
  }

  method MainBlock(source: seq<byte>, block: Block) returns (r: Result<Block, Error>)
    requires block.In(source)
    ensures r == MainOf(Children(source, block))
  {
    var keepFirst: (Option<Block>, Block) -> Result<Option<Block>, Error> :=
      (main: Option<Block>, child: Block) => Ok(if main.None? && child.kind == 2 then Some(child) else main);
    var visited := VisitChildren(source, block, None, keepFirst);
    ghost var children := Children(source, block);
    if children.Ok? {
      KeepFirstFinds(children.value, None, keepFirst);
    }
    r := match visited
      case Err(error) => Err(error)
      case Ok(main) => match main case Some(found) => Ok(found) case None => Err(NoMain);
  }

  function MainOf(children: Result<seq<Block>, Error>): Result<Block, Error> {
    match children
    case Err(error) => Err(error)
    case Ok(blocks) => match FirstOfKind(blocks, 2) case Some(main) => Ok(main) case None => Err(NoMain)
  }

  lemma {:induction false} KeepFirstFinds(blocks: seq<Block>, state: Option<Block>,
                                          visit: (Option<Block>, Block) -> Result<Option<Block>, Error>)
    requires forall s, b :: visit(s, b) == Ok(if s.None? && b.kind == 2 then Some(b) else s)
    ensures Fold(blocks, state, visit) == Ok(if state.Some? then state else FirstOfKind(blocks, 2))
  {
    if blocks != [] {
      KeepFirstFinds(blocks[1..], visit(state, blocks[0]).value, visit);
    }
  }

  // ---------- lookup by a full reparse ----------

  /** The children of MAIN: every object's header, all of them validated. */
  function Directory(source: seq<byte>): (r: Result<seq<Block>, Error>)
    ensures r.Ok? ==> forall b | b in r.value :: b.In(source)
  {
    match ReadBlock(source, 0, |source|)
    case Err(error) => Err(error)
    case Ok(root) =>
      match MainOf(Children(source, root))
      case Err(error) => Err(error)
      case Ok(main) => Children(source, main)
  }

  function ObjectIn(directory: Result<seq<Block>, Error>, index: nat): Result<Block, Error> {
    match directory
    case Err(error) => Err(error)
    case Ok(objects) =>
      if index >= |objects| then Err(ObjectIndex)
      else if objects[index].kind != 4 then Err(NotAnObject)
      else Ok(objects[index])
  }

  /** The object a fresh parse of the source finds. */
  function Lookup(source: seq<byte>, index: nat): Result<Block, Error> {
    ObjectIn(Directory(source), index)
  }

  /** The directory is that of the first child of the root block that has the kind of a MAIN block. */
  lemma {:induction false} DirectoryOfMain(source: seq<byte>, objects: seq<Block>)
    ensures Directory(source) == Ok(objects) <==>
              && ReadBlock(source, 0, |source|).Ok? && Children(source, ReadBlock(source, 0, |source|).value).Ok?
              && var blocks := Children(source, ReadBlock(source, 0, |source|).value).value;
                 exists k :: 0 <= k < |blocks| && FirstMain(blocks, k) && Children(source, blocks[k]) == Ok(objects)
  {
    hide Children, ReadBlock;
    if ReadBlock(source, 0, |source|).Ok? && Children(source, ReadBlock(source, 0, |source|).value).Ok? {
      var blocks := Children(source, ReadBlock(source, 0, |source|).value).value;
      var found := FirstOfKind(blocks, 2);
      forall k | 0 <= k < |blocks| && FirstMain(blocks, k) ensures found == Some(blocks[k]) {
        FirstIsFound(blocks, 2, k);
      }
      if found.Some? {
        var k := FoundIsFirst(blocks, 2);
        assert FirstMain(blocks, k);
      }
    }
  }

  predicate FirstMain(blocks: seq<Block>, k: nat) {
    k < |blocks| && blocks[k].kind == 2 && forall j | 0 <= j < k :: blocks[j].kind != 2
  }

  lemma {:induction false} FirstIsFound(blocks: seq<Block>, kind: u32, k: nat)
    requires k < |blocks| && blocks[k].kind == kind && forall j | 0 <= j < k :: blocks[j].kind != kind
    ensures FirstOfKind(blocks, kind) == Some(blocks[k])
  {
    if k > 0 {
      FirstIsFound(blocks[1..], kind, k - 1);
    }
  }

  lemma {:induction false} FoundIsFirst(blocks: seq<Block>, kind: u32) returns (k: nat)
    requires FirstOfKind(blocks, kind).Some?
    ensures k < |blocks| && blocks[k].kind == kind && FirstOfKind(blocks, kind) == Some(blocks[k])
    ensures forall j | 0 <= j < k :: blocks[j].kind != kind
  {
    k := 0;
    if blocks[0].kind != kind {
      var later := FoundIsFirst(blocks[1..], kind);
      k := later + 1;
    }
  }
}
