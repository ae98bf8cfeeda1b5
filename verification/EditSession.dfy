/**
 The editing history of one file (workbench/src/session.rs). A buffer is shared by reference: its
 address stands for the reference, and two live buffers at one address are the same buffer.
 `Details` is what the inspector shows of a document beside its bytes.
 */
module EditSession {
  import opened Words

  const HISTORY_BYTES: nat := 128 * 1024 * 1024
  const HISTORY_STEPS: nat := 128

  datatype Buffer = Buffer(address: nat, bytes: seq<byte>)

  /** The first buffer is the file itself; the others are layers decoded from it. */
  datatype Document<!Details> = Document(source: Buffer, layers: seq<Buffer>, details: Details) {
    function Buffers(): seq<Buffer> {
      [source] + layers
    }
  }

  // ---------- the size of a history ----------

  function AllBuffers<D>(documents: seq<Document<D>>): seq<Buffer> {
    if documents == [] then [] else AllBuffers(documents[..|documents| - 1]) + documents[|documents| - 1].Buffers()
  }

  predicate Seen(buffers: seq<Buffer>, address: nat) {
    exists k :: 0 <= k < |buffers| && buffers[k].address == address
  }

  /** The bytes of the buffers, those that are shared counted once. */
  function Footprint(buffers: seq<Buffer>): nat {
    if buffers == [] then 0
    else
      var before, last := buffers[..|buffers| - 1], buffers[|buffers| - 1];
      Footprint(before) + if Seen(before, last.address) then 0 else |last.bytes|
  }

  function Saturated(n: nat): nat {
    if n > USIZE_MAX then USIZE_MAX else n
  }

  lemma {:induction false} NothingSeen()
    ensures Footprint([]) == 0 && forall address :: !Seen([], address)
  {
  }

  lemma {:induction false} NextBuffers<D>(documents: seq<Document<D>>, i: nat)
    requires i < |documents|
    ensures AllBuffers(documents[..i + 1]) == AllBuffers(documents[..i]) + documents[i].Buffers()
  {
    assert documents[..i + 1][..i] == documents[..i];
  }

  lemma {:induction false} CountOneMore(buffers: seq<Buffer>, next: Buffer)
    ensures Footprint(buffers + [next]) == Footprint(buffers) + if Seen(buffers, next.address) then 0 else |next.bytes|
    ensures forall address :: Seen(buffers + [next], address) <==> Seen(buffers, address) || address == next.address
  {
    var more := buffers + [next];
    assert more[..|buffers|] == buffers;
    forall address ensures Seen(more, address) <==> Seen(buffers, address) || address == next.address {
      if Seen(buffers, address) {
        var k :| 0 <= k < |buffers| && buffers[k].address == address;
        assert more[k].address == address;
      }
      if address == next.address {
        assert more[|buffers|].address == address;
      }
    }
  }

  /** A document holds its source and the layers decoded from it. */
  predicate HeldBy<D>(documents: seq<Document<D>>, buffer: Buffer) {
    exists k :: 0 <= k < |documents| && (buffer == documents[k].source || buffer in documents[k].layers)
  }

  lemma {:induction false} AllBuffersAreHeld<D>(documents: seq<Document<D>>, buffer: Buffer)
    ensures buffer in AllBuffers(documents) <==> HeldBy(documents, buffer)
  {
    if documents != [] {
      var before, last := documents[..|documents| - 1], documents[|documents| - 1];
      AllBuffersAreHeld(before, buffer);
      HeldByOneMore(before, last, buffer);
      assert documents == before + [last];
      hide HeldBy;
      assert buffer in last.Buffers() <==> buffer == last.source || buffer in last.layers;
    }
  }

  lemma {:induction false} HeldByOneMore<D>(documents: seq<Document<D>>, last: Document<D>, buffer: Buffer)
    ensures HeldBy(documents + [last], buffer)
            <==> HeldBy(documents, buffer) || buffer == last.source || buffer in last.layers
  {
    var more := documents + [last];
    if HeldBy(documents, buffer) {
      var k :| 0 <= k < |documents| && (buffer == documents[k].source || buffer in documents[k].layers);
      assert more[k] == documents[k];
    }
    assert more[|documents|] == last;
  }

  function Bytes(buffers: seq<Buffer>): nat {
    if buffers == [] then 0 else Bytes(buffers[..|buffers| - 1]) + |buffers[|buffers| - 1].bytes|
  }

  /** A list of the buffers with every address once. */
  ghost predicate EachOnce(buffers: seq<Buffer>, listed: seq<Buffer>) {
    && (forall i, j | 0 <= i < j < |listed| :: listed[i].address != listed[j].address)
    && (forall b | b in listed :: b in buffers)
    && (forall b | b in buffers :: Seen(listed, b.address))
  }

  lemma {:induction false} FootprintCountsOnce(buffers: seq<Buffer>) returns (listed: seq<Buffer>)
    ensures EachOnce(buffers, listed) && Footprint(buffers) == Bytes(listed)
    ensures forall address :: Seen(listed, address) <==> Seen(buffers, address)
  {
    listed := [];
    if buffers != [] {
      hide Seen;
      var before, last := buffers[..|buffers| - 1], buffers[|buffers| - 1];
      assert buffers == before + [last];
      listed := FootprintCountsOnce(before);
      CountOneMore(before, last);
      if Seen(before, last.address) {
        ListedAlready(before, listed, last);
      } else {
        ListedNext(before, listed, last);
        listed := listed + [last];
      }
    } else {
      NothingSeen();
    }
  }

  lemma {:induction false} ListedAlready(buffers: seq<Buffer>, listed: seq<Buffer>, next: Buffer)
    requires EachOnce(buffers, listed) && Seen(listed, next.address)
    ensures EachOnce(buffers + [next], listed)
  {
    hide Seen;
  }

  lemma {:induction false} ListedNext(buffers: seq<Buffer>, listed: seq<Buffer>, next: Buffer)
    requires EachOnce(buffers, listed) && !Seen(listed, next.address)
    ensures EachOnce(buffers + [next], listed + [next]) && Bytes(listed + [next]) == Bytes(listed) + |next.bytes|
    ensures forall address :: Seen(listed + [next], address) <==> Seen(listed, address) || address == next.address
  {
    CountOneMore(listed, next);
    assert (listed + [next])[..|listed|] == listed;
    assert forall i | 0 <= i < |listed| :: Seen(listed, listed[i].address);
    hide Seen, Bytes;
  }

  /**
   The history's size is that of its sources and layers, those that share an address counted once:
   it is the length of a list of them in which every address occurs once.
   */
  lemma {:induction false} HistoryCountsOnce<D>(documents: seq<Document<D>>) returns (listed: seq<Buffer>)
    ensures Footprint(AllBuffers(documents)) == Bytes(listed)
    ensures forall i, j | 0 <= i < j < |listed| :: listed[i].address != listed[j].address
    ensures forall b | b in listed :: HeldBy(documents, b)
    ensures forall b | HeldBy(documents, b) :: exists l :: l in listed && l.address == b.address
  {
    hide Footprint, Bytes, HeldBy;
    listed := FootprintCountsOnce(AllBuffers(documents));
    forall b ensures b in AllBuffers(documents) <==> HeldBy(documents, b) {
      AllBuffersAreHeld(documents, b);
    }
    forall b | HeldBy(documents, b) ensures exists l :: l in listed && l.address == b.address {
      assert Seen(listed, b.address);
      var k :| 0 <= k < |listed| && listed[k].address == b.address;
      assert listed[k] in listed;
    }
  }

  // ---------- trimming ----------

  /** Both budgets hold, as far as the saturating count can tell. */
  ghost predicate Fits<D>(undo: seq<Document<D>>, redo: seq<Document<D>>, budget: nat) {
    |undo| + |redo| <= HISTORY_STEPS && Saturated(Footprint(AllBuffers(undo + redo))) <= budget
  }

  /** Saturation hides no excess over a budget that a program can exceed. */
  lemma {:induction false} BudgetIsExact<D>(undo: seq<Document<D>>, redo: seq<Document<D>>, budget: nat)
    requires budget < USIZE_MAX
    ensures Fits(undo, redo, budget) <==>
              |undo| + |redo| <= HISTORY_STEPS && Footprint(AllBuffers(undo + redo)) <= budget
  {
  }

  /** What is left after the farthest steps are dropped, those to undo first, one step on each side excepted. */
  ghost function Trimmed<D>(undo: seq<Document<D>>, redo: seq<Document<D>>,
                            budget: nat): (seq<Document<D>>, seq<Document<D>>)
    decreases |undo| + |redo|
  {
    if Fits(undo, redo, budget) then (undo, redo)
    else if |undo| > 1 then Trimmed(undo[1..], redo, budget)
    else if |redo| > 1 then Trimmed(undo, redo[1..], budget)
    else (undo, redo)
  }

  ghost predicate IsSuffix<D>(some: seq<Document<D>>, all: seq<Document<D>>) {
    |some| <= |all| && some == all[|all| - |some|..]
  }

  lemma {:induction false} SuffixOfTail<D>(some: seq<Document<D>>, all: seq<Document<D>>)
    requires all != []
    ensures IsSuffix(some, all[1..]) <==> IsSuffix(some, all) && |some| < |all|
  {
    if |some| < |all| {
      assert all[1..][|all| - 1 - |some|..] == all[|all| - |some|..];
    }
  }

  lemma {:induction false} SuffixOfItself<D>(some: seq<Document<D>>, all: seq<Document<D>>)
    requires |some| == |all|
    ensures IsSuffix(some, all) <==> some == all
  {
  }

  /**
   Nothing is dropped that fits, the nearest step on each side is kept, and both budgets hold unless
   one step is left.
   */
  lemma {:induction false} TrimmedKeepsNearest<D>(undo: seq<Document<D>>, redo: seq<Document<D>>, budget: nat)
    ensures var (u, r) := Trimmed(undo, redo, budget);
            && |u| <= |undo| && |r| <= |redo| && IsSuffix(u, undo) && IsSuffix(r, redo)
            && (undo != [] ==> u != []) && (redo != [] ==> r != [])
            && (Fits(u, r, budget) || (|u| <= 1 && |r| <= 1))
            && (|r| < |redo| ==> |u| <= 1)
    decreases |undo| + |redo|
  {
    hide Fits, IsSuffix;
    SuffixOfItself(undo, undo);
    SuffixOfItself(redo, redo);
    if !Fits(undo, redo, budget) {
      if |undo| > 1 {
        TrimmedKeepsNearest(undo[1..], redo, budget);
        SuffixOfTail(Trimmed(undo[1..], redo, budget).0, undo);
      } else if |redo| > 1 {
        TrimmedKeepsNearest(undo, redo[1..], budget);
        SuffixOfTail(Trimmed(undo, redo[1..], budget).1, redo);
      }
    }
  }

  /** As many steps as possible are kept, among the histories that drop steps to undo before steps to redo. */
  lemma {:induction false} TrimmedKeepsMost<D>(undo: seq<Document<D>>, redo: seq<Document<D>>, budget: nat,
                                               u: seq<Document<D>>, r: seq<Document<D>>)
    requires IsSuffix(u, undo) && IsSuffix(r, redo) && (|r| < |redo| ==> |u| <= 1) && (undo != [] ==> u != [])
    requires |u| <= |undo| && |r| <= |redo| && Fits(u, r, budget)
    ensures |Trimmed(undo, redo, budget).0| + |Trimmed(undo, redo, budget).1| >= |u| + |r|
    decreases |undo| + |redo|
  {
    hide Fits, IsSuffix;
    if |u| == |undo| {
      SuffixOfItself(u, undo);
    }
    if |r| == |redo| {
      SuffixOfItself(r, redo);
    }
    if !Fits(undo, redo, budget) {
      if |undo| > 1 {
        SuffixOfTail(u, undo);
        TrimmedKeepsMost(undo[1..], redo, budget, u, r);
      } else if |redo| > 1 {
        SuffixOfTail(r, redo);
        TrimmedKeepsMost(undo, redo[1..], budget, u, r);
      }
    }
  }

  // ---------- the timeline ----------

  /**
   The history is the part of the timeline around the cursor: behind it to undo, ahead of it to redo,
   nearest last.
   */
  ghost predicate Window<D>(timeline: seq<Document<D>>, cursor: nat, undo: seq<Document<D>>, document: Document<D>,
                            redo: seq<Document<D>>) {
    && |undo| <= cursor && cursor + |redo| < |timeline|
    && document == timeline[cursor]
    && (forall k | 0 <= k < |undo| :: undo[k] == timeline[cursor - |undo| + k])
    && (forall k | 0 <= k < |redo| :: redo[k] == timeline[cursor + |redo| - k])
  }

  /** Neighbouring documents of the timeline differ in their source bytes. */
  ghost predicate EveryStepEdits<D>(timeline: seq<Document<D>>) {
    forall k | 0 < k < |timeline| :: timeline[k - 1].source.bytes != timeline[k].source.bytes
  }

  lemma {:induction false} WindowTrimmed<D>(timeline: seq<Document<D>>, cursor: nat, undo: seq<Document<D>>,
                                            document: Document<D>, redo: seq<Document<D>>, u: seq<Document<D>>,
                                            r: seq<Document<D>>)
    requires Window(timeline, cursor, undo, document, redo) && IsSuffix(u, undo) && IsSuffix(r, redo)
    ensures Window(timeline, cursor, u, document, r)
  {
  }

  lemma {:induction false} SuffixKeepsNearest<D>(some: seq<Document<D>>, all: seq<Document<D>>)
    requires IsSuffix(some, all) && (all != [] ==> some != [])
    ensures all != [] ==> some[|some| - 1] == all[|all| - 1]
    ensures forall d | d in some :: d in all
  {
  }

  /** Two live buffers at one address are one buffer. */
  predicate SameWhenShared(a: Buffer, b: Buffer) {
    a.address == b.address ==> a == b
  }

  class Session<Details> {
    var document: Document<Details>
    var undo: seq<Document<Details>>
    var redo: seq<Document<Details>>
    var saved: Buffer
    var dirty: bool
    // Every document of the current line of edits, and which of them is shown.
    ghost var timeline: seq<Document<Details>>
    ghost var cursor: nat

    /** Every source the session holds may be live together with this one. */
    ghost predicate Shares(source: Buffer)
      reads this
    {
      && SameWhenShared(document.source, source)
      && (forall d | d in undo :: SameWhenShared(d.source, source))
      && (forall d | d in redo :: SameWhenShared(d.source, source))
    }

    ghost predicate Valid()
      reads this
    {
      && Window(timeline, cursor, undo, document, redo)
      && EveryStepEdits(timeline)
      && Shares(saved)
      && (dirty <==> document.source.bytes != saved.bytes)
      && (Fits(undo, redo, HISTORY_BYTES) || (|undo| <= 1 && |redo| <= 1))
    }

    constructor (initial: Document<Details>)
      ensures Valid() && document == initial && undo == [] && redo == [] && saved == initial.source
              && timeline == [initial]
    {
      document, undo, redo, saved, dirty := initial, [], [], initial.source, false;
      timeline, cursor := [initial], 0;
    }

    method HistoryBytes() returns (total: nat)
      ensures total == Saturated(Footprint(AllBuffers(undo + redo)))
    {
      hide Seen, Footprint;
      var seen: set<nat> := {};
      total := 0;
      var documents := undo + redo;
      ghost var counted: seq<Buffer> := [];
      NothingSeen();
      for i := 0 to |documents|
        invariant counted == AllBuffers(documents[..i])
        invariant total == Saturated(Footprint(counted))
        invariant forall address :: address in seen <==> Seen(counted, address)
      {
        var buffers := documents[i].Buffers();
        ghost var before := counted;
        NextBuffers(documents, i);
        for j := 0 to |buffers|
          invariant counted == before + buffers[..j]
          invariant total == Saturated(Footprint(counted))
          invariant forall address :: address in seen <==> Seen(counted, address)
        {
          CountOneMore(counted, buffers[j]);
          assert before + buffers[..j + 1] == counted + [buffers[j]];
          if buffers[j].address !in seen {
            seen := seen + {buffers[j].address};
            total := Saturated(total + |buffers[j].bytes|);
          }
          counted := counted + [buffers[j]];
        }
        assert buffers[..|buffers|] == buffers;
      }
      assert documents[..|documents|] == documents;
    }

    method TrimHistory(budget: u32)
      modifies this`undo, this`redo
      ensures (undo, redo) == Trimmed(old(undo), old(redo), budget)
    {
      var bytes := HistoryBytes();
      while |undo| + |redo| > HISTORY_STEPS || bytes > budget
        invariant bytes == Saturated(Footprint(AllBuffers(undo + redo)))
        invariant Trimmed(undo, redo, budget) == Trimmed(old(undo), old(redo), budget)
        decreases |undo| + |redo|
      {
        if |undo| > 1 {
          undo := undo[1..];
        } else if |redo| > 1 {
          redo := redo[1..];
        } else {
          break;
        }
        bytes := HistoryBytes();
      }
    }

    method UpdateDirty()
      modifies this`dirty
      requires Shares(saved)
      ensures dirty <==> document.source.bytes != saved.bytes
    {
      dirty := document.source.address != saved.address && document.source.bytes != saved.bytes;
    }

    /** The shared end of every edit: the history is trimmed around the cursor. */
    method Settle()
      requires Window(timeline, cursor, undo, document, redo) && EveryStepEdits(timeline) && Shares(saved)
      modifies this`undo, this`redo, this`dirty
      ensures Valid()
      ensures (undo, redo) == Trimmed(old(undo), old(redo), HISTORY_BYTES)
      ensures old(undo) != [] ==> undo != [] && undo[|undo| - 1] == old(undo)[|old(undo)| - 1]
      ensures old(redo) != [] ==> redo != [] && redo[|redo| - 1] == old(redo)[|old(redo)| - 1]
    {
      hide Fits, Trimmed, Window, EveryStepEdits, SameWhenShared, IsSuffix;
      ghost var u, r := undo, redo;
      TrimHistory(HISTORY_BYTES);
      TrimmedKeepsNearest(u, r, HISTORY_BYTES);
      SuffixKeepsNearest(undo, u);
      SuffixKeepsNearest(redo, r);
      WindowTrimmed(timeline, cursor, u, document, r, undo, redo);
      UpdateDirty();
    }

    /** A new document becomes the next step, unless its source bytes are the current ones. */
    method Apply(next: Document<Details>)
      requires Valid() && SameWhenShared(next.source, saved)
      modifies this
      ensures Valid() && saved == old(saved)
      ensures next.source.bytes == old(document).source.bytes ==>
                document == old(document) && undo == old(undo) && redo == old(redo) && timeline == old(timeline)
      ensures next.source.bytes != old(document).source.bytes ==>
                && document == next && redo == [] && undo != [] && undo[|undo| - 1] == old(document)
                && timeline == old(timeline)[..old(cursor) + 1] + [next] && cursor == old(cursor) + 1
                && (undo, redo) == Trimmed(old(undo) + [old(document)], [], HISTORY_BYTES)
    {
      hide Fits, Trimmed;
      if document.source.bytes == next.source.bytes {
        return;
      }
      undo := undo + [document];
      document := next;
      redo := [];
      timeline, cursor := timeline[..cursor + 1] + [next], cursor + 1;
      Settle();
    }

    method Undo()
      requires Valid()
      modifies this
      ensures Valid() && saved == old(saved) && timeline == old(timeline)
      ensures old(undo) == [] ==>
                document == old(document) && undo == old(undo) && redo == old(redo) && cursor == old(cursor)
      ensures old(undo) != [] ==>
                && document == old(undo)[|old(undo)| - 1] && cursor == old(cursor) - 1
                && redo != [] && redo[|redo| - 1] == old(document)
                && (undo, redo) == Trimmed(old(undo)[..|old(undo)| - 1], old(redo) + [old(document)], HISTORY_BYTES)
    {
      hide Fits, Trimmed;
      if undo != [] {
        redo := redo + [document];
        document := undo[|undo| - 1];
        undo := undo[..|undo| - 1];
        cursor := cursor - 1;
        Settle();
      }
    }

    method Redo()
      requires Valid()
      modifies this
      ensures Valid() && saved == old(saved) && timeline == old(timeline)
      ensures old(redo) == [] ==>
                document == old(document) && undo == old(undo) && redo == old(redo) && cursor == old(cursor)
      ensures old(redo) != [] ==>
                && document == old(redo)[|old(redo)| - 1] && cursor == old(cursor) + 1
                && undo != [] && undo[|undo| - 1] == old(document)
                && (undo, redo) == Trimmed(old(undo) + [old(document)], old(redo)[..|old(redo)| - 1], HISTORY_BYTES)
    {
      hide Fits, Trimmed;
      if redo != [] {
        undo := undo + [document];
        document := redo[|redo| - 1];
        redo := redo[..|redo| - 1];
        cursor := cursor + 1;
        Settle();
      }
    }

    /** The inspector may show more of the current document without editing it. */
    method Expand(expanded: Document<Details>)
      requires Valid() && expanded.source == document.source
      modifies this`document, this`timeline
      ensures Valid() && document == expanded && timeline == old(timeline)[cursor := expanded]
    {
      document := expanded;
      timeline := timeline[cursor := expanded];
    }

    /**
     The packed snapshot has been written. It is adopted as an edit only while the requested
     revision is still current and differs from it; either way the session compares with it from now on.
     */
    method Saved(requested: Document<Details>, packed: Document<Details>) returns (updated: bool)
      requires Valid() && Shares(packed.source)
      modifies this
      ensures Valid() && saved == packed.source
      ensures updated <==> && old(document).source.bytes == requested.source.bytes
                           && old(document).source.bytes != packed.source.bytes
      ensures updated ==> document == packed && !dirty && undo != [] && undo[|undo| - 1] == old(document) && redo == []
      ensures !updated ==>
                document == old(document) && undo == old(undo) && redo == old(redo) && timeline == old(timeline)
    {
      hide Fits, Trimmed, Window, EveryStepEdits;
      saved := packed.source;
      updated := document.source.bytes == requested.source.bytes && document.source.bytes != saved.bytes;
      UpdateDirty();
      if updated {
        Apply(packed);
      }
    }
  }

  /** An undo and then a redo show the same document at the same place, whatever was trimmed. */
  method UndoThenRedo<D>(session: Session<D>)
    requires session.Valid() && session.undo != []
    modifies session
    ensures session.Valid()
    ensures session.document == old(session.document) && session.cursor == old(session.cursor)
    ensures session.timeline == old(session.timeline) && session.dirty == old(session.dirty)
  {
    session.Undo();
    session.Redo();
  }

  method RedoThenUndo<D>(session: Session<D>)
    requires session.Valid() && session.redo != []
    modifies session
    ensures session.Valid()
    ensures session.document == old(session.document) && session.cursor == old(session.cursor)
    ensures session.timeline == old(session.timeline) && session.dirty == old(session.dirty)
  {
    session.Redo();
    session.Undo();
  }
}
