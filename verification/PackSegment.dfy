/** The ngram_pack_segment aggregate: a group's rowids accumulate in place, first in the state's own bytes, then in a
    linked list of growing blocks that one state can adopt whole from another. */
module PackSegment {
  import opened Common
  import opened Leb128
  import opened Postings
  import opened OffsetStream

  const INLINE_BYTES := 16
  const IN_BLOCKS := 0xFFFF_FFFF
  const FIRST_BLOCK_BYTES := 48
  const MAX_BLOCK_BYTES := 1008

  /** One block of a state's stream. */
  class RowidBlock {
    var next: RowidBlock?
    var size: nat
    const data: array<byte>
    /** The offsets of the block's stretch. */
    ghost var offsets: seq<nat>

    constructor (capacity: nat)
      ensures next == null && size == 0 && offsets == []
      ensures fresh(data) && data.Length == capacity
    {
      next, size, offsets := null, 0, [];
      data := new byte[capacity];
    }

    ghost predicate Valid()
      reads `size, `offsets, data
    {
      && FIRST_BLOCK_BYTES <= data.Length <= MAX_BLOCK_BYTES
      && size <= data.Length
      && Holds(data[..size], offsets)
    }

    ghost function Last(): nat
      reads `offsets
    {
      LastBefore(offsets, |offsets|)
    }

    /** Write the next offset's code into the block's free bytes. */
    method Put(last: nat, offset: nat)
      requires Valid() && last == Last() < SEGMENT_SPAN && offset < SEGMENT_SPAN
      requires size + OffsetCodeSize(last, offset) <= data.Length
      modifies this`size, this`offsets, data
      ensures Valid() && offsets == old(offsets) + [offset]
    {
      hide Holds, CodeBytes;
      HoldsSnoc(data[..size], offsets, offset);
      var out := WriteOffsetCode(data, size, last, offset);
      size := out;
      offsets := offsets + [offset];
    }
  }

  // ---------------------------------------------------------------------------------------------------------------
  // Block lists

  ghost function BlockData(blocks: seq<RowidBlock>): set<object> {
    set b: RowidBlock | b in blocks :: b.data as object
  }

  ghost function BlockSet(blocks: seq<RowidBlock>): set<object> {
    (set b: RowidBlock | b in blocks :: b as object) + BlockData(blocks)
  }

  lemma InBlockSet(blocks: seq<RowidBlock>, i: nat)
    requires i < |blocks|
    ensures blocks[i] as object in BlockSet(blocks) && blocks[i].data as object in BlockSet(blocks)
  {
    assert blocks[i] in blocks;
  }

  ghost function Successor(blocks: seq<RowidBlock>, i: nat): RowidBlock? {
    if i + 1 < |blocks| then blocks[i + 1] else null
  }

  /** The blocks are linked in this order, end in null, and share nothing. */
  ghost predicate Chained(blocks: seq<RowidBlock>)
    reads blocks`next
  {
    && (forall i :: 0 <= i < |blocks| ==> blocks[i].next == Successor(blocks, i))
    && forall i, j :: 0 <= i < j < |blocks| ==> blocks[i] != blocks[j] && blocks[i].data != blocks[j].data
  }

  ghost predicate AllValid(blocks: seq<RowidBlock>)
    reads blocks`size, blocks`offsets, BlockData(blocks)
  {
    forall i :: 0 <= i < |blocks| ==> blocks[i].Valid()
  }

  /** The offsets of a list's stretches, in stream order. */
  ghost function Offsets(blocks: seq<RowidBlock>): seq<nat>
    reads blocks`offsets
  {
    if blocks == [] then [] else Offsets(blocks[..|blocks| - 1]) + blocks[|blocks| - 1].offsets
  }

  lemma {:induction false} OffsetsConcat(a: seq<RowidBlock>, b: seq<RowidBlock>)
    ensures Offsets(a + b) == Offsets(a) + Offsets(b)
  {
    if b == [] {
      assert a + b == a;
    } else {
      var b' := b[..|b| - 1];
      OffsetsConcat(a, b');
      assert (a + b)[..|a + b| - 1] == a + b';
      ConcatAssociates(Offsets(a), Offsets(b'), b[|b| - 1].offsets);
    }
  }

  /** A well-formed list of blocks. */
  ghost predicate BlockList(blocks: seq<RowidBlock>)
    reads blocks, BlockData(blocks)
  {
    |blocks| > 0 && Chained(blocks) && AllValid(blocks)
  }

  lemma BlockIn(blocks: seq<RowidBlock>, i: nat)
    requires BlockList(blocks) && i < |blocks|
    ensures blocks[i].Valid()
  {
  }

  lemma SingleBlock(block: RowidBlock)
    requires block.Valid() && block.next == null
    ensures BlockList([block]) && Offsets([block]) == block.offsets
  {
    assert [block][..0] == [];
  }

  /** Writing into the last block changes the list's offsets by that one offset. */
  method PutInTail(ghost blocks: seq<RowidBlock>, tail: RowidBlock, last: nat, offset: nat)
    requires BlockList(blocks) && tail == blocks[|blocks| - 1]
    requires last == tail.Last() < SEGMENT_SPAN && offset < SEGMENT_SPAN
    requires tail.size + OffsetCodeSize(last, offset) <= tail.data.Length
    modifies tail`size, tail`offsets, tail.data
    ensures BlockList(blocks) && tail.Last() == offset
    ensures Offsets(blocks) == old(Offsets(blocks)) + [offset]
  {
    hide Holds;
    ghost var front := blocks[..|blocks| - 1];
    assert tail !in front;
    tail.Put(last, offset);
    ConcatAssociates(Offsets(front), old(tail.offsets), [offset]);
  }

  /** Two lists share neither blocks nor bytes. */
  ghost predicate Apart(front: seq<RowidBlock>, back: seq<RowidBlock>) {
    forall i, j :: 0 <= i < |front| && 0 <= j < |back| ==> front[i] != back[j] && front[i].data != back[j].data
  }

  lemma DisjointApart(front: seq<RowidBlock>, back: seq<RowidBlock>)
    requires BlockSet(front) !! BlockSet(back)
    ensures Apart(front, back)
  {
    forall i, j | 0 <= i < |front| && 0 <= j < |back|
      ensures front[i] != back[j] && front[i].data != back[j].data
    {
      assert front[i] in front && back[j] in back;
      assert front[i] as object in BlockSet(front) && back[j] as object in BlockSet(back);
      assert front[i].data as object in BlockSet(front) && back[j].data as object in BlockSet(back);
    }
  }

  lemma BlockSetConcat(front: seq<RowidBlock>, back: seq<RowidBlock>)
    ensures BlockSet(front + back) == BlockSet(front) + BlockSet(back)
  {
    var both := front + back;
    assert forall b :: b in both <==> b in front || b in back;
  }

  lemma SingleBlockSet(block: RowidBlock)
    ensures BlockSet([block]) == {block as object, block.data as object}
  {
    var all := [block];
    assert block in all;
    forall b | b in all ensures b == block {
    }
    InBlockSet(all, 0);
  }

  /** One list continues into the other. */
  method LinkLists(ghost front: seq<RowidBlock>, tail: RowidBlock, ghost back: seq<RowidBlock>, head: RowidBlock)
    requires BlockList(front) && BlockList(back) && Apart(front, back)
    requires tail == front[|front| - 1] && head == back[0]
    modifies tail`next
    ensures BlockList(front + back)
    ensures Offsets(front + back) == old(Offsets(front)) + old(Offsets(back))
  {
    hide Holds;
    tail.next := head;
    ghost var both := front + back;
    forall i | 0 <= i < |both|
      ensures both[i].Valid() && both[i].next == Successor(both, i)
    {
      if i < |front| {
        assert i < |front| - 1 ==> front[i] != front[|front| - 1];
        assert both[i] == front[i] && front[i].Valid();
      } else {
        var j := i - |front|;
        assert back[j] != front[|front| - 1];
        assert both[i] == back[j] && back[j].Valid();
      }
    }
    OffsetsConcat(front, back);
  }

  /** A fresh block joins the list, twice as large as the last one up to the limit. */
  method GrowList(ghost blocks: seq<RowidBlock>, tail: RowidBlock) returns (block: RowidBlock)
    requires |blocks| > 0 && BlockList(blocks) && tail == blocks[|blocks| - 1]
    modifies tail`next
    ensures fresh(block) && fresh(block.data)
    ensures BlockList(blocks + [block]) && block.size == 0 && block.Last() == 0
    ensures block.data.Length == Min(2 * tail.data.Length, MAX_BLOCK_BYTES) >= FIRST_BLOCK_BYTES
    ensures Offsets(blocks + [block]) == old(Offsets(blocks))
  {
    hide Holds;
    BlockIn(blocks, |blocks| - 1);
    HoldsNothing();
    block := new RowidBlock(Min(2 * tail.data.Length, MAX_BLOCK_BYTES));
    assert block.data[..0] == [];
    SingleBlock(block);
    assert forall b :: b in blocks ==> b != block && b.data != block.data;
    LinkLists(blocks, tail, [block], block);
  }

  // ---------------------------------------------------------------------------------------------------------------
  // The aggregate's state

  /** (rowid >> SEGMENT_SHIFT) << SEGMENT_SHIFT for a rowid that is not negative. */
  function SegmentStart(rowid: int): int {
    (rowid / SEGMENT_SPAN) * SEGMENT_SPAN
  }

  /** The state's union: its own bytes, or a block list, never both. */
  datatype Storage = Bytes(bytes: array<byte>) | Blocks(first: RowidBlock, last: RowidBlock)

  class EncodePostingsState {
    /** Where the group's segment begins. */
    var base: int
    /** The offset the next code is written against. */
    var last: nat
    /** How many of the own bytes are in use; IN_BLOCKS once a block list has taken their place. */
    var inlineSize: nat
    var storage: Storage
    ghost var blocks: seq<RowidBlock>
    /** The offsets appended so far, in stream order. */
    ghost var fed: seq<nat>

    predicate Empty()
      reads `inlineSize
    {
      inlineSize == 0
    }

    predicate InBlocks()
      reads `inlineSize
    {
      inlineSize == IN_BLOCKS
    }

    ghost function InlineBytes(): set<object>
      reads `storage
    {
      if storage.Bytes? then {storage.bytes} else {}
    }

    ghost function Footprint(): set<object>
      reads `storage, `blocks
    {
      {this} + InlineBytes() + BlockSet(blocks)
    }

    ghost predicate Inline()
      reads `inlineSize, `last, `storage, `blocks, `fed, InlineBytes()
    {
      && !InBlocks() && storage.Bytes? && storage.bytes.Length == INLINE_BYTES && blocks == []
      && inlineSize <= INLINE_BYTES
      && Holds(storage.bytes[..inlineSize], fed)
      && last == LastBefore(fed, |fed|)
    }

    ghost predicate Listed()
      reads `inlineSize, `last, `storage, `blocks, `fed, Footprint() - {this}
    {
      && InBlocks()
      && |blocks| > 0 && BlockList(blocks)
      && storage == Blocks(blocks[0], blocks[|blocks| - 1])
      && fed == Offsets(blocks) && fed != []
      && last == blocks[|blocks| - 1].Last()
    }

    ghost predicate Valid()
      reads this, Footprint()
    {
      && (if InBlocks() then Listed() else Inline())
      && AreOffsets(fed) && last < SEGMENT_SPAN
      && IsRowid(base) && base % SEGMENT_SPAN == 0
    }

    constructor ()
      ensures Valid() && Empty() && fed == [] && fresh(Footprint())
    {
      base, last, inlineSize := 0, 0, 0;
      var bytes := new byte[INLINE_BYTES];
      storage := Bytes(bytes);
      fed, blocks := [], [];
      new;
      HoldsNothing();
      assert bytes[..0] == [];
    }

    /** A state is empty exactly when nothing was fed. */
    lemma EmptyIff()
      requires Valid()
      ensures Empty() <==> fed == []
    {
      if !InBlocks() {
        HoldsSize(storage.bytes[..inlineSize], fed);
        HoldsEmpty(storage.bytes[..inlineSize], fed);
      }
    }

    method AppendOffset(offset: nat)
      requires Valid() && offset < SEGMENT_SPAN
      modifies Footprint()
      ensures Valid() && fed == old(fed) + [offset] && base == old(base)
      ensures fresh(Footprint() - old(Footprint()))
    {
      hide Holds, CodeBytes, OffsetCodeSize, BlockList, Offsets;
      InFootprint();
      if !InBlocks() {
        if inlineSize + OffsetCodeSize(last, offset) <= INLINE_BYTES {
          AppendInline(offset);
          AreOffsetsSnoc(old(fed), offset);
          return;
        }
        InlineNotEmpty(offset);
        SpillInline();
        SingleBlockSet(storage.first);
        AppendListed(offset);
      } else {
        AppendListed(offset);
      }
      AreOffsetsSnoc(old(fed), offset);
    }

    /** A code that does not fit finds bytes already there. */
    lemma InlineNotEmpty(offset: nat)
      requires Inline() && last < SEGMENT_SPAN && offset < SEGMENT_SPAN
      requires inlineSize + OffsetCodeSize(last, offset) > INLINE_BYTES
      ensures fed != []
    {
      hide CodeBytes;
      CodeLength(last, offset);
      HoldsEmpty(storage.bytes[..inlineSize], fed);
    }

    method AppendInline(offset: nat)
      requires Inline() && offset < SEGMENT_SPAN && last < SEGMENT_SPAN
      requires inlineSize + OffsetCodeSize(last, offset) <= INLINE_BYTES
      modifies this`inlineSize, this`last, this`fed, storage.bytes
      ensures Inline() && fed == old(fed) + [offset] && last == offset
    {
      hide Holds, CodeBytes;
      CodeLength(last, offset);
      var bytes := storage.bytes;
      HoldsSnoc(bytes[..inlineSize], fed, offset);
      var out := WriteOffsetCode(bytes, inlineSize, last, offset);
      inlineSize := out;
      last := offset;
      fed := fed + [offset];
    }

    /** Copy what the state holds itself to a fresh first block, whose list then takes the same storage. */
    method SpillInline()
      requires Inline() && fed != []
      modifies this`inlineSize, this`storage, this`blocks
      ensures Listed() && blocks == [storage.first] && fresh(storage.first) && fresh(storage.first.data)
    {
      hide Holds, Offsets, BlockList;
      var block := new RowidBlock(FIRST_BLOCK_BYTES);
      CopyInline(block);
      storage := Blocks(block, block);
      inlineSize := IN_BLOCKS;
      blocks := [block];
      SingleBlock(block);
    }

    method CopyInline(block: RowidBlock)
      requires Inline() && block.data.Length == FIRST_BLOCK_BYTES && block.data != storage.bytes
      modifies block`size, block`offsets, block.data
      ensures block.Valid() && block.offsets == fed
    {
      hide Holds;
      var bytes := storage.bytes;
      for i := 0 to inlineSize
        invariant block.data[..i] == bytes[..i]
        invariant bytes[..] == old(bytes[..])
        modifies block.data
      {
        block.data[i] := bytes[i];
      }
      block.size := inlineSize;
      block.offsets := fed;
      assert bytes[..inlineSize] == bytes[..][..inlineSize] == old(bytes[..inlineSize]);
      assert block.data[..block.size] == bytes[..inlineSize];
    }

    method AppendListed(offset: nat)
      requires Listed() && offset < SEGMENT_SPAN && last < SEGMENT_SPAN
      modifies this`last, this`storage, this`blocks, this`fed, Footprint() - {this}
      ensures Listed() && fed == old(fed) + [offset] && last == offset
      ensures fresh(BlockSet(blocks) - old(BlockSet(blocks)))
    {
      hide Holds, CodeBytes, OffsetCodeSize, BlockList, Offsets;
      InBlockSet(blocks, |blocks| - 1);
      if storage.last.size + OffsetCodeSize(last, offset) > storage.last.data.Length {
        GrowTail(offset);
      }
      InBlockSet(blocks, |blocks| - 1);
      PutInTail(blocks, storage.last, last, offset);
      last := offset;
      fed := fed + [offset];
    }

    /** A new tail: its stretch starts from offset zero, and has room for any code. */
    method GrowTail(ghost offset: nat)
      requires Listed() && offset < SEGMENT_SPAN
      modifies this`last, this`storage, this`blocks, storage.last`next
      ensures Listed() && fresh(BlockSet(blocks) - old(BlockSet(blocks)))
      ensures last == 0 && storage.last.size + OffsetCodeSize(0, offset) <= storage.last.data.Length
      ensures fresh(storage.last) && fresh(storage.last.data)
    {
      hide Holds, CodeBytes, BlockList, Offsets;
      CodeLength(0, offset);
      InBlockSet(blocks, |blocks| - 1);
      var block := GrowList(blocks, storage.last);
      BlockSetConcat(blocks, [block]);
      SingleBlockSet(block);
      blocks := blocks + [block];
      storage := Blocks(storage.first, block);
      last := 0;
    }

    method AppendRowid(rowid: int) returns (ok: bool)
      requires Valid() && rowid <= INT64_MAX
      modifies Footprint()
      ensures Valid() && fresh(Footprint() - old(Footprint()))
      ensures ok <==> rowid >= 0 && (old(fed) == [] || old(base) == SegmentStart(rowid))
      ensures ok ==> base == SegmentStart(rowid) && fed == old(fed) + [rowid - base]
      ensures !ok ==> fed == old(fed) && base == old(base)
    {
      hide Holds, Listed, Inline;
      EmptyIff();
      if rowid < 0 {
        return false;
      }
      var segmentStart := (rowid / SEGMENT_SPAN) * SEGMENT_SPAN;
      if Empty() {
        base := segmentStart;
      } else if segmentStart != base {
        return false;
      }
      assert 0 <= rowid - base < SEGMENT_SPAN;
      AppendOffset(rowid - base);
      return true;
    }

    /** Reads the stretches back one after another: what was appended comes out, in order. */
    method ForEachOffset() returns (out: seq<nat>)
      requires Valid()
      ensures out == fed
    {
      hide Holds, CodeBytes;
      if !InBlocks() {
        out := DecodeStretch(storage.bytes, inlineSize, fed);
        return;
      }
      out := DecodeList(storage.first, blocks);
    }

    /** Append offsets one by one. */
    method AppendAll(offsets: seq<nat>)
      requires Valid() && AreOffsets(offsets)
      modifies Footprint()
      ensures Valid() && fed == old(fed) + offsets && base == old(base)
      ensures fresh(Footprint() - old(Footprint()))
    {
      hide Valid;
      var i := 0;
      assert offsets[..0] == [];
      while i < |offsets|
        invariant 0 <= i <= |offsets|
        invariant Valid() && fed == old(fed) + offsets[..i] && base == old(base)
        invariant fresh(Footprint() - old(Footprint()))
      {
        AppendOffset(offsets[i]);
        ExtendPrefix(old(fed), offsets, i);
        i := i + 1;
      }
      assert offsets[..i] == offsets;
    }

    /** What an append may write lies in the footprint. */
    lemma InFootprint()
      ensures InlineBytes() <= Footprint() && BlockSet(blocks) <= Footprint() && this in Footprint()
    {
    }

    /** Empty the state: the union's bytes hold a stream of no codes again. */
    method Initialize()
      modifies this
      ensures Valid() && Empty() && fed == [] && fresh(Footprint() - {this})
    {
      hide Holds;
      var bytes := new byte[INLINE_BYTES];
      base, last, inlineSize := 0, 0, 0;
      storage, blocks, fed := Bytes(bytes), [], [];
      HoldsNothing();
      assert bytes[..0] == [];
    }

    /** Both states' lists become one, this state's blocks first. */
    method AdoptIntoList(source: EncodePostingsState)
      requires Valid() && InBlocks() && source.Valid() && source.InBlocks()
      requires Footprint() !! source.Footprint()
      modifies this`last, this`storage, this`blocks, this`fed, Footprint() - {this}
      ensures Valid() && InBlocks() && fed == old(fed) + old(source.fed) && base == old(base)
      ensures Footprint() == old(Footprint()) + old(BlockSet(source.blocks)) && source !in Footprint()
    {
      hide Holds, BlockList, Offsets;
      DisjointApart(blocks, source.blocks);
      BlockSetConcat(blocks, source.blocks);
      InBlockSet(blocks, |blocks| - 1);
      AreOffsetsConcat(fed, source.fed);
      LinkLists(blocks, storage.last, source.blocks, source.storage.first);
      storage := Blocks(storage.first, source.storage.last);
      last := source.last;
      blocks := blocks + source.blocks;
      fed := fed + source.fed;
    }

    /** The source's list replaces this state's bytes, whose few offsets then join it. */
    method AdoptForInline(source: EncodePostingsState)
      requires Valid() && !InBlocks() && source.Valid() && source.InBlocks()
      requires Footprint() !! source.Footprint()
      requires base == source.base
      modifies Footprint(), BlockSet(source.blocks)
      ensures Valid() && fed == old(source.fed) + old(fed) && base == old(base)
      ensures fresh(Footprint() - old(Footprint()) - old(BlockSet(source.blocks))) && source !in Footprint()
    {
      hide Holds, BlockList, Offsets;
      var inlineBytes, size := storage.bytes, inlineSize;
      ghost var inlineFed := fed;
      storage := source.storage;
      inlineSize := IN_BLOCKS;
      last := source.last;
      blocks := source.blocks;
      fed := source.fed;
      var offsets := DecodeStretch(inlineBytes, size, inlineFed);
      AppendAll(offsets);
    }

    /** Append the source's offsets one by one, leaving the source as it is. */
    method CopyFrom(source: EncodePostingsState)
      requires Valid() && source.Valid() && Footprint() !! source.Footprint()
      modifies Footprint()
      ensures Valid() && fed == old(fed) + source.fed && base == old(base)
      ensures fresh(Footprint() - old(Footprint()))
    {
      hide Listed, Inline;
      var offsets := source.ForEachOffset();
      AppendAll(offsets);
    }

    /** Take over the source's blocks and leave it empty. */
    method Adopt(source: EncodePostingsState)
      requires Valid() && source.Valid() && source.InBlocks() && Footprint() !! source.Footprint()
      requires base == source.base
      modifies Footprint(), source.Footprint()
      ensures Valid() && base == old(base)
      ensures fed == old(fed) + old(source.fed) || fed == old(source.fed) + old(fed)
      ensures source.Valid() && source.fed == []
      ensures Footprint() !! source.Footprint()
      ensures fresh(Footprint() - old(Footprint()) - old(source.Footprint()))
      ensures fresh(source.Footprint() - {source})
    {
      hide Listed, Inline, Valid;
      AdoptBlocks(source);
      ghost var mine := Footprint();
      source.Initialize();
      assert Footprint() == mine;
    }

    method AdoptBlocks(source: EncodePostingsState)
      requires Valid() && source.Valid() && source.InBlocks() && Footprint() !! source.Footprint()
      requires base == source.base
      modifies Footprint(), source.Footprint() - {source}
      ensures Valid() && base == old(base)
      ensures fed == old(fed) + old(source.fed) || fed == old(source.fed) + old(fed)
      ensures source !in Footprint() && fresh(Footprint() - old(Footprint()) - old(source.Footprint()))
    {
      hide Listed, Inline, Valid;
      assert source !in BlockSet(source.blocks);
      if InBlocks() {
        AdoptIntoList(source);
      } else {
        AdoptForInline(source);
      }
    }

    /** EncodePostingsCombine for one pair of states: this state takes in everything `source` was fed. A source left
        intact may be combined or finalized again; one whose blocks were adopted is emptied, so it cannot count them
        twice. Two groups of different segments are refused. */
    method Combine(source: EncodePostingsState, destructive: bool) returns (ok: bool)
      requires Valid() && source.Valid() && Footprint() !! source.Footprint()
      modifies Footprint(), source.Footprint()
      ensures Valid() && source.Valid() && Footprint() !! source.Footprint()
      ensures fresh(Footprint() + source.Footprint() - old(Footprint()) - old(source.Footprint()))
      ensures ok <==> old(fed) == [] || old(source.fed) == [] || old(base) == old(source.base)
      ensures !ok ==> fed == old(fed) && base == old(base)
      ensures ok ==> base == if old(source.fed) == [] then old(base) else old(source.base)
      ensures ok ==> fed == old(fed) + old(source.fed) || fed == old(source.fed) + old(fed)
      ensures source.fed == (if ok && destructive && old(source.InBlocks()) then [] else old(source.fed))
      ensures source.fed != [] ==> source.base == old(source.base)
    {
      hide Listed, Inline;
      EmptyIff();
      source.EmptyIff();
      if source.Empty() {
        return true;
      }
      if Empty() {
        base := source.base;
      } else if base != source.base {
        return false;
      }
      ok := true;
      if source.InBlocks() && destructive {
        Adopt(source);
      } else {
        CopyFrom(source);
      }
    }
  }

  /** Decoding block by block along the links. */
  method DecodeList(first: RowidBlock, ghost blocks: seq<RowidBlock>) returns (out: seq<nat>)
    requires BlockList(blocks) && first == blocks[0]
    ensures out == Offsets(blocks)
  {
    hide Holds;
    out := [];
    var block: RowidBlock? := first;
    ghost var i := 0;
    while block != null
      invariant 0 <= i <= |blocks|
      invariant block == if i < |blocks| then blocks[i] else null
      invariant out == Offsets(blocks[..i])
      decreases |blocks| - i
    {
      assert block.Valid();
      var stretch := DecodeStretch(block.data, block.size, block.offsets);
      assert blocks[..i + 1][..i] == blocks[..i];
      out := out + stretch;
      block := block.next;
      i := i + 1;
    }
    assert blocks[..i] == blocks;
  }

  lemma ExtendPrefix(before: seq<nat>, offsets: seq<nat>, i: nat)
    requires i < |offsets|
    ensures before + offsets[..i] + [offsets[i]] == before + offsets[..i + 1]
  {
  }

  lemma AreOffsetsConcat(a: seq<nat>, b: seq<nat>)
    requires AreOffsets(a) && AreOffsets(b)
    ensures AreOffsets(a + b)
  {
  }

  lemma AreOffsetsSnoc(offsets: seq<nat>, offset: nat)
    requires AreOffsets(offsets) && offset < SEGMENT_SPAN
    ensures AreOffsets(offsets + [offset])
  {
  }
}
