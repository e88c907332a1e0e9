/**
 * LiteralStackAllocator: a chunked bump allocator for clause literals
 * (headers/pjos/Allocator.h). Chunks are numbered from the oldest (0); the
 * newest is the top chunk, which keeps its predecessor alive.
 */
module Allocators {

  /** The template parameter's default. */
  const DefaultChunkSize: nat := 512

  /** A literal buffer: a fresh owning array, or a slice of a chunk that the allocator owns. */
  datatype Block = Owned(length: nat) | InChunk(chunk: nat, offset: nat, length: nat)

  /** Two blocks never share a slot of the same chunk. */
  predicate Disjoint(b1: Block, b2: Block)
  {
    b1.InChunk? && b2.InChunk? && b1.chunk == b2.chunk ==>
      b1.offset + b1.length <= b2.offset || b2.offset + b2.length <= b1.offset
  }

  class LiteralStackAllocator {
    const chunkSize: nat
    /** The `top` of every chunk, oldest first; the last one is top_chunk. */
    var tops: seq<nat>
    /** Every block handed out so far, in order. */
    ghost var issued: seq<Block>

    ghost predicate Valid()
      reads this
    {
      && chunkSize > 0
      && |tops| >= 1
      && (forall c :: 0 <= c < |tops| ==> tops[c] <= chunkSize)
      && (forall k :: 0 <= k < |issued| && issued[k].InChunk? ==>
            issued[k].chunk < |tops| && issued[k].offset + issued[k].length <= tops[issued[k].chunk])
      && (forall k1, k2 :: 0 <= k1 < k2 < |issued| ==> Disjoint(issued[k1], issued[k2]))
    }

    /** A new allocator holds one empty chunk. */
    constructor (chunkSize: nat)
      requires chunkSize > 0
      ensures Valid() && this.chunkSize == chunkSize && tops == [0] && issued == []
    {
      this.chunkSize := chunkSize;
      tops := [0];
      issued := [];
    }

    /** operator()(length) */
    method Allocate(length: nat) returns (b: Block)
      requires Valid()
      modifies this
      ensures Valid() && issued == old(issued) + [b] && b.length == length
      ensures length > chunkSize ==> b == Owned(length) && tops == old(tops)
      ensures length <= chunkSize && chunkSize - old(tops[|tops| - 1]) < length ==>
        tops == old(tops) + [length] && b == InChunk(|old(tops)|, 0, length)
      ensures length <= chunkSize && chunkSize - old(tops[|tops| - 1]) >= length ==>
        && b == InChunk(|old(tops)| - 1, old(tops[|tops| - 1]), length)
        && tops == old(tops)[|old(tops)| - 1 := old(tops[|tops| - 1]) + length]
    {
      if length > chunkSize {
        b := Owned(length);
        issued := issued + [b];
        return;
      }
      if chunkSize - tops[|tops| - 1] < length {
        tops := tops + [0];
      }
      var top := tops[|tops| - 1];
      b := InChunk(|tops| - 1, top, length);
      tops := tops[|tops| - 1 := top + length];
      issued := issued + [b];
    }
  }
}
