/** Pieces of memory, by address. */
module Blocks {
  /** A block of storage. */
  datatype Block = Block(begin: nat, bytes: nat)

  function Stop(b: Block): nat {
    b.begin + b.bytes
  }

  predicate Separate(begin: nat, end: nat, begin': nat, end': nat) {
    end <= begin' || end' <= begin
  }
}
