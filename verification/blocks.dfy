/** Transactions and blocks of database/block.go, and the block content hash. */
module Blocks {
  import opened Common
  import opened Hashes

  /** An account is identified by its name. */
  type Account = string

  /** A transfer of `value` from `from` to `to`; `data` marks rewards. Go's `uint`
      value is modelled as an unbounded natural number. */
  datatype Tx = Tx(from: Account, to: Account, value: nat, data: string)

  /** `Tx.isReward` is not part of this model's source; it is taken to be
      "the data field is `reward`", the marker the migration program uses. */
  predicate IsReward(tx: Tx) {
    tx.data == "reward"
  }

  datatype BlockHeader = BlockHeader(parent: Hash, number: uint64, time: uint64)

  /** A header and its payload of new transactions, in order. */
  datatype Block = Block(header: BlockHeader, txs: seq<Tx>)

  /** One line of the block log: a block under its content hash. */
  datatype BlockFS = BlockFS(key: Hash, value: Block)

  /** `NewBlock`: a block whose header carries the given parent, number and time
      and whose payload is `txs`, unchanged and in order. */
  function NewBlock(parent: Hash, number: uint64, time: uint64, txs: seq<Tx>): (b: Block)
    ensures b.header.parent == parent && b.header.number == number && b.header.time == time
    ensures b.txs == txs
  {
    Block(BlockHeader(parent, number, time), txs)
  }

  /** `Block.Hash`: SHA-256 over the JSON encoding of the block. Both are left
      uninterpreted and passed in; `encoding/json` cannot fail on a `Block`, so
      the error result is never produced. */
  function BlockHash(encode: Block -> seq<byte>, sha256: seq<byte> -> Hash, b: Block): (h: Hash)
    ensures h == sha256(encode(b))
  {
    sha256(encode(b))
  }

  /** The content hash is a function of the block's header and payload alone:
      blocks with equal encodings, in particular equal blocks, hash equally. */
  lemma BlockHashDeterministic(encode: Block -> seq<byte>, sha256: seq<byte> -> Hash, b1: Block, b2: Block)
    requires b1 == b2 || encode(b1) == encode(b2)
    ensures BlockHash(encode, sha256, b1) == BlockHash(encode, sha256, b2)
  {
  }
}
