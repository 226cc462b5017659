# go-blockchain-tut core, modelled in Dafny

This project models the core of a small Go blockchain node:

- **Accounts, transactions and blocks** (`database/block.go`). A block has a header (parent hash, number, time) and a payload of transactions. A hash is 32 bytes, and it travels as 64 hexadecimal characters.
- **The balance ledger** (`database/state.go`). Its pieces:
  - the single-transaction rule `apply`: a reward mints value, any other transfer needs the sender's balance;
  - the mempool, filled by `Add`;
  - the append-only transaction log, written by `Persist`, with a SHA-256 snapshot retaken after each write;
  - the replay, `NewStateFromDisk`, that rebuilds balances from genesis at start-up.
- **The block-log query** `GetBlocksAfter` (`database/database.go`). It returns the blocks recorded after a given block hash.
- **The peer set of a node** (`node/node.go`). Peers are keyed by their `"ip:port"` address, and the node always counts itself as known.
- **One pass of peer synchronisation** (`node/sync.go`). The node:
  - evicts peers whose status query fails;
  - joins the others;
  - imports the blocks they have after its own latest hash;
  - learns the peers they report.

Each Go file maps to one module:

| Go file | Dafny file | module |
|---|---|---|
| block.go | `blocks.dfy`, with its hash codec in `hashes.dfy` | `Blocks`, `Hashes` |
| state.go | `ledger.dfy` | `Ledger` |
| database.go | `blocklog.dfy` | `BlockLog` |
| node.go | `peers.dfy` | `Peers` |
| sync.go | `sync.dfy` | `Sync` |

`common.dfy` holds the shared types:

- `Option`;
- `Result`;
- `Step`: the receiver's new state paired with the optional error of a Go method that mutates its receiver and returns an error;
- `uint64`.

Everything is modelled as pure values. I/O and hashing are handled as follows:

- **File contents** (the transaction log, the block log) are sequences of parsed records.
- **SHA-256 and JSON encoding** are function parameters with no properties assumed.
- **Write failures of `Persist`** are an explicit input naming the step that fails. The other file failures are left out (see below).
- **Peer answers** over HTTP are inputs (`Sync.PeerResponses`).
- **The ledger methods the sync pass calls** (`LatestBlockHash`, `AddBlocks`) are an abstract interface (`Sync.LedgerApi`). `database/state.go` does not define them.

### Assumptions, and where the model follows the code

- **`Tx.isReward`** is not defined in the modelled files. It is taken to be `data == "reward"`, the marker the migration program uses (`Blocks.IsReward`).
- **`Hash.IsEmpty`** is not defined in the modelled files. It is taken to be "equals the all-zero hash" (`Hashes.IsEmpty`).
- **`Hash.Hex`** is not defined in the modelled files. It is taken to be `hex.EncodeToString` of the hash's bytes, the text `MarshalText` writes. The block-fetch URL carries that text, and the peer unmarshals it into a zero `Hash` (`Sync.Serve`); `Sync.ServeAnswersQuery` proves that the peer then queries the same hash.
- **`hex.Decode`** is Go's standard-library decoder, which `UnmarshalText` calls. It is modelled from the standard library's implementation:
  - pairs are written into the receiver left to right, and bytes already written stay written when decoding stops;
  - upper- and lower-case digits are accepted;
  - an invalid character is reported as `InvalidByte`, and an odd length as `ErrLength`;
  - text longer than 64 characters runs past the 32-byte receiver, which is a run-time panic in Go. It is modelled as the error `IndexOutOfRange`.
- **The migration program's first block.** One might expect `owner` to hold 1000697 after the block `[owner→owner 3, owner→owner 700 reward]` (3 debited, 700 minted). The code gives 1000700: a non-reward transfer to oneself debits and then credits the same account, so it changes nothing. The model follows the code (`Ledger.MigrationBlock0`).

## Model

| member | source | states |
|---|---|---|
| Hashes.EncodeHex | database/block.go:14 | `hex.EncodeToString`: twice as many characters as bytes, all lower-case hex, and byte `i` spelled by characters `2i` (high nibble) and `2i+1` (low nibble) |
| Hashes.MarshalText | database/block.go:13-15 | a hash marshals to exactly 64 lower-case hex characters spelling it byte by byte, and marshalling never fails |
| Hashes.DecodeFrom | database/block.go:18 | `hex.Decode` succeeds exactly when the text has even length, fits the destination and is all hex; decoded pairs land at their index and every other byte keeps its old value, including on failure |
| Hashes.UnmarshalText | database/block.go:17-20 | unmarshalling succeeds iff the text is an even number (at most 64) of hex digits; odd length is always an error; decoded bytes replace the receiver's leading bytes and the bytes after the decoded text keep their previous value |
| Hashes.UnmarshalMarshal | database/block.go:13-20 | round trip: unmarshalling a hash's marshalled text, into any receiver, restores the hash without error |
| Hashes.MarshalUnmarshal | database/block.go:13-20 | reverse round trip: 64 lower-case hex characters unmarshal without error, and marshalling the result returns the same text |
| Hashes.UnmarshalEmpty | database/block.go:17-20 | empty text is accepted and leaves the receiver as it was, so a zero receiver stays the zero hash |
| Blocks.NewBlock | database/block.go:40-43 | the block's header carries exactly the given parent, number and time, and its payload is the given transactions unchanged and in order |
| Blocks.BlockHash | database/block.go:45-51 | the block's hash is SHA-256 of its JSON encoding; the error result never arises |
| Blocks.BlockHashDeterministic | database/block.go:45-51 | a block's hash depends only on the block: equal blocks, or blocks with equal encodings, hash equally |
| Ledger.Apply | database/state.go:137-150 | a reward always succeeds and credits `to`; any other transaction fails iff its value exceeds the sender's balance (a missing account reads 0), otherwise it moves the value from `from` to `to`, and a self-transfer changes nothing; every other account is unchanged, and the written accounts become keys |
| Ledger.ApplyConserves | database/state.go:137-150 | the sum of all balances grows by the value of an applied reward and is unchanged by an applied transfer |
| Ledger.ReplayAppend | database/state.go:64-77 | replaying a log in two parts equals replaying it whole, and an error in the first part is final |
| Ledger.ReplayAccount | database/state.go:64-77 | after a successful replay, each account's balance plus its debits equals its starting balance plus its credits |
| Ledger.ReplayTotal | database/state.go:64-77 | after a successful replay, the sum of balances is the genesis sum plus the rewards minted |
| Ledger.RejectedAbortsReplay | database/state.go:74-76 | a transaction rejected at its point in the log makes the whole replay fail |
| Ledger.FailedReplayHasRejected | database/state.go:74-76 | a failed replay names the position of a transaction rejected at its point in the log, with everything before it accepted |
| Ledger.ReplayFailsAtRejected | database/state.go:64-77 | replay fails iff some transaction is rejected against the balances that the transactions before it produce |
| Ledger.LatestSnapshot | database/state.go:87-89 | the getter returns the snapshot the state holds, which `Persist` returns on success |
| Ledger.Add | database/state.go:92-100 | `Add` fails iff `apply` rejects the transaction, and a failure leaves the state exactly as it was; on success the balances change as `apply` says, the transaction is appended at the end of the mempool, and log and snapshot are untouched |
| Ledger.Persist | database/state.go:103-133 | success iff no file step fails. On success the mempool has moved, in order, to the end of the log, the mempool is empty, and the returned snapshot is the current one, which is the digest of the whole log unless the mempool was empty (then nothing changes). A failure at transaction `i` leaves `mempool[i..]` pending and `mempool[..i]` logged; a snapshot failure also leaves transaction `i` logged. Balances never change |
| Ledger.NewStateFromDisk | database/state.go:50-85 | construction succeeds iff replaying the log from the genesis balances succeeds, and the state holds the replayed balances, an empty mempool, the log and its snapshot |
| Ledger.AddKeepsConsistent | database/state.go:92-100 | `Add`, accepted or rejected, keeps the live balances equal to the replay of log plus mempool from genesis |
| Ledger.PersistedLogReplays | database/state.go:103-133 | after any sequence of `Add` calls from a consistent state, a log holding the old log followed by the mempool replays to the live balances, so a restart reproduces the ledger |
| Ledger.MigrationBlock0 | cmd/tok/migrate.go:24-32 | from `owner: 1000000`, the first migration block leaves `owner: 1000700` |
| Ledger.MigrationBlock1Start | cmd/tok/migrate.go:44-47 | the first three transactions of the second block give `owner: 998801, harsh: 1999` |
| Ledger.MigrationBlock1End | cmd/tok/migrate.go:48-50 | the last three give `owner: 999451, harsh: 949, ishan: 1000` |
| Ledger.MigrationBlock1 | cmd/tok/migrate.go:40-52 | the second block as a whole takes `owner: 1000700` to `owner: 999451, harsh: 949, ishan: 1000` |
| Ledger.MigrationBlock2 | cmd/tok/migrate.go:60-67 | the third block's reward brings `owner` to 1024151, other balances unchanged |
| Ledger.OverdraftRejected | database/state.go:143-145 | a 2000 transfer from an account holding 500 is rejected with `InsufficientBalance` |
| BlockLog.GetBlocksAfter | database/database.go:9-40 | the scan agrees with the slicing definition: an error if any line is malformed, otherwise the blocks strictly after the first record keyed with the hash, or none when no record is |
| BlockLog.AfterFirstMatch | database/database.go:29-37 | the answer is exactly the records after the first match, in file order; the match itself is excluded, and later records whose key repeats the hash are included |
| BlockLog.NoMatchIsEmpty | database/database.go:29-39 | an unknown hash yields an empty answer without error |
| BlockLog.LastMatchIsEmpty | database/database.go:29-39 | when the only match is the last record, the answer is empty too, so it cannot be told apart from an unknown hash |
| BlockLog.MalformedAborts | database/database.go:23-27 | one undecodable line anywhere aborts the query with an error |
| BlockLog.ZeroHashAsWritten | database/database.go:34-36 | as written, a non-empty log of real content hashes answers the zero hash with no blocks |
| BlockLog.BlocksAfterFromGenesis | database/database.go:9-40 | corrected query: malformed lines are still an error, the zero hash yields every block in the log, and any other hash gets the answer as written |
| BlockLog.FromGenesisReturnsAll | database/database.go:9-40 | with the correction, asking for the blocks after the zero hash returns the whole log, block `j` being record `j`'s block |
| Peers.TcpAddress | node/node.go:41-44 | the address is the ip, a colon, and decimal digits whose value is the port |
| Peers.DecimalValue | node/node.go:43 | `%d` of a number reads back as that number |
| Peers.TcpAddressInjective | node/node.go:41-44 | two peers share a map key iff they have the same ip and the same port |
| Peers.NewPeerNode | node/node.go:58-61 | the peer carries exactly the given ip, port and flags |
| Peers.New | node/node.go:46-56 | a new node's only known peer is the bootstrap peer, stored under its own address |
| Peers.AddPeer | node/node.go:107-109 | the entry under the peer's address becomes the peer, no other entry changes, and keying by address is preserved |
| Peers.RemovePeer | node/node.go:111-115 | only the entry under the peer's address is removed (an absent one is a no-op), the rest is unchanged, and keying by address is preserved |
| Peers.IsKnownPeer | node/node.go:117-125 | a peer with the node's own ip and port is known; any other is known iff its address is a key of the map |
| Peers.RemovePeerIdempotent | node/node.go:111-115 | removing a peer twice is the same as removing it once |
| Peers.KnownAfterAddUnknownAfterRemove | node/node.go:107-125 | the node itself is always known; a peer is known right after being added, and a peer other than the node is unknown right after being removed |
| Peers.KnownMeansSameAddress | node/node.go:117-125 | in a map keyed by address, a peer other than the node is known iff some stored peer has its ip and port |
| Peers.OtherPeerMissesSelf | node/node.go:117-125 | a peer with a different ip or port never has the node's own address as its key |
| Sync.Lookup | node/sync.go:132 | Go's map read: a present key gives the stored peer, and a missing key gives the zero `PeerNode` (empty ip, port 0, both flags false) instead of an error |
| Sync.JoinKnownPeers | node/sync.go:96-143 | a connected peer is a no-op; a failed call or a non-empty error leaves the node unchanged and is an error; otherwise the peer's entry is rewritten with `connected` set to the answer's `Success`, which decides the error. No key is removed, and keying by address is preserved |
| Sync.SyncBlocks | node/sync.go:68-94 | no import and no error when the peer's hash is empty, or when the peer is at block 0 and the local chain is not empty; otherwise a failed fetch is an error, and the ledger becomes what `AddBlocks` makes of the blocks after the local latest hash, with `AddBlocks`' error |
| Sync.SyncKnownPeers | node/sync.go:191-200 | discovery only adds: known entries are unchanged, every reported peer is known afterwards, and each new entry is a reported peer other than the node, under its own address and not connected |
| Sync.SyncKnownPeersSkipsSelf | node/sync.go:191-200 | discovery never adds an entry under the node's own address |
| Sync.SyncKnownPeersAllKnown | node/sync.go:191-200 | when every reported peer is already known (or is the node itself), discovery leaves the node exactly as it was |
| Sync.SyncKnownPeersIdempotent | node/sync.go:191-200 | merging the same report twice gives the same peer map as merging it once |
| Sync.SyncPeer | node/sync.go:32-65 | the node itself is skipped. A failed status query removes just that peer and leaves the ledger alone. A failed handshake call changes nothing. A failed join keeps what `joinKnownPeers` wrote and does nothing else. After a successful join, a block-sync failure keeps the imported ledger state and skips the peer merge, and a full success imports and then merges the reported peers. No peer is removed once the status answered. For a peer stored under its own address, every other entry is unchanged and its own entry keeps all fields but `connected` |
| Sync.DoSync | node/sync.go:30-66 | over the map's entries, each visited once under its own address: the node's identity is unchanged, keying by address is preserved, and a peer leaves the map only when it was visited, is not the node, and its own status query failed |
| Sync.DoSyncKeepsEntries | node/sync.go:30-66 | no known entry is overwritten: a peer whose every visit got a status answer is still known after the pass, with every field but `connected` as before |
| Sync.DoSyncKeepsSelf | node/sync.go:30-66 | a pass never removes the node's own address |
| Sync.DoSyncReachableKeepsPeers | node/sync.go:39-45 | when every peer answers its status query, no known peer is removed |
| Sync.ServeAnswersQuery | node/http_routes.go:87-103 | the hash the node sends as hex text in the fetch URL decodes, on the peer, back to the same hash; the peer answers with the blocks its log query returns, or with an empty block list when the query fails |
| Sync.CorruptLogImportsNothing | node/sync.go:87-93 | a peer whose log has an undecodable line answers the fetch with an error body; the fetch still succeeds, `AddBlocks` is called with no blocks, and its result is the sync result |
| Sync.FreshNodeImport | node/sync.go:86-93 | a node with no blocks, syncing from a peer with blocks, hands `AddBlocks` nothing under the query as written, and the peer's whole log under the corrected query; the zero hash travels as hex text and reaches the peer's query unchanged |

## Left out

- **HTTP and JSON.**
  - HTTP transport, URL building, handlers and response decoding (`queryPeerStatus`, `fetchBlocksFromPeer`, `readRes`, `node/http_routes.go`) are left out because they are I/O. Their outcomes are the inputs in `Sync.PeerResponses`. A failure there means only a failed GET or an undecodable body. An error the peer reports (`writeErrRes`, status 500) still decodes, to a zero answer: for a block fetch, that is an empty block list (`Sync.Serve`).
  - JSON encoding and SHA-256 are stand-in function parameters. The model does not check the real hash functions.
- **Timing and concurrency.**
  - `Node.sync`'s 45-second ticker and its context cancellation are timing, not logic; `Sync.DoSync` is one tick.
  - Concurrent access to the ledger from the HTTP handlers and the sync loop is not modelled.
- **Files and start-up.**
  - Opening, seeking, reading and closing files, and `getBlocksDbFilePath`, are left out. Their contents are sequences of records. Only the failures of `Persist` are modelled, as its `Ledger.Fault` input.
  - Loading the genesis file, and `Node.Run`, are start-up plumbing.
- **Ledger methods the modelled files do not define.** `State.LatestBlock`, `LatestBlockHash`, `AddBlock`, `AddBlocks` and `NextBlockNumber` are not defined in `database/state.go`, so `node/sync.go` reaches them through `Sync.LedgerApi` with no validation rule assumed. The same holds for the `NewStateFromDisk(dataDir)` signature `node/node.go` uses. As a result, the block-level checks and the two-node convergence scenario are not modelled.
- Ledger.NewStateFromDisk: its "succeeds iff the replay succeeds" holds only when every file step works. The failures of `os.Getwd`, `loadGenesis` and `OpenFile` (database/state.go:39-58) and of the closing `doSnapshot` (database/state.go:79-82) are not modelled. A scanner error, such as a line over bufio's 64 KiB limit, ends the loop silently, because `scanner.Err()` is only checked inside the loop. Construction then succeeds on a prefix of the log; this is not modelled either.
- Ledger.NewStateFromDisk: takes the log as already-parsed transactions. The source ignores the `json.Unmarshal` error of a log line and applies whatever it partially decoded. The bytes-to-transaction decoding is not modelled.
- BlockLog.GetBlocksAfter: the `OpenFile` failure (database/database.go:10-13) is not modelled. Neither is a scanner error, which ends the loop silently and yields a truncated answer with no error, because `scanner.Err()` is only checked inside the loop.
- Hashes.UnmarshalText: decodes a sequence of characters, where Go receives `[]byte`. For text with non-ASCII characters, the character reported by `InvalidByte` and the length arithmetic differ from Go's. Success and the decoded bytes agree.
- Ledger.Apply: Go's `uint` balances wrap around on overflow, and balances here are unbounded. A credit past 2^64 − 1 is not modelled.
- Sync.SyncBlocks: the local block number and `newBlocksCount` are computed and only logged, and their `uint64` underflow is therefore not modelled.
- Sync.DoSync: visits the entries present when the pass starts, in a given order. Each is visited once, under its own address (`Sync.VisitOrder`). Go leaves the order unspecified and may or may not visit entries added during the pass; visiting those is not modelled. Removals during the pass only ever hit the peer being visited.
- Sync.SyncKnownPeers: a reported peer list is taken in the order Go's map iteration produced it. That order only matters when two reported entries share an address.
- Ledger.Persist: `json.Marshal` of a transaction cannot fail in practice. It is still offered as a failing step, like the write and the snapshot.
- `Tx.isReward`, `NewTx`, `Hash.IsEmpty` and `Hash.Hex` are not in the modelled files. `isReward`, `IsEmpty` and `Hex` are taken as described above; `NewTx` is not needed, because transactions are built directly as `Blocks.Tx` values.

## Findings

| source | as written | input that shows it | evidently intended | confidence | as-written member | corrected member |
|---|---|---|---|---|---|---|
| database/database.go:34-36 | `GetBlocksAfter` collects only after a record whose key equals the hash. A node with no blocks asks with the zero hash, which no record has, so it gets nothing. | A log with one record of non-zero key and the zero hash: the answer is empty, so `AddBlocks` receives no blocks and the fresh node never catches up (`Sync.FreshNodeImport`) | The zero hash means "from the start of the chain" and returns every block | not executed | BlockLog.ZeroHashAsWritten | BlockLog.FromGenesisReturnsAll |
