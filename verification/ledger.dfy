/** The balance ledger of database/state.go: the single-transaction rule `apply`,
    the mempool (`Add`), the append-only transaction log (`Persist`) and the
    replay that rebuilds balances from it at start-up (`NewStateFromDisk`). */
module Ledger {
  import opened Common
  import opened Hashes
  import opened Blocks

  /** Go's `map[Account]uint`; credits are not checked for overflow there and are
      unbounded here. */
  type Balances = map<Account, nat>

  /** Go's `Balances[a]`: an account missing from the map reads as zero. */
  function Balance(b: Balances, a: Account): nat {
    if a in b then b[a] else 0
  }

  datatype LedgerError = InsufficientBalance

  // ---------------------------------------------------------------------
  // The single-transaction rule
  // ---------------------------------------------------------------------

  /** `State.apply`. A reward credits `to` and never fails. Any other transaction
      fails, changing nothing, when its value exceeds the sender's balance;
      otherwise it debits `from` and credits `to` (a transfer to oneself changes
      no balance). No other account changes. Go's map writes leave `to`, and for
      a transfer also `from`, present in the map afterwards. */
  function Apply(b: Balances, tx: Tx): (r: Result<Balances, LedgerError>)
    ensures IsReward(tx) ==> r.Ok?
    ensures !IsReward(tx) ==> (r.Err? <==> tx.value > Balance(b, tx.from))
    ensures r.Ok? && IsReward(tx) ==>
              Balance(r.value, tx.to) == Balance(b, tx.to) + tx.value
    ensures r.Ok? && !IsReward(tx) && tx.from != tx.to ==>
              && Balance(r.value, tx.from) == Balance(b, tx.from) - tx.value
              && Balance(r.value, tx.to) == Balance(b, tx.to) + tx.value
    ensures r.Ok? && !IsReward(tx) && tx.from == tx.to ==>
              Balance(r.value, tx.from) == Balance(b, tx.from)
    ensures r.Ok? ==> forall a :: a != tx.to && (IsReward(tx) || a != tx.from) ==>
              Balance(r.value, a) == Balance(b, a)
    ensures r.Ok? ==>
              r.value.Keys == b.Keys + {tx.to} + (if IsReward(tx) then {} else {tx.from})
  {
    if IsReward(tx) then
      Ok(b[tx.to := Balance(b, tx.to) + tx.value])
    else if tx.value > Balance(b, tx.from) then
      Err(InsufficientBalance)
    else
      var debited := b[tx.from := Balance(b, tx.from) - tx.value];
      Ok(debited[tx.to := Balance(debited, tx.to) + tx.value])
  }

  // ---------------------------------------------------------------------
  // Conservation
  // ---------------------------------------------------------------------

  /** The sum of all balances. */
  ghost function Total(b: Balances): nat
    decreases |b|
  {
    if b == map[] then 0
    else
      var a :| a in b;
      assert |b - {a}| < |b| by { assert (b - {a}).Keys < b.Keys; }
      b[a] + Total(b - {a})
  }

  /** Any account can be split off the sum. */
  lemma {:induction false} TotalRemove(b: Balances, a: Account)
    requires a in b
    ensures Total(b) == b[a] + Total(b - {a})
    decreases |b|
  {
    var x :| x in b && Total(b) == b[x] + Total(b - {x});
    if x != a {
      assert |b - {x}| < |b| by { assert (b - {x}).Keys < b.Keys; }
      assert |b - {a}| < |b| by { assert (b - {a}).Keys < b.Keys; }
      TotalRemove(b - {x}, a);
      TotalRemove(b - {a}, x);
      assert b - {x} - {a} == b - {a} - {x};
    }
  }

  /** Overwriting one account's balance changes the sum by the difference. */
  lemma TotalUpdate(b: Balances, a: Account, v: nat)
    ensures Total(b[a := v]) + Balance(b, a) == Total(b) + v
  {
    TotalRemove(b[a := v], a);
    assert b[a := v] - {a} == b - {a};
    if a in b {
      TotalRemove(b, a);
    } else {
      assert b - {a} == b;
    }
  }

  /** A successful transfer preserves the sum of all balances; a reward raises
      it by exactly the reward. */
  lemma ApplyConserves(b: Balances, tx: Tx)
    requires Apply(b, tx).Ok?
    ensures Total(Apply(b, tx).value) == Total(b) + (if IsReward(tx) then tx.value else 0)
  {
    if IsReward(tx) {
      TotalUpdate(b, tx.to, Balance(b, tx.to) + tx.value);
    } else {
      var debited := b[tx.from := Balance(b, tx.from) - tx.value];
      TotalUpdate(b, tx.from, Balance(b, tx.from) - tx.value);
      TotalUpdate(debited, tx.to, Balance(debited, tx.to) + tx.value);
    }
  }

  // ---------------------------------------------------------------------
  // Replay
  // ---------------------------------------------------------------------

  /** The left fold of `Apply` over `txs` from `b`; the first rejected
      transaction aborts it. This is the reference the replay loop and the
      live ledger are measured against. */
  function Replay(b: Balances, txs: seq<Tx>): Result<Balances, LedgerError>
    decreases |txs|
  {
    if txs == [] then Ok(b)
    else
      match Apply(b, txs[0])
      case Err(e) => Err(e)
      case Ok(next) => Replay(next, txs[1..])
  }

  /** Replaying a concatenation replays the first part, then the second from
      where the first ended. */
  lemma {:induction false} ReplayAppend(b: Balances, xs: seq<Tx>, ys: seq<Tx>)
    ensures Replay(b, xs + ys) ==
              match Replay(b, xs)
              case Err(e) => Err(e)
              case Ok(mid) => Replay(mid, ys)
    decreases |xs|
  {
    if xs == [] {
      assert xs + ys == ys;
    } else {
      assert (xs + ys)[0] == xs[0];
      assert (xs + ys)[1..] == xs[1..] + ys;
      match Apply(b, xs[0])
      case Err(e) =>
      case Ok(next) => ReplayAppend(next, xs[1..], ys);
    }
  }

  /** The sum of the rewards in `txs`. */
  function Minted(txs: seq<Tx>): nat {
    if txs == [] then 0
    else (if IsReward(txs[0]) then txs[0].value else 0) + Minted(txs[1..])
  }

  /** What `txs` credits to account `a`, rewards included. */
  function Credits(txs: seq<Tx>, a: Account): nat {
    if txs == [] then 0
    else (if txs[0].to == a then txs[0].value else 0) + Credits(txs[1..], a)
  }

  /** What `txs` debits from account `a`: the transfers it sends. */
  function Debits(txs: seq<Tx>, a: Account): nat {
    if txs == [] then 0
    else (if !IsReward(txs[0]) && txs[0].from == a then txs[0].value else 0) + Debits(txs[1..], a)
  }

  /** A replay that succeeds leaves every account at its starting balance plus
      what the transactions credit it minus what they debit it; since balances
      are natural numbers, no account ever goes below zero on the way. */
  lemma {:induction false} ReplayAccount(b: Balances, txs: seq<Tx>, a: Account)
    requires Replay(b, txs).Ok?
    ensures Balance(Replay(b, txs).value, a) + Debits(txs, a) == Balance(b, a) + Credits(txs, a)
    decreases |txs|
  {
    if txs != [] {
      var next := Apply(b, txs[0]).value;
      ReplayAccount(next, txs[1..], a);
    }
  }

  /** A replay that succeeds raises the sum of all balances by exactly the
      rewards it contains. */
  lemma {:induction false} ReplayTotal(b: Balances, txs: seq<Tx>)
    requires Replay(b, txs).Ok?
    ensures Total(Replay(b, txs).value) == Total(b) + Minted(txs)
    decreases |txs|
  {
    if txs != [] {
      ApplyConserves(b, txs[0]);
      ReplayTotal(Apply(b, txs[0]).value, txs[1..]);
    }
  }

  /** A transaction rejected by the balances the transactions before it
      produced makes the whole replay fail. */
  lemma RejectedAbortsReplay(b: Balances, txs: seq<Tx>, k: nat)
    requires k < |txs|
    requires Replay(b, txs[..k]).Ok?
    requires Apply(Replay(b, txs[..k]).value, txs[k]).Err?
    ensures Replay(b, txs).Err?
  {
    ReplayAppend(b, txs[..k], txs[k..]);
    assert txs[..k] + txs[k..] == txs;
    assert txs[k..][0] == txs[k];
  }

  /** A failed replay has a first rejected transaction: the ones before it
      replay successfully and it is rejected by their result. */
  lemma {:induction false} FailedReplayHasRejected(b: Balances, txs: seq<Tx>) returns (k: nat)
    requires Replay(b, txs).Err?
    ensures k < |txs|
    ensures Replay(b, txs[..k]).Ok?
    ensures Apply(Replay(b, txs[..k]).value, txs[k]).Err?
    decreases |txs|
  {
    assert txs[..0] == [];
    if Apply(b, txs[0]).Err? {
      k := 0;
    } else {
      var next := Apply(b, txs[0]).value;
      var j := FailedReplayHasRejected(next, txs[1..]);
      k := j + 1;
      assert txs[..k][0] == txs[0];
      assert txs[..k][1..] == txs[1..][..j];
      assert txs[1..][j] == txs[k];
    }
  }

  /** A replay fails exactly when some transaction is rejected by the balances
      the transactions before it produced. */
  lemma ReplayFailsAtRejected(b: Balances, txs: seq<Tx>)
    ensures Replay(b, txs).Err? <==>
              exists k :: 0 <= k < |txs| && Replay(b, txs[..k]).Ok? &&
                          Apply(Replay(b, txs[..k]).value, txs[k]).Err?
  {
    if Replay(b, txs).Err? {
      var k := FailedReplayHasRejected(b, txs);
    }
    if exists k :: 0 <= k < |txs| && Replay(b, txs[..k]).Ok? &&
                   Apply(Replay(b, txs[..k]).value, txs[k]).Err? {
      var k :| 0 <= k < |txs| && Replay(b, txs[..k]).Ok? &&
               Apply(Replay(b, txs[..k]).value, txs[k]).Err?;
      RejectedAbortsReplay(b, txs, k);
    }
  }

  // ---------------------------------------------------------------------
  // The ledger state
  // ---------------------------------------------------------------------

  /** The digest of the log file: SHA-256 over its bytes. */
  type Snapshot = Hash

  /** `State`: live balances, the mempool, the transactions written to the log
      file (as parsed transactions, in file order) and the latest snapshot. */
  datatype State = State(balances: Balances, mempool: seq<Tx>, log: seq<Tx>, snapshot: Snapshot)

  /** `State.LatestSnapshot`. */
  function LatestSnapshot(s: State): (r: Snapshot)
    ensures r == s.snapshot
  {
    s.snapshot
  }

  /** `State.Add`. A transaction `Apply` rejects leaves the state exactly as it
      was; an accepted one updates the live balances by `Apply` and is appended
      at the end of the mempool. The log is never touched. */
  function Add(s: State, tx: Tx): (r: Step<State, LedgerError>)
    ensures r.err.Some? <==> !IsReward(tx) && tx.value > Balance(s.balances, tx.from)
    ensures r.err.Some? ==> r.state == s
    ensures r.err.None? ==>
              && r.state.mempool == s.mempool + [tx]
              && r.state.log == s.log
              && r.state.snapshot == s.snapshot
              && Apply(s.balances, tx) == Ok(r.state.balances)
  {
    match Apply(s.balances, tx)
    case Err(e) => Step(s, Some(e))
    case Ok(b) => Step(s.(balances := b, mempool := s.mempool + [tx]), None)
  }

  /** The steps of one iteration of `Persist` that can fail. */
  datatype Stage = Marshal | Write | TakeSnapshot

  /** The first I/O step of `Persist` that fails: the mempool position it was
      working on and the step. */
  datatype Fault = Fault(index: nat, stage: Stage)

  datatype PersistError = IoError

  /** `State.Persist`. Each mempool transaction, in order, is written to the log,
      the snapshot is retaken over the whole log, and the transaction is dropped
      from the front of the mempool. `digest` stands for hashing the log file and
      `fault` for the first failing file operation, if any. On success the whole
      mempool has moved to the end of the log and the returned snapshot is the
      current one; an empty mempool writes nothing. On a failure the transactions
      before the failing one have moved, and a snapshot failure leaves the
      failing transaction both written and still in the mempool. */
  method Persist(s: State, digest: seq<Tx> -> Snapshot, fault: Option<Fault>)
    returns (s': State, r: Result<Snapshot, PersistError>)
    ensures s'.balances == s.balances
    ensures r.Ok? <==> fault.None? || fault.value.index >= |s.mempool|
    ensures r.Ok? ==>
              && s'.mempool == []
              && s'.log == s.log + s.mempool
              && r.value == s'.snapshot
              && (s.mempool == [] ==> s' == s)
              && (s.mempool != [] ==> r.value == digest(s'.log))
    ensures r.Err? ==>
              var i := fault.value.index;
              && i < |s.mempool|
              && s'.mempool == s.mempool[i..]
              && s'.log == s.log + s.mempool[..i] +
                           (if fault.value.stage == TakeSnapshot then [s.mempool[i]] else [])
  {
    var mempool := s.mempool;
    s' := s;
    var i := 0;
    while i < |mempool|
      invariant 0 <= i <= |mempool|
      invariant s'.balances == s.balances
      invariant s'.mempool == mempool[i..]
      invariant s'.log == s.log + mempool[..i]
      invariant i == 0 ==> s' == s
      invariant i > 0 ==> s'.snapshot == digest(s'.log)
      invariant fault.Some? ==> fault.value.index >= i
    {
      var failing := fault.Some? && fault.value.index == i;
      if failing && fault.value.stage != TakeSnapshot {
        return s', Err(IoError);
      }
      s' := s'.(log := s'.log + [mempool[i]]);
      if failing {
        return s', Err(IoError);
      }
      s' := s'.(snapshot := digest(s'.log));
      s' := s'.(mempool := s'.mempool[1..]);
      assert mempool[..i + 1] == mempool[..i] + [mempool[i]];
      i := i + 1;
    }
    return s', Ok(s'.snapshot);
  }

  /** `NewStateFromDisk`: start from the genesis balances and apply every logged
      transaction in file order; the first rejected one aborts construction. The
      result has an empty mempool and the snapshot of the log. The log is taken
      as already-parsed transactions: the source ignores the JSON decoding error
      of a log line, which this model does not represent. */
  method NewStateFromDisk(genesis: Balances, log: seq<Tx>, digest: seq<Tx> -> Snapshot)
    returns (r: Result<State, LedgerError>)
    ensures r.Ok? <==> Replay(genesis, log).Ok?
    ensures r.Ok? ==> r.value == State(Replay(genesis, log).value, [], log, digest(log))
  {
    var balances := genesis;
    var i := 0;
    assert log[0..] == log;
    while i < |log|
      invariant 0 <= i <= |log|
      invariant Replay(genesis, log) == Replay(balances, log[i..])
    {
      var next := Apply(balances, log[i]);
      assert log[i..][1..] == log[i + 1..];
      if next.Err? {
        return Err(next.error);
      }
      balances := next.value;
      i := i + 1;
    }
    assert log[i..] == [];
    return Ok(State(balances, [], log, digest(log)));
  }

  // ---------------------------------------------------------------------
  // Replay reproduces the live balances
  // ---------------------------------------------------------------------

  /** The live balances are what replaying the log followed by the mempool
      from the genesis balances produces. `NewStateFromDisk` establishes it. */
  ghost predicate Consistent(genesis: Balances, s: State) {
    Replay(genesis, s.log + s.mempool) == Ok(s.balances)
  }

  /** `Add` keeps the live balances consistent with log and mempool. */
  lemma AddKeepsConsistent(genesis: Balances, s: State, tx: Tx)
    requires Consistent(genesis, s)
    ensures Consistent(genesis, Add(s, tx).state)
  {
    var r := Add(s, tx);
    if r.err.None? {
      ReplayAppend(genesis, s.log + s.mempool, [tx]);
      assert s.log + (s.mempool + [tx]) == (s.log + s.mempool) + [tx];
      assert [tx][1..] == [];
    }
  }

  /** Submitting transactions one after another with `Add`, rejected ones
      included. */
  function AddAll(s: State, txs: seq<Tx>): State
    decreases |txs|
  {
    if txs == [] then s else AddAll(Add(s, txs[0]).state, txs[1..])
  }

  /** After any sequence of `Add` calls from a consistent state, a `Persist` that
      drains the mempool leaves a log whose replay from the genesis balances
      reproduces the live balances: restarting the node yields the same ledger. */
  lemma {:induction false} PersistedLogReplays(genesis: Balances, s: State, txs: seq<Tx>, s': State)
    requires Consistent(genesis, s)
    requires s'.balances == AddAll(s, txs).balances
    requires s'.log == AddAll(s, txs).log + AddAll(s, txs).mempool
    ensures Replay(genesis, s'.log) == Ok(s'.balances)
    decreases |txs|
  {
    if txs == [] {
    } else {
      AddKeepsConsistent(genesis, s, txs[0]);
      PersistedLogReplays(genesis, Add(s, txs[0]).state, txs[1..], s');
    }
  }

  // ---------------------------------------------------------------------
  // The migration program's transactions as a concrete trace
  // ---------------------------------------------------------------------

  /** The migration program's first block, from a genesis of one million for
      `owner`: the transfer from `owner` to `owner` changes nothing and the
      reward adds 700. */
  lemma MigrationBlock0()
    ensures Replay(map["owner" := 1000000],
                   [Tx("owner", "owner", 3, ""), Tx("owner", "owner", 700, "reward")])
            == Ok(map["owner" := 1000700])
  {
    var g: Balances := map["owner" := 1000000];
    assert !IsReward(Tx("owner", "owner", 3, ""));
    assert Balance(g, "owner") == 1000000;
    assert g["owner" := 999997]["owner" := 1000000] == g;
    assert Apply(g, Tx("owner", "owner", 3, "")) == Ok(g);
    assert IsReward(Tx("owner", "owner", 700, "reward"));
    assert g["owner" := 1000700] == map["owner" := 1000700];
    assert Apply(g, Tx("owner", "owner", 700, "reward")) == Ok(map["owner" := 1000700]);
  }

  /** The first three transactions of the migration program's second block. */
  lemma MigrationBlock1Start()
    ensures Replay(map["owner" := 1000700],
                   [Tx("owner", "harsh", 2000, ""), Tx("owner", "owner", 100, "reward"),
                    Tx("harsh", "owner", 1, "")])
            == Ok(map["owner" := 998801, "harsh" := 1999])
  {
    assert "owner"[0] != "harsh"[0];
    var b0: Balances := map["owner" := 1000700];
    var b1: Balances := map["owner" := 998700, "harsh" := 2000];
    var b2: Balances := map["owner" := 998800, "harsh" := 2000];
    assert Balance(b0["owner" := 998700], "harsh") == 0;
    assert b0["owner" := 998700]["harsh" := 2000] == b1;
    assert Apply(b0, Tx("owner", "harsh", 2000, "")) == Ok(b1);
    assert IsReward(Tx("owner", "owner", 100, "reward"));
    assert Balance(b1, "owner") == 998700;
    assert b1["owner" := 998800] == b2;
    assert Apply(b1, Tx("owner", "owner", 100, "reward")) == Ok(b2);
    assert b2["harsh" := 1999]["owner" := 998801] == map["owner" := 998801, "harsh" := 1999];
  }

  /** The last three transactions of the migration program's second block. */
  lemma MigrationBlock1End()
    ensures Replay(map["owner" := 998801, "harsh" := 1999],
                   [Tx("harsh", "ishan", 1000, ""), Tx("harsh", "owner", 50, ""),
                    Tx("owner", "owner", 600, "reward")])
            == Ok(map["owner" := 999451, "harsh" := 949, "ishan" := 1000])
  {
    assert "owner"[0] != "harsh"[0] && "owner"[0] != "ishan"[0] && "harsh"[0] != "ishan"[0];
    var b3: Balances := map["owner" := 998801, "harsh" := 1999];
    var b4: Balances := map["owner" := 998801, "harsh" := 999, "ishan" := 1000];
    var b5: Balances := map["owner" := 998851, "harsh" := 949, "ishan" := 1000];
    assert Balance(b3["harsh" := 999], "ishan") == 0;
    assert b3["harsh" := 999]["ishan" := 1000] == b4;
    assert Apply(b3, Tx("harsh", "ishan", 1000, "")) == Ok(b4);
    assert b4["harsh" := 949]["owner" := 998851] == b5;
    assert Apply(b4, Tx("harsh", "owner", 50, "")) == Ok(b5);
    assert IsReward(Tx("owner", "owner", 600, "reward"));
    assert Balance(b5, "owner") == 998851;
    assert b5["owner" := 999451] == map["owner" := 999451, "harsh" := 949, "ishan" := 1000];
  }

  /** The migration program's second block as a whole: `owner` ends at 999451,
      `harsh` at 949 and `ishan` at 1000. */
  lemma MigrationBlock1()
    ensures Replay(map["owner" := 1000700],
                   [Tx("owner", "harsh", 2000, ""), Tx("owner", "owner", 100, "reward"),
                    Tx("harsh", "owner", 1, ""), Tx("harsh", "ishan", 1000, ""),
                    Tx("harsh", "owner", 50, ""), Tx("owner", "owner", 600, "reward")])
            == Ok(map["owner" := 999451, "harsh" := 949, "ishan" := 1000])
  {
    var first := [Tx("owner", "harsh", 2000, ""), Tx("owner", "owner", 100, "reward"),
                  Tx("harsh", "owner", 1, "")];
    var last := [Tx("harsh", "ishan", 1000, ""), Tx("harsh", "owner", 50, ""),
                 Tx("owner", "owner", 600, "reward")];
    MigrationBlock1Start();
    MigrationBlock1End();
    ReplayAppend(map["owner" := 1000700], first, last);
    assert first + last == [Tx("owner", "harsh", 2000, ""), Tx("owner", "owner", 100, "reward"),
                            Tx("harsh", "owner", 1, ""), Tx("harsh", "ishan", 1000, ""),
                            Tx("harsh", "owner", 50, ""), Tx("owner", "owner", 600, "reward")];
  }

  /** The migration program's third block: a reward of 24700 to `owner`. */
  lemma MigrationBlock2()
    ensures Replay(map["owner" := 999451, "harsh" := 949, "ishan" := 1000],
                   [Tx("owner", "owner", 24700, "reward")])
            == Ok(map["owner" := 1024151, "harsh" := 949, "ishan" := 1000])
  {
    var b6: Balances := map["owner" := 999451, "harsh" := 949, "ishan" := 1000];
    assert IsReward(Tx("owner", "owner", 24700, "reward"));
    assert Balance(b6, "owner") == 999451;
    assert b6["owner" := 1024151] == map["owner" := 1024151, "harsh" := 949, "ishan" := 1000];
    assert Apply(b6, Tx("owner", "owner", 24700, "reward")) == Ok(b6["owner" := 1024151]);
  }

  /** A transfer of 2000 from an account holding 500 is rejected. */
  lemma OverdraftRejected()
    ensures Replay(map["owner" := 500], [Tx("owner", "harsh", 2000, "")]) == Err(InsufficientBalance)
  {
    assert Balance(map["owner" := 500], "owner") == 500;
  }
}
