/** One pass of the peer synchronisation in node/sync.go. Every answer a peer
    gives over HTTP is an input, and the ledger is reached only through the
    methods the pass calls, so a pass is a deterministic step on the node's
    known-peer map and on an abstract ledger. */
module Sync {
  import opened Common
  import opened Hashes
  import opened Blocks
  import opened Peers
  import BlockLog

  /** Peers as they arrive in a JSON answer: `connected` is not exported, so
      it never decodes as true. */
  type ReportedPeers = s: seq<PeerNode> | forall i :: 0 <= i < |s| ==> !s[i].connected

  /** `StatusRes`: a peer's latest hash and number and the peers it knows. The
      known-peer map arrives as its entries in the order Go's map iteration
      visits them. */
  datatype StatusRes = StatusRes(hash: Hash, number: uint64, knownPeers: ReportedPeers)

  /** `AddPeerRes`. */
  datatype AddPeerRes = AddPeerRes(success: bool, error: string)

  /** The add-peer call: `HandshakeFailed` stands for a failed GET or an
      undecodable body. */
  datatype Handshake = HandshakeFailed | HandshakeReply(res: AddPeerRes)

  /** Everything one peer answers during a pass: its status, its answer to the
      add-peer call, and its answer to a request for the blocks after a hash.
      `None` stands only for a failed GET or an undecodable body: an error the
      peer reports with status 500 still decodes, to a zero answer. */
  datatype PeerResponses = PeerResponses(
    status: Option<StatusRes>,
    handshake: Handshake,
    blocksAfter: Hash -> Option<seq<Block>>)

  datatype SyncError = Unreachable | PeerRejected(message: string) | NotJoined | ImportFailed(message: string)

  /** The ledger methods a pass calls, `LatestBlockHash` and `AddBlocks`. They
      are not defined in database/state.go and are not part of this model, so
      no validation rule is assumed: `addBlocks` returns the ledger after the
      call and its error, if any. */
  datatype LedgerApi<!L> = LedgerApi(
    latestHash: L -> Hash,
    addBlocks: (L, seq<Block>) -> Step<L, string>)

  /** The node and its ledger. */
  datatype SyncState<L> = SyncState(node: Node, ledger: L)

  /** Go's zero `PeerNode`. */
  const ZeroPeer := PeerNode("", 0, false, false)

  /** Go's `m[k]` on the known-peer map: the stored peer, or the zero
      `PeerNode` for a missing key, which is not an error. */
  function Lookup(m: map<string, PeerNode>, k: string): (r: PeerNode)
    ensures k in m ==> r == m[k]
    ensures k !in m ==> r.ip == "" && r.port == 0 && !r.isBootstrap && !r.connected
  {
    if k in m then m[k] else ZeroPeer
  }

  // ---------------------------------------------------------------------
  // joinKnownPeers
  // ---------------------------------------------------------------------

  /** `Node.joinKnownPeers`. An already connected peer needs nothing. Otherwise
      the peer's add-peer endpoint is called; a transport failure or a non-empty
      `Error` leaves the map untouched and is returned. Otherwise the peer's
      entry is stored again with `connected` set to `Success`, and a refusal is
      still an error. */
  function JoinKnownPeers(n: Node, peer: PeerNode, hs: Handshake): (r: Step<Node, SyncError>)
    ensures r.state.ip == n.ip && r.state.port == n.port
    ensures n.knownPeers.Keys <= r.state.knownPeers.Keys
    ensures WellKeyed(n.knownPeers) ==> WellKeyed(r.state.knownPeers)
    ensures peer.connected ==> r == Step(n, None)
    ensures !peer.connected && (hs.HandshakeFailed? || hs.res.error != "") ==>
              r.state == n && r.err.Some?
    ensures !peer.connected && hs.HandshakeReply? && hs.res.error == "" ==>
              (r.err.None? <==> hs.res.success)
    ensures !peer.connected && hs.HandshakeReply? && hs.res.error == "" &&
            WellKeyed(n.knownPeers) && TcpAddress(peer) in n.knownPeers ==>
              var k := TcpAddress(peer);
              r.state.knownPeers == n.knownPeers[k := n.knownPeers[k].(connected := hs.res.success)]
  {
    if peer.connected then Step(n, None)
    else
      match hs
      case HandshakeFailed => Step(n, Some(Unreachable))
      case HandshakeReply(res) =>
        if res.error != "" then Step(n, Some(PeerRejected(res.error)))
        else
          var known := Lookup(n.knownPeers, TcpAddress(peer)).(connected := res.success);
          var joined := AddPeer(n, known);
          Step(joined, if res.success then None else Some(NotJoined))
  }

  // ---------------------------------------------------------------------
  // syncBlocks
  // ---------------------------------------------------------------------

  /** `Node.syncBlocks`. Nothing is imported when the peer's latest hash is empty,
      or when the peer reports block 0 while the local latest hash is not empty.
      Otherwise the blocks the peer sends after the local latest hash go to
      `AddBlocks` in the order received, and its error is the result. The local
      block number and the count of new blocks computed from it are only
      logged and bound nothing, so they are not modelled. */
  function SyncBlocks<L>(api: LedgerApi<L>, l: L, status: StatusRes,
                         blocksAfter: Hash -> Option<seq<Block>>): (r: Step<L, SyncError>)
    ensures IsEmpty(status.hash) ==> r == Step(l, None)
    ensures status.number == 0 && !IsEmpty(api.latestHash(l)) ==> r == Step(l, None)
    ensures !IsEmpty(status.hash) && !(status.number == 0 && !IsEmpty(api.latestHash(l))) ==>
              match blocksAfter(api.latestHash(l))
              case None => r == Step(l, Some(Unreachable))
              case Some(blocks) =>
                r.state == api.addBlocks(l, blocks).state &&
                (r.err.None? <==> api.addBlocks(l, blocks).err.None?)
  {
    if IsEmpty(status.hash) then Step(l, None)
    else if status.number == 0 && !IsEmpty(api.latestHash(l)) then Step(l, None)
    else
      match blocksAfter(api.latestHash(l))
      case None => Step(l, Some(Unreachable))
      case Some(blocks) =>
        var imported := api.addBlocks(l, blocks);
        match imported.err
        case None => Step(imported.state, None)
        case Some(e) => Step(imported.state, Some(ImportFailed(e)))
  }

  // ---------------------------------------------------------------------
  // syncKnownPeers
  // ---------------------------------------------------------------------

  /** `Node.syncKnownPeers`: every reported peer not yet known is added. It only
      adds, never overwrites a known entry, and every reported peer is known
      afterwards; each new entry is a reported peer other than the node itself,
      under its own address. The source always returns nil. */
  function SyncKnownPeers(n: Node, reported: ReportedPeers): (r: Node)
    decreases |reported|
    ensures r.ip == n.ip && r.port == n.port
    ensures forall k :: k in n.knownPeers ==> k in r.knownPeers && r.knownPeers[k] == n.knownPeers[k]
    ensures forall i :: 0 <= i < |reported| ==> IsKnownPeer(r, reported[i])
    ensures forall k :: k in r.knownPeers && k !in n.knownPeers ==>
              exists i :: 0 <= i < |reported| && !IsSelf(n, reported[i]) &&
                          TcpAddress(reported[i]) == k && r.knownPeers[k] == reported[i]
    ensures forall k :: k in r.knownPeers && k !in n.knownPeers ==> !r.knownPeers[k].connected
    ensures WellKeyed(n.knownPeers) ==> WellKeyed(r.knownPeers)
  {
    if reported == [] then n
    else
      var p := reported[0];
      var next := if IsKnownPeer(n, p) then n else AddPeer(n, p);
      var r := SyncKnownPeers(next, reported[1..]);
      assert forall i :: 1 <= i < |reported| ==> reported[i] == reported[1..][i - 1];
      r
  }

  /** Discovery never adds an entry under the node's own address. */
  lemma SyncKnownPeersSkipsSelf(n: Node, reported: ReportedPeers)
    requires SelfAddress(n) !in n.knownPeers
    ensures SelfAddress(n) !in SyncKnownPeers(n, reported).knownPeers
  {
    var r := SyncKnownPeers(n, reported);
    if SelfAddress(n) in r.knownPeers {
      var i :| 0 <= i < |reported| && !IsSelf(n, reported[i]) &&
               TcpAddress(reported[i]) == SelfAddress(n);
      OtherPeerMissesSelf(n, reported[i]);
    }
  }

  /** When every reported peer is already known, discovery changes nothing. */
  lemma {:induction false} SyncKnownPeersAllKnown(n: Node, reported: ReportedPeers)
    requires forall i :: 0 <= i < |reported| ==> IsKnownPeer(n, reported[i])
    ensures SyncKnownPeers(n, reported) == n
    decreases |reported|
  {
    if reported != [] {
      assert forall i :: 0 <= i < |reported[1..]| ==> reported[1..][i] == reported[i + 1];
      SyncKnownPeersAllKnown(n, reported[1..]);
    }
  }

  /** Merging the same report a second time changes nothing. */
  lemma SyncKnownPeersIdempotent(n: Node, reported: ReportedPeers)
    ensures SyncKnownPeers(SyncKnownPeers(n, reported), reported) == SyncKnownPeers(n, reported)
  {
    SyncKnownPeersAllKnown(SyncKnownPeers(n, reported), reported);
  }

  // ---------------------------------------------------------------------
  // doSync
  // ---------------------------------------------------------------------

  /** The body of the `doSync` loop for one peer. The node itself is skipped.
      A failed status query evicts the peer. Then the peer is joined; a failure
      there abandons the rest of the peer's pass, and so does a failure to
      import its blocks; otherwise the peers it reports are merged in. */
  function SyncPeer<L>(api: LedgerApi<L>, s: SyncState<L>, peer: PeerNode, net: PeerResponses): (r: SyncState<L>)
    ensures r.node.ip == s.node.ip && r.node.port == s.node.port
    ensures WellKeyed(s.node.knownPeers) ==> WellKeyed(r.node.knownPeers)
    ensures IsSelf(s.node, peer) ==> r == s
    ensures !IsSelf(s.node, peer) && net.status.None? ==>
              r.ledger == s.ledger && r.node == RemovePeer(s.node, peer)
    ensures net.status.Some? ==> s.node.knownPeers.Keys <= r.node.knownPeers.Keys
    ensures !IsSelf(s.node, peer) && net.status.Some? && !peer.connected &&
            (net.handshake.HandshakeFailed? || net.handshake.res.error != "") ==>
              r == s
    ensures !IsSelf(s.node, peer) && net.status.Some? ==>
              var j := JoinKnownPeers(s.node, peer, net.handshake);
              var sb := SyncBlocks(api, s.ledger, net.status.value, net.blocksAfter);
              && (j.err.Some? ==> r == SyncState(j.state, s.ledger))
              && (j.err.None? && sb.err.Some? ==> r == SyncState(j.state, sb.state))
              && (j.err.None? && sb.err.None? ==>
                    r == SyncState(SyncKnownPeers(j.state, net.status.value.knownPeers), sb.state))
    ensures WellKeyed(s.node.knownPeers) && StoredAsItself(s.node.knownPeers, peer) ==>
              && (forall k :: k in s.node.knownPeers && k != TcpAddress(peer) ==>
                    k in r.node.knownPeers && r.node.knownPeers[k] == s.node.knownPeers[k])
              && (IsSelf(s.node, peer) || net.status.Some? ==>
                    TcpAddress(peer) in r.node.knownPeers &&
                    r.node.knownPeers[TcpAddress(peer)].(connected := peer.connected) == peer)
  {
    if IsSelf(s.node, peer) then s
    else
      match net.status
      case None => SyncState(RemovePeer(s.node, peer), s.ledger)
      case Some(status) =>
        var joined := JoinKnownPeers(s.node, peer, net.handshake);
        if joined.err.Some? then SyncState(joined.state, s.ledger)
        else
          var synced := SyncBlocks(api, s.ledger, status, net.blocksAfter);
          if synced.err.Some? then SyncState(joined.state, synced.state)
          else SyncState(SyncKnownPeers(joined.state, status.knownPeers), synced.state)
  }

  /** The map holds `p` under its own address. */
  predicate StoredAsItself(m: map<string, PeerNode>, p: PeerNode) {
    TcpAddress(p) in m && m[TcpAddress(p)] == p
  }

  /** `peers` are entries of the map, each under its own address and each
      visited once: what `range` over the map yields for the entries it has not
      reached yet. */
  ghost predicate VisitOrder(m: map<string, PeerNode>, peers: seq<PeerNode>) {
    && WellKeyed(m)
    && (forall i :: 0 <= i < |peers| ==> StoredAsItself(m, peers[i]))
    && (forall i, j :: 0 <= i < j < |peers| ==> TcpAddress(peers[i]) != TcpAddress(peers[j]))
  }

  /** `Node.doSync`: the loop over the known-peer map, visiting the entries
      present when the pass starts, in iteration order; `net` gives each peer's
      answers. A peer leaves the map only when its own status query failed in
      this pass (`DoSyncKeepsEntries`: no entry is overwritten either). */
  function DoSync<L>(api: LedgerApi<L>, s: SyncState<L>, peers: seq<PeerNode>,
                     net: PeerNode -> PeerResponses): (r: SyncState<L>)
    requires VisitOrder(s.node.knownPeers, peers)
    decreases |peers|
    ensures r.node.ip == s.node.ip && r.node.port == s.node.port
    ensures WellKeyed(r.node.knownPeers)
    ensures forall k :: k in s.node.knownPeers && k !in r.node.knownPeers ==>
              exists i :: 0 <= i < |peers| && !IsSelf(s.node, peers[i]) &&
                          net(peers[i]).status.None? && TcpAddress(peers[i]) == k
  {
    if peers == [] then s
    else
      var next := SyncPeer(api, s, peers[0], net(peers[0]));
      VisitOrderAfterVisit(api, s, peers, net);
      var r := DoSync(api, next, peers[1..], net);
      assert forall i :: 1 <= i < |peers| ==> peers[i] == peers[1..][i - 1];
      r
  }

  /** Visiting the first peer leaves the entries of the others as they were. */
  lemma VisitOrderAfterVisit<L>(api: LedgerApi<L>, s: SyncState<L>, peers: seq<PeerNode>,
                                net: PeerNode -> PeerResponses)
    requires VisitOrder(s.node.knownPeers, peers) && peers != []
    ensures VisitOrder(SyncPeer(api, s, peers[0], net(peers[0])).node.knownPeers, peers[1..])
  {
    var next := SyncPeer(api, s, peers[0], net(peers[0]));
    forall i | 0 <= i < |peers[1..]|
      ensures StoredAsItself(next.node.knownPeers, peers[1..][i])
    {
      assert peers[1..][i] == peers[i + 1];
      assert TcpAddress(peers[i + 1]) != TcpAddress(peers[0]);
    }
    forall i, j | 0 <= i < j < |peers[1..]|
      ensures TcpAddress(peers[1..][i]) != TcpAddress(peers[1..][j])
    {
      assert peers[1..][i] == peers[i + 1] && peers[1..][j] == peers[j + 1];
    }
  }

  /** No entry is overwritten by a pass: a known peer whose every visit got an
      answer to its status query is still known afterwards, with every field
      but `connected` as it was. */
  lemma {:induction false} DoSyncKeepsEntries<L>(api: LedgerApi<L>, s: SyncState<L>, peers: seq<PeerNode>,
                                                 net: PeerNode -> PeerResponses, k: string)
    requires VisitOrder(s.node.knownPeers, peers)
    requires k in s.node.knownPeers
    requires forall i :: 0 <= i < |peers| && TcpAddress(peers[i]) == k ==> net(peers[i]).status.Some?
    ensures k in DoSync(api, s, peers, net).node.knownPeers
    ensures DoSync(api, s, peers, net).node.knownPeers[k].(connected := s.node.knownPeers[k].connected)
              == s.node.knownPeers[k]
    decreases |peers|
  {
    if peers != [] {
      var next := SyncPeer(api, s, peers[0], net(peers[0]));
      VisitOrderAfterVisit(api, s, peers, net);
      assert forall i :: 0 <= i < |peers[1..]| ==> peers[1..][i] == peers[i + 1];
      if k == TcpAddress(peers[0]) {
        assert k in next.node.knownPeers;
        assert next.node.knownPeers[k].(connected := s.node.knownPeers[k].connected) == s.node.knownPeers[k];
      } else {
        assert next.node.knownPeers[k] == s.node.knownPeers[k];
      }
      DoSyncKeepsEntries(api, next, peers[1..], net, k);
    }
  }

  /** A pass never removes the node's own address. */
  lemma DoSyncKeepsSelf<L>(api: LedgerApi<L>, s: SyncState<L>, peers: seq<PeerNode>,
                           net: PeerNode -> PeerResponses)
    requires VisitOrder(s.node.knownPeers, peers)
    requires SelfAddress(s.node) in s.node.knownPeers
    ensures SelfAddress(s.node) in DoSync(api, s, peers, net).node.knownPeers
  {
    var r := DoSync(api, s, peers, net);
    if SelfAddress(s.node) !in r.node.knownPeers {
      var i :| 0 <= i < |peers| && !IsSelf(s.node, peers[i]) &&
               net(peers[i]).status.None? && TcpAddress(peers[i]) == SelfAddress(s.node);
      OtherPeerMissesSelf(s.node, peers[i]);
    }
  }

  /** A pass in which every peer answers its status query removes no peer. */
  lemma DoSyncReachableKeepsPeers<L>(api: LedgerApi<L>, s: SyncState<L>, peers: seq<PeerNode>,
                                     net: PeerNode -> PeerResponses)
    requires VisitOrder(s.node.knownPeers, peers)
    requires forall i :: 0 <= i < |peers| ==> net(peers[i]).status.Some?
    ensures s.node.knownPeers.Keys <= DoSync(api, s, peers, net).node.knownPeers.Keys
  {
  }

  // ---------------------------------------------------------------------
  // A fresh node against a peer that serves its block log
  // ---------------------------------------------------------------------

  /** A peer answering block requests from its log with the given query. The
      fetching node sends its hash as hex text (`Hash.Hex`, taken to be the text
      `MarshalText` writes); the peer unmarshals that text into a zero `Hash`
      and runs the query on the result. A decode error or a query error is
      answered with an error body and status 500, which the fetching node
      decodes without error into an empty block list. */
  function Serve(query: (Hash, seq<BlockLog.Line>) -> Result<seq<Block>, BlockLog.LogError>,
                 log: seq<BlockLog.Line>): Hash -> Option<seq<Block>> {
    (h: Hash) =>
      var req := UnmarshalText(ZeroHash, MarshalText(h));
      if req.err.Some? then Some([])
      else match query(req.hash, log) case Ok(bs) => Some(bs) case Err(_) => Some([])
  }

  /** The hash survives the trip through the URL: the peer queries its log with
      exactly the hash the node sent, and answers with the query's blocks, or
      with no blocks when the query fails. */
  lemma {:induction false} ServeAnswersQuery(query: (Hash, seq<BlockLog.Line>) -> Result<seq<Block>, BlockLog.LogError>,
                                             log: seq<BlockLog.Line>, h: Hash)
    ensures query(h, log).Ok? ==> Serve(query, log)(h) == Some(query(h, log).value)
    ensures query(h, log).Err? ==> Serve(query, log)(h) == Some([])
  {
    UnmarshalMarshal(h, ZeroHash);
  }

  /** A peer whose block log has an undecodable line answers with an error
      body, so `AddBlocks` is called with no blocks instead of the fetch being
      reported as failed. */
  lemma CorruptLogImportsNothing<L>(api: LedgerApi<L>, l: L, status: StatusRes, log: seq<BlockLog.Line>)
    requires !IsEmpty(status.hash) && !(status.number == 0 && !IsEmpty(api.latestHash(l)))
    requires !BlockLog.AllRecords(log)
    ensures SyncBlocks(api, l, status, Serve(BlockLog.BlocksAfter, log)).state == api.addBlocks(l, []).state
    ensures (SyncBlocks(api, l, status, Serve(BlockLog.BlocksAfter, log)).err.None? <==>
             api.addBlocks(l, []).err.None?)
  {
    var h := api.latestHash(l);
    assert BlockLog.BlocksAfter(h, log).Err?;
    ServeAnswersQuery(BlockLog.BlocksAfter, log, h);
  }

  /** A node with no blocks yet asks a peer that has blocks for those after the
      zero hash. With the query as written, `AddBlocks` receives nothing, so the
      node can never catch up; with the zero hash read as the start of the chain
      it receives the peer's whole log, in order. */
  lemma FreshNodeImport<L>(api: LedgerApi<L>, l: L, status: StatusRes, log: seq<BlockLog.Line>)
    requires IsEmpty(api.latestHash(l)) && !IsEmpty(status.hash)
    requires BlockLog.AllRecords(log)
    requires forall j :: 0 <= j < |log| ==> !IsEmpty(log[j].fs.key)
    ensures SyncBlocks(api, l, status, Serve(BlockLog.BlocksAfter, log)).state
              == api.addBlocks(l, []).state
    ensures SyncBlocks(api, l, status, Serve(BlockLog.BlocksAfterFromGenesis, log)).state
              == api.addBlocks(l, BlockLog.Payloads(log)).state
  {
    if log != [] {
      BlockLog.ZeroHashAsWritten(log);
    } else {
      BlockLog.NoMatchIsEmpty(api.latestHash(l), log);
    }
    BlockLog.FromGenesisReturnsAll(log);
    ServeAnswersQuery(BlockLog.BlocksAfter, log, api.latestHash(l));
    ServeAnswersQuery(BlockLog.BlocksAfterFromGenesis, log, api.latestHash(l));
  }
}
