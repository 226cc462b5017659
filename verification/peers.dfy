/** The known-peer set of node/node.go: peers are keyed by their `"ip:port"`
    address, and the node always counts itself as known. */
module Peers {
  import opened Common

  datatype PeerNode = PeerNode(ip: string, port: uint64, isBootstrap: bool, connected: bool)

  /** The node's identity and its known peers. The data directory and the
      ledger handle are not needed by the peer operations and are left out. */
  datatype Node = Node(ip: string, port: uint64, knownPeers: map<string, PeerNode>)

  // ---------------------------------------------------------------------
  // Addresses
  // ---------------------------------------------------------------------

  predicate IsDigit(c: char) {
    '0' <= c <= '9'
  }

  function DigitValue(c: char): nat
    requires IsDigit(c)
  {
    c as int - '0' as int
  }

  /** The value of a string of decimal digits. */
  function DigitsValue(s: string): nat
    requires forall k :: 0 <= k < |s| ==> IsDigit(s[k])
  {
    if s == [] then 0
    else DigitsValue(s[..|s| - 1]) * 10 + DigitValue(s[|s| - 1])
  }

  /** `%d` of a natural number: its decimal digits, most significant first, with
      no leading zero. */
  function Decimal(n: nat): (r: string)
    ensures |r| > 0
    ensures forall k :: 0 <= k < |r| ==> IsDigit(r[k])
    ensures |r| > 1 ==> r[0] != '0'
  {
    if n < 10 then ['0' + n as char]
    else Decimal(n / 10) + ['0' + (n % 10) as char]
  }

  /** Reading the digits back gives the number. */
  lemma {:induction false} DecimalValue(n: nat)
    ensures DigitsValue(Decimal(n)) == n
  {
    if n >= 10 {
      var d := Decimal(n);
      assert d[..|d| - 1] == Decimal(n / 10);
      DecimalValue(n / 10);
    }
  }

  /** `PeerNode.TcpAddress`: the ip, a colon, then the port in decimal. */
  function TcpAddress(p: PeerNode): (r: string)
    ensures |r| > |p.ip| && r[..|p.ip|] == p.ip && r[|p.ip|] == ':'
    ensures forall k :: |p.ip| < k < |r| ==> IsDigit(r[k])
    ensures DigitsValue(r[|p.ip| + 1..]) == p.port
  {
    var r := p.ip + ":" + Decimal(p.port);
    assert r[|p.ip| + 1..] == Decimal(p.port);
    DecimalValue(p.port);
    r
  }

  /** Two peers share a map key exactly when they have the same ip and port:
      the port's digits contain no colon, so the last colon splits the key back
      into the two. */
  lemma TcpAddressInjective(p: PeerNode, q: PeerNode)
    ensures TcpAddress(p) == TcpAddress(q) <==> p.ip == q.ip && p.port == q.port
  {
    var a, b := TcpAddress(p), TcpAddress(q);
    if a == b {
      if |p.ip| < |q.ip| {
        assert false;
      } else if |q.ip| < |p.ip| {
        assert false;
      }
      assert p.ip == a[..|p.ip|] == b[..|q.ip|] == q.ip;
      assert a[|p.ip| + 1..] == b[|q.ip| + 1..];
    }
  }

  /** The key the node's own address has in the map. */
  function SelfAddress(n: Node): string {
    TcpAddress(PeerNode(n.ip, n.port, false, false))
  }

  /** Whether `p` has the node's own ip and port. */
  predicate IsSelf(n: Node, p: PeerNode) {
    p.ip == n.ip && p.port == n.port
  }

  /** Every peer is stored under its own address. */
  ghost predicate WellKeyed(m: map<string, PeerNode>) {
    forall k :: k in m ==> TcpAddress(m[k]) == k
  }

  // ---------------------------------------------------------------------
  // Construction
  // ---------------------------------------------------------------------

  /** `NewPeerNode`. */
  function NewPeerNode(ip: string, port: uint64, isBootstrap: bool, connected: bool): (p: PeerNode)
    ensures p.ip == ip && p.port == port && p.isBootstrap == isBootstrap && p.connected == connected
  {
    PeerNode(ip, port, isBootstrap, connected)
  }

  /** `New`: a node whose only known peer is the bootstrap peer, under its own
      address. */
  function New(ip: string, port: uint64, bootstrap: PeerNode): (n: Node)
    ensures n.ip == ip && n.port == port
    ensures n.knownPeers.Keys == {TcpAddress(bootstrap)}
    ensures n.knownPeers[TcpAddress(bootstrap)] == bootstrap
    ensures WellKeyed(n.knownPeers)
  {
    Node(ip, port, map[TcpAddress(bootstrap) := bootstrap])
  }

  // ---------------------------------------------------------------------
  // Membership
  // ---------------------------------------------------------------------

  /** `Node.AddPeer`: the entry under the peer's address becomes the peer; every
      other entry is unchanged. */
  function AddPeer(n: Node, p: PeerNode): (r: Node)
    ensures r.ip == n.ip && r.port == n.port
    ensures r.knownPeers.Keys == n.knownPeers.Keys + {TcpAddress(p)}
    ensures r.knownPeers[TcpAddress(p)] == p
    ensures forall k :: k in n.knownPeers && k != TcpAddress(p) ==> r.knownPeers[k] == n.knownPeers[k]
    ensures WellKeyed(n.knownPeers) ==> WellKeyed(r.knownPeers)
  {
    n.(knownPeers := n.knownPeers[TcpAddress(p) := p])
  }

  /** `Node.RemovePeer`: only the entry under the peer's address goes; deleting
      an absent key is a no-op. */
  function RemovePeer(n: Node, p: PeerNode): (r: Node)
    ensures r.ip == n.ip && r.port == n.port
    ensures r.knownPeers.Keys == n.knownPeers.Keys - {TcpAddress(p)}
    ensures forall k :: k in r.knownPeers ==> r.knownPeers[k] == n.knownPeers[k]
    ensures WellKeyed(n.knownPeers) ==> WellKeyed(r.knownPeers)
  {
    n.(knownPeers := n.knownPeers - {TcpAddress(p)})
  }

  /** `Node.IsKnownPeer`: a peer with the node's own ip and port is always
      known; any other is known when its address is a key of the map. */
  predicate IsKnownPeer(n: Node, p: PeerNode)
    ensures IsSelf(n, p) ==> IsKnownPeer(n, p)
    ensures !IsSelf(n, p) ==> (IsKnownPeer(n, p) <==> TcpAddress(p) in n.knownPeers)
  {
    IsSelf(n, p) || TcpAddress(p) in n.knownPeers
  }

  /** Removing is idempotent. */
  lemma RemovePeerIdempotent(n: Node, p: PeerNode)
    ensures RemovePeer(RemovePeer(n, p), p) == RemovePeer(n, p)
  {
  }

  /** The node itself is known whatever the map holds; any other peer is known
      right after it is added and unknown right after it is removed. */
  lemma KnownAfterAddUnknownAfterRemove(n: Node, p: PeerNode)
    ensures IsSelf(n, p) ==> IsKnownPeer(n, p)
    ensures IsKnownPeer(AddPeer(n, p), p)
    ensures !IsSelf(n, p) ==> !IsKnownPeer(RemovePeer(n, p), p)
  {
  }

  /** In a map that stores each peer under its own address, a peer other than
      the node is known exactly when some stored peer has its ip and port. */
  lemma KnownMeansSameAddress(n: Node, p: PeerNode)
    requires WellKeyed(n.knownPeers)
    requires !IsSelf(n, p)
    ensures IsKnownPeer(n, p) <==>
              exists k :: k in n.knownPeers && n.knownPeers[k].ip == p.ip && n.knownPeers[k].port == p.port
  {
    if IsKnownPeer(n, p) {
      var k := TcpAddress(p);
      TcpAddressInjective(n.knownPeers[k], p);
    }
    if exists k :: k in n.knownPeers && n.knownPeers[k].ip == p.ip && n.knownPeers[k].port == p.port {
      var k :| k in n.knownPeers && n.knownPeers[k].ip == p.ip && n.knownPeers[k].port == p.port;
      TcpAddressInjective(n.knownPeers[k], p);
    }
  }

  /** Removing or adding a peer other than the node never touches the node's
      own address. */
  lemma OtherPeerMissesSelf(n: Node, p: PeerNode)
    requires !IsSelf(n, p)
    ensures TcpAddress(p) != SelfAddress(n)
  {
    TcpAddressInjective(p, PeerNode(n.ip, n.port, false, false));
  }
}
