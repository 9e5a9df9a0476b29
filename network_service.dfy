/** network/Service.java: the peer registry shared by the client and server
    services, the /24 host sweep, the directed-broadcast address and the
    file-socket notification text. */
module NetworkService {
  import opened JavaLang

  /** A value kept in a peer's status store (strings, flags and numbers). */
  datatype StatusValue = Text(text: string) | Flag(flag: bool) | Number(number: int)

  /** A device on the network. It is identified by its address; the handshake
      updates `isSecure` and `keyStore` in place, and `touch` records that the
      peer was seen again (`touches` stands for its last-seen timestamp). */
  class Peer {
    const ipAddress: string
    const port: int
    var isSecure: bool
    var keyStore: map<string, StatusValue>
    var touches: nat

    constructor (ipAddress: string, port: int)
      ensures this.ipAddress == ipAddress && this.port == port
      ensures !isSecure && keyStore == map[] && touches == 0
    {
      this.ipAddress := ipAddress;
      this.port := port;
      isSecure := false;
      keyStore := map[];
      touches := 0;
    }

    method Touch()
      modifies this`touches
      ensures touches == old(touches) + 1
    {
      touches := touches + 1;
    }
  }

  /** The registry part of a network service: peers keyed by address. */
  class Service {
    var peers: map<string, Peer>

    /** Every entry is stored under its own address, so no address is held twice. */
    ghost predicate Valid()
      reads this
    {
      forall ip :: ip in peers ==> peers[ip].ipAddress == ip
    }

    constructor ()
      ensures Valid() && peers == map[]
    {
      peers := map[];
    }

    /** Adds `p` unless a peer with its address is known; a known one is touched instead. */
    method AddPeer(p: Peer) returns (added: bool)
      requires Valid()
      modifies this, if p.ipAddress in peers then {peers[p.ipAddress]} else {}
      ensures Valid()
      ensures added <==> p.ipAddress !in old(peers)
      ensures added ==> peers == old(peers)[p.ipAddress := p]
      ensures !added ==> peers == old(peers)
      ensures !added ==> peers[p.ipAddress].touches == old(peers[p.ipAddress].touches) + 1
      ensures !added ==> peers[p.ipAddress].isSecure == old(peers[p.ipAddress].isSecure)
      ensures !added ==> peers[p.ipAddress].keyStore == old(peers[p.ipAddress].keyStore)
    {
      if p.ipAddress !in peers {
        peers := peers[p.ipAddress := p];
        added := true;
      } else {
        peers[p.ipAddress].Touch();
        added := false;
      }
    }

    /** Forgets the peer with `p`'s address, if there is one. */
    method RemovePeer(p: Peer)
      requires Valid()
      modifies this
      ensures Valid()
      ensures peers == old(peers) - {p.ipAddress}
    {
      if p.ipAddress in peers {
        peers := peers - {p.ipAddress};
      }
    }

    /** A new list holding every stored peer once (a sequence is a value, so later
        changes to the registry do not reach it). */
    method GetPeers() returns (list: seq<Peer>)
      requires Valid()
      ensures |list| == |peers|
      ensures forall q :: q in list <==> q in peers.Values
      ensures forall i, j :: 0 <= i < j < |list| ==> list[i] != list[j]
    {
      list := [];
      var left := peers.Keys;
      while left != {}
        invariant left <= peers.Keys
        invariant |list| + |left| == |peers|
        invariant forall q :: q in list <==> exists ip :: ip in peers.Keys - left && peers[ip] == q
        invariant forall i :: 0 <= i < |list| ==> list[i].ipAddress !in left && list[i].ipAddress in peers
        invariant forall i, j :: 0 <= i < j < |list| ==> list[i] != list[j]
        decreases |left|
      {
        var ip :| ip in left;
        list := list + [peers[ip]];
        left := left - {ip};
      }
      assert peers.Keys - left == peers.Keys;
      assert |peers.Keys| == |peers|;
    }
  }

  // ------------------------------------------------------------------ host sweep

  /** The /24 prefix of a dotted address: the first three pieces of a four-piece
      address, the text itself when it has three pieces, nothing otherwise. */
  function SubnetPrefix(subnet: string): Option<string> {
    var pieces := Split(Trim(subnet), '.');
    if |pieces| == 4 then Some(pieces[0] + "." + pieces[1] + "." + pieces[2])
    else if |pieces| != 3 then None
    else Some(subnet)
  }

  /** The address probed at step `i` of the sweep. */
  function Host(prefix: string, i: int): string {
    prefix + "." + IntToString(i)
  }

  /** The candidates prefix.1 .. prefix.253 in ascending order. */
  function Candidates(prefix: string): (r: seq<string>)
    ensures |r| == 253
    ensures forall k :: 0 <= k < 253 ==> r[k] == Host(prefix, k + 1)
  {
    seq(253, k => Host(prefix, k + 1))
  }

  /** The subsequence of `hosts` the reachability oracle accepts, order kept. */
  function ReachableOnes(hosts: seq<string>, reachable: string -> bool): seq<string> {
    if hosts == [] then []
    else
      var last := hosts[|hosts| - 1];
      ReachableOnes(hosts[..|hosts| - 1], reachable) + (if reachable(last) then [last] else [])
  }

  lemma ReachableOnesSnoc(hosts: seq<string>, h: string, reachable: string -> bool)
    ensures ReachableOnes(hosts + [h], reachable)
      == ReachableOnes(hosts, reachable) + (if reachable(h) then [h] else [])
  {
    assert (hosts + [h])[..|hosts|] == hosts;
  }

  lemma {:induction false} ReachableOnesIsSubset(hosts: seq<string>, reachable: string -> bool)
    ensures |ReachableOnes(hosts, reachable)| <= |hosts|
    ensures forall h :: h in ReachableOnes(hosts, reachable) <==> h in hosts && reachable(h)
  {
    if hosts != [] {
      ReachableOnesIsSubset(hosts[..|hosts| - 1], reachable);
      assert hosts == hosts[..|hosts| - 1] + [hosts[|hosts| - 1]];
    }
  }

  /** checkHosts: probes prefix.1 .. prefix.253 one after another; a probe that
      fails or throws counts as unreachable. */
  method CheckHosts(subnet: string, reachable: string -> bool) returns (hosts: seq<string>)
    ensures SubnetPrefix(subnet).None? ==> hosts == []
    ensures SubnetPrefix(subnet).Some? ==> hosts == ReachableOnes(Candidates(SubnetPrefix(subnet).value), reachable)
  {
    var given := SubnetPrefix(subnet);
    if given.None? {
      return [];
    }
    hosts := Sweep(given.value, reachable);
  }

  /** The probing loop of checkHosts over prefix.1 .. prefix.253. */
  method Sweep(prefix: string, reachable: string -> bool) returns (hosts: seq<string>)
    ensures hosts == ReachableOnes(Candidates(prefix), reachable)
  {
    hosts := [];
    ghost var all := Candidates(prefix);
    var i := 1;
    while i < 254
      invariant 1 <= i <= 254
      invariant hosts == ReachableOnes(all[..i - 1], reachable)
    {
      var host := Host(prefix, i);
      assert host == all[i - 1];
      assert all[..i] == all[..i - 1] + [host];
      ReachableOnesSnoc(all[..i - 1], host, reachable);
      if reachable(host) {
        hosts := hosts + [host];
      }
      i := i + 1;
    }
    assert all[..253] == all;
  }

  /** The sweep returns at most 253 addresses, each a reachable candidate. */
  lemma CheckHostsBound(prefix: string, reachable: string -> bool)
    ensures |ReachableOnes(Candidates(prefix), reachable)| <= 253
    ensures forall h :: h in ReachableOnes(Candidates(prefix), reachable) <==>
      reachable(h) && exists k :: 1 <= k <= 253 && h == Host(prefix, k)
  {
    var c := Candidates(prefix);
    ReachableOnesIsSubset(c, reachable);
    forall h | h in c ensures exists k :: 1 <= k <= 253 && h == Host(prefix, k) {
      var j :| 0 <= j < 253 && c[j] == h;
      assert h == Host(prefix, j + 1);
    }
    forall h, k | 1 <= k <= 253 && h == Host(prefix, k) ensures h in c {
      assert c[k - 1] == h;
    }
  }

  /** A four-piece address and its three-piece prefix sweep the same hosts. */
  lemma PrefixOfFourPieces(a: string, b: string, c: string, d: string)
    requires '.' !in a && '.' !in b && '.' !in c && '.' !in d && d != ""
    requires Trim(a + "." + b + "." + c + "." + d) == a + "." + b + "." + c + "." + d
    ensures SubnetPrefix(a + "." + b + "." + c + "." + d) == Some(a + "." + b + "." + c)
  {
    var s := a + "." + b + "." + c + "." + d;
    SplitFourFields(a, b, c, d);
  }

  lemma SplitFourFields(a: string, b: string, c: string, d: string)
    requires '.' !in a && '.' !in b && '.' !in c && '.' !in d && d != ""
    ensures Split(a + "." + b + "." + c + "." + d, '.') == [a, b, c, d]
  {
    var s := a + "." + b + "." + c + "." + d;
    Regroup(a, b, c, d);
    FourFields(a, b, c, d);
    assert Fields(s, '.') == [a, b, c, d];
    assert DropTrailingEmpty([a, b, c, d]) == [a, b, c, d];
  }

  lemma FourFields(a: string, b: string, c: string, d: string)
    requires '.' !in a && '.' !in b && '.' !in c && '.' !in d
    ensures Fields(a + "." + (b + "." + (c + "." + d)), '.') == [a, b, c, d]
  {
    var t := b + "." + (c + "." + d);
    calc {
      Fields(a + "." + t, '.');
    == { FieldsAfterPiece(a, t); }
      [a] + Fields(t, '.');
    == { ThreeFields(b, c, d); }
      [a] + [b, c, d];
    ==
      [a, b, c, d];
    }
  }

  lemma ThreeFields(b: string, c: string, d: string)
    requires '.' !in b && '.' !in c && '.' !in d
    ensures Fields(b + "." + (c + "." + d), '.') == [b, c, d]
  {
    var t := c + "." + d;
    calc {
      Fields(b + "." + t, '.');
    == { FieldsAfterPiece(b, t); }
      [b] + Fields(t, '.');
    == { FieldsAfterPiece(c, d); }
      [b] + ([c] + Fields(d, '.'));
    ==
      [b, c, d];
    }
  }

  lemma Regroup(a: string, b: string, c: string, d: string)
    ensures a + "." + b + "." + c + "." + d == a + "." + (b + "." + (c + "." + d))
  {
  }

  /** The fields of `x.rest` are `x` followed by the fields of `rest`. */
  lemma FieldsAfterPiece(x: string, rest: string)
    requires '.' !in x
    ensures Fields(x + "." + rest, '.') == [x] + Fields(rest, '.')
  {
    var s := x + "." + rest;
    assert s[|x|] == '.';
    assert forall i :: 0 <= i < |x| ==> s[i] == x[i];
    assert IndexOf(s, '.') == |x|;
    assert s[..|x|] == x;
    assert s[|x| + 1..] == rest;
  }

  // ------------------------------------------------------------------ broadcast

  /** The directed broadcast address of a network: the host part set to all ones. */
  function Broadcast(ip: bv32, netmask: bv32): bv32 {
    (ip & netmask) | !netmask
  }

  /** Bit by bit: where the mask is one the broadcast address has the address's
      bit, where the mask is zero it has a one. */
  lemma BroadcastBits(ip: bv32, netmask: bv32)
    ensures Broadcast(ip, netmask) & netmask == ip & netmask
    ensures Broadcast(ip, netmask) & !netmask == !netmask
  {
  }

  /** Byte `k` of a 32-bit value, counted from the least significant end. */
  function Quad(x: bv32, k: nat): bv8
    requires k < 4
  {
    if k == 0 then (x & 0xFF) as bv8
    else if k == 1 then ((x >> 8) & 0xFF) as bv8
    else if k == 2 then ((x >> 16) & 0xFF) as bv8
    else ((x >> 24) & 0xFF) as bv8
  }

  /** The loop's shift by k * 8 picks byte k. */
  lemma QuadAt(x: bv32, k: nat)
    requires k < 4
    ensures ((x >> (k * 8)) & 0xFF) as bv8 == Quad(x, k)
  {
    if k == 0 {
      assert x >> (k * 8) == x;
    } else if k == 1 {
      assert x >> (k * 8) == x >> 8;
    } else if k == 2 {
      assert x >> (k * 8) == x >> 16;
    } else {
      assert x >> (k * 8) == x >> 24;
    }
  }

  /** getBroadcastAddress: the four bytes of the broadcast address, low byte first. */
  method GetBroadcastAddress(ip: bv32, netmask: bv32) returns (quads: array<bv8>)
    ensures fresh(quads) && quads.Length == 4
    ensures forall k :: 0 <= k < 4 ==> quads[k] == Quad(Broadcast(ip, netmask), k)
  {
    var broadcast := (ip & netmask) | !netmask;
    quads := new bv8[4];
    for k := 0 to 4
      invariant forall j :: 0 <= j < k ==> quads[j] == Quad(broadcast, j)
    {
      QuadAt(broadcast, k);
      quads[k] := ((broadcast >> (k * 8)) & 0xFF) as bv8;
    }
  }

  /** The four bytes put back together give the broadcast address. */
  lemma QuadsRebuild(x: bv32)
    ensures (Quad(x, 0) as bv32) | ((Quad(x, 1) as bv32) << 8) | ((Quad(x, 2) as bv32) << 16)
      | ((Quad(x, 3) as bv32) << 24) == x
  {
  }

  // ------------------------------------------------------------------ notification

  const FILE_SOCKET: string := "FILE_SOCKET"

  /** buildSocketNotification: the command name directly followed by the port. */
  function BuildSocketNotification(port: int): string {
    FILE_SOCKET + IntToString(port)
  }

  /** The port can be read back from the notification: the command name is a
      fixed prefix and the rest is the decimal port. */
  lemma SocketNotificationRoundTrip(port: int)
    ensures |BuildSocketNotification(port)| > |FILE_SOCKET|
    ensures BuildSocketNotification(port)[..|FILE_SOCKET|] == FILE_SOCKET
    ensures ParseInt(BuildSocketNotification(port)[|FILE_SOCKET|..]) == Some(port)
  {
    var s := BuildSocketNotification(port);
    assert s[|FILE_SOCKET|..] == IntToString(port);
    IntToStringRoundTrip(port);
  }
}
