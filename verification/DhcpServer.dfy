// The DHCP server: the linked list of leases, the two operations that change it, and the
// handling of a message.
module DhcpServer {
  import opened Bytes
  import opened DhcpProtocol
  import opened DhcpTable
  import opened Lists

  /** A list node with the pool entry it points to. */
  class Node {
    var ip: u32
    var mac: Mac
    var timer: u32
    var dynamic: bool
    var online: bool
    var next: Node?

    constructor (ip: u32, mac: Mac)
      ensures this.ip == ip && this.mac == mac && next == null
    {
      this.ip, this.mac, timer, dynamic, online, next := ip, mac, 0, true, true, null;
    }

    function AsLease(): Lease
      reads this
    {
      Lease(ip, mac, timer, dynamic, online)
    }

    method SetTo(entry: Lease)
      modifies this`ip, this`mac, this`timer, this`dynamic, this`online
      ensures AsLease() == entry
    {
      ip, mac, timer, dynamic, online := entry.ip, entry.mac, entry.timer, entry.dynamic, entry.online;
    }

    /** The fields every successful update sets. */
    method Refresh(mac: Mac, timer: u32, dynamic: bool)
      modifies this
      ensures AsLease() == Lease(ip, mac, timer, dynamic, true) && ip == old(ip) && next == old(next)
    {
      this.mac, this.timer, this.dynamic, online := mac, timer, dynamic, true;
    }
  }

  /** The nodes form the list that starts at head. */
  ghost predicate Linked(head: Node?, nodes: seq<Node>)
    reads nodes
  {
    head == NodeAt(nodes, 0) && Chained(nodes)
  }

  ghost predicate Chained(nodes: seq<Node>)
    reads nodes
  {
    Distinct(nodes) && forall i :: 0 <= i < |nodes| ==> nodes[i].next == NodeAt(nodes, i + 1)
  }

  ghost function NodeAt(nodes: seq<Node>, k: int): Node? {
    if 0 <= k < |nodes| then nodes[k] else null
  }

  ghost function TableOf(nodes: seq<Node>): (t: seq<Lease>)
    reads nodes
    ensures |t| == |nodes| && forall i :: 0 <= i < |t| ==> t[i] == nodes[i].AsLease()
  {
    seq(|nodes|, i requires 0 <= i < |nodes| reads nodes => nodes[i].AsLease())
  }

  /** The links around a node that was put at place k. */
  ghost predicate LinkedWith(nodes: seq<Node>, x: Node, k: nat)
    reads nodes, x
  {
    && k <= |nodes| && x.next == NodeAt(nodes, k)
    && forall i :: 0 <= i < |nodes| ==> nodes[i].next == if i == k - 1 then x else NodeAt(nodes, i + 1)
  }

  lemma LinkedInserted(head: Node?, nodes: seq<Node>, x: Node, k: nat)
    requires Distinct(nodes) && x !in nodes && LinkedWith(nodes, x, k)
    requires head == if k == 0 then x else NodeAt(nodes, 0)
    ensures Linked(head, nodes[..k] + [x] + nodes[k..])
  {
    hide Distinct;
    var all := nodes[..k] + [x] + nodes[k..];
    DistinctInserted(nodes, x, k);
    forall i | 0 <= i < |all| ensures all[i].next == NodeAt(all, i + 1) {
      assert all[i] == if i < k then nodes[i] else if i == k then x else nodes[i - 1];
    }
  }

  twostate lemma SameLeases(nodes: seq<Node>)
    requires forall n :: n in nodes ==> n.AsLease() == old(n.AsLease())
    ensures TableOf(nodes) == old(TableOf(nodes))
  {
  }

  lemma LinkedDistinct(head: Node?, nodes: seq<Node>)
    requires Linked(head, nodes)
    ensures Distinct(nodes)
  {
  }

  lemma FirstOrLater(head: Node?, nodes: seq<Node>, k: nat)
    requires Linked(head, nodes) && k < |nodes|
    ensures head == nodes[k] <==> k == 0
    ensures head == nodes[0] && nodes[0].next == NodeAt(nodes, 1)
  {
  }

  twostate lemma FirstTaken(nodes: seq<Node>)
    requires old(Chained(nodes)) && nodes != [] && nodes[0].next == null
    requires forall n :: n in nodes && n != nodes[0] ==> n.next == old(n.next)
    ensures LinkedPast(nodes, 0)
  {
  }

  lemma TableSize(nodes: seq<Node>)
    ensures |TableOf(nodes)| == |nodes| && forall k :: 0 <= k < |nodes| ==> TableOf(nodes)[k] == nodes[k].AsLease()
  {
  }

  lemma TableInserted(nodes: seq<Node>, x: Node, k: nat)
    requires k == Place(TableOf(nodes), x.ip)
    ensures TableOf(nodes[..k] + [x] + nodes[k..]) == Inserted(TableOf(nodes), x.AsLease())
  {
    hide Place;
  }

  lemma TableRemoved(nodes: seq<Node>, k: nat)
    requires k < |nodes|
    ensures TableOf(Without(nodes, k)) == Without(TableOf(nodes), k)
  {
  }

  /** Changing the entry of one node. */
  lemma TableSet(nodes: seq<Node>, k: nat, before: seq<Lease>)
    requires k < |nodes| == |before|
    requires forall i :: 0 <= i < |nodes| && i != k ==> nodes[i].AsLease() == before[i]
    ensures TableOf(nodes) == before[k := nodes[k].AsLease()]
  {
  }

  lemma RemovedOwn(t: seq<Lease>, m: nat, x: Lease)
    requires m < |t|
    ensures Without(t[m := x], m) == Without(t, m)
  {
  }

  lemma RemovedSet(t: seq<Lease>, m: nat, p: nat, x: Lease)
    requires m < |t| && p < |t| && p != m
    ensures |Without(t, m)| == |t| - 1 && Without(t[p := x], m) == Without(t, m)[(if p < m then p else p - 1) := x]
  {
  }

  /** The place of a node in a list, seen from its head. */
  lemma PlaceOf(head: Node?, nodes: seq<Node>, x: Node)
    requires Linked(head, nodes)
    ensures var k := Place(TableOf(nodes), x.ip);
      && k <= |nodes| && (forall i :: 0 <= i < k ==> nodes[i].ip <= x.ip) && (k < |nodes| ==> x.ip < nodes[k].ip)
      && Distinct(nodes)
  {
  }

  /** The links once the node at place k was taken out. */
  ghost predicate LinkedPast(nodes: seq<Node>, k: nat)
    reads nodes
  {
    k < |nodes| && Distinct(nodes) && nodes[k].next == null &&
    forall i :: 0 <= i < |nodes| && i != k ==> nodes[i].next == NodeAt(nodes, if i == k - 1 then k + 1 else i + 1)
  }

  lemma LinkedRemoved(head: Node?, nodes: seq<Node>, k: nat)
    requires LinkedPast(nodes, k) && head == if k == 0 then NodeAt(nodes, 1) else NodeAt(nodes, 0)
    ensures Linked(head, Without(nodes, k)) && nodes[k].next == null
  {
    WithoutIs(nodes, k);
    hide Distinct, Without;
    var rest := Without(nodes, k);
    forall i | 0 <= i < |rest| ensures rest[i].next == NodeAt(rest, i + 1) {
    }
  }

  class Server {
    var plist: Node?
    var startIp: u32
    var endIp: u32
    var leaseEnabled: bool
    var leaseTime: u32
    var renew: bool
    var clientAddress: u32
    ghost var nodes: seq<Node>
    /** All nodes ever allocated. */
    ghost var repr: set<Node>

    ghost predicate Listed()
      reads this, nodes
    {
      Linked(plist, nodes) && forall i :: 0 <= i < |nodes| ==> nodes[i] in repr
    }

    ghost predicate Valid()
      reads this, nodes
    {
      Listed() && UniqueMacs(Table())
    }

    ghost function Table(): seq<Lease>
      reads this, nodes
    {
      TableOf(nodes)
    }

    function LeaseRange(): Range
      reads this
    {
      Range(startIp, endIp)
    }

    ghost function Now(): State
      reads this, nodes
    {
      State(Table(), renew, clientAddress)
    }

    constructor ()
      ensures Valid() && nodes == [] && Table() == [] && !leaseEnabled
    {
      plist, startIp, endIp, leaseEnabled, leaseTime, renew, clientAddress, nodes := null, 0, 0, false, 720, false, 0, [];
      repr := {};
    }

    /** init_dhcps_lease. */
    method InitLease(ip: u32)
      modifies this`startIp, this`endIp, this`leaseEnabled
      ensures LeaseRange() == InitialRange(old(leaseEnabled), old(LeaseRange()), ip)
      ensures leaseEnabled <==> old(leaseEnabled) && Accepts(old(LeaseRange()), ip)
    {
      hide Swapped;
      if leaseEnabled {
        var softapIp, start, end := Swapped(ip), Swapped(startIp), Swapped(endIp);
        if start <= softapIp && softapIp <= end {
          leaseEnabled := false;
        } else {
          softapIp := softapIp / 0x100;
          var span := ((end as int) - start) % 0x1_0000_0000;
          if start / 0x100 != softapIp || end / 0x100 != softapIp || span > DHCPS_MAX_LEASE {
            leaseEnabled := false;
          }
        }
      }
      if !leaseEnabled {
        var softapIp: int := Swapped(ip);
        var localIp: int := softapIp % 0x100;
        softapIp := softapIp - localIp;
        if localIp >= 0x80 {
          localIp := localIp - DHCPS_MAX_LEASE;
        } else {
          localIp := localIp + 1;
        }
        startIp := Swapped(softapIp + localIp);
        endIp := Swapped(softapIp + (localIp + DHCPS_MAX_LEASE - 1));
      }
    }

    /** parse_options. */
    method ParseOptions(m: Message) returns (v: Verdict)
      ensures v == DecidedFor(m, clientAddress, renew)
    {
      var options, len := m.options, m.len;
      var client := WordBytes(clientAddress);
      var kind: byte := 0;
      v := Idle;
      var i: nat := 0;
      ghost var requested: Option<u32> := None;
      while i < len
        invariant v == AddressVerdict(requested, clientAddress)
        invariant TypeFrom(options, i, len, kind) == TypeFrom(options, 0, len, 0)
        invariant RequestedFrom(options, i, len, requested) == RequestedFrom(options, 0, len, None)
        decreases len - i
      {
        var code := options(i);
        if code == 53 {
          kind := options(i + 2);
        } else if code == 50 {
          SameAddress(clientAddress, [options(i + 2), options(i + 3), options(i + 4), options(i + 5)]);
          requested := Some(AddressAt(options, i));
          if client == [options(i + 2), options(i + 3), options(i + 4), options(i + 5)] {
            v := Ack;
          } else {
            v := Nak;
          }
        } else if code == 255 {
          break;
        }
        i := i + options(i + 1) + 2;
      }
      if kind == DHCPDISCOVER {
        v := Offer;
      } else if kind == DHCPREQUEST {
        if !(v == Ack || v == Nak) {
          v := if renew then Ack else Nak;
        }
      } else if kind == DHCPDECLINE {
        v := Idle;
      } else if kind == DHCPRELEASE {
        v := Release;
      }
    }

    /** parse_msg. */
    method ParseMsg(m: Message) returns (v: Verdict)
      requires Valid()
      modifies this, repr
      ensures Valid() && forall x :: x in repr ==> x in old(repr) || fresh(x)
      ensures (Now(), v) == Parsed(old(Now()), LeaseRange(), leaseTime, m)
      ensures LeaseRange() == old(LeaseRange()) && leaseTime == old(leaseTime)
    {
      hide Valid, Updated, Left, DecidedFor, TableOf;
      if !m.cookie {
        return Idle;
      }
      v := Serve(m);
    }

    /** The part of it behind the test of the magic cookie. */
    method Serve(m: Message) returns (v: Verdict)
      requires Valid()
      modifies this, repr
      ensures Valid() && forall x :: x in repr ==> x in old(repr) || fresh(x)
      ensures LeaseRange() == old(LeaseRange()) && leaseTime == old(leaseTime)
      ensures var o := Updated(old(Table()), LeaseRange(), leaseTime, old(renew), m.chaddr, m.ciaddr);
        && v == DecidedFor(m, o.ip, o.renew) && renew == o.renew
        && Table() == (if v == Release then Left(o.table, m.chaddr, m.ciaddr, true) else o.table)
        && clientAddress == if v == Release then m.ciaddr else o.ip
    {
      hide Valid, Updated, Left, DecidedFor, TableOf;
      var client := ClientUpdate(m.chaddr, m.ciaddr);
      SetClient(client);
      v := ParseOptions(m);
      if v == Release {
        ClientLeave(m.chaddr, m.ciaddr, true);
        SetClient(m.ciaddr);
      }
    }

    method SetClient(ip: u32)
      requires Valid()
      modifies this`clientAddress
      ensures Valid() && clientAddress == ip && Table() == old(Table())
    {
      clientAddress := ip;
    }

    /** handle_dhcp: the state moves as the protocol says, and so does the reply. */
    method HandleDhcp(m: Message) returns (reply: Reply)
      requires Valid()
      modifies this, repr
      ensures Valid() && forall x :: x in repr ==> x in old(repr) || fresh(x)
      ensures LeaseRange() == old(LeaseRange()) && leaseTime == old(leaseTime)
      ensures (Now(), reply) == Handled(old(Now()), LeaseRange(), leaseTime, m)
    {
      var v := ParseMsg(m);
      reply := NoReply;
      match v {
        case Offer => reply := OfferOf(clientAddress);
        case Ack => reply := AckOf(clientAddress);
        case Nak => reply := NakOf(clientAddress);
        case _ =>
      }
    }

    /** node_insert_to_list. */
    method InsertNode(x: Node)
      requires Listed() && x !in nodes && x in repr && x.next == null
      modifies this`plist, this`nodes, repr
      ensures Listed() && Table() == Inserted(old(Table()), old(x.AsLease()))
    {
      hide Chained, Linked, LinkedWith, Distinct, Place, TableOf, NodeAt;
      ghost var k := Place(TableOf(nodes), x.ip);
      PlaceOf(plist, nodes, x);
      Attach(x, k);
      LinkedInserted(plist, nodes, x, k);
      SameLeases(nodes);
      TableInserted(nodes, x, k);
      nodes := nodes[..k] + [x] + nodes[k..];
    }

    /** The links of node_insert_to_list. */
    method Attach(x: Node, ghost k: nat)
      requires Linked(plist, nodes) && x !in nodes && x.next == null && k <= |nodes|
      requires forall i :: 0 <= i < k ==> nodes[i].ip <= x.ip
      requires k < |nodes| ==> x.ip < nodes[k].ip
      modifies this`plist, x`next, nodes`next
      ensures LinkedWith(nodes, x, k) && plist == if k == 0 then x else NodeAt(nodes, 0)
    {
      if plist == null {
        plist := x;
      } else {
        if x.ip < plist.ip {
          x.next := plist;
          plist := x;
        } else {
          InsertBehind(x, k);
        }
      }
    }

    /** The search for a later place. */
    method InsertBehind(x: Node, ghost k: nat)
      requires Linked(plist, nodes) && x !in nodes && x.next == null && 0 < k <= |nodes|
      requires forall i :: 0 <= i < k ==> nodes[i].ip <= x.ip
      requires k < |nodes| ==> x.ip < nodes[k].ip
      modifies x`next, nodes`next
      ensures LinkedWith(nodes, x, k)
    {
      var p := plist;
      ghost var i := 0;
      while p.next != null
        invariant 0 <= i < k && p == nodes[i] && Linked(plist, nodes) && x.next == null
        decreases |nodes| - i
      {
        if x.ip < p.next.ip {
          x.next := p.next;
          p.next := x;
          break;
        }
        p := p.next;
        i := i + 1;
      }
      if p.next == null {
        p.next := x;
      }
    }

    /** node_remove_from_list. */
    method RemoveNode(x: Node, ghost k: nat)
      requires Listed() && k < |nodes| && x == nodes[k]
      modifies this`plist, this`nodes, repr
      ensures Listed() && nodes == Without(old(nodes), k) && Table() == Without(old(Table()), k)
      ensures x.next == null && x.AsLease() == old(x.AsLease())
    {
      hide TableOf, Without, Distinct, LinkedPast, Linked, NodeAt;
      WithoutIs(nodes, k);
      Detach(x, k);
      LinkedRemoved(plist, nodes, k);
      SameLeases(nodes);
      TableRemoved(nodes, k);
      nodes := Without(nodes, k);
    }

    /** The links of node_remove_from_list. */
    method Detach(x: Node, ghost k: nat)
      requires Linked(plist, nodes) && k < |nodes| && x == nodes[k]
      modifies this`plist, nodes`next
      ensures LinkedPast(nodes, k) && plist == if k == 0 then NodeAt(nodes, 1) else NodeAt(nodes, 0)
    {
      FirstOrLater(plist, nodes, k);
      hide Distinct, LinkedPast, Chained;
      if plist == x {
        plist := x.next;
        x.next := null;
        FirstTaken(nodes);
      } else {
        UnlinkBehind(x, k);
      }
    }

    /** The search for the node ahead of x. */
    method UnlinkBehind(x: Node, ghost k: nat)
      requires Linked(plist, nodes) && 0 < k < |nodes| && x == nodes[k]
      modifies nodes`next
      ensures LinkedPast(nodes, k)
    {
      hide Chained, LinkedPast;
      var p := plist;
      ghost var i := 0;
      while p != null
        invariant 0 <= i <= |nodes| && p == NodeAt(nodes, i) && i != k
        invariant if i < k then Chained(nodes) else LinkedPast(nodes, k)
        decreases |nodes| - i
      {
        NextNode(nodes, k, i);
        if p.next == x {
          Unlink(nodes, p, x, k);
          NextNode(nodes, k, k);
          i := k;
        }
        p := p.next;
        i := i + 1;
      }
    }

    /** The loop of dhcps_client_update: the client's entry, and the entry with the wanted
        address, or where a free address may be. */
    method Scan(mac: Mac, ip: Option<u32>)
      returns (macNode: Node?, ipNode: Node?, start: u32, flag: bool, ghost m: int, ghost p: int)
      requires Valid()
      ensures m == MacAt(Table(), mac) && macNode == NodeAt(nodes, m)
      ensures ip.None? ==>
        var g := GapIn(Table(), if m >= 0 then m else |nodes|, startIp);
        p == -1 && ipNode == null && start == g.ip && (flag <==> m >= 0 || g.found)
      ensures ip.Some? ==> p == IpAt(Table(), ip.value) && ipNode == NodeAt(nodes, p) && start == startIp && !flag
    {
      hide Valid, Linked, TableOf, UniqueMacs, NextIp, MacAt, IpAt, GapIn;
      NothingScanned(Table(), mac, startIp);
      Start();
      macNode, ipNode, start, flag := null, null, startIp, false;
      m, p := -1, -1;
      ghost var t, k := Table(), 0;
      var back := plist;
      while back != null
        invariant 0 <= k <= |nodes| && back == NodeAt(nodes, k)
        invariant m == MacAt(t[..k], mac) && macNode == NodeAt(nodes, m)
        invariant ip.None? ==>
          var g := GapIn(t, k, startIp); m == -1 && p == -1 && ipNode == null && start == g.ip && flag == g.found
        invariant ip.Some? ==> p == IpAt(t[..k], ip.value) && ipNode == NodeAt(nodes, p) && start == startIp && !flag
        decreases |nodes| - k
      {
        OneScanned(t, k, mac, if ip.Some? then ip.value else 0, startIp);
        Here(k);
        if back.mac == mac {
          macNode := back;
          m := k;
          if ip.None? {
            flag := true;
            break;
          }
        }
        if ip.Some? {
          if back.ip == ip.value {
            ipNode := back;
            p := k;
          }
        } else if !flag {
          if back.ip != start {
            flag := true;
          } else {
            start := NextIp(start);
          }
        }
        back := back.next;
        k := k + 1;
      }
      assert t[..|t|] == t;
    }

    lemma Start()
      requires Valid()
      ensures plist == NodeAt(nodes, 0) && |Table()| == |nodes|
    {
    }

    lemma Here(k: nat)
      requires Valid() && k < |nodes|
      ensures nodes[k].next == NodeAt(nodes, k + 1) && |Table()| == |nodes| && Table()[k] == nodes[k].AsLease()
      ensures MacAt(Table(), Table()[k].mac) == k
    {
      OnlyEntry(Table(), k);
    }

    /** Overwrite an entry where it is. */
    method SetEntry(x: Node, entry: Lease, ghost k: nat)
      requires Listed() && k < |nodes| && x == nodes[k]
      modifies x`ip, x`mac, x`timer, x`dynamic, x`online
      ensures Listed() && Table() == old(Table())[k := entry]
    {
      hide Distinct, NodeAt;
      OthersDiffer(nodes, k);
      x.SetTo(entry);
      TableSet(nodes, k, old(Table()));
    }

    /** Give the client of node m another address and put the node where that belongs. */
    method MoveNode(x: Node, ip: u32, dynamic: bool, ghost m: nat)
      requires Listed() && m < |nodes| && x == nodes[m]
      modifies this`plist, this`nodes, repr
      ensures Listed()
      ensures Table() == Inserted(Without(old(Table()), m), Lease(ip, old(x.mac), leaseTime, dynamic, true))
    {
      hide Linked, Inserted, Without, TableOf, Distinct;
      WithoutIs(nodes, m);
      LinkedDistinct(plist, nodes);
      TableSize(nodes);
      SetEntry(x, x.AsLease().(ip := ip), m);
      RemovedOwn(old(Table()), m, x.AsLease());
      RemoveNode(x, m);
      x.Refresh(x.mac, leaseTime, dynamic);
      InsertNode(x);
    }

    /** A lease for a client that has none. */
    method AddNode(mac: Mac, ip: u32, dynamic: bool)
      requires Listed()
      modifies this`plist, this`nodes, this`repr, repr
      ensures Listed() && forall x :: x in repr ==> x in old(repr) || fresh(x)
      ensures Table() == Inserted(old(Table()), Lease(ip, mac, leaseTime, dynamic, true))
    {
      hide UniqueMacs, Inserted, TableOf, Chained;
      var x := new Node(ip, mac);
      repr := repr + {x};
      x.Refresh(mac, leaseTime, dynamic);
      InsertNode(x);
    }

    /** Node p takes over the address for another client; that client's own node, if it has
        one, goes. */
    method TakeOver(macNode: Node?, ipNode: Node, mac: Mac, dynamic: bool, ghost m: int, ghost p: nat)
      requires Listed() && -1 <= m < |nodes| && p < |nodes| && m != p
      requires macNode == NodeAt(nodes, m) && ipNode == nodes[p]
      modifies this`plist, this`nodes, repr
      ensures Listed()
      ensures var x := Lease(old(ipNode.ip), mac, leaseTime, dynamic, true);
        Table() == if m >= 0 then Without(old(Table())[p := x], m) else old(Table())[p := x]
    {
      hide Linked, Without, TableOf, Distinct;
      TableSize(nodes);
      LinkedDistinct(plist, nodes);
      ghost var place := if m < 0 || p < m then p else p - 1;
      var x := Lease(ipNode.ip, mac, leaseTime, dynamic, true);
      if macNode != null {
        WithoutIs(nodes, m);
        RemoveNode(macNode, m);
      }
      SetEntry(ipNode, x, place);
      if m >= 0 {
        RemovedSet(old(Table()), m, p, x);
      }
    }

    /** dhcps_client_update: the address for a client that names the address ciaddr. */
    method ClientUpdate(mac: Mac, ciaddr: u32) returns (r: u32)
      requires Valid()
      modifies this`plist, this`nodes, this`repr, this`renew, repr
      ensures Valid() && forall x :: x in repr ==> x in old(repr) || fresh(x)
      ensures var o := Updated(old(Table()), LeaseRange(), leaseTime, old(renew), mac, ciaddr);
        Table() == o.table && r == o.ip && renew == o.renew
    {
      if ciaddr == IPADDR_BROADCAST {
        return IPADDR_ANY;
      }
      hide UniqueMacs, UpdatedFor, UpdatedAny, UpdatedTo, Linked, TableOf, NodeAt, Distinct, Chained;
      UpdateKeepsMacs(Table(), LeaseRange(), leaseTime, renew, mac, ciaddr);
      r := Assign(mac, if ciaddr == IPADDR_ANY then None else Some(ciaddr));
    }

    method ClearRenew()
      requires Valid()
      modifies this`renew
      ensures Valid() && !renew && Table() == old(Table())
    {
      renew := false;
    }

    lemma NodesOf()
      requires Valid()
      ensures Listed() && |Table()| == |nodes| && forall k :: 0 <= k < |nodes| ==> Table()[k] == nodes[k].AsLease()
    {
    }

    lemma BackToValid()
      requires Listed() && UniqueMacs(Table())
      ensures Valid()
    {
    }

    /** The rest of dhcps_client_update, behind the tests of ciaddr. */
    method Assign(mac: Mac, ip: Option<u32>) returns (r: u32)
      requires Valid()
      requires UniqueMacs(UpdatedFor(Table(), LeaseRange(), leaseTime, mac, ip).table)
      modifies this`plist, this`nodes, this`repr, this`renew, repr
      ensures Valid() && forall x :: x in repr ==> x in old(repr) || fresh(x)
      ensures var o := UpdatedFor(old(Table()), LeaseRange(), leaseTime, mac, ip);
        Table() == o.table && r == o.ip && renew == o.renew
    {
      hide UniqueMacs, Granted, Listed, GapIn, TableOf, Valid, MacAt, IpAt;
      ClearRenew();
      NodesOf();
      var macNode, ipNode, start, flag;
      ghost var m, p;
      macNode, ipNode, start, flag, m, p := Scan(mac, ip);
      if ip.None? && !flag && start > endIp {
        NothingGranted(Table(), endIp, Lease(start, mac, leaseTime, true, true));
        return IPADDR_ANY;
      }
      r := Grant(macNode, ipNode, mac, if ip.Some? then ip.value else start, ip.None?, m, p);
      BackToValid();
    }

    /** Grant an address to the client of macNode, or to a new client. */
    method Grant(macNode: Node?, ipNode: Node?, mac: Mac, chosen: u32, isDynamic: bool, ghost m: int, ghost p: int)
      returns (r: u32)
      requires Listed() && -1 <= m < |nodes| && -1 <= p < |nodes| && !renew
      requires macNode == NodeAt(nodes, m) && ipNode == NodeAt(nodes, p)
      requires (ipNode != null ==> ipNode.ip == chosen) && (macNode != null ==> macNode.mac == mac)
      requires ipNode != null && ipNode == macNode ==> m == p
      modifies this`plist, this`nodes, this`repr, this`renew, repr
      ensures Listed() && forall x :: x in repr ==> x in old(repr) || fresh(x)
      ensures var o := Granted(old(Table()), endIp, Lease(chosen, mac, leaseTime, isDynamic, true), m, p);
        Table() == o.table && r == o.ip && renew == o.renew
    {
      hide UniqueMacs, Inserted, Without, Linked, TableOf;
      TableSize(nodes);
      var dynamic := isDynamic;
      if macNode != null {
        if ipNode != null {
          if ipNode != macNode {
            if ipNode.online {
              return IPADDR_ANY;
            }
            TakeOver(macNode, ipNode, mac, dynamic, m, p);
          } else {
            renew := true;
            dynamic := true;
            TakeOver(null, ipNode, mac, dynamic, -1, p);
          }
        } else {
          MoveNode(macNode, chosen, dynamic, m);
        }
      } else {
        if ipNode != null {
          if ipNode.online {
            return IPADDR_ANY;
          }
          TakeOver(null, ipNode, mac, dynamic, -1, p);
        } else {
          if chosen > endIp {
            return IPADDR_ANY;
          }
          AddNode(mac, chosen, dynamic);
        }
      }
      return chosen;
    }

    /** dhcps_client_leave. */
    method ClientLeave(mac: Mac, ip: u32, force: bool)
      requires Valid()
      modifies this`plist, this`nodes, repr
      ensures Valid()
      ensures Table() == Left(old(Table()), mac, ip, force)
    {
      hide UniqueMacs, Sound, Without;
      LeftSound(Table(), LeaseRange(), mac, ip, force);
      var node;
      ghost var k;
      node, k := Find(mac, ip);
      if node != null {
        LeaveNode(node, force, k);
      }
    }

    /** The loop of dhcps_client_leave. */
    method Find(mac: Mac, ip: u32) returns (node: Node?, ghost k: int)
      requires Valid()
      ensures node == NodeAt(nodes, k) && (k >= 0 ==> k == MacAt(Table(), mac) && Table()[k].ip == ip)
      ensures k < 0 ==> MacAt(Table(), mac) < 0 || Table()[MacAt(Table(), mac)].ip != ip
    {
      k := 0;
      node := plist;
      while node != null
        invariant 0 <= k <= |nodes| && node == NodeAt(nodes, k)
        invariant forall i :: 0 <= i < k ==> !(Table()[i].mac == mac && Table()[i].ip == ip)
        decreases |nodes| - k
      {
        if node.mac == mac && node.ip == ip {
          OnlyEntry(Table(), k);
          return;
        }
        node := node.next;
        k := k + 1;
      }
      k := -1;
    }

    /** The entry goes, or goes offline. */
    method LeaveNode(x: Node, force: bool, ghost k: nat)
      requires Listed() && k < |nodes| && x == nodes[k]
      modifies this`plist, this`nodes, repr
      ensures Listed()
      ensures var t := old(Table());
        Table() == if !t[k].dynamic || force then Without(t, k) else t[k := t[k].(online := false)]
    {
      hide Without, Distinct, Linked;
      if !x.dynamic || force {
        WithoutIs(nodes, k);
        RemoveNode(x, k);
      } else {
        SetEntry(x, x.AsLease().(online := false), k);
      }
    }
  }

  /** The node p ahead of x = nodes[k] passes x by. */
  method Unlink(ghost nodes: seq<Node>, p: Node, x: Node, ghost k: nat)
    requires Chained(nodes) && 0 < k < |nodes| && p == nodes[k - 1] && x == nodes[k]
    modifies p`next, x`next
    ensures LinkedPast(nodes, k)
  {
    p.next := x.next;
    x.next := null;
  }

  lemma NextNode(nodes: seq<Node>, k: nat, i: nat)
    requires k < |nodes| && i <= |nodes|
    ensures i < k && Chained(nodes) ==> nodes[i].next == nodes[i + 1] && (nodes[i].next == nodes[k] <==> i + 1 == k)
    ensures k < i < |nodes| && LinkedPast(nodes, k) ==> nodes[i].next == NodeAt(nodes, i + 1) && nodes[i].next != nodes[k]
    ensures LinkedPast(nodes, k) && k > 0 ==> nodes[k - 1].next == NodeAt(nodes, k + 1)
  {
  }

  lemma SameAddress(a: u32, b: seq<byte>)
    requires |b| == 4
    ensures WordBytes(a) == b <==> a == WordOf(b)
  {
    WordRoundTrip(a);
    BytesRoundTrip(b);
  }

  lemma NothingGranted(t: seq<Lease>, end: u32, x: Lease)
    requires x.ip > end
    ensures Granted(t, end, x, -1, -1) == Outcome(t, IPADDR_ANY, false)
  {
  }

  lemma NothingScanned(t: seq<Lease>, mac: Mac, start: u32)
    ensures MacAt(t[..0], mac) == -1 && GapIn(t, 0, start) == Gap(start, false)
    ensures forall ip :: IpAt(t[..0], ip) == -1
  {
  }

  /** The scans one entry further. */
  lemma OneScanned(t: seq<Lease>, k: nat, mac: Mac, ip: u32, start: u32)
    requires k < |t|
    ensures MacAt(t[..k + 1], mac) == if t[k].mac == mac then k else MacAt(t[..k], mac)
    ensures IpAt(t[..k + 1], ip) == if t[k].ip == ip then k else IpAt(t[..k], ip)
    ensures var g := GapIn(t, k, start);
      GapIn(t, k + 1, start) == if g.found then g else if t[k].ip != g.ip then Gap(g.ip, true) else Gap(NextIp(g.ip), false)
  {
    hide NextIp;
    assert t[..k + 1][..k] == t[..k];
  }

  /** With one entry for each client, an entry found is the last. */
  lemma OnlyEntry(t: seq<Lease>, k: nat)
    requires UniqueMacs(t) && k < |t|
    ensures MacAt(t, t[k].mac) == k
  {
  }
}
