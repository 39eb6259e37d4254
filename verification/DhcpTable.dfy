// The lease table of the DHCP server as a value: addresses, scans, updates, and the laws that
// keep one address from being given to two clients.
module DhcpTable {
  import opened Bytes
  import opened Lists

  type Mac = m: seq<byte> | |m| == 6 witness [0, 0, 0, 0, 0, 0]

  const IPADDR_ANY: u32 := 0
  const IPADDR_BROADCAST: u32 := 0xffff_ffff

  /** One entry of the pool. An address is the 32-bit word its four octets form in memory: the
      last octet is the highest byte. */
  datatype Lease = Lease(ip: u32, mac: Mac, timer: u32, dynamic: bool, online: bool)

  datatype Range = Range(start: u32, end: u32)

  // ----- addresses -----

  /** ntohl and htonl: reverse the four bytes. */
  function Swapped(w: u32): u32 {
    var b := WordBytes(w);
    WordOf([b[3], b[2], b[1], b[0]])
  }

  /** htonl(ntohl(ip) + 1). */
  function NextIp(ip: u32): u32 {
    Swapped((Swapped(ip) + 1) % 0x1_0000_0000)
  }

  function LastOctet(ip: u32): byte {
    ip / 0x100_0000
  }

  /** The first three octets. */
  function Net(ip: u32): (n: nat)
    ensures n < 0x100_0000
  {
    ip % 0x100_0000
  }

  function Octets(a: byte, b: byte, c: byte, d: byte): u32 {
    WordOf([a, b, c, d])
  }

  lemma OctetsAre(a: int, b: int, c: int, d: int)
    requires 0 <= a < 0x100 && 0 <= b < 0x100 && 0 <= c < 0x100 && 0 <= d < 0x100
    ensures Octets(a, b, c, d) == a + 0x100 * b + 0x1_0000 * c + 0x100_0000 * d
    ensures Net(Octets(a, b, c, d)) == a + 0x100 * b + 0x1_0000 * c && LastOctet(Octets(a, b, c, d)) == d
  {
  }

  lemma ToOctets(w: u32) returns (a: byte, b: byte, c: byte, d: byte)
    ensures w == Octets(a, b, c, d)
  {
    var x := WordBytes(w);
    a, b, c, d := x[0], x[1], x[2], x[3];
    assert x == [a, b, c, d];
    WordRoundTrip(w);
  }

  lemma SwappedOctets(a: byte, b: byte, c: byte, d: byte)
    ensures Swapped(Octets(a, b, c, d)) == Octets(d, c, b, a)
  {
    BytesRoundTrip([a, b, c, d]);
  }

  /** Inside a /24 network the next address is 2^24 further. */
  lemma NextInNet(ip: u32)
    requires LastOctet(ip) < 255
    ensures ip + 0x100_0000 < 0x1_0000_0000 && NextIp(ip) == ip + 0x100_0000
    ensures Net(NextIp(ip)) == Net(ip)
  {
    hide Swapped, Octets, Net, LastOctet, WordOf;
    var a, b, c, d := ToOctets(ip);
    OctetsAre(a, b, c, d);
    SwappedOctets(a, b, c, d);
    OctetsAre(d, c, b, a);
    OctetsAre((d as int) + 1, c, b, a);
    SwappedOctets((d as int) + 1, c, b, a);
    OctetsAre(a, b, c, (d as int) + 1);
  }

  /** In host order the last octet is the low byte, under the network. */
  lemma HostOrder(ip: u32)
    ensures Swapped(ip) == Swapped(Net(ip)) + LastOctet(ip) && Swapped(Net(ip)) % 0x100 == 0
  {
    hide Swapped, Octets, LastOctet, WordOf;
    var a, b, c, d := ToOctets(ip);
    OctetsAre(a, b, c, d);
    OctetsAre(a, b, c, 0);
    SwappedOctets(a, b, c, d);
    SwappedOctets(a, b, c, 0);
    OctetsAre(d, c, b, a);
    OctetsAre(0, c, b, a);
  }

  /** The address after x.y.z.255 lies in another network. */
  lemma NextLeavesNet(ip: u32)
    requires LastOctet(ip) == 255
    ensures Net(NextIp(ip)) != Net(ip)
  {
    hide Swapped, Net, LastOctet;
    var host := (Swapped(ip) + 1) % 0x1_0000_0000;
    SwappedTwice(host);
    HostOrder(ip);
    HostOrder(NextIp(ip));
  }

  lemma SwappedTwice(w: u32)
    ensures Swapped(Swapped(w)) == w
  {
    var a, b, c, d := ToOctets(w);
    SwappedOctets(a, b, c, d);
    SwappedOctets(d, c, b, a);
  }

  // ----- the list and its scans -----

  /** Where an address is inserted: ahead of the first larger one. */
  function Place(t: seq<Lease>, ip: u32): (k: nat)
    ensures k <= |t|
    ensures k < |t| ==> ip < t[k].ip
    ensures forall i :: 0 <= i < k ==> t[i].ip <= ip
  {
    if t == [] || ip < t[0].ip then 0 else 1 + Place(t[1..], ip)
  }

  function Inserted(t: seq<Lease>, x: Lease): seq<Lease> {
    var k := Place(t, x.ip);
    t[..k] + [x] + t[k..]
  }

  /** The last entry for a client, or -1. */
  function MacAt(t: seq<Lease>, mac: Mac): (k: int)
    ensures -1 <= k < |t|
    ensures k >= 0 ==> t[k].mac == mac
    ensures forall i :: k < i < |t| ==> t[i].mac != mac
  {
    if t == [] then -1 else if t[|t| - 1].mac == mac then |t| - 1 else MacAt(t[..|t| - 1], mac)
  }

  /** The last entry with an address, or -1. */
  function IpAt(t: seq<Lease>, ip: u32): (k: int)
    ensures -1 <= k < |t|
    ensures k >= 0 ==> t[k].ip == ip
    ensures forall i :: k < i < |t| ==> t[i].ip != ip
  {
    if t == [] then -1 else if t[|t| - 1].ip == ip then |t| - 1 else IpAt(t[..|t| - 1], ip)
  }

  /** Counting up from the start of the range along the first n entries, until one is skipped. */
  datatype Gap = Gap(ip: u32, found: bool)

  function GapIn(t: seq<Lease>, n: nat, start: u32): Gap
    requires n <= |t|
    decreases n
  {
    if n == 0 then Gap(start, false)
    else
      var g := GapIn(t, n - 1, start);
      if g.found then g else if t[n - 1].ip != g.ip then Gap(g.ip, true) else Gap(NextIp(g.ip), false)
  }

  // ----- dhcps_client_update as a function -----

  datatype Outcome = Outcome(table: seq<Lease>, ip: u32, renew: bool)

  /** Entry x is wanted by the client of entry m, if it has one; entry p, if there is one,
      holds the address. The range is not checked except for new clients, and for those only
      its end. */
  function Granted(t: seq<Lease>, end: u32, x: Lease, m: int, p: int): Outcome
    requires -1 <= m < |t| && -1 <= p < |t|
  {
    if p >= 0 then
      if p == m then Outcome(t[p := x.(dynamic := true)], x.ip, true)
      else if t[p].online then Outcome(t, IPADDR_ANY, false)
      else if m >= 0 then Outcome(Without(t[p := x], m), x.ip, false)
      else Outcome(t[p := x], x.ip, false)
    else if m >= 0 then Outcome(Inserted(Without(t, m), x), x.ip, false)
    else if x.ip > end then Outcome(t, IPADDR_ANY, false)
    else Outcome(Inserted(t, x), x.ip, false)
  }

  /** A request that names no address. */
  function UpdatedAny(t: seq<Lease>, r: Range, timer: u32, mac: Mac): Outcome {
    var m := MacAt(t, mac);
    var ip := GapIn(t, if m >= 0 then m else |t|, r.start).ip;
    Granted(t, r.end, Lease(ip, mac, timer, true, true), m, -1)
  }

  /** A request for one address. */
  function UpdatedTo(t: seq<Lease>, r: Range, timer: u32, mac: Mac, ip: u32): Outcome {
    Granted(t, r.end, Lease(ip, mac, timer, false, true), MacAt(t, mac), IpAt(t, ip))
  }

  function UpdatedFor(t: seq<Lease>, r: Range, timer: u32, mac: Mac, ip: Option<u32>): Outcome {
    match ip
    case None => UpdatedAny(t, r, timer, mac)
    case Some(a) => UpdatedTo(t, r, timer, mac, a)
  }

  function Updated(t: seq<Lease>, r: Range, timer: u32, renew: bool, mac: Mac, ip: u32): Outcome {
    if ip == IPADDR_BROADCAST then Outcome(t, IPADDR_ANY, renew)
    else UpdatedFor(t, r, timer, mac, if ip == IPADDR_ANY then None else Some(ip))
  }

  /** dhcps_client_leave: the entry that matches both client and address goes, or stays as
      offline when it is dynamic and the removal is not forced. */
  function Left(t: seq<Lease>, mac: Mac, ip: u32, force: bool): seq<Lease> {
    var m := MacAt(t, mac);
    if m >= 0 && t[m].ip == ip then
      if !t[m].dynamic || force then Without(t, m) else t[m := t[m].(online := false)]
    else t
  }

  // ----- what a table should be -----

  /** A range as init_dhcps_lease accepts it: inside one /24 network. */
  predicate RangeOk(r: Range) {
    Net(r.start) == Net(r.end) && r.start <= r.end
  }

  predicate InRange(r: Range, ip: u32) {
    Net(ip) == Net(r.start) && r.start <= ip <= r.end
  }

  ghost predicate UniqueMacs(t: seq<Lease>) {
    forall i, j :: 0 <= i < j < |t| ==> t[i].mac != t[j].mac
  }

  ghost predicate Ascending(t: seq<Lease>) {
    forall i, j :: 0 <= i < j < |t| ==> t[i].ip < t[j].ip
  }

  ghost predicate AllInRange(t: seq<Lease>, r: Range) {
    forall i :: 0 <= i < |t| ==> InRange(r, t[i].ip)
  }

  /** Strictly ascending, one entry for each client, every address in the range. */
  ghost predicate Sound(t: seq<Lease>, r: Range) {
    UniqueMacs(t) && Ascending(t) && AllInRange(t, r)
  }

  /** The address is promised to this client. */
  ghost predicate Bound(t: seq<Lease>, mac: Mac, ip: u32) {
    exists k :: 0 <= k < |t| && t[k].mac == mac && t[k].ip == ip
  }

  ghost predicate HeldByOther(t: seq<Lease>, mac: Mac, ip: u32) {
    exists k :: 0 <= k < |t| && t[k].mac != mac && t[k].ip == ip
  }

  /** No address is promised to two clients, no client has two addresses. */
  lemma SoundMeansExclusive(t: seq<Lease>, r: Range, mac: Mac, other: Mac, ip: u32, ip2: u32)
    requires Sound(t, r) && Bound(t, mac, ip) && Bound(t, other, ip2)
    ensures mac == other <==> ip == ip2
  {
  }

  lemma RemovedStays(t: seq<Lease>, r: Range, k: nat)
    requires k < |t|
    ensures UniqueMacs(t) ==> UniqueMacs(Without(t, k))
    ensures Sound(t, r) ==> Sound(Without(t, k), r)
    ensures UniqueMacs(t) ==> forall i :: 0 <= i < |Without(t, k)| ==> Without(t, k)[i].mac != t[k].mac
    ensures Ascending(t) ==> forall i :: 0 <= i < |Without(t, k)| ==> Without(t, k)[i].ip != t[k].ip
  {
    var u := Without(t, k);
    forall i | 0 <= i < |u| ensures u[i] == if i < k then t[i] else t[i + 1] {
    }
  }

  ghost predicate InsertedAt(t: seq<Lease>, x: Lease, k: nat, u: seq<Lease>) {
    && k <= |t| && |u| == |t| + 1 && u[k] == x
    && (forall i :: 0 <= i < k ==> u[i] == t[i]) && forall i :: k < i < |u| ==> u[i] == t[i - 1]
  }

  lemma InsertedIs(t: seq<Lease>, x: Lease)
    ensures InsertedAt(t, x, Place(t, x.ip), Inserted(t, x))
  {
  }

  lemma InsertedStays(t: seq<Lease>, r: Range, x: Lease)
    requires forall i :: 0 <= i < |t| ==> t[i].mac != x.mac
    ensures UniqueMacs(t) ==> UniqueMacs(Inserted(t, x))
    ensures Sound(t, r) && InRange(r, x.ip) && (forall i :: 0 <= i < |t| ==> t[i].ip != x.ip) ==> Sound(Inserted(t, x), r)
  {
    hide Inserted, InRange, UniqueMacs, Ascending;
    InsertedMacs(t, x);
    if forall i :: 0 <= i < |t| ==> t[i].ip != x.ip {
      InsertedAscends(t, x);
      InsertedIs(t, x);
    }
  }

  lemma InsertedMacs(t: seq<Lease>, x: Lease)
    requires forall i :: 0 <= i < |t| ==> t[i].mac != x.mac
    ensures UniqueMacs(t) ==> UniqueMacs(Inserted(t, x))
  {
    hide Inserted, Place;
    InsertedIs(t, x);
  }

  lemma InsertedAscends(t: seq<Lease>, x: Lease)
    requires forall i :: 0 <= i < |t| ==> t[i].ip != x.ip
    ensures Ascending(t) ==> Ascending(Inserted(t, x))
  {
    hide Inserted, Place;
    InsertedIs(t, x);
  }

  lemma InsertedHas(t: seq<Lease>, x: Lease)
    ensures x in Inserted(t, x)
    ensures forall y :: y in t ==> y in Inserted(t, x)
  {
    var k, u := Place(t, x.ip), Inserted(t, x);
    assert u[k] == x;
    forall y | y in t ensures y in u {
      var i :| 0 <= i < |t| && t[i] == y;
      assert u[if i < k then i else i + 1] == y;
    }
  }

  // ----- every request, on every table -----

  /** One entry for each client, whatever is requested. */
  lemma UpdateKeepsMacs(t: seq<Lease>, r: Range, timer: u32, renew: bool, mac: Mac, ip: u32)
    requires UniqueMacs(t)
    ensures UniqueMacs(Updated(t, r, timer, renew, mac, ip).table)
  {
    hide Inserted, Without;
    var m, p := MacAt(t, mac), IpAt(t, ip);
    var gap := GapIn(t, if m >= 0 then m else |t|, r.start).ip;
    var any, one := Lease(gap, mac, timer, true, true), Lease(ip, mac, timer, false, true);
    if m >= 0 {
      RemovedStays(t, r, m);
      InsertedStays(Without(t, m), r, any);
      InsertedStays(Without(t, m), r, one);
      if p >= 0 && p != m {
        TakenOver(t, p, m, one);
      }
    } else {
      InsertedStays(t, r, any);
      InsertedStays(t, r, one);
    }
  }

  /** Entry p is rewritten for the client of entry m, which goes. */
  lemma TakenOver(t: seq<Lease>, p: nat, m: nat, x: Lease)
    requires p < |t| && m < |t| && p != m && x.mac == t[m].mac
    ensures UniqueMacs(t) ==> UniqueMacs(Without(t[p := x], m))
  {
    var u, v := t[p := x], Without(t[p := x], m);
    forall i | 0 <= i < |v| ensures v[i] == if i < m then u[i] else u[i + 1] {
    }
  }

  // ----- what a request for an address comes to -----

  /** Another client has the address, and is there. */
  ghost predicate OnlineElsewhere(t: seq<Lease>, mac: Mac, ip: u32) {
    exists k :: 0 <= k < |t| && t[k].ip == ip && t[k].mac != mac && t[k].online
  }

  ghost predicate HasLease(t: seq<Lease>, mac: Mac) {
    exists k :: 0 <= k < |t| && t[k].mac == mac
  }

  ghost predicate Listed(t: seq<Lease>, ip: u32) {
    exists k :: 0 <= k < |t| && t[k].ip == ip
  }

  /** A request for one address from a sound table: who gets it, when it counts as a renewal, and
      what is entered. */
  lemma NamedExact(t: seq<Lease>, r: Range, timer: u32, renew: bool, mac: Mac, ip: u32)
    requires Sound(t, r) && ip != IPADDR_ANY && ip != IPADDR_BROADCAST
    ensures var o := Updated(t, r, timer, renew, mac, ip);
      var refused := OnlineElsewhere(t, mac, ip) || (!HasLease(t, mac) && !Listed(t, ip) && ip > r.end);
      && o.ip == (if refused then IPADDR_ANY else ip)
      && (o.renew <==> Bound(t, mac, ip))
      && (if refused then o.table == t else Lease(ip, mac, timer, Bound(t, mac, ip), true) in o.table)
  {
    hide Inserted, Without, InRange;
    var m, p, x := MacAt(t, mac), IpAt(t, ip), Lease(ip, mac, timer, false, true);
    InsertedHas(if m >= 0 then Without(t, m) else t, x);
    if p >= 0 {
      assert t[p := x][p] == x && t[p := x.(dynamic := true)][p] == x.(dynamic := true);
      if m >= 0 && m != p {
        RemovedHas(t[p := x], m, p);
      }
    }
  }

  /** A request for any address is entered as dynamic and online, and is no renewal. */
  lemma AnyEntered(t: seq<Lease>, r: Range, timer: u32, renew: bool, mac: Mac)
    ensures var o := Updated(t, r, timer, renew, mac, IPADDR_ANY);
      !o.renew && (o.ip != IPADDR_ANY ==> Lease(o.ip, mac, timer, true, true) in o.table)
  {
    hide Inserted, Without;
    var m := MacAt(t, mac);
    var gap := GapIn(t, if m >= 0 then m else |t|, r.start).ip;
    InsertedHas(if m >= 0 then Without(t, m) else t, Lease(gap, mac, timer, true, true));
  }

  /** An address that is handed out is in the table, bound to the client. */
  lemma UpdateBinds(t: seq<Lease>, r: Range, timer: u32, renew: bool, mac: Mac, ip: u32)
    ensures var o := Updated(t, r, timer, renew, mac, ip); o.ip != IPADDR_ANY ==> Bound(o.table, mac, o.ip)
  {
    hide Inserted, Without;
    var m, p := MacAt(t, mac), IpAt(t, ip);
    var gap := GapIn(t, if m >= 0 then m else |t|, r.start).ip;
    var any, one := Lease(gap, mac, timer, true, true), Lease(ip, mac, timer, false, true);
    InsertedHas(if m >= 0 then Without(t, m) else t, any);
    InsertedHas(if m >= 0 then Without(t, m) else t, one);
    if p >= 0 && p != m && m >= 0 && t[p].online {
    } else if p >= 0 && p != m && m >= 0 {
      assert t[p := one][p] == one;
      RemovedHas(t[p := one], m, p);
    } else if p >= 0 {
      assert t[p := one][p] == one && t[p := one.(dynamic := true)][p].ip == ip;
    }
  }

  lemma RemovedHas(t: seq<Lease>, k: nat, p: nat)
    requires k < |t| && p < |t| && p != k
    ensures t[p] in Without(t, k)
  {
    assert Without(t, k)[if p < k then p else p - 1] == t[p];
  }

  /** The entries of other clients stay as they are, unless they are offline and their address
      is named. */
  lemma UpdateSparesOthers(t: seq<Lease>, r: Range, timer: u32, renew: bool, mac: Mac, ip: u32, k: nat)
    requires k < |t| && t[k].mac != mac
    requires t[k].online || ip != t[k].ip || ip == IPADDR_ANY || ip == IPADDR_BROADCAST
    ensures t[k] in Updated(t, r, timer, renew, mac, ip).table
  {
    hide Inserted, Without;
    var m, p := MacAt(t, mac), IpAt(t, ip);
    var gap := GapIn(t, if m >= 0 then m else |t|, r.start).ip;
    var any, one := Lease(gap, mac, timer, true, true), Lease(ip, mac, timer, false, true);
    InsertedHas(if m >= 0 then Without(t, m) else t, any);
    InsertedHas(if m >= 0 then Without(t, m) else t, one);
    if m >= 0 {
      RemovedHas(t, m, k);
      if 0 <= p && p != k {
        RemovedHas(t[p := one], m, k);
        assert t[p := one][k] == t[k];
      }
    }
    if 0 <= p && p != k {
      assert t[p := one][k] == t[k] && t[p := one.(dynamic := true)][k] == t[k];
    }
  }

  // ----- requests on sound tables -----

  lemma EndBounds(r: Range, ip: u32)
    requires RangeOk(r) && LastOctet(r.end) < 255 && InRange(r, ip)
    ensures LastOctet(ip) < 255
  {
  }

  /** Addresses of one network are 2^24 apart. */
  lemma StepApart(a: u32, b: u32)
    requires Net(a) == Net(b) && a < b + 0x100_0000
    ensures a <= b
  {
  }

  /** What the count over the first n entries has seen. */
  ghost predicate GapFacts(t: seq<Lease>, r: Range, n: nat, g: Gap)
    requires n <= |t|
  {
    && Net(g.ip) == Net(r.start) && r.start <= g.ip
    && (forall a: u32 :: InRange(r, a) && a < g.ip ==> exists i :: 0 <= i < n && t[i].ip == a)
    && (forall i :: 0 <= i < n ==> t[i].ip != g.ip)
    && (forall i :: n <= i < |t| ==> if g.found then t[i].ip > g.ip else t[i].ip >= g.ip)
    && (g.found ==> InRange(r, g.ip))
  }

  lemma GapStart(t: seq<Lease>, r: Range)
    requires RangeOk(r) && Sound(t, r)
    ensures GapFacts(t, r, 0, Gap(r.start, false))
  {
  }

  lemma GapStep(t: seq<Lease>, r: Range, n: nat, g: Gap)
    requires RangeOk(r) && LastOctet(r.end) < 255 && Sound(t, r) && 0 < n <= |t| && GapFacts(t, r, n - 1, g)
    ensures GapFacts(t, r, n, if g.found then g else if t[n - 1].ip != g.ip then Gap(g.ip, true) else Gap(NextIp(g.ip), false))
  {
    hide NextIp, Net, LastOctet;
    if !g.found && t[n - 1].ip == g.ip {
      assert InRange(r, t[n - 1].ip);
      EndBounds(r, g.ip);
      NextInNet(g.ip);
      var next := NextIp(g.ip);
      forall a: u32 | InRange(r, a) && a < next ensures exists i :: 0 <= i < n && t[i].ip == a {
        StepApart(a, g.ip);
        assert t[n - 1].ip == g.ip;
      }
      forall i | n <= i < |t| ensures t[i].ip >= next {
        assert InRange(r, t[i].ip);
        if t[i].ip < next {
          StepApart(t[i].ip, g.ip);
        }
      }
    } else if !g.found {
      assert InRange(r, t[n - 1].ip);
    }
  }

  lemma {:induction false} GapIs(t: seq<Lease>, r: Range, n: nat)
    requires RangeOk(r) && LastOctet(r.end) < 255 && Sound(t, r) && n <= |t|
    ensures GapFacts(t, r, n, GapIn(t, n, r.start))
    decreases n
  {
    hide GapFacts, Sound, RangeOk, LastOctet, NextIp;
    if n == 0 {
      GapStart(t, r);
    } else {
      GapIs(t, r, n - 1);
      GapStep(t, r, n, GapIn(t, n - 1, r.start));
    }
  }

  /** The least address of the range that no other client holds. */
  ghost predicate FirstFree(t: seq<Lease>, r: Range, mac: Mac, ip: u32) {
    && InRange(r, ip) && !HeldByOther(t, mac, ip)
    && forall a: u32 :: InRange(r, a) && a < ip ==> HeldByOther(t, mac, a)
  }

  lemma NobodyElse(t: seq<Lease>, r: Range, mac: Mac, n: nat, g: Gap)
    requires Sound(t, r) && n == (if MacAt(t, mac) >= 0 then MacAt(t, mac) else |t|) && GapFacts(t, r, n, g)
    ensures !HeldByOther(t, mac, g.ip)
    ensures forall a: u32 :: InRange(r, a) && a < g.ip ==> HeldByOther(t, mac, a)
  {
    hide InRange;
    forall a: u32 | InRange(r, a) && a < g.ip ensures HeldByOther(t, mac, a) {
      var i :| 0 <= i < n && t[i].ip == a;
      if MacAt(t, mac) >= 0 {
        assert t[i].mac != t[n].mac;
      }
    }
    forall k | 0 <= k < |t| && t[k].mac != mac ensures t[k].ip != g.ip {
      if n < k {
        assert t[n].ip < t[k].ip;
      }
    }
  }

  /** First fit and completeness: a request that names no address gets the least address no
      other client holds, and 0 only when the others hold them all. */
  lemma FirstFit(t: seq<Lease>, r: Range, timer: u32, mac: Mac)
    requires RangeOk(r) && LastOctet(r.end) < 255 && Sound(t, r)
    ensures var o := UpdatedAny(t, r, timer, mac);
      if exists a: u32 :: InRange(r, a) && !HeldByOther(t, mac, a) then FirstFree(t, r, mac, o.ip)
      else o.ip == IPADDR_ANY && o.table == t
  {
    var m := MacAt(t, mac);
    var n := if m >= 0 then m else |t|;
    var g := GapIn(t, n, r.start);
    GapIs(t, r, n);
    NobodyElse(t, r, mac, n, g);
    hide GapIn, HeldByOther, Net, LastOctet, Inserted, Without;
    if m >= 0 {
      assert InRange(r, t[m].ip) && g.ip <= t[m].ip;
      assert InRange(r, g.ip);
    } else if g.ip <= r.end {
      assert InRange(r, g.ip);
    }
  }

  lemma UpdatedAnySound(t: seq<Lease>, r: Range, timer: u32, mac: Mac)
    requires RangeOk(r) && LastOctet(r.end) < 255 && Sound(t, r)
    ensures Sound(UpdatedAny(t, r, timer, mac).table, r)
  {
    var m := MacAt(t, mac);
    var n := if m >= 0 then m else |t|;
    var g := GapIn(t, n, r.start);
    var x := Lease(g.ip, mac, timer, true, true);
    GapIs(t, r, n);
    NobodyElse(t, r, mac, n, g);
    if m >= 0 {
      assert InRange(r, t[m].ip) && g.ip <= t[m].ip;
      RemovedStays(t, r, m);
      RestIsOthers(t, m);
      InsertedStays(Without(t, m), r, x);
    } else if g.ip <= r.end {
      InsertedStays(t, r, x);
    }
  }

  /** What is left without entry m belongs to other clients. */
  lemma RestIsOthers(t: seq<Lease>, m: nat)
    requires UniqueMacs(t) && m < |t|
    ensures forall i :: 0 <= i < |Without(t, m)| ==> HeldByOther(t, t[m].mac, Without(t, m)[i].ip)
  {
    forall i | 0 <= i < |Without(t, m)| ensures HeldByOther(t, t[m].mac, Without(t, m)[i].ip) {
      assert Without(t, m)[i] == t[if i < m then i else i + 1];
    }
  }

  /** The addresses a client may name without harm: none, the broadcast address, one in the
      range, or, for a client without a lease, one beyond its end. */
  predicate Harmless(t: seq<Lease>, r: Range, mac: Mac, ip: u32) {
    ip == IPADDR_ANY || ip == IPADDR_BROADCAST || InRange(r, ip) || (MacAt(t, mac) < 0 && ip > r.end)
  }

  lemma UpdatedToSound(t: seq<Lease>, r: Range, timer: u32, mac: Mac, ip: u32)
    requires Sound(t, r)
    ensures Sound(UpdatedTo(t, r, timer, mac, ip).table, r) <==> InRange(r, ip) || (MacAt(t, mac) < 0 && ip > r.end)
  {
    hide Inserted, Without, InRange;
    var m, p := MacAt(t, mac), IpAt(t, ip);
    var x := Lease(ip, mac, timer, false, true);
    if p >= 0 {
      assert InRange(r, t[p].ip);
      if p != m && !t[p].online {
        Reassigned(t, r, p, x);
        if m >= 0 {
          TakenOverSound(t, r, p, m, x);
        }
      } else if p == m {
        Reassigned(t, r, p, x.(dynamic := true));
      }
    } else {
      var rest := if m >= 0 then Without(t, m) else t;
      if m >= 0 {
        RemovedStays(t, r, m);
        RestIsOthers(t, m);
      }
      InsertedStays(rest, r, x);
      InsertedHas(rest, x);
    }
  }

  lemma Reassigned(t: seq<Lease>, r: Range, p: nat, x: Lease)
    requires Sound(t, r) && p < |t| && x.ip == t[p].ip
    ensures (forall i :: 0 <= i < |t| && i != p ==> t[i].mac != x.mac) ==> Sound(t[p := x], r)
    ensures Ascending(t[p := x]) && AllInRange(t[p := x], r)
  {
    hide InRange;
  }

  lemma TakenOverSound(t: seq<Lease>, r: Range, p: nat, m: nat, x: Lease)
    requires Sound(t, r) && p < |t| && m < |t| && p != m && x.mac == t[m].mac && x.ip == t[p].ip
    ensures Sound(Without(t[p := x], m), r)
  {
    hide InRange;
    var u, v := t[p := x], Without(t[p := x], m);
    Reassigned(t, r, p, x);
    TakenOver(t, p, m, x);
    forall i | 0 <= i < |v| ensures v[i] == if i < m then u[i] else u[i + 1] {
    }
  }

  /** A request keeps a sound table sound exactly when it is harmless. */
  lemma SoundExact(t: seq<Lease>, r: Range, timer: u32, renew: bool, mac: Mac, ip: u32)
    requires RangeOk(r) && LastOctet(r.end) < 255 && Sound(t, r)
    ensures Sound(Updated(t, r, timer, renew, mac, ip).table, r) <==> Harmless(t, r, mac, ip)
  {
    hide Sound, LastOctet, InRange;
    UpdatedAnySound(t, r, timer, mac);
    UpdatedToSound(t, r, timer, mac, ip);
  }

  lemma OfflineSound(t: seq<Lease>, r: Range, m: nat)
    requires m < |t|
    ensures var off := t[m := t[m].(online := false)];
      && (UniqueMacs(t) ==> UniqueMacs(off)) && (Sound(t, r) ==> Sound(off, r))
      && forall k :: 0 <= k < |t| && k != m ==> t[k] in off
  {
    hide InRange;
    var off := t[m := t[m].(online := false)];
    forall k | 0 <= k < |t| && k != m ensures t[k] in off {
      assert off[k] == t[k];
    }
  }

  /** Leaving keeps a table sound, and touches nobody else's entry. */
  lemma LeftSound(t: seq<Lease>, r: Range, mac: Mac, ip: u32, force: bool)
    ensures UniqueMacs(t) ==> UniqueMacs(Left(t, mac, ip, force))
    ensures Sound(t, r) ==> Sound(Left(t, mac, ip, force), r)
    ensures forall k :: 0 <= k < |t| && t[k].mac != mac ==> t[k] in Left(t, mac, ip, force)
  {
    hide Without, Sound, UniqueMacs;
    var m := MacAt(t, mac);
    if m >= 0 {
      RemovedStays(t, r, m);
      OfflineSound(t, r, m);
      forall k | 0 <= k < |t| && t[k].mac != mac ensures t[k] in Without(t, m) {
        RemovedHas(t, m, k);
      }
    }
  }

  /** Without force, a dynamic lease stays, offline, and a static one goes. */
  lemma LeftOffline(t: seq<Lease>, mac: Mac, ip: u32, k: nat)
    requires UniqueMacs(t) && k < |t| && t[k].mac == mac && t[k].ip == ip
    ensures if t[k].dynamic then Left(t, mac, ip, false) == t[k := t[k].(online := false)]
            else !HasLease(Left(t, mac, ip, false), mac)
  {
    hide Without;
    assert MacAt(t, mac) == k;
    RemovedStays(t, Range(0, 0), k);
  }

  /** A client that gives its address back holds none. */
  lemma LeftFrees(t: seq<Lease>, mac: Mac, ip: u32)
    requires UniqueMacs(t) && Bound(t, mac, ip)
    ensures MacAt(Left(t, mac, ip, true), mac) < 0
  {
    var m := MacAt(t, mac);
    var k :| 0 <= k < |t| && t[k].mac == mac && t[k].ip == ip;
    assert k == m;
    RemovedStays(t, Range(0, 0), m);
    assert forall i :: 0 <= i < |Without(t, m)| ==> Without(t, m)[i].mac != mac;
  }

  /** An offline entry of another client goes when its address is named. */
  lemma UpdateTakesOffline(t: seq<Lease>, r: Range, timer: u32, renew: bool, mac: Mac, ip: u32, k: nat)
    requires Sound(t, r) && k < |t| && t[k].mac != mac && !t[k].online
    requires ip == t[k].ip && ip != IPADDR_ANY && ip != IPADDR_BROADCAST
    ensures t[k] !in Updated(t, r, timer, renew, mac, ip).table
  {
    hide Without, InRange;
    var m, p, x := MacAt(t, mac), IpAt(t, ip), Lease(ip, mac, timer, false, true);
    assert p == k;
    assert t[k] !in t[p := x];
    if m >= 0 {
      RemovedShrinks(t[p := x], m);
    }
  }

  lemma RemovedShrinks(t: seq<Lease>, k: nat)
    requires k < |t|
    ensures forall x :: x in Without(t, k) ==> x in t
  {
  }

  // ----- where the conditions come from -----

  lemma HasBinds(t: seq<Lease>, x: Lease)
    requires x in t
    ensures Bound(t, x.mac, x.ip)
  {
  }

  lemma FirstGrant(r: Range, timer: u32, mac: Mac, ip: u32)
    requires ip <= r.end
    ensures UpdatedTo([], r, timer, mac, ip) == Outcome([Lease(ip, mac, timer, false, true)], ip, false)
  {
    assert MacAt([], mac) == -1 && IpAt([], ip) == -1;
  }

  lemma SecondGrant(r: Range, timer: u32, x: Lease, mac: Mac, ip: u32)
    requires x.ip < ip <= r.end && x.mac != mac
    ensures UpdatedTo([x], r, timer, mac, ip) == Outcome([x, Lease(ip, mac, timer, false, true)], ip, false)
  {
    assert [x][..0] == [];
    assert MacAt([x], mac) == -1 && IpAt([x], ip) == -1;
    assert Place([x], ip) == 1 + Place([x][1..], ip) == 1;
  }

  lemma GapAfterStray(r: Range, x: Lease, y: Lease, mac: Mac)
    requires x.ip != r.start && x.mac != mac && y.mac != mac
    ensures MacAt([x, y], mac) == -1 && GapIn([x, y], 2, r.start) == Gap(r.start, true)
  {
    var t := [x, y];
    assert t[..1] == [x] && [x][..0] == [];
    assert MacAt(t, mac) == MacAt([x], mac) == -1;
    assert GapIn(t, 0, r.start) == Gap(r.start, false);
    assert GapIn(t, 1, r.start) == Gap(r.start, true);
  }

  /** An address below the range, granted to one client, makes the next free-address search
      stop at the start of the range, which another client holds: two clients then share it. */
  lemma TwoClientsShare(r: Range, low: u32, timer: u32, a: Mac, b: Mac, c: Mac)
    requires RangeOk(r) && 0 < low < r.start < IPADDR_BROADCAST && a != b && b != c && a != c
    ensures var t1 := Updated([], r, timer, false, a, low).table;
      var t2 := Updated(t1, r, timer, false, b, r.start);
      var t3 := Updated(t2.table, r, timer, false, c, IPADDR_ANY);
      && t2.ip == t3.ip == r.start
      && Bound(t3.table, b, r.start) && Bound(t3.table, c, r.start)
  {
    hide UpdatedTo, RangeOk, Inserted, GapIn;
    var x, y := Lease(low, a, timer, false, true), Lease(r.start, b, timer, false, true);
    RangeBounds(r);
    FirstGrant(r, timer, a, low);
    SecondGrant(r, timer, x, b, r.start);
    GapAfterStray(r, x, y, c);
    var z := Lease(r.start, c, timer, true, true);
    InsertedHas([x, y], z);
    assert [x, y][1] == y;
    HasBinds(Inserted([x, y], z), y);
    HasBinds(Inserted([x, y], z), z);
  }

  lemma RangeBounds(r: Range)
    requires RangeOk(r)
    ensures r.start <= r.end
  {
  }

  /** The server's own address is granted as readily, when it lies below the range. */
  lemma ServerAddressGranted(r: Range, server: u32, timer: u32, mac: Mac)
    requires 0 < server <= r.end && server != IPADDR_BROADCAST
    ensures Updated([], r, timer, false, mac, server).ip == server
    ensures Bound(Updated([], r, timer, false, mac, server).table, mac, server)
  {
    assert MacAt([], mac) == -1 && IpAt([], server) == -1;
    UpdateBinds([], r, timer, false, mac, server);
  }

  /** A table that holds every address from the start of the range on. */
  function Filled(r: Range, n: nat): seq<Lease>
    requires RangeOk(r) && n <= 0x100 && (n > 0 ==> r.start + (n - 1) * 0x100_0000 < 0x1_0000_0000)
  {
    seq(n, i requires 0 <= i < n => Lease(r.start + i * 0x100_0000, [i, 0, 0, 0, 0, 0], 0, true, true))
  }

  lemma NetOfSteps(start: u32, i: nat)
    requires start + i * 0x100_0000 < 0x1_0000_0000
    ensures Net(start + i * 0x100_0000) == Net(start) && LastOctet(start + i * 0x100_0000) == LastOctet(start) + i
  {
  }

  lemma FilledSound(r: Range, n: nat)
    requires RangeOk(r) && LastOctet(r.end) == 255 && n == 0x100 - LastOctet(r.start)
    ensures r.start + (n - 1) * 0x100_0000 < 0x1_0000_0000 && Sound(Filled(r, n), r)
    ensures Filled(r, n)[n - 1].ip == r.end
  {
    assert r.end == r.start + (n - 1) * 0x100_0000;
    var t := Filled(r, n);
    forall i | 0 <= i < n ensures InRange(r, t[i].ip) {
      NetOfSteps(r.start, i);
    }
    forall i, j | 0 <= i < j < n ensures t[i].mac != t[j].mac {
      assert t[i].mac[0] != t[j].mac[0];
    }
  }

  lemma {:induction false} FilledGap(r: Range, n: nat, k: nat)
    requires RangeOk(r) && LastOctet(r.end) == 255 && n == 0x100 - LastOctet(r.start) && k <= n
    requires r.start + (n - 1) * 0x100_0000 < 0x1_0000_0000
    ensures GapIn(Filled(r, n), k, r.start)
            == Gap(if k == n then NextIp(r.end) else r.start + k * 0x100_0000, false)
    decreases k
  {
    hide NextIp;
    if k > 0 {
      FilledGap(r, n, k - 1);
      NetOfSteps(r.start, k - 1);
      if k < n {
        NextInNet(r.start + (k - 1) * 0x100_0000);
      } else {
        FilledSound(r, n);
      }
    }
  }

  /** Requests that name no address keep every sound table sound exactly when the range does
      not reach x.y.z.255: the server compares addresses without reversing their bytes. */
  lemma RangeExact(r: Range)
    requires RangeOk(r)
    ensures (forall t: seq<Lease>, timer: u32, mac: Mac :: Sound(t, r) ==> Sound(UpdatedAny(t, r, timer, mac).table, r))
            <==> LastOctet(r.end) < 255
  {
    if LastOctet(r.end) < 255 {
      forall t: seq<Lease>, timer: u32, mac: Mac | Sound(t, r) ensures Sound(UpdatedAny(t, r, timer, mac).table, r) {
        UpdatedAnySound(t, r, timer, mac);
      }
    } else {
      BeyondTheEnd(r);
    }
  }

  lemma BeyondTheEnd(r: Range)
    requires RangeOk(r) && LastOctet(r.end) == 255
    ensures exists t, timer: u32, mac: Mac :: Sound(t, r) && !Sound(UpdatedAny(t, r, timer, mac).table, r)
  {
    var n := 0x100 - LastOctet(r.start);
    FilledSound(r, n);
    FilledGap(r, n, n);
    var t, mac: Mac := Filled(r, n), [0, 1, 0, 0, 0, 0];
    var next := NextIp(r.end);
    NextLeavesNet(r.end);
    NextIsLow(r.end);
    assert forall i :: 0 <= i < n ==> t[i].mac[1] == 0;
    hide Filled, Sound, Inserted, LastOctet, NextIp, Net;
    var x := Lease(next, mac, 0, true, true);
    assert UpdatedAny(t, r, 0, mac).table == Inserted(t, x);
    InsertedHas(t, x);
    NotSound(Inserted(t, x), r, x);
  }

  lemma NotSound(t: seq<Lease>, r: Range, x: Lease)
    requires x in t && Net(x.ip) != Net(r.start)
    ensures !Sound(t, r)
  {
  }

  lemma NextIsLow(ip: u32)
    requires LastOctet(ip) == 255
    ensures NextIp(ip) <= ip
  {
    hide Swapped, Net, LastOctet;
    var host := (Swapped(ip) + 1) % 0x1_0000_0000;
    SwappedTwice(host);
    HostOrder(ip);
    HostOrder(NextIp(ip));
    LowOctet(ip, NextIp(ip));
  }

  lemma LowOctet(ip: u32, next: u32)
    requires LastOctet(ip) == 255 && LastOctet(next) == 0
    ensures next <= ip
  {
  }
}
