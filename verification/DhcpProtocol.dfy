// What the DHCP server answers, and the laws over whole runs of messages.
module DhcpProtocol {
  import opened Bytes
  import opened DhcpTable
  import opened Lists

  const DHCPDISCOVER: byte := 1
  const DHCPREQUEST: byte := 3
  const DHCPDECLINE: byte := 4
  const DHCPRELEASE: byte := 7

  /** The option bytes of a message lie in memory; nothing keeps a malformed message's options
      from running on into whatever follows it. */
  type Memory = nat -> byte

  /** A received message: whether it carries the magic cookie, the client's hardware address and
      claimed address, its options, and their length, which a short packet makes negative. */
  datatype Message = Message(cookie: bool, chaddr: Mac, ciaddr: u32, options: Memory, len: int)

  datatype Verdict = Idle | Offer | Ack | Nak | Release

  datatype Reply = NoReply | OfferOf(yiaddr: u32) | AckOf(yiaddr: u32) | NakOf(yiaddr: u32)

  // ----- options -----

  /** Where the option behind the one at i starts. */
  function NextOption(mem: Memory, i: nat): nat {
    i + mem(i + 1) + 2
  }

  predicate AtEnd(mem: Memory, i: nat, len: int) {
    i >= len || mem(i) == 255
  }

  function AddressAt(mem: Memory, i: nat): u32 {
    WordOf([mem(i + 2), mem(i + 3), mem(i + 4), mem(i + 5)])
  }

  /** The last message type among the options from i on, or the one seen before. */
  function TypeFrom(mem: Memory, i: nat, len: int, before: byte): byte
    decreases len - i
  {
    if AtEnd(mem, i, len) then before
    else TypeFrom(mem, NextOption(mem, i), len, if mem(i) == 53 then mem(i + 2) else before)
  }

  /** The last requested address likewise. */
  function RequestedFrom(mem: Memory, i: nat, len: int, before: Option<u32>): Option<u32>
    decreases len - i
  {
    if AtEnd(mem, i, len) then before
    else RequestedFrom(mem, NextOption(mem, i), len, if mem(i) == 50 then Some(AddressAt(mem, i)) else before)
  }

  /** An option as a client sends it: code, length, data. */
  datatype ClientOption = ClientOption(code: byte, data: seq<byte>)

  predicate WellFormed(o: ClientOption) {
    o.code != 255 && |o.data| < 0x100 && (o.code == 53 ==> |o.data| >= 1) && (o.code == 50 ==> |o.data| >= 4)
  }

  function BytesOf(o: ClientOption): seq<byte>
    requires WellFormed(o)
  {
    var len: byte := |o.data|;
    [o.code, len] + o.data
  }

  function OptionBytes(opts: seq<ClientOption>): seq<byte>
    requires forall i :: 0 <= i < |opts| ==> WellFormed(opts[i])
    decreases |opts|
  {
    if opts == [] then []
    else
      OptionBytes(opts[..|opts| - 1]) + BytesOf(opts[|opts| - 1])
  }

  /** The data of the last option with a code. */
  function LastOption(opts: seq<ClientOption>, code: byte): Option<seq<byte>>
    decreases |opts|
  {
    if opts == [] then None
    else if opts[|opts| - 1].code == code then Some(opts[|opts| - 1].data)
    else LastOption(opts[..|opts| - 1], code)
  }

  lemma {:induction false} LastIsWellFormed(opts: seq<ClientOption>, code: byte)
    requires forall i :: 0 <= i < |opts| ==> WellFormed(opts[i])
    ensures var d := LastOption(opts, code); d.Some? ==> WellFormed(ClientOption(code, d.value))
    decreases |opts|
  {
    if opts != [] {
      LastIsWellFormed(opts[..|opts| - 1], code);
    }
  }

  ghost predicate Holds(mem: Memory, bytes: seq<byte>) {
    forall i :: 0 <= i < |bytes| ==> mem(i) == bytes[i]
  }

  /** One option of the walk. */
  lemma WalkedOne(o: ClientOption, mem: Memory, i: nat, len: int, kind: byte, wanted: Option<u32>)
    requires WellFormed(o) && i + 2 + |o.data| <= len
    requires forall k :: 0 <= k < |o.data| + 2 ==> mem(i + k) == BytesOf(o)[k]
    ensures var next := i + 2 + |o.data|;
      && TypeFrom(mem, i, len, kind) == TypeFrom(mem, next, len, if o.code == 53 then o.data[0] else kind)
      && RequestedFrom(mem, i, len, wanted)
         == RequestedFrom(mem, next, len, if o.code == 50 then Some(WordOf(o.data[..4])) else wanted)
  {
    hide WordOf;
    var b := BytesOf(o);
    assert b[0] == mem(i + 0) && b[0] == o.code && b[1] == mem(i + 1) && b[1] == |o.data|;
    if o.code == 53 {
      assert b[2] == mem(i + 2) && b[2] == o.data[0];
    } else if o.code == 50 {
      assert b[2] == mem(i + 2) && b[3] == mem(i + 3) && b[4] == mem(i + 4) && b[5] == mem(i + 5);
      assert [b[2], b[3], b[4], b[5]] == o.data[..4];
      assert [mem(i + 2), mem(i + 3), mem(i + 4), mem(i + 5)] == o.data[..4];
    }
  }

  function TypeIn(opts: seq<ClientOption>): byte
    requires forall i :: 0 <= i < |opts| ==> WellFormed(opts[i])
  {
    LastIsWellFormed(opts, 53);
    var d := LastOption(opts, 53);
    if d.Some? then d.value[0] else 0
  }

  function AddressIn(opts: seq<ClientOption>): Option<u32>
    requires forall i :: 0 <= i < |opts| ==> WellFormed(opts[i])
  {
    LastIsWellFormed(opts, 50);
    var d := LastOption(opts, 50);
    if d.Some? then Some(WordOf(d.value[..4])) else None
  }

  /** The walk over the options, up to the end of them. */
  lemma {:induction false} Walked(opts: seq<ClientOption>, mem: Memory, len: int)
    requires (forall i :: 0 <= i < |opts| ==> WellFormed(opts[i])) && Holds(mem, OptionBytes(opts))
    requires len >= |OptionBytes(opts)|
    ensures var end := |OptionBytes(opts)|;
      && TypeFrom(mem, 0, len, 0) == TypeFrom(mem, end, len, TypeIn(opts))
      && RequestedFrom(mem, 0, len, None) == RequestedFrom(mem, end, len, AddressIn(opts))
    decreases |opts|
  {
    hide *;
    LastMore(opts);
    if opts != [] {
      var front, last := opts[..|opts| - 1], opts[|opts| - 1];
      HoldsMore(opts, mem, last);
      Walked(front, mem, len);
      WalkedOne(last, mem, |OptionBytes(front)|, len, TypeIn(front), AddressIn(front));
    }
  }

  lemma LastMore(opts: seq<ClientOption>)
    requires forall i :: 0 <= i < |opts| ==> WellFormed(opts[i])
    ensures opts == [] ==> TypeIn(opts) == 0 && AddressIn(opts) == None && OptionBytes(opts) == []
    ensures opts != [] ==>
      var front, last := opts[..|opts| - 1], opts[|opts| - 1];
      && WellFormed(last)
      && TypeIn(opts) == (if last.code == 53 then last.data[0] else TypeIn(front))
      && AddressIn(opts) == (if last.code == 50 then Some(WordOf(last.data[..4])) else AddressIn(front))
  {
    hide WordOf;
  }

  lemma HoldsMore(opts: seq<ClientOption>, mem: Memory, last: ClientOption)
    requires opts != [] && (forall i :: 0 <= i < |opts| ==> WellFormed(opts[i])) && last == opts[|opts| - 1]
    requires Holds(mem, OptionBytes(opts))
    ensures var bytes := OptionBytes(opts[..|opts| - 1]);
      && |OptionBytes(opts)| == |bytes| + 2 + |last.data| && |BytesOf(last)| == |last.data| + 2
      && Holds(mem, bytes) && forall k :: 0 <= k < |last.data| + 2 ==> mem(|bytes| + k) == BytesOf(last)[k]
  {
    var all, bytes, rest := OptionBytes(opts), OptionBytes(opts[..|opts| - 1]), BytesOf(last);
    assert all == bytes + rest;
    hide OptionBytes, BytesOf, WellFormed;
    forall k | 0 <= k < |rest| ensures mem(|bytes| + k) == rest[k] {
      assert all[|bytes| + k] == rest[k];
    }
    forall i | 0 <= i < |bytes| ensures mem(i) == bytes[i] {
      assert all[i] == bytes[i];
    }
  }

  /** What is read from well-formed options, ended by code 255 or by the length: the last message
      type and the last requested address. */
  lemma OptionsRead(opts: seq<ClientOption>, mem: Memory, len: int)
    requires (forall i :: 0 <= i < |opts| ==> WellFormed(opts[i])) && Holds(mem, OptionBytes(opts))
    requires len == |OptionBytes(opts)| || (len > |OptionBytes(opts)| && mem(|OptionBytes(opts)|) == 255)
    ensures TypeFrom(mem, 0, len, 0) == TypeIn(opts) && RequestedFrom(mem, 0, len, None) == AddressIn(opts)
  {
    Walked(opts, mem, len);
  }

  function AddressVerdict(requested: Option<u32>, client: u32): Verdict {
    if requested.None? then Idle else if requested.value == client then Ack else Nak
  }

  /** What parse_options decides. */
  function Decided(kind: byte, requested: Option<u32>, client: u32, renew: bool): Verdict {
    if kind == DHCPDISCOVER then Offer
    else if kind == DHCPREQUEST then
      if requested.None? then (if renew then Ack else Nak) else AddressVerdict(requested, client)
    else if kind == DHCPDECLINE then Idle
    else if kind == DHCPRELEASE then Release
    else AddressVerdict(requested, client)
  }

  function DecidedFor(m: Message, client: u32, renew: bool): Verdict {
    Decided(TypeFrom(m.options, 0, m.len, 0), RequestedFrom(m.options, 0, m.len, None), client, renew)
  }

  // ----- a message as a step -----

  datatype State = State(table: seq<Lease>, renew: bool, client: u32)

  function ReplyTo(v: Verdict, client: u32): Reply {
    match v
    case Offer => OfferOf(client)
    case Ack => AckOf(client)
    case Nak => NakOf(client)
    case _ => NoReply
  }

  function Parsed(s: State, r: Range, timer: u32, m: Message): (State, Verdict) {
    if !m.cookie then (s, Idle)
    else
      var o := Updated(s.table, r, timer, s.renew, m.chaddr, m.ciaddr);
      var v := DecidedFor(m, o.ip, o.renew);
      if v == Release then (State(Left(o.table, m.chaddr, m.ciaddr, true), o.renew, m.ciaddr), v)
      else (State(o.table, o.renew, o.ip), v)
  }

  /** The state after a message, and the reply to it. */
  function Handled(s: State, r: Range, timer: u32, m: Message): (State, Reply) {
    var p := Parsed(s, r, timer, m);
    (p.0, ReplyTo(p.1, p.0.client))
  }

  function Run(s: State, r: Range, timer: u32, ms: seq<Message>): State
    decreases |ms|
  {
    if ms == [] then s else Handled(Run(s, r, timer, ms[..|ms| - 1]), r, timer, ms[|ms| - 1]).0
  }

  // ----- laws -----

  function OfferedOrAcked(p: Reply): Option<u32> {
    match p
    case OfferOf(a) => Some(a)
    case AckOf(a) => Some(a)
    case _ => None
  }

  /** Whatever the table and the message: an address offered or acknowledged, other than
      0.0.0.0, is the one the table now promises to the sender. */
  lemma ReplyIsBound(s: State, r: Range, timer: u32, m: Message)
    requires m.cookie
    ensures var h := Handled(s, r, timer, m); var a := OfferedOrAcked(h.1);
      a.Some? && a.value != IPADDR_ANY ==> Bound(h.0.table, m.chaddr, a.value)
  {
    UpdateBinds(s.table, r, timer, s.renew, m.chaddr, m.ciaddr);
  }

  /** A claimed address that gets a client nothing: broadcast, or one that another client
      holds online. */
  ghost predicate Refused(t: seq<Lease>, mac: Mac, ip: u32) {
    ip == IPADDR_BROADCAST || (ip != IPADDR_ANY && OnlineElsewhere(t, mac, ip))
  }

  lemma RefusedGetsNothing(t: seq<Lease>, r: Range, timer: u32, renew: bool, mac: Mac, ip: u32)
    requires Sound(t, r) && Refused(t, mac, ip)
    ensures Updated(t, r, timer, renew, mac, ip).ip == IPADDR_ANY
  {
    hide Inserted, Without, InRange, GapIn;
  }

  /** A client that is given nothing has nothing, unless its claim was refused. */
  lemma GivenNothing(t: seq<Lease>, r: Range, timer: u32, renew: bool, mac: Mac, ip: u32)
    requires Sound(t, r) && !Refused(t, mac, ip) && Updated(t, r, timer, renew, mac, ip).ip == IPADDR_ANY
    ensures var u := Updated(t, r, timer, renew, mac, ip).table; (MacAt(t, mac) < 0 && u == t) || Bound(u, mac, IPADDR_ANY)
  {
    hide Inserted, Without, InRange, GapIn;
    var m := MacAt(t, mac);
    var gap := GapIn(t, if m >= 0 then m else |t|, r.start).ip;
    InsertedHas(if m >= 0 then Without(t, m) else t, Lease(gap, mac, timer, true, true));
  }

  /** A request for a particular address is acknowledged exactly when the table now promises that
      address to the sender, unless the address it claims got it nothing. */
  lemma AckExact(s: State, r: Range, timer: u32, m: Message)
    requires m.cookie && TypeFrom(m.options, 0, m.len, 0) == DHCPREQUEST && Sound(s.table, r)
    requires var wanted := RequestedFrom(m.options, 0, m.len, None); wanted.Some? && wanted.value != IPADDR_ANY
    ensures var wanted := RequestedFrom(m.options, 0, m.len, None).value;
      var h := Handled(s, r, timer, m);
      && (h.1 == AckOf(wanted) <==> Bound(h.0.table, m.chaddr, wanted) && !Refused(s.table, m.chaddr, m.ciaddr))
      && (h.1 == AckOf(wanted) || h.1.NakOf?)
  {
    hide TypeFrom, RequestedFrom, Refused, Updated, Sound;
    var wanted := RequestedFrom(m.options, 0, m.len, None).value;
    var o := Updated(s.table, r, timer, s.renew, m.chaddr, m.ciaddr);
    SoundMacs(s.table, r);
    UpdateKeepsMacs(s.table, r, timer, s.renew, m.chaddr, m.ciaddr);
    UpdateBinds(s.table, r, timer, s.renew, m.chaddr, m.ciaddr);
    if Refused(s.table, m.chaddr, m.ciaddr) {
      RefusedGetsNothing(s.table, r, timer, s.renew, m.chaddr, m.ciaddr);
    } else if o.ip == IPADDR_ANY {
      GivenNothing(s.table, r, timer, s.renew, m.chaddr, m.ciaddr);
    }
  }

  /** The messages without an address in their options. */
  predicate NamesNone(m: Message) {
    m.cookie && RequestedFrom(m.options, 0, m.len, None).None?
  }

  /** A request without one, the usual renewal: acknowledged exactly when the sender holds the
      address it claims. With the broadcast address it gets what the last message left. */
  lemma RenewalExact(s: State, r: Range, timer: u32, m: Message)
    requires NamesNone(m) && TypeFrom(m.options, 0, m.len, 0) == DHCPREQUEST && Sound(s.table, r)
    ensures var renews := if m.ciaddr == IPADDR_BROADCAST then s.renew
                          else m.ciaddr != IPADDR_ANY && Bound(s.table, m.chaddr, m.ciaddr);
      var reply := Handled(s, r, timer, m).1;
      && (renews ==> reply == AckOf(if m.ciaddr == IPADDR_BROADCAST then IPADDR_ANY else m.ciaddr))
      && (!renews ==> reply.NakOf?)
  {
    hide TypeFrom, RequestedFrom, Sound, Bound;
    if m.ciaddr == IPADDR_ANY {
      AnyEntered(s.table, r, timer, s.renew, m.chaddr);
    } else if m.ciaddr != IPADDR_BROADCAST {
      NamedExact(s.table, r, timer, s.renew, m.chaddr, m.ciaddr);
      if Bound(s.table, m.chaddr, m.ciaddr) {
        RenewedIsGiven(s.table, r, m.chaddr, m.ciaddr);
      }
    }
    hide Updated;
  }

  lemma RenewedIsGiven(t: seq<Lease>, r: Range, mac: Mac, ip: u32)
    requires Sound(t, r) && Bound(t, mac, ip)
    ensures !OnlineElsewhere(t, mac, ip) && HasLease(t, mac)
  {
  }

  /** A discovery is always answered by an offer: of the least free address when it claims none,
      of the claimed one when the sender can have it, and else of 0.0.0.0. */
  lemma DiscoveryExact(s: State, r: Range, timer: u32, m: Message)
    requires m.cookie && TypeFrom(m.options, 0, m.len, 0) == DHCPDISCOVER
    requires RangeOk(r) && LastOctet(r.end) < 255 && Sound(s.table, r)
    ensures var reply := Handled(s, r, timer, m).1;
      && reply.OfferOf?
      && (m.ciaddr == IPADDR_ANY ==>
            if exists a: u32 :: InRange(r, a) && !HeldByOther(s.table, m.chaddr, a)
            then FirstFree(s.table, r, m.chaddr, reply.yiaddr) else reply.yiaddr == IPADDR_ANY)
      && (m.ciaddr == IPADDR_BROADCAST ==> reply.yiaddr == IPADDR_ANY)
      && (m.ciaddr != IPADDR_ANY && m.ciaddr != IPADDR_BROADCAST ==>
            reply.yiaddr ==
              if OnlineElsewhere(s.table, m.chaddr, m.ciaddr)
                 || (!HasLease(s.table, m.chaddr) && !Listed(s.table, m.ciaddr) && m.ciaddr > r.end)
              then IPADDR_ANY else m.ciaddr)
  {
    hide TypeFrom, RequestedFrom, Sound, FirstFree, HeldByOther, InRange, LastOctet, RangeOk;
    if m.ciaddr == IPADDR_ANY {
      FirstFit(s.table, r, timer, m.chaddr);
    } else if m.ciaddr != IPADDR_BROADCAST {
      NamedExact(s.table, r, timer, s.renew, m.chaddr, m.ciaddr);
    }
  }

  /** A release gets no reply. Afterwards the sender holds nothing, exactly unless it has a lease
      and claims an address that another client has online. */
  lemma ReleaseExact(s: State, r: Range, timer: u32, m: Message)
    requires m.cookie && TypeFrom(m.options, 0, m.len, 0) == DHCPRELEASE && Sound(s.table, r)
    requires m.ciaddr != IPADDR_ANY && m.ciaddr != IPADDR_BROADCAST
    ensures var h := Handled(s, r, timer, m);
      && h.1 == NoReply
      && (HasLease(h.0.table, m.chaddr) <==>
            HasLease(s.table, m.chaddr) && OnlineElsewhere(s.table, m.chaddr, m.ciaddr))
  {
    hide TypeFrom, RequestedFrom, Sound, Bound, UniqueMacs;
    var o := Updated(s.table, r, timer, s.renew, m.chaddr, m.ciaddr);
    NamedExact(s.table, r, timer, s.renew, m.chaddr, m.ciaddr);
    hide Updated, HasLease, OnlineElsewhere, Left, Listed;
    SoundMacs(s.table, r);
    UpdateKeepsMacs(s.table, r, timer, s.renew, m.chaddr, m.ciaddr);
    if o.ip == m.ciaddr {
      GivenBack(o.table, Lease(m.ciaddr, m.chaddr, timer, Bound(s.table, m.chaddr, m.ciaddr), true));
    } else {
      NothingBack(s.table, r, m.chaddr, m.ciaddr);
    }
  }

  lemma GivenBack(t: seq<Lease>, x: Lease)
    requires UniqueMacs(t) && x in t
    ensures !HasLease(Left(t, x.mac, x.ip, true), x.mac)
  {
    HasBinds(t, x);
    LeftFrees(t, x.mac, x.ip);
  }

  lemma NothingBack(t: seq<Lease>, r: Range, mac: Mac, ip: u32)
    requires Sound(t, r) && (OnlineElsewhere(t, mac, ip) || !HasLease(t, mac))
    ensures HasLease(Left(t, mac, ip, true), mac) <==> HasLease(t, mac)
  {
  }

  /** The remaining messages: without the magic cookie nothing happens, a decline gets no reply,
      and one of another type, or of none, is answered only if it names an address. */
  lemma OtherMessages(s: State, r: Range, timer: u32, m: Message)
    ensures !m.cookie ==> Handled(s, r, timer, m) == (s, NoReply)
    ensures m.cookie && TypeFrom(m.options, 0, m.len, 0) == DHCPDECLINE ==> Handled(s, r, timer, m).1 == NoReply
    ensures m.cookie && TypeFrom(m.options, 0, m.len, 0) !in {DHCPDISCOVER, DHCPREQUEST, DHCPDECLINE, DHCPRELEASE} ==>
      var wanted := RequestedFrom(m.options, 0, m.len, None);
      var given := Updated(s.table, r, timer, s.renew, m.chaddr, m.ciaddr).ip;
      Handled(s, r, timer, m).1 ==
        if wanted.None? then NoReply else if wanted.value == given then AckOf(given) else NakOf(given)
  {
    hide TypeFrom, RequestedFrom, Updated;
  }

  lemma SoundMacs(t: seq<Lease>, r: Range)
    requires Sound(t, r)
    ensures UniqueMacs(t)
  {
  }

  /** One message from a sound table: it stays sound exactly when the claimed address was
      harmless, or the message gave it back at once. */
  lemma StepSoundExact(s: State, r: Range, timer: u32, m: Message)
    requires RangeOk(r) && LastOctet(r.end) < 255 && Sound(s.table, r) && m.cookie
    ensures Sound(Handled(s, r, timer, m).0.table, r)
            <==> Harmless(s.table, r, m.chaddr, m.ciaddr) || Parsed(s, r, timer, m).1 == Release
  {
    hide Sound, Updated, Left, DecidedFor, RangeOk, LastOctet;
    SoundExact(s.table, r, timer, s.renew, m.chaddr, m.ciaddr);
    LeftSound(Updated(s.table, r, timer, s.renew, m.chaddr, m.ciaddr).table, r, m.chaddr, m.ciaddr, true);
    if !Harmless(s.table, r, m.chaddr, m.ciaddr) {
      GrantedAndLeft(s.table, r, timer, s.renew, m.chaddr, m.ciaddr);
    }
  }

  /** A harmful address is entered, and giving it back takes the client out of the table. */
  lemma GrantedAndLeft(t: seq<Lease>, r: Range, timer: u32, renew: bool, mac: Mac, ip: u32)
    requires Sound(t, r) && !Harmless(t, r, mac, ip)
    ensures var o := Updated(t, r, timer, renew, mac, ip);
      var m := MacAt(t, mac);
      Left(o.table, mac, ip, true) == if m >= 0 then Without(t, m) else t
    ensures Sound(Left(Updated(t, r, timer, renew, mac, ip).table, mac, ip, true), r)
  {
    hide Inserted, Without, InRange;
    var m, p := MacAt(t, mac), IpAt(t, ip);
    var x := Lease(ip, mac, timer, false, true);
    assert forall i :: 0 <= i < |t| ==> InRange(r, t[i].ip);
    var rest := if m >= 0 then Without(t, m) else t;
    if m >= 0 {
      RemovedStays(t, r, m);
    }
    InsertedIs(rest, x);
    InsertedRemoved(rest, x);
    InsertedMac(rest, x);
  }

  lemma InsertedMac(t: seq<Lease>, x: Lease)
    requires forall i :: 0 <= i < |t| ==> t[i].mac != x.mac
    ensures MacAt(Inserted(t, x), x.mac) == Place(t, x.ip)
  {
    hide Inserted;
    InsertedIs(t, x);
    var u, k := Inserted(t, x), Place(t, x.ip);
    var m := MacAt(u, x.mac);
    assert u[k].mac == x.mac;
    assert forall i :: k < i < |u| ==> u[i].mac != x.mac;
  }

  lemma InsertedRemoved(t: seq<Lease>, x: Lease)
    ensures |Inserted(t, x)| == |t| + 1 && Without(Inserted(t, x), Place(t, x.ip)) == t
  {
    var k, u := Place(t, x.ip), Inserted(t, x);
    hide Place;
    assert u[..k] == t[..k] && u[k + 1..] == t[k..];
  }

  lemma StepSound(s: State, r: Range, timer: u32, m: Message)
    requires RangeOk(r) && LastOctet(r.end) < 255 && Sound(s.table, r)
    requires m.cookie ==> Harmless(s.table, r, m.chaddr, m.ciaddr)
    ensures Sound(Handled(s, r, timer, m).0.table, r)
  {
    hide Sound, Updated, Harmless, DecidedFor, RangeOk, LastOctet;
    if m.cookie {
      StepSoundExact(s, r, timer, m);
    }
  }

  /** The message claims the address of x. */
  predicate Claims(m: Message, x: Lease) {
    m.cookie && m.ciaddr == x.ip && x.ip != IPADDR_ANY && x.ip != IPADDR_BROADCAST
  }

  /** A message leaves another client's lease as it is, exactly unless that is offline and the
      message claims its address. */
  lemma StepSparesOthers(s: State, r: Range, timer: u32, m: Message, x: Lease)
    requires x in s.table && x.mac != m.chaddr
    ensures x.online || !Claims(m, x) ==> x in Handled(s, r, timer, m).0.table
    ensures Sound(s.table, r) ==> (x in Handled(s, r, timer, m).0.table <==> x.online || !Claims(m, x))
  {
    hide DecidedFor, Updated, Left, Sound, InRange;
    var k :| 0 <= k < |s.table| && s.table[k] == x;
    var o := Updated(s.table, r, timer, s.renew, m.chaddr, m.ciaddr);
    if m.cookie && (x.online || !Claims(m, x)) {
      UpdateSparesOthers(s.table, r, timer, s.renew, m.chaddr, m.ciaddr, k);
    } else if m.cookie && Sound(s.table, r) {
      UpdateTakesOffline(s.table, r, timer, s.renew, m.chaddr, m.ciaddr, k);
    }
    LeftSound(o.table, r, m.chaddr, m.ciaddr, true);
    LeftShrinks(o.table, m.chaddr, m.ciaddr);
  }

  lemma LeftShrinks(t: seq<Lease>, mac: Mac, ip: u32)
    ensures forall x :: x in Left(t, mac, ip, true) ==> x in t
  {
  }

  /** Every message of the run claims a harmless address at its time. */
  ghost predicate HarmlessRun(s: State, r: Range, timer: u32, ms: seq<Message>)
    decreases |ms|
  {
    ms == [] ||
    var before := Run(s, r, timer, ms[..|ms| - 1]);
    var m := ms[|ms| - 1];
    HarmlessRun(s, r, timer, ms[..|ms| - 1]) && (m.cookie ==> Harmless(before.table, r, m.chaddr, m.ciaddr))
  }

  /** Safety over all runs: from a sound table, harmless messages in any number and order keep
      one address for each client and one client for each address, inside the range. */
  lemma {:induction false} RunSound(s: State, r: Range, timer: u32, ms: seq<Message>)
    requires RangeOk(r) && LastOctet(r.end) < 255 && Sound(s.table, r)
    requires HarmlessRun(s, r, timer, ms)
    ensures Sound(Run(s, r, timer, ms).table, r)
    decreases |ms|
  {
    hide Sound, Handled, Harmless;
    if ms != [] {
      RunSound(s, r, timer, ms[..|ms| - 1]);
      StepSound(Run(s, r, timer, ms[..|ms| - 1]), r, timer, ms[|ms| - 1]);
    }
  }

  /** Messages that claim no address, the broadcast address or one in the range are harmless. */
  lemma {:induction false} PlainRunIsHarmless(s: State, r: Range, timer: u32, ms: seq<Message>)
    requires forall i :: 0 <= i < |ms| ==>
      ms[i].ciaddr == IPADDR_ANY || ms[i].ciaddr == IPADDR_BROADCAST || InRange(r, ms[i].ciaddr)
    ensures HarmlessRun(s, r, timer, ms)
    decreases |ms|
  {
    hide Handled, InRange;
    if ms != [] {
      PlainRunIsHarmless(s, r, timer, ms[..|ms| - 1]);
    }
  }

  /** The next reply in such a run: the address offered or acknowledged is in the range, not the
      server's own, and held by nobody but the sender. */
  lemma RunReply(s: State, r: Range, timer: u32, ms: seq<Message>, m: Message, server: u32)
    requires RangeOk(r) && LastOctet(r.end) < 255 && Sound(s.table, r)
    requires HarmlessRun(s, r, timer, ms + [m]) && m.cookie && !InRange(r, server)
    ensures var h := Handled(Run(s, r, timer, ms), r, timer, m); var a := OfferedOrAcked(h.1);
      a.Some? && a.value != IPADDR_ANY ==>
        && Bound(h.0.table, m.chaddr, a.value) && InRange(r, a.value) && a.value != server
        && !HeldByOther(h.0.table, m.chaddr, a.value)
  {
    var all := ms + [m];
    assert all[..|all| - 1] == ms;
    RunSound(s, r, timer, ms);
    hide Handled, Run, HarmlessRun, RangeOk, InRange, LastOctet, Harmless;
    StepSound(Run(s, r, timer, ms), r, timer, m);
    ReplyIsBound(Run(s, r, timer, ms), r, timer, m);
  }

  /** A client's lease that is not offline stays as it is for as long as the client itself sends
      nothing. */
  lemma {:induction false} LeaseStays(s: State, r: Range, timer: u32, ms: seq<Message>, x: Lease)
    requires x in s.table && x.online && forall i :: 0 <= i < |ms| ==> ms[i].chaddr != x.mac
    ensures x in Run(s, r, timer, ms).table
    decreases |ms|
  {
    hide Handled;
    if ms != [] {
      LeaseStays(s, r, timer, ms[..|ms| - 1], x);
      StepSparesOthers(Run(s, r, timer, ms[..|ms| - 1]), r, timer, ms[|ms| - 1], x);
    }
  }

  // ----- the range -----

  const DHCPS_MAX_LEASE := 100

  /** The range init_dhcps_lease accepts for a server with this address. */
  predicate Accepts(r: Range, server: u32) {
    var ip, lo, hi := Swapped(server), Swapped(r.start), Swapped(r.end);
    !(lo <= ip <= hi) && lo / 0x100 == hi / 0x100 == ip / 0x100 && (hi - lo) % 0x1_0000_0000 <= DHCPS_MAX_LEASE
  }

  /** The range it makes up otherwise: a hundred addresses beside the server's. */
  function DefaultRange(server: u32): Range {
    var ip := Swapped(server);
    var net, host := ip - ip % 0x100, ip % 0x100;
    var lo := if host >= 0x80 then host - DHCPS_MAX_LEASE else host + 1;
    Range(Swapped(net + lo), Swapped(net + lo + DHCPS_MAX_LEASE - 1))
  }

  function InitialRange(enabled: bool, r: Range, server: u32): Range {
    if enabled && Accepts(r, server) then r else DefaultRange(server)
  }

  lemma HighPart(h: nat, l: byte)
    requires h % 0x100 == 0
    ensures (h + l) / 0x100 == h / 0x100 && (h + l) % 0x100 == l
  {
  }

  lemma RawParts(ip: u32)
    ensures ip == Net(ip) + 0x100_0000 * LastOctet(ip)
  {
  }

  /** Raw and host order agree inside a network. */
  lemma SameNet(a: u32, b: u32)
    ensures Net(a) == Net(b) <==> Swapped(a) / 0x100 == Swapped(b) / 0x100
    ensures Net(a) == Net(b) ==> (a <= b <==> Swapped(a) <= Swapped(b)) && Swapped(a) - Swapped(b) == LastOctet(a) - LastOctet(b)
    ensures Swapped(a) % 0x100 == LastOctet(a)
  {
    hide Swapped, Net, LastOctet;
    HostOrder(a);
    HostOrder(b);
    SwappedTwice(Net(a));
    SwappedTwice(Net(b));
    RawParts(a);
    RawParts(b);
    HighPart(Swapped(Net(a)), LastOctet(a));
    HighPart(Swapped(Net(b)), LastOctet(b));
  }

  /** Whatever was configured, the server ends up with a range in one network that does not
      contain its own address; a range it made up itself never reaches x.y.z.255. */
  lemma InitialRangeSafe(enabled: bool, r: Range, server: u32)
    ensures var i := InitialRange(enabled, r, server);
      RangeOk(i) && !InRange(i, server) && (LastOctet(i.end) < 255 || (i == r && LastOctet(r.end) == 255))
  {
    hide Swapped, Net, LastOctet;
    SameNet(r.start, r.end);
    SameNet(server, r.start);
    SameNet(server, r.end);
    var d := DefaultRange(server);
    SwappedTwice(d.start);
    SwappedTwice(d.end);
    SameNet(d.start, d.end);
    SameNet(server, d.start);
    SameNet(server, d.end);
    var ip := Swapped(server);
    var net, host := ip - ip % 0x100, ip % 0x100;
    var lo := if host >= 0x80 then host - DHCPS_MAX_LEASE else host + 1;
    SwappedTwice(net + lo);
    SwappedTwice(net + lo + DHCPS_MAX_LEASE - 1);
  }

  /** Which range that is, in octets: the configured one when it lies in the server's network, has
      at most 101 addresses and not the server's among them; else the hundred behind the server's
      own address, or, in the upper half of the network, the hundred ahead of it. */
  lemma InitialRangeExact(enabled: bool, r: Range, server: u32)
    ensures var i, own := InitialRange(enabled, r, server), LastOctet(server);
      var first, last := LastOctet(r.start), LastOctet(r.end);
      if enabled && Net(r.start) == Net(r.end) == Net(server) && 0 <= last - first <= 100 && !(first <= own <= last) then
        i == r
      else
        && Net(i.start) == Net(i.end) == Net(server)
        && LastOctet(i.start) == (if own >= 128 then own - 100 else own + 1)
        && LastOctet(i.end) == LastOctet(i.start) + 99
  {
    AcceptsExact(r, server);
    hide Accepts, Swapped, Net, LastOctet;
    SameNet(server, server);
    var d, ip := DefaultRange(server), Swapped(server);
    var net, host := ip - ip % 0x100, ip % 0x100;
    var lo := if host >= 0x80 then host - DHCPS_MAX_LEASE else host + 1;
    SwappedTwice(net + lo);
    SwappedTwice(net + lo + DHCPS_MAX_LEASE - 1);
    HighPart(net, lo);
    HighPart(net, lo + DHCPS_MAX_LEASE - 1);
    HighPart(net, host);
    SameNet(server, d.start);
    SameNet(server, d.end);
  }

  lemma AcceptsExact(r: Range, server: u32)
    ensures var own, first, last := LastOctet(server), LastOctet(r.start), LastOctet(r.end);
      Accepts(r, server)
      <==> Net(r.start) == Net(r.end) == Net(server) && 0 <= last - first <= 100 && !(first <= own <= last)
  {
    hide Swapped, Net, LastOctet;
    SameNet(r.start, r.end);
    SameNet(r.end, r.start);
    SameNet(server, r.start);
    SameNet(server, r.end);
    SameNet(r.start, server);
    SameNet(r.end, server);
  }
}
