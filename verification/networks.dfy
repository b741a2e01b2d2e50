/** The registry of user networks and the built-in address pool
    (internal/network/user_network.go, internal/network/network.go). */
module Networks {
  import opened Subnets
  import opened Wrappers

  /** A subnet argument as typed: nothing, an IPv4 CIDR, or anything ParseCIDR or To4 refuses. */
  datatype SubnetText = Empty | Ipv4(ip: Address, bits: nat) | NotIpv4

  datatype Network = Network(subnet: Cidr, gateway: Address, held: set<nat>)

  datatype Registry = Registry(networks: map<string, Network>, pool: set<nat>)

  datatype Error = InvalidName | AlreadyExists | BadSubnet | OverlapsBridge | OverlapsNetwork
                 | NotFound | NoFreeAddress | StillUsed | BridgeNotRemoved

  /** 10.a.b.c */
  function Ten(a: nat, b: nat, c: nat): Address
    requires a < 256 && b < 256 && c < 256
  {
    0x0A00_0000 + a * 0x1_0000 + b * 0x100 + c
  }

  const BRIDGE: Cidr := Cidr(Ten(0, 2, 0), 24)

  predicate NameChar(c: char) {
    'a' <= c <= 'z' || 'A' <= c <= 'Z' || '0' <= c <= '9' || c == '_' || c == '.' || c == '-'
  }

  predicate ValidName(name: string) {
    && 1 <= |name| <= 31 && (forall c <- name :: NameChar(c)) && name[0] != '_' && name[0] != '.' && name[0] != '-'
    && name != "bridge" && name != "host" && name != "none" && name != "ips"
  }

  /** The masked block and the gateway, for prefixes /16 to /29. */
  function Normalize(text: SubnetText): Result<(Cidr, Address), Error> {
    if !text.Ipv4? || text.bits < 16 || text.bits > 29 then Err(BadSubnet)
    else
      var block := Parse(text.ip, text.bits);
      var last := block.base % 256;
      var gateway := block.base - last + (last + 1) % 256;
      if !Contains(block, gateway) then Err(BadSubnet) else Ok((block, gateway))
  }

  predicate OverlapsAny(block: Cidr, networks: map<string, Network>)
    requires block.prefix <= WIDTH && forall n <- networks.Keys :: networks[n].subnet.prefix <= WIDTH
  {
    exists n <- networks.Keys :: Overlaps(block, networks[n].subnet)
  }

  /** The first 10.0.x.0/24, x from 10 to 249, that is no network's subnet. */
  function NextSubnet(networks: map<string, Network>, octet: nat): SubnetText
    requires octet <= 250
    decreases 250 - octet
  {
    if octet == 250 then Ipv4(Ten(254, 0, 0), 24)
    else if exists n <- networks.Keys :: networks[n].subnet == Cidr(Ten(0, octet, 0), 24)
    then NextSubnet(networks, octet + 1)
    else Ipv4(Ten(0, octet, 0), 24)
  }

  /** The block and gateway of a new network. */
  function Admit(reg: Registry, text: SubnetText): Result<(Cidr, Address), Error>
    requires Blocks(reg)
  {
    match Normalize(Typed(reg, text))
    case Err(e) => Err(e)
    case Ok((block, gateway)) =>
      if Overlaps(block, BRIDGE) then Err(OverlapsBridge)
      else if OverlapsAny(block, reg.networks) then Err(OverlapsNetwork)
      else Ok((block, gateway))
  }

  function Create(reg: Registry, name: string, text: SubnetText): (Registry, Result<Network, Error>)
    requires Blocks(reg)
  {
    if !ValidName(name) then (reg, Err(InvalidName))
    else if name in reg.networks then (reg, Err(AlreadyExists))
    else match Admit(reg, text)
      case Err(e) => (reg, Err(e))
      case Ok((block, gateway)) =>
        var n := Network(block, gateway, {});
        (reg.(networks := reg.networks[name := n]), Ok(n))
  }

  /** 32-bit unsigned addition. */
  function Ipv4Add(base: Address, offset: nat): Address { (base + offset) % ADDRESSES }

  /** The first free address from host number `host` of a block of `size` addresses on. */
  function FirstFree(base: Address, size: nat, held: set<nat>, host: nat): Option<Address>
    decreases size - host
  {
    if host >= size - 1 then None
    else if Ipv4Add(base, host) !in held then Some(Ipv4Add(base, host))
    else FirstFree(base, size, held, host + 1)
  }

  function Allocate(reg: Registry, name: string): (Registry, Result<Address, Error>)
    requires Blocks(reg)
  {
    if !ValidName(name) then (reg, Err(InvalidName))
    else if name !in reg.networks then (reg, Err(NotFound))
    else
      var n := reg.networks[name];
      match FirstFree(n.subnet.base, Size(n.subnet.prefix), n.held, 2)
      case None => (reg, Err(NoFreeAddress))
      case Some(ip) => (reg.(networks := reg.networks[name := n.(held := n.held + {ip})]), Ok(ip))
  }

  function Release(reg: Registry, name: string, ip: nat): Registry {
    if !ValidName(name) || name !in reg.networks then reg
    else
      var n := reg.networks[name];
      reg.(networks := reg.networks[name := n.(held := n.held - {ip})])
  }

  /** `unlinked` is the outcome of removing the bridge device. */
  function Remove(reg: Registry, name: string, unlinked: bool): (Registry, Option<Error>) {
    if !ValidName(name) then (reg, Some(InvalidName))
    else if name !in reg.networks then (reg, Some(NotFound))
    else if reg.networks[name].held != {} then (reg, Some(StillUsed))
    else if !unlinked then (reg, Some(BridgeNotRemoved))
    else (reg.(networks := reg.networks - {name}), None)
  }

  function AllocatePool(reg: Registry): (Registry, Result<Address, Error>) {
    match FirstFree(BRIDGE.base, Size(BRIDGE.prefix), reg.pool, 2)
    case None => (reg, Err(NoFreeAddress))
    case Some(ip) => (reg.(pool := reg.pool + {ip}), Ok(ip))
  }

  function ReleasePool(reg: Registry, ip: nat): Registry { reg.(pool := reg.pool - {ip}) }

  // ---------------------------------------------------------------- the invariant

  ghost predicate Blocks(reg: Registry) {
    forall n <- reg.networks.Keys :: IsBlock(reg.networks[n].subnet) && reg.networks[n].subnet.prefix <= WIDTH
  }

  /** Strictly between the gateway, base + 1, and the broadcast address. */
  predicate IsHost(subnet: Cidr, ip: nat)
    requires subnet.prefix <= WIDTH
  {
    subnet.base + 1 < ip < subnet.base + Size(subnet.prefix) - 1
  }

  ghost predicate ValidNetwork(n: Network) {
    && IsBlock(n.subnet) && 16 <= n.subnet.prefix <= 29 && n.gateway == n.subnet.base + 1
    && forall ip <- n.held :: IsHost(n.subnet, ip)
  }

  ghost predicate Disjoint(a: Cidr, b: Cidr)
    requires a.prefix <= WIDTH && b.prefix <= WIDTH
  {
    !exists ip :: InRange(a, ip) && InRange(b, ip)
  }

  ghost predicate Valid(reg: Registry) {
    && (forall n <- reg.networks.Keys :: ValidName(n) && ValidNetwork(reg.networks[n])
                                         && Disjoint(reg.networks[n].subnet, BRIDGE))
    && (forall m, n :: m in reg.networks && n in reg.networks && m != n ==>
          Disjoint(reg.networks[m].subnet, reg.networks[n].subnet))
    && (forall ip <- reg.pool :: IsHost(BRIDGE, ip))
  }

  lemma {:induction false} BridgeIsBlock()
    ensures IsBlock(BRIDGE) && Size(24) == 256
  {
    assert Pow2(8) == 256;
  }

  lemma {:induction false} BlockFits(c: Cidr)
    requires IsBlock(c)
    ensures c.base + Size(c.prefix) <= ADDRESSES
  {
    Pow32();
    var k := PowDivides(WIDTH - c.prefix, WIDTH);
    var s := Size(c.prefix);
    assert c.base == s * (c.base / s);
    MulOrder(s, c.base / s, k);
    MulOrder(s, k, c.base / s);
  }

  lemma {:induction false} NormalizedGateway(text: SubnetText)
    ensures Normalize(text).Ok? <==> text.Ipv4? && 16 <= text.bits <= 29
    ensures Normalize(text).Ok? ==>
              var (block, gateway) := Normalize(text).value;
              IsBlock(block) && block.prefix == text.bits && gateway == block.base + 1 && InRange(block, text.ip)
  {
    if text.Ipv4? && 16 <= text.bits <= 29 {
      var block := Parse(text.ip, text.bits);
      var k := PowDivides(3, WIDTH - text.bits);
      PowMonotone(3, WIDTH - text.bits);
      MultipleOfEight(block.base, Size(text.bits), k);
      BlockFits(block);
      ContainsIsRange(block, block.base + 1);
    }
  }

  lemma {:induction false} MultipleOfEight(base: nat, s: nat, k: nat)
    requires s > 0 && base % s == 0 && s == 8 * k
    ensures base % 8 == 0 && base - base % 256 + (base % 256 + 1) % 256 == base + 1
  {
    var m := k * (base / s);
    assert base == (8 * k) * (base / s) == 8 * m;
    DivisionIsUnique(base, 8, m, 0);
  }

  // ---------------------------------------------------------------- allocation

  ghost function Range(lo: nat, hi: nat): (r: set<nat>)
    ensures forall x: nat :: x in r <==> lo <= x < hi
    ensures lo <= hi ==> |r| == hi - lo
  {
    if lo < hi then Range(lo, hi - 1) + {hi - 1} else {}
  }

  lemma {:induction false} FirstFreeIsLeast(base: Address, size: nat, held: set<nat>, host: nat)
    requires base + size <= ADDRESSES && host >= 2
    ensures var r := FirstFree(base, size, held, host);
            && (forall ip: nat :: base + host <= ip < base + size - 1 && (r.Some? ==> ip < r.value) ==> ip in held)
            && (r.Some? ==> r.value !in held && base + host <= r.value < base + size - 1)
    decreases size - host
  {
    if host < size - 1 {
      assert Ipv4Add(base, host) == base + host;
      if base + host in held {
        FirstFreeIsLeast(base, size, held, host + 1);
      }
    }
  }

  /** The answer is the least free host; there is none exactly when all 2^(32-p) - 3 hosts are held. */
  lemma {:induction false} AllocationIsLeast(subnet: Cidr, held: set<nat>)
    requires IsBlock(subnet) && subnet.prefix <= 30 && forall ip <- held :: IsHost(subnet, ip)
    ensures var r := FirstFree(subnet.base, Size(subnet.prefix), held, 2);
            && (r.Some? ==> IsHost(subnet, r.value) && r.value !in held
                            && forall ip: nat :: IsHost(subnet, ip) && ip < r.value ==> ip in held)
            && (r.None? <==> |held| == Pow2(WIDTH - subnet.prefix) - 3)
  {
    var base, size := subnet.base, Size(subnet.prefix);
    var r := FirstFree(base, size, held, 2);
    BlockFits(subnet);
    PowMonotone(2, WIDTH - subnet.prefix);
    FirstFreeIsLeast(base, size, held, 2);
    var hosts := Range(base + 2, base + size - 1);
    assert forall ip <- held :: IsHost(subnet, ip) && ip in hosts;
    SubsetSize(held, hosts);
    if r.None? {
      assert held == hosts;
    } else {
      assert r.value in hosts;
    }
  }

  lemma {:induction false} SubsetSize<T>(a: set<T>, b: set<T>)
    requires a <= b
    ensures |a| <= |b| && (|a| == |b| ==> a == b)
  {
    assert b == a + (b - a);
  }

  // ---------------------------------------------------------------- runs

  datatype Op =
    | DoCreate(name: string, text: SubnetText)
    | DoAllocate(name: string)
    | DoRelease(name: string, ip: nat)
    | DoRemove(name: string, unlinked: bool)
    | DoAllocatePool
    | DoReleasePool(ip: nat)

  function Apply(reg: Registry, op: Op): Registry
    requires Blocks(reg)
  {
    match op
    case DoCreate(name, text) => Create(reg, name, text).0
    case DoAllocate(name) => Allocate(reg, name).0
    case DoRelease(name, ip) => Release(reg, name, ip)
    case DoRemove(name, unlinked) => Remove(reg, name, unlinked).0
    case DoAllocatePool => AllocatePool(reg).0
    case DoReleasePool(ip) => ReleasePool(reg, ip)
  }

  /** A block that passed both overlap tests shares no address with anything in use. */
  lemma {:induction false} TestedIsDisjoint(block: Cidr, reg: Registry)
    requires Valid(reg) && IsBlock(block) && !Overlaps(block, BRIDGE) && !OverlapsAny(block, reg.networks)
    ensures Disjoint(block, BRIDGE) && forall m <- reg.networks.Keys :: Disjoint(block, reg.networks[m].subnet)
  {
    BridgeIsBlock();
    OverlapsIsIntersection(block, BRIDGE);
    forall m | m in reg.networks
      ensures Disjoint(block, reg.networks[m].subnet)
    {
      OverlapsIsIntersection(block, reg.networks[m].subnet);
    }
  }

  function Typed(reg: Registry, text: SubnetText): SubnetText {
    if text == Empty then NextSubnet(reg.networks, 10) else text
  }

  lemma {:induction false} CreateShape(reg: Registry, name: string, text: SubnetText)
    requires Blocks(reg)
    ensures var ((reg', r), n) := (Create(reg, name, text), Normalize(Typed(reg, text)));
            && (r.Err? ==> reg' == reg)
            && (r.Ok? ==>
                  && ValidName(name) && name !in reg.networks && n.Ok?
                  && r.value == Network(n.value.0, n.value.1, {}) && reg' == reg.(networks := reg.networks[name := r.value])
                  && !Overlaps(n.value.0, BRIDGE) && !OverlapsAny(n.value.0, reg.networks))
  {
  }

  lemma {:induction false} CreateKeepsValid(reg: Registry, name: string, text: SubnetText)
    requires Valid(reg)
    ensures Valid(Create(reg, name, text).0)
  {
    var (reg', r) := Create(reg, name, text);
    CreateShape(reg, name, text);
    NormalizedGateway(Typed(reg, text));
    if r.Ok? {
      TestedIsDisjoint(r.value.subnet, reg);
      AddKeepsValid(reg, name, r.value);
    }
  }

  lemma {:induction false} AddKeepsValid(reg: Registry, name: string, n: Network)
    requires Valid(reg) && ValidName(name) && name !in reg.networks && ValidNetwork(n)
    requires Disjoint(n.subnet, BRIDGE)
    requires forall m <- reg.networks.Keys :: Disjoint(n.subnet, reg.networks[m].subnet)
    ensures Valid(reg.(networks := reg.networks[name := n]))
  {
    forall m | m in reg.networks
      ensures Disjoint(reg.networks[m].subnet, n.subnet)
    {
      assert Disjoint(n.subnet, reg.networks[m].subnet);
    }
  }

  /** Only what one network holds changes, and it holds hosts of its subnet. */
  lemma {:induction false} HoldKeepsValid(reg: Registry, name: string, held: set<nat>)
    requires Valid(reg) && name in reg.networks && forall ip <- held :: IsHost(reg.networks[name].subnet, ip)
    ensures Valid(reg.(networks := reg.networks[name := reg.networks[name].(held := held)]))
  {
  }

  lemma {:induction false} AllocateKeepsValid(reg: Registry, name: string)
    requires Valid(reg)
    ensures Valid(Allocate(reg, name).0)
  {
    if ValidName(name) && name in reg.networks {
      var n := reg.networks[name];
      AllocationIsLeast(n.subnet, n.held);
      var free := FirstFree(n.subnet.base, Size(n.subnet.prefix), n.held, 2);
      if free.Some? {
        HoldKeepsValid(reg, name, n.held + {free.value});
      }
    }
  }

  lemma {:induction false} ReleaseKeepsValid(reg: Registry, name: string, ip: nat)
    requires Valid(reg)
    ensures Valid(Release(reg, name, ip))
  {
    if ValidName(name) && name in reg.networks {
      HoldKeepsValid(reg, name, reg.networks[name].held - {ip});
    }
  }

  lemma {:induction false} RemoveKeepsValid(reg: Registry, name: string, unlinked: bool)
    requires Valid(reg)
    ensures Valid(Remove(reg, name, unlinked).0)
  {
  }

  lemma {:induction false} PoolKeepsValid(reg: Registry)
    requires Valid(reg)
    ensures Valid(AllocatePool(reg).0)
  {
    BridgeIsBlock();
    AllocationIsLeast(BRIDGE, reg.pool);
  }

  lemma {:induction false} StepKeepsValid(reg: Registry, op: Op)
    requires Valid(reg)
    ensures Valid(Apply(reg, op))
  {
    match op
    case DoCreate(name, text) => CreateKeepsValid(reg, name, text);
    case DoAllocate(name) => AllocateKeepsValid(reg, name);
    case DoRelease(name, ip) => ReleaseKeepsValid(reg, name, ip);
    case DoRemove(name, unlinked) => RemoveKeepsValid(reg, name, unlinked);
    case DoAllocatePool => PoolKeepsValid(reg);
    case DoReleasePool(_) =>
  }

  ghost function After(ops: seq<Op>): (reg: Registry)
    ensures Valid(reg)
    decreases |ops|
  {
    if ops == [] then Registry(map[], {})
    else
      var before := After(ops[..|ops| - 1]);
      StepKeepsValid(before, ops[|ops| - 1]);
      Apply(before, ops[|ops| - 1])
  }

  /** Who holds an address: a user network, or the built-in bridge. */
  ghost predicate HeldBy(reg: Registry, owner: Option<string>, ip: nat) {
    match owner
    case None => ip in reg.pool
    case Some(n) => n in reg.networks && ip in reg.networks[n].held
  }

  /** After every run of the six operations the subnets are pairwise disjoint and disjoint from the
      bridge's, every held address is a host of its own subnet, and no address is held twice. */
  lemma {:induction false} NoAddressHeldTwice(ops: seq<Op>, a: Option<string>, b: Option<string>, ip: nat)
    requires HeldBy(After(ops), a, ip) && HeldBy(After(ops), b, ip)
    ensures a == b
    ensures a.Some? ==> IsHost(After(ops).networks[a.value].subnet, ip) && !InRange(BRIDGE, ip)
    ensures a.None? ==> IsHost(BRIDGE, ip)
  {
    var reg := After(ops);
    BridgeIsBlock();
    if a.Some? {
      assert InRange(reg.networks[a.value].subnet, ip);
    }
    if b.Some? {
      assert InRange(reg.networks[b.value].subnet, ip);
    }
    if a.None? || b.None? {
      assert InRange(BRIDGE, ip);
    }
  }

  lemma {:induction false} AllocateShape(reg: Registry, name: string, reg': Registry, ip: Address)
    requires Valid(reg) && Allocate(reg, name) == (reg', Ok(ip))
    ensures ValidName(name) && name in reg.networks
    ensures ip !in reg.networks[name].held
    ensures reg' == reg.(networks := reg.networks[name := reg.networks[name].(held := reg.networks[name].held + {ip})])
  {
    AllocationIsLeast(reg.networks[name].subnet, reg.networks[name].held);
  }

  lemma {:induction false} PutBack(networks: map<string, Network>, name: string, changed: Network, same: Network)
    requires name in networks && same == networks[name]
    ensures networks[name := changed][name := same] == networks
  {
  }

  /** A released address can be allocated again, and nothing else changes. */
  lemma {:induction false} ReleaseUndoesAllocate(reg: Registry, name: string, reg': Registry, ip: Address)
    requires Valid(reg) && Allocate(reg, name) == (reg', Ok(ip))
    ensures Release(reg', name, ip) == reg
  {
    AllocateShape(reg, name, reg', ip);
    var n, held := reg.networks[name], reg.networks[name].held;
    assert held + {ip} - {ip} == held;
    PutBack(reg.networks, name, n.(held := held + {ip}), n.(held := held + {ip} - {ip}));
  }

  lemma {:induction false} NextSubnetIsTen(networks: map<string, Network>, octet: nat) returns (x: nat, y: nat)
    requires 10 <= octet <= 250
    ensures (x == 0 && 10 <= y < 250) || (x == 254 && y == 0)
    ensures NextSubnet(networks, octet) == Ipv4(Ten(x, y, 0), 24)
    decreases 250 - octet
  {
    if octet == 250 {
      x, y := 254, 0;
    } else if exists n <- networks.Keys :: networks[n].subnet == Cidr(Ten(0, octet, 0), 24) {
      x, y := NextSubnetIsTen(networks, octet + 1);
    } else {
      x, y := 0, octet;
    }
  }

  lemma {:induction false} OutsideBridge(block: Cidr)
    requires IsBlock(block) && block.prefix == 24 && block.base >= Ten(0, 3, 0)
    ensures !Overlaps(block, BRIDGE)
  {
    BridgeIsBlock();
    OverlapsIsIntersection(block, BRIDGE);
  }

  /** Without a subnet argument, a fresh valid name gets a network exactly when the first
      10.0.x.0/24 that is not literally taken also overlaps no existing subnet. */
  lemma {:induction false} AutomaticSubnetSucceedsIff(reg: Registry, name: string)
    requires Valid(reg) && ValidName(name) && name !in reg.networks
    ensures var t := NextSubnet(reg.networks, 10);
            && t.Ipv4? && t.bits == 24
            && (Create(reg, name, Empty).1.Ok? <==> !OverlapsAny(Parse(t.ip, 24), reg.networks))
  {
    var t := NextSubnet(reg.networks, 10);
    var x, y := NextSubnetIsTen(reg.networks, 10);
    NormalizedGateway(t);
    var (block, gateway) := Normalize(t).value;
    BridgeIsBlock();
    OutsideBridge(block);
  }

  // ---------------------------------------------------------------- the stateful registry

  /** One file per user network and the file of the built-in pool. */
  class NetworkStore {
    var networks: map<string, Network>
    var pool: set<nat>

    ghost function State(): Registry
      reads this
    {
      Registry(networks, pool)
    }

    constructor ()
      ensures State() == After([])
    {
      networks, pool := map[], {};
    }

    method NextNetworkSubnet() returns (text: SubnetText)
      ensures text == NextSubnet(networks, 10)
    {
      var used := set n <- networks.Keys :: networks[n].subnet;
      for octet := 10 to 250
        invariant NextSubnet(networks, 10) == NextSubnet(networks, octet)
      {
        if Cidr(Ten(0, octet, 0), 24) !in used {
          return Ipv4(Ten(0, octet, 0), 24);
        }
      }
      text := Ipv4(Ten(254, 0, 0), 24);
    }

    method MeetsAny(block: Cidr) returns (b: bool)
      requires Blocks(State()) && block.prefix <= WIDTH
      ensures b <==> OverlapsAny(block, networks)
    {
      var todo := networks.Keys;
      while todo != {}
        invariant todo <= networks.Keys
        invariant forall n <- networks.Keys - todo :: !Overlaps(block, networks[n].subnet)
        decreases todo
      {
        var n :| n in todo;
        if Overlaps(block, networks[n].subnet) {
          return true;
        }
        todo := todo - {n};
      }
      b := false;
    }

    method AdmitSubnet(subnet: SubnetText) returns (r: Result<(Cidr, Address), Error>)
      requires Valid(State())
      ensures r == Admit(State(), subnet)
    {
      var text := subnet;
      if subnet == Empty {
        text := NextNetworkSubnet();
      }
      NormalizedGateway(text);
      r := Normalize(text);
      if r.Ok? {
        var (block, gateway) := r.value;
        if Overlaps(block, BRIDGE) {
          return Err(OverlapsBridge);
        }
        var taken := MeetsAny(block);
        if taken {
          return Err(OverlapsNetwork);
        }
      }
    }

    method CreateNetwork(name: string, subnet: SubnetText) returns (r: Result<Network, Error>)
      requires Valid(State())
      modifies this`networks
      ensures (State(), r) == Create(old(State()), name, subnet) && Valid(State())
    {
      CreateKeepsValid(State(), name, subnet);
      if !ValidName(name) {
        return Err(InvalidName);
      }
      if name in networks {
        return Err(AlreadyExists);
      }
      var admitted := AdmitSubnet(subnet);
      if admitted.Err? {
        return Err(admitted.error);
      }
      var (block, gateway) := admitted.value;
      r := Ok(Network(block, gateway, {}));
      networks := networks[name := r.value];
    }

    /** The scan over host numbers that both allocators run. */
    static method ScanHosts(subnet: Cidr, held: set<nat>) returns (ip: Option<Address>)
      requires subnet.prefix <= WIDTH
      ensures ip == FirstFree(subnet.base, Size(subnet.prefix), held, 2)
    {
      var hosts := Size(subnet.prefix);
      var host := 2;
      while host < hosts - 1
        invariant 2 <= host
        invariant FirstFree(subnet.base, hosts, held, 2) == FirstFree(subnet.base, hosts, held, host)
      {
        var value := Ipv4Add(subnet.base, host);
        if value !in held {
          return Some(value);
        }
        host := host + 1;
      }
      ip := None;
    }

    method AllocateNetworkIP(name: string) returns (r: Result<Address, Error>)
      requires Valid(State())
      modifies this`networks
      ensures (State(), r) == Allocate(old(State()), name) && Valid(State())
    {
      AllocateKeepsValid(State(), name);
      if !ValidName(name) {
        return Err(InvalidName);
      }
      if name !in networks {
        return Err(NotFound);
      }
      var n := networks[name];
      var ip := ScanHosts(n.subnet, n.held);
      if ip.None? {
        return Err(NoFreeAddress);
      }
      networks := networks[name := n.(held := n.held + {ip.value})];
      r := Ok(ip.value);
    }

    method ReleaseNetworkIP(name: string, ip: nat)
      requires Valid(State())
      modifies this`networks
      ensures State() == Release(old(State()), name, ip) && Valid(State())
    {
      ReleaseKeepsValid(State(), name, ip);
      if !ValidName(name) || name !in networks {
        return;
      }
      var n := networks[name];
      networks := networks[name := n.(held := n.held - {ip})];
    }

    method RemoveNetwork(name: string, unlinked: bool) returns (error: Option<Error>)
      requires Valid(State())
      modifies this`networks
      ensures (State(), error) == Remove(old(State()), name, unlinked) && Valid(State())
    {
      RemoveKeepsValid(State(), name, unlinked);
      if !ValidName(name) {
        return Some(InvalidName);
      }
      if name !in networks {
        return Some(NotFound);
      }
      if networks[name].held != {} {
        return Some(StillUsed);
      }
      if !unlinked {
        return Some(BridgeNotRemoved);
      }
      networks := networks - {name};
      error := None;
    }

    method AllocateIP() returns (r: Result<Address, Error>)
      requires Valid(State())
      modifies this`pool
      ensures (State(), r) == AllocatePool(old(State())) && Valid(State())
    {
      PoolKeepsValid(State());
      var ip := ScanHosts(BRIDGE, pool);
      if ip.None? {
        return Err(NoFreeAddress);
      }
      pool := pool + {ip.value};
      r := Ok(ip.value);
    }

    method ReleaseIP(ip: nat)
      requires Valid(State())
      modifies this`pool
      ensures State() == ReleasePool(old(State()), ip) && Valid(State())
    {
      pool := pool - {ip};
    }
  }
}
