/** The socket-address helpers of ofi_net.h: byte-order conversion, the
    sizes and address formats of the three families libfabric knows
    (IPv4, IPv6 and InfiniBand), and port and address queries.

    A socket address is modelled by its family and the fields these helpers
    touch. Multi-byte fields hold the value a host load of the field returns,
    so a field in network byte order is passed through ntohs/ntohll before
    use, exactly as the C code does. The host's byte order is a parameter. */
module NetAddr {
  import opened Common

  type byte = bv8

  datatype ByteOrder = LittleEndian | BigEndian

  function Bswap16(x: bv16): (r: bv16)
    ensures (r >> 8) as int == (x & 0xFF) as int && (r & 0xFF) as int == (x >> 8) as int
  {
    (x << 8) | (x >> 8)
  }

  /** Reverses the eight bytes of a 64-bit value. */
  function Bswap64(x: bv64): (r: bv64)
    ensures r & 0xFF == x >> 56
    ensures (r >> 8) & 0xFF == (x >> 48) & 0xFF
    ensures (r >> 16) & 0xFF == (x >> 40) & 0xFF
    ensures (r >> 24) & 0xFF == (x >> 32) & 0xFF
    ensures (r >> 32) & 0xFF == (x >> 24) & 0xFF
    ensures (r >> 40) & 0xFF == (x >> 16) & 0xFF
    ensures (r >> 48) & 0xFF == (x >> 8) & 0xFF
    ensures r >> 56 == x & 0xFF
  {
    ((x & 0xFF) << 56) | ((x & 0xFF00) << 40) | ((x & 0xFF_0000) << 24) | ((x & 0xFF00_0000) << 8)
    | ((x >> 8) & 0xFF00_0000) | ((x >> 24) & 0xFF_0000) | ((x >> 40) & 0xFF00) | (x >> 56)
  }

  lemma Bswap16Involution(x: bv16)
    ensures Bswap16(Bswap16(x)) == x
  {
  }

  lemma Bswap64Involution(x: bv64)
    ensures Bswap64(Bswap64(x)) == x
  {
  }

  /** The two bytes a host store of a 16-bit value puts in memory, in
      address order. */
  function HostBytes16(order: ByteOrder, v: bv16): (b: seq<byte>)
    ensures |b| == 2
  {
    if order == LittleEndian then [(v & 0xFF) as byte, (v >> 8) as byte]
    else [(v >> 8) as byte, (v & 0xFF) as byte]
  }

  /** The two bytes of a 16-bit value in network (big-endian) order. */
  function NetworkBytes16(v: bv16): (b: seq<byte>)
    ensures |b| == 2 && b[0] as bv16 == v >> 8 && b[1] as bv16 == v & 0xFF
  {
    [(v >> 8) as byte, (v & 0xFF) as byte]
  }

  /** htons: the value whose host store lays x out in network order. */
  function Htons(order: ByteOrder, x: bv16): (r: bv16)
    ensures HostBytes16(order, r) == NetworkBytes16(x)
  {
    if order == LittleEndian then Bswap16(x) else x
  }

  /** ntohs: the value that memory holding x's host store means when read
      in network order. */
  function Ntohs(order: ByteOrder, x: bv16): (r: bv16)
    ensures NetworkBytes16(r) == HostBytes16(order, x)
  {
    if order == LittleEndian then Bswap16(x) else x
  }

  /** htonll: a byte swap on little-endian hosts, the identity on big-endian ones. */
  function Htonll(order: ByteOrder, x: bv64): (r: bv64)
    ensures order == BigEndian ==> r == x
    ensures order == LittleEndian ==> r == Bswap64(x)
  {
    if order == LittleEndian then Bswap64(x) else x
  }

  /** ntohll: the same conversion in the other direction. */
  function Ntohll(order: ByteOrder, x: bv64): (r: bv64)
    ensures order == BigEndian ==> r == x
    ensures order == LittleEndian ==> r == Bswap64(x)
  {
    if order == LittleEndian then Bswap64(x) else x
  }

  /** ntohll undoes htonll, and the other way round, on either kind of host. */
  lemma HostNetworkRoundTrip64(order: ByteOrder, x: bv64)
    ensures Ntohll(order, Htonll(order, x)) == x
    ensures Htonll(order, Ntohll(order, x)) == x
  {
    Bswap64Involution(x);
  }

  lemma HostNetworkRoundTrip16(order: ByteOrder, x: bv16)
    ensures Ntohs(order, Htons(order, x)) == x
  {
    Bswap16Involution(x);
  }

  // Address families (Linux values; AF_IB is defined here when the system lacks it).
  const AF_INET: int := 2
  const AF_INET6: int := 10
  const AF_IB: int := 27

  // libfabric address formats.
  const FI_FORMAT_UNSPEC: int := 0
  const FI_SOCKADDR: int := 1
  const FI_SOCKADDR_IN: int := 2
  const FI_SOCKADDR_IN6: int := 3
  const FI_SOCKADDR_IB: int := 4

  // Structure sizes: sockaddr_in, sockaddr_in6, ofi_sockaddr_ib, and the
  // union ofi_sock_ip that is as large as its largest member.
  const SIZEOF_SOCKADDR_IN: nat := 16
  const SIZEOF_SOCKADDR_IN6: nat := 28
  const SIZEOF_SOCKADDR_IB: nat := 48
  const SIZEOF_SOCK_IP: nat := 48

  const OFI_RDMA_PS_IB: bv64 := 0x013F
  const OFI_IB_IP_PS_MASK: bv64 := 0xFFFF_FFFF_FFFF_0000
  const OFI_IB_IP_PORT_MASK: bv64 := 0x0000_0000_0000_FFFF

  type Ipv4Bytes = s: seq<byte> | |s| == 4 witness [0, 0, 0, 0]
  type Ipv6Bytes = s: seq<byte> | |s| == 16 witness seq(16, _ => 0)
  type PadBytes = s: seq<byte> | |s| == 8 witness seq(8, _ => 0)

  /** A socket address. `port`, `sid` and `sidMask` hold what a host load of
      the field returns; the fields keep network byte order in memory. */
  datatype RawSockAddr =
    | Sin(port: bv16, sinAddr: Ipv4Bytes, sinZero: PadBytes)
    | Sin6(port: bv16, sin6Addr: Ipv6Bytes)
    | Sib(sibAddr: Ipv6Bytes, sid: bv64, sidMask: bv64)
    | Unknown(family: int)

  /** An address whose family field agrees with its layout. */
  type SockAddr = a: RawSockAddr | !a.Unknown? || a.family !in {AF_INET, AF_INET6, AF_IB}
    witness Unknown(0)

  /** The sa_family field. */
  function Family(a: SockAddr): (f: int)
    ensures a.Sin? <==> f == AF_INET
    ensures a.Sin6? <==> f == AF_INET6
    ensures a.Sib? <==> f == AF_IB
  {
    match a
    case Sin(_, _, _) => AF_INET
    case Sin6(_, _) => AF_INET6
    case Sib(_, _, _) => AF_IB
    case Unknown(f) => f
  }

  /** ofi_sizeofaddr: the size of the structure the family names, 0 if unknown. */
  function SizeofAddr(a: SockAddr): (n: nat)
    ensures a.Unknown? <==> n == 0
    ensures a.Sin? ==> n == SIZEOF_SOCKADDR_IN
    ensures a.Sin6? ==> n == SIZEOF_SOCKADDR_IN6
    ensures a.Sib? ==> n == SIZEOF_SOCKADDR_IB
  {
    match a
    case Sin(_, _, _) => SIZEOF_SOCKADDR_IN
    case Sin6(_, _) => SIZEOF_SOCKADDR_IN6
    case Sib(_, _, _) => SIZEOF_SOCKADDR_IB
    case Unknown(_) => 0
  }

  /** The address bytes ofi_get_ipaddr points at, empty for an unknown family. */
  function IpBytes(a: SockAddr): (b: seq<byte>)
    ensures a.Sin? ==> b == a.sinAddr
    ensures a.Sin6? ==> b == a.sin6Addr
    ensures a.Sib? ==> b == a.sibAddr
    ensures a.Unknown? ==> b == []
  {
    match a
    case Sin(_, ip, _) => ip
    case Sin6(_, ip) => ip
    case Sib(ip, _, _) => ip
    case Unknown(_) => []
  }

  /** ofi_sizeofip: the size of the address part, 0 if the family is unknown. */
  function SizeofIp(a: SockAddr): (n: nat)
    ensures n == |IpBytes(a)|
    ensures a.Sin? ==> n == 4
    ensures a.Sin6? || a.Sib? ==> n == 16
  {
    match a
    case Sin(_, _, _) => 4
    case Sin6(_, _) => 16
    case Sib(_, _, _) => 16
    case Unknown(_) => 0
  }

  /** ofi_translate_addr_format: the libfabric address format of a family. */
  function TranslateAddrFormat(family: int): (format: int)
    ensures family == AF_INET <==> format == FI_SOCKADDR_IN
    ensures family == AF_INET6 <==> format == FI_SOCKADDR_IN6
    ensures family == AF_IB <==> format == FI_SOCKADDR_IB
    ensures family !in {AF_INET, AF_INET6, AF_IB} <==> format == FI_FORMAT_UNSPEC
  {
    if family == AF_INET then FI_SOCKADDR_IN
    else if family == AF_INET6 then FI_SOCKADDR_IN6
    else if family == AF_IB then FI_SOCKADDR_IB
    else FI_FORMAT_UNSPEC
  }

  /** ofi_sizeof_addr_format: the size of an address of the given format;
      the generic socket-address format gets room for any of them. */
  function SizeofAddrFormat(format: int): (n: nat)
    ensures format !in {FI_SOCKADDR, FI_SOCKADDR_IN, FI_SOCKADDR_IN6, FI_SOCKADDR_IB} <==> n == 0
    ensures format == FI_SOCKADDR ==> n == SIZEOF_SOCK_IP
  {
    if format == FI_SOCKADDR then SIZEOF_SOCK_IP
    else if format == FI_SOCKADDR_IN then SIZEOF_SOCKADDR_IN
    else if format == FI_SOCKADDR_IN6 then SIZEOF_SOCKADDR_IN6
    else if format == FI_SOCKADDR_IB then SIZEOF_SOCKADDR_IB
    else 0
  }

  /** The three size tables agree: an address's size is the size of its
      family's format, and the generic format has room for every family. */
  lemma SizeTablesAgree(a: SockAddr)
    ensures SizeofAddr(a) == SizeofAddrFormat(TranslateAddrFormat(Family(a)))
    ensures SizeofAddr(a) <= SizeofAddrFormat(FI_SOCKADDR)
  {
  }

  /** ofi_is_any_addr: whether a non-NULL address of a known family is the
      wildcard address (all address bytes zero). */
  function IsAnyAddr(sa: Option<SockAddr>): (b: bool)
    ensures sa.None? || sa.value.Unknown? ==> !b
    ensures sa.Some? && sa.value.Sin? ==> (b <==> sa.value.sinAddr == seq(4, _ => 0))
    ensures sa.Some? && sa.value.Sin6? ==> (b <==> sa.value.sin6Addr == seq(16, _ => 0))
    ensures sa.Some? && sa.value.Sib? ==> (b <==> sa.value.sibAddr == seq(16, _ => 0))
  {
    if sa.None? || sa.value.Unknown? then false
    else
      AllZeroIsZeroes(IpBytes(sa.value));
      forall j :: 0 <= j < |IpBytes(sa.value)| ==> IpBytes(sa.value)[j] == 0
  }

  /** A byte string is all zero exactly when it equals the zero string of
      its length. */
  lemma AllZeroIsZeroes(s: seq<byte>)
    ensures (forall j :: 0 <= j < |s| ==> s[j] == 0) <==> s == seq(|s|, _ => 0)
  {
    if forall j :: 0 <= j < |s| ==> s[j] == 0 {
      assert s == seq(|s|, _ => 0);
    }
  }

  /** ofi_addr_get_port: the port in host byte order, 0 for NULL or an
      unknown family; for InfiniBand, the low 16 bits of the service id. */
  function GetPort(order: ByteOrder, addr: Option<SockAddr>): (p: bv16)
    ensures addr.None? || addr.value.Unknown? ==> p == 0
    ensures addr.Some? && (addr.value.Sin? || addr.value.Sin6?) ==> p == Ntohs(order, addr.value.port)
  {
    if addr.None? then 0
    else match addr.value
      case Sin(port, _, _) => Ntohs(order, port)
      case Sin6(port, _) => Ntohs(order, port)
      case Sib(_, sid, _) => Low16(Ntohll(order, sid))
      case Unknown(_) => 0
  }

  /** The truncating cast of a 64-bit value to uint16_t. */
  function Low16(x: bv64): (r: bv16)
    ensures r as bv64 == x & 0xFFFF
  {
    (x & 0xFFFF) as bv16
  }

  /** The address after ofi_addr_set_port. For InfiniBand the service id
      becomes the IB port space followed by ntohs(port), and the mask covers
      both. An unknown family is left as it is (the source's assertion is
      compiled out of release builds). */
  function WithPort(a: SockAddr, port: bv16, order: ByteOrder): (r: SockAddr)
    ensures Family(r) == Family(a) && IpBytes(r) == IpBytes(a)
    ensures r.Sin? ==> r.sinZero == a.sinZero
  {
    match a
    case Sin(_, ip, zero) => Sin(Htons(order, port), ip, zero)
    case Sin6(_, ip) => Sin6(Htons(order, port), ip)
    case Sib(ip, _, _) =>
      Sib(ip, Htonll(order, (OFI_RDMA_PS_IB << 16) + Ntohs(order, port) as bv64),
          Htonll(order, OFI_IB_IP_PS_MASK | OFI_IB_IP_PORT_MASK))
    case Unknown(_) => a
  }

  /** A socket-address buffer that ofi_addr_set_port writes into. */
  class SockAddrBuffer {
    var addr: SockAddr

    constructor (a: SockAddr)
      ensures addr == a
    {
      addr := a;
    }

    /** ofi_addr_set_port on the buffer's address. */
    method SetPort(port: bv16, order: ByteOrder)
      modifies this
      ensures addr == WithPort(old(addr), port, order)
    {
      ghost var expected := WithPort(addr, port, order);
      match addr
      case Sin(_, ip, zero) =>
        addr := Sin(Htons(order, port), ip, zero);
      case Sin6(_, ip) =>
        addr := Sin6(Htons(order, port), ip);
      case Sib(ip, _, _) =>
        var sid := Htonll(order, (OFI_RDMA_PS_IB << 16) + Ntohs(order, port) as bv64);
        var mask := Htonll(order, OFI_IB_IP_PS_MASK | OFI_IB_IP_PORT_MASK);
        addr := Sib(ip, sid, mask);
      case Unknown(_) =>
    }
  }

  /** Setting a port and reading it back gives the port for IPv4 and IPv6;
      only the port changes. */
  lemma GetSetPortIp(a: SockAddr, port: bv16, order: ByteOrder)
    requires a.Sin? || a.Sin6?
    ensures GetPort(order, Some(WithPort(a, port, order))) == port
    ensures WithPort(a, port, order).port == Htons(order, port)
  {
    HostNetworkRoundTrip16(order, port);
  }

  /** For InfiniBand, reading the port back gives ntohs(port): the port
      itself on a big-endian host, its bytes swapped on a little-endian one.
      The stored mask covers the whole service id. */
  lemma GetSetPortIb(a: SockAddr, port: bv16, order: ByteOrder)
    requires a.Sib?
    ensures GetPort(order, Some(WithPort(a, port, order))) == Ntohs(order, port)
    ensures Ntohll(order, WithPort(a, port, order).sidMask) == 0xFFFF_FFFF_FFFF_FFFF
    ensures Ntohll(order, WithPort(a, port, order).sid) >> 16 == OFI_RDMA_PS_IB
  {
    var r := WithPort(a, port, order);
    var host := (OFI_RDMA_PS_IB << 16) + Ntohs(order, port) as bv64;
    IbFieldsAfterSetPort(a, port, order);
    LowPortBits(Ntohs(order, port));
    assert GetPort(order, Some(r)) == Low16(host);
  }

  /** The host-order values ofi_addr_set_port leaves in the InfiniBand
      service id and its mask. */
  lemma IbFieldsAfterSetPort(a: SockAddr, port: bv16, order: ByteOrder)
    requires a.Sib?
    ensures Ntohll(order, WithPort(a, port, order).sid) == (OFI_RDMA_PS_IB << 16) + Ntohs(order, port) as bv64
    ensures Ntohll(order, WithPort(a, port, order).sidMask) == 0xFFFF_FFFF_FFFF_FFFF
  {
    HostNetworkRoundTrip64(order, (OFI_RDMA_PS_IB << 16) + Ntohs(order, port) as bv64);
    HostNetworkRoundTrip64(order, OFI_IB_IP_PS_MASK | OFI_IB_IP_PORT_MASK);
  }

  lemma LowPortBits(p: bv16)
    ensures Low16((OFI_RDMA_PS_IB << 16) + p as bv64) == p
    ensures ((OFI_RDMA_PS_IB << 16) + p as bv64) >> 16 == OFI_RDMA_PS_IB
  {
  }

  /** On a little-endian host the InfiniBand port does not survive a set and
      get: port 0x1234 reads back as 0x3412. */
  lemma IbPortRoundTripSwapsBytes(a: SockAddr)
    requires a.Sib?
    ensures GetPort(LittleEndian, Some(WithPort(a, 0x1234, LittleEndian))) == 0x3412
  {
    GetSetPortIb(a, 0x1234, LittleEndian);
  }

  /** ofi_addr_set_port with the InfiniBand port stored as given, in host
      byte order, like the other two families. */
  function WithPortHostOrder(a: SockAddr, port: bv16, order: ByteOrder): (r: SockAddr)
    ensures Family(r) == Family(a) && IpBytes(r) == IpBytes(a)
    ensures !a.Sib? ==> r == WithPort(a, port, order)
  {
    match a
    case Sib(ip, _, _) =>
      Sib(ip, Htonll(order, (OFI_RDMA_PS_IB << 16) + port as bv64),
          Htonll(order, OFI_IB_IP_PS_MASK | OFI_IB_IP_PORT_MASK))
    case _ => WithPort(a, port, order)
  }

  /** With the port stored in host byte order, set then get returns the port
      for every known family and on either kind of host. */
  lemma GetSetPortHostOrder(a: SockAddr, port: bv16, order: ByteOrder)
    requires !a.Unknown?
    ensures GetPort(order, Some(WithPortHostOrder(a, port, order))) == port
  {
    if a.Sib? {
      HostNetworkRoundTrip64(order, (OFI_RDMA_PS_IB << 16) + port as bv64);
      LowPortBits(port);
    } else {
      GetSetPortIp(a, port, order);
    }
  }

  /** ofi_valid_dest_ipaddr: a destination needs a nonzero port and a
      non-wildcard address, and an IPv4 one also a zero padding field. */
  function ValidDestIpAddr(order: ByteOrder, a: SockAddr): (b: bool)
    ensures a.Unknown? ==> !b
    ensures a.Sin? ==>
      (b <==> a.port != 0 && a.sinAddr != seq(4, _ => 0) && a.sinZero == seq(8, _ => 0))
    ensures a.Sin6? ==> (b <==> a.port != 0 && a.sin6Addr != seq(16, _ => 0))
    ensures a.Sib? ==> (b <==> Low16(Ntohll(order, a.sid)) != 0 && a.sibAddr != seq(16, _ => 0))
  {
    GetPort(order, Some(a)) != 0 && !IsAnyAddr(Some(a))
    && (Family(a) != AF_INET || forall j :: 0 <= j < 8 ==> a.sinZero[j] == 0)
  }

  /** ofi_equals_ipaddr: same known family and same address bytes. */
  function EqualsIpAddr(a1: SockAddr, a2: SockAddr): (b: bool)
    ensures b ==> !a1.Unknown? && !a2.Unknown? && Family(a1) == Family(a2)
    ensures a1.Sin? && a2.Sin? ==> (b <==> a1.sinAddr == a2.sinAddr)
    ensures a1.Sin6? && a2.Sin6? ==> (b <==> a1.sin6Addr == a2.sin6Addr)
    ensures a1.Sib? && a2.Sib? ==> (b <==> a1.sibAddr == a2.sibAddr)
  {
    Family(a1) == Family(a2) && !a1.Unknown? && IpBytes(a1) == IpBytes(a2)
  }

  /** ofi_equals_sockaddr: same port and same address. */
  function EqualsSockAddr(order: ByteOrder, a1: SockAddr, a2: SockAddr): (b: bool)
    ensures b ==> EqualsIpAddr(a1, a2)
    ensures a1.Sin? && a2.Sin? ==> (b <==> a1.port == a2.port && a1.sinAddr == a2.sinAddr)
    ensures a1.Sin6? && a2.Sin6? ==> (b <==> a1.port == a2.port && a1.sin6Addr == a2.sin6Addr)
    ensures a1.Sib? && a2.Sib? ==>
      (b <==> Low16(Ntohll(order, a1.sid)) == Low16(Ntohll(order, a2.sid)) && a1.sibAddr == a2.sibAddr)
  {
    if (a1.Sin? || a1.Sin6?) && (a2.Sin? || a2.Sin6?) then
      NtohsInjective(order, a1.port, a2.port);
      GetPort(order, Some(a1)) == GetPort(order, Some(a2)) && EqualsIpAddr(a1, a2)
    else
      GetPort(order, Some(a1)) == GetPort(order, Some(a2)) && EqualsIpAddr(a1, a2)
  }

  /** Two ports read through ntohs agree exactly when the fields do. */
  lemma NtohsInjective(order: ByteOrder, x: bv16, y: bv16)
    ensures Ntohs(order, x) == Ntohs(order, y) <==> x == y
  {
    Bswap16Involution(x);
    Bswap16Involution(y);
  }

  /** A destination that passes ofi_valid_dest_ipaddr is of a known family. */
  lemma ValidDestIsKnownFamily(order: ByteOrder, a: SockAddr)
    requires ValidDestIpAddr(order, a)
    ensures !a.Unknown?
    ensures exists j :: 0 <= j < |IpBytes(a)| && IpBytes(a)[j] != 0
  {
  }

  /** Address equality compares the family, the port and the address bytes,
      nothing else: it is an equivalence on addresses of known families,
      and an unknown family equals nothing, not even itself. */
  lemma EqualsSockAddrIsEquivalence(order: ByteOrder, a: SockAddr, b: SockAddr, c: SockAddr)
    ensures EqualsSockAddr(order, a, a) <==> !a.Unknown?
    ensures EqualsSockAddr(order, a, b) ==> EqualsSockAddr(order, b, a)
    ensures EqualsSockAddr(order, a, b) && EqualsSockAddr(order, b, c) ==> EqualsSockAddr(order, a, c)
  {
  }

  /** Changing the port of an IP address keeps it equal as an IP address and
      makes it equal as a socket address to any same-address socket address
      carrying that port. */
  lemma SetPortKeepsIpAddr(order: ByteOrder, a: SockAddr, b: SockAddr, port: bv16)
    requires a.Sin? || a.Sin6?
    requires EqualsIpAddr(a, b) && GetPort(order, Some(b)) == port
    ensures EqualsIpAddr(WithPort(a, port, order), a)
    ensures EqualsSockAddr(order, WithPort(a, port, order), b)
  {
    GetSetPortIp(a, port, order);
  }
}
