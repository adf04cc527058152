/**
 The driver's natives (the functions the Python layer calls) that do more
 than forward a call: the buffer-window clamp and result mapping of
 `recv_into` / `recvfrom_into`, `send`, `select`'s timeout split and result
 loop, `socket` and `close` with their socket-table updates, `accept`'s
 address conversion, and `set_info`'s defaults.

 Argument parsing, object construction and host library calls are not
 modelled; the library's answers are parameters or oracle sequences.
 */
module Natives {
  import opened Basics
  import opened SocketTable
  import opened Addresses
  import opened SocketProxy

  /** How a native returns: a value, or the exception it raises. */
  datatype Native<T> =
    | Ok(value: T)
    | TypeError
    | Unsupported
    | IoError
    | Timeout

  // ------------------------------------------------------ recv_into family

  /** The byte count the receive natives ask for: the room behind `ofs` in the
      buffer, clamped to the requested size `sz`. */
  function EffectiveLength(bufLen: int, sz: int, ofs: int): (n: int)
    ensures n <= sz && n <= bufLen - ofs
    ensures n == sz || n == bufLen - ofs
  {
    Min(sz, bufLen - ofs)
  }

  /** With an offset inside the buffer and a non-negative size, the window
      `[ofs, ofs + n)` lies inside the buffer. */
  lemma WindowInsideBuffer(bufLen: int, sz: int, ofs: int)
    requires 0 <= ofs <= bufLen && 0 <= sz
    ensures 0 <= EffectiveLength(bufLen, sz, ofs)
    ensures ofs + EffectiveLength(bufLen, sz, ofs) <= bufLen
  {
  }

  /** How both receive natives turn the count into a result: the timeout code
      raises a timeout, any other negative an I/O error, else the count. */
  function MapRecvResult(r: int): (n: Native<int>)
    ensures n.Timeout? <==> r == RecvTimedOut
    ensures n.IoError? <==> r < 0 && r != RecvTimedOut
    ensures n.Ok? <==> r >= 0
    ensures n.Ok? ==> n.value == r
  {
    if r < 0 then (if r == RecvTimedOut then Timeout else IoError)
    else Ok(r)
  }

  /** `cc3000_recv_into`: the window length, converted to the `uint32_t`
      length parameter of `cc3000_net_recv`, then the result mapping. The table
      is the socket table afterwards. */
  function RecvInto(t: Table, sock: int, bufLen: int, sz: int, ofs: int, replies: seq<int>)
    : (r: Option<(Native<int>, Table)>)
    ensures r.Some? <==> NetRecv(t, sock, ToU32(EffectiveLength(bufLen, sz, ofs)), replies).Some?
    // as written the result is always a count: the receive loop's, or the timeout code's magnitude
    ensures r.Some? ==>
      var run := RecvLoop(t, sock, ToU32(EffectiveLength(bufLen, sz, ofs)), 0, replies).value;
      && r.value.0 == Ok(if run.stop == TimedOut then -RecvTimedOut else run.read)
      && r.value.1 == run.table
  {
    match NetRecv(t, sock, ToU32(EffectiveLength(bufLen, sz, ofs)), replies)
    case None => None
    case Some(x) => Some((MapRecvResult(x.0), x.1))
  }

  /** The same native over the corrected `cc3000_net_recv`. */
  function RecvIntoIntended(t: Table, sock: int, bufLen: int, sz: int, ofs: int, replies: seq<int>)
    : (r: Option<(Native<int>, Table)>)
    ensures r.Some? <==> NetRecvIntended(t, sock, ToU32(EffectiveLength(bufLen, sz, ofs)), replies).Some?
    // a timed-out loop raises a timeout; any other run returns its count
    ensures r.Some? ==>
      var run := RecvLoop(t, sock, ToU32(EffectiveLength(bufLen, sz, ofs)), 0, replies).value;
      && r.value.0 == (if run.stop == TimedOut then Timeout else Ok(run.read))
      && r.value.1 == run.table
  {
    match NetRecvIntended(t, sock, ToU32(EffectiveLength(bufLen, sz, ofs)), replies)
    case None => None
    case Some(x) => Some((MapRecvResult(x.0), x.1))
  }

  /** As written, `recv_into` never raises: neither a timeout nor an I/O
      error. A timed-out receive returns the magnitude of the timeout code as
      if that many bytes had arrived, and a failed one returns the bytes read
      before the failure. */
  lemma RecvIntoNeverRaises(t: Table, sock: int, bufLen: int, sz: int, ofs: int, replies: seq<int>)
    requires RecvInto(t, sock, bufLen, sz, ofs, replies).Some?
    ensures var len := ToU32(EffectiveLength(bufLen, sz, ofs));
      var run := RecvLoop(t, sock, len, 0, replies).value;
      var r := RecvInto(t, sock, bufLen, sz, ofs, replies).value.0;
      && r.Ok?
      && (run.stop == TimedOut ==> r.value == -RecvTimedOut)
      && (run.stop != TimedOut ==> r.value == run.read)
  {
  }

  /** The concrete case: ten bytes asked, the first `recv` times out. The
      native returns 57 "bytes" instead of raising a timeout. */
  lemma RecvIntoTimeoutExample(t: Table, sock: int)
    ensures RecvInto(t, sock, 10, 10, 0, [RecvTimedOut]) == Some((Ok(-RecvTimedOut), t))
    ensures RecvIntoIntended(t, sock, 10, 10, 0, [RecvTimedOut]) == Some((Timeout, t))
  {
    assert RecvLoop(t, sock, 10, 0, [RecvTimedOut]).value.stop == TimedOut;
  }

  /** Over the corrected helper, `recv_into` raises a timeout exactly when a
      `recv` timed out, an I/O error exactly when one failed (the slot is then
      freed), and otherwise returns the count read. */
  lemma RecvIntoIntendedReportsTimeout(t: Table, sock: int, bufLen: int, sz: int, ofs: int, replies: seq<int>)
    requires RecvIntoIntended(t, sock, bufLen, sz, ofs, replies).Some?
    ensures var len := ToU32(EffectiveLength(bufLen, sz, ofs));
      var run := RecvLoop(t, sock, len, 0, replies).value;
      var r := RecvIntoIntended(t, sock, bufLen, sz, ofs, replies).value;
      && (r.0.Timeout? <==> run.stop == TimedOut)
      && (r.0.Ok? <==> run.stop != TimedOut)
      && (r.0.Ok? ==> r.0.value == run.read)
      && (run.stop == Failed ==> r.1 == HandleSocket(t, sock, Free).table)
  {
  }

  /** `cc3000_recvfrom_into` after its wait loop: `cc3000_net_recvfrom`'s
      count mapped to a result, paired with the sender's address. The window
      length it asks for (`EffectiveLength`) does not influence the outcome
      here, since `recvfrom`'s answer `rb` is a parameter. */
  function RecvFromInto(t: Table, sock: int, rb: int, sa: SockAddr)
    : (r: (Native<(int, NetAddress)>, Table))
    requires ValidSockAddr(sa)
    ensures r.0.Ok? ==> r.0.value.1 == ReadAddr(sa)
    ensures r.1 == NetRecvFrom(t, sock, rb, sa).table
  {
    var f := NetRecvFrom(t, sock, rb, sa);
    match MapRecvResult(f.result)
    case Ok(n) => (Ok((n, f.from)), f.table)
    case Timeout => (Timeout, f.table)
    case IoError => (IoError, f.table)
    case TypeError => (TypeError, f.table)
    case Unsupported => (Unsupported, f.table)
  }

  /** `recvfrom_into` raises a timeout exactly on the timeout code and never
      an I/O error: a failed `recvfrom` frees the slot and reads as an empty
      datagram. */
  lemma RecvFromIntoNeverIoError(t: Table, sock: int, rb: int, sa: SockAddr)
    requires ValidSockAddr(sa)
    ensures var r := RecvFromInto(t, sock, rb, sa);
      && !r.0.IoError?
      && (r.0.Timeout? <==> rb == RecvTimedOut)
      && (rb >= 0 ==> r.0 == Ok((rb, ReadAddr(sa))) && r.1 == t)
      && (rb < 0 && rb != RecvTimedOut ==>
            r.0 == Ok((0, ReadAddr(sa))) && r.1 == HandleSocket(t, sock, Free).table)
  {
  }

  /** `cc3000_send`: `cc3000_net_send` over the length as `uint32_t`; a
      negative count would raise an I/O error. */
  function Send(len: int, replies: seq<int>): (r: Option<Native<int>>)
    ensures r.Some? <==> NetSend(ToU32(len), replies).Some?
    // never an I/O error: the count of bytes the loop got accepted
    ensures r.Some? ==> r.value == Ok(NetSend(ToU32(len), replies).value.written)
  {
    match NetSend(ToU32(len), replies)
    case None => None
    case Some(run) => if run.written < 0 then Some(IoError) else Some(Ok(run.written))
  }

  /** `send` never raises: `cc3000_net_send` returns the bytes written so far
      even when the library refuses a piece. */
  lemma SendNeverRaises(len: int, replies: seq<int>)
    requires Send(len, replies).Some?
    ensures Send(len, replies).value.Ok?
    ensures Send(len, replies).value.value == SumPositive(replies[..|NetSend(ToU32(len), replies).value.chunks|])
  {
    SendLoopSpec(ToU32(len), 0, replies);
  }

  // --------------------------------------------------------------- select

  /** A `select` timeout in milliseconds as a `timeval`. */
  datatype TimeVal = TimeVal(sec: int, usec: int)

  /** The timeout conversion of `cc3000_select`: a negative value is a type
      error; otherwise whole seconds and the rest in microseconds. */
  function SplitTimeout(ms: int): (r: Native<TimeVal>)
    ensures r.TypeError? <==> ms < 0
    ensures r.Ok? ==>
      && r.value.sec * 1000 + r.value.usec / 1000 == ms
      && 0 <= r.value.usec < 1_000_000
      && r.value.usec % 1000 == 0
    ensures r.Ok? || r.TypeError?
  {
    if ms < 0 then TypeError else Ok(TimeVal(ms / 1000, (ms % 1000) * 1000))
  }

  /** An element of a descriptor list: a small integer or anything else. */
  datatype Item = SmallInt(fd: int) | NotInt

  /** The descriptor-gathering loop of `cc3000_select` over the read, write and
      error lists: a non-integer element is a type error; otherwise the largest
      descriptor, starting from -1. */
  function MaxFd(lists: seq<seq<Item>>, sock: int): (r: Native<int>)
    ensures r.Ok? || r.TypeError?
    ensures r.TypeError? <==> exists j, i :: 0 <= j < |lists| && 0 <= i < |lists[j]| && lists[j][i].NotInt?
    ensures r.Ok? ==> r.value >= sock
    ensures r.Ok? ==> forall j, i :: 0 <= j < |lists| && 0 <= i < |lists[j]| ==> lists[j][i].fd <= r.value
    ensures r.Ok? ==>
      (r.value == sock ||
       exists j, i :: 0 <= j < |lists| && 0 <= i < |lists[j]| && lists[j][i].fd == r.value)
    decreases |lists|
  {
    if |lists| == 0 then Ok(sock)
    else match MaxIn(lists[0], sock)
      case None => TypeError
      case Some(m) =>
        DropFirst(lists);
        MaxFd(lists[1..], m)
  }

  /** The largest descriptor of one list, starting from `sock`; `None` when an
      element is not an integer. */
  function MaxIn(items: seq<Item>, sock: int): (r: Option<int>)
    ensures r.None? <==> exists i :: 0 <= i < |items| && items[i].NotInt?
    ensures r.Some? ==> r.value >= sock && forall i :: 0 <= i < |items| ==> items[i].fd <= r.value
    ensures r.Some? ==> r.value == sock || exists i :: 0 <= i < |items| && items[i].fd == r.value
    decreases |items|
  {
    if |items| == 0 then Some(sock)
    else if items[0].NotInt? then None
    else
      DropFirst(items);
      MaxIn(items[1..], if items[0].fd > sock then items[0].fd else sock)
  }

  /** The result loop of `cc3000_select` for one set: the descriptors
      `0 <= i < sock` still in the set `select` handed back, in increasing
      order. `sock` is the largest descriptor passed in, which the bound
      leaves out. */
  function Reported(ready: set<int>, sock: int): (r: seq<int>)
    ensures forall i :: 0 <= i < |r| ==> r[i] in ready && 0 <= r[i] < sock
    ensures forall x :: x in ready && 0 <= x < sock ==> x in r
    ensures forall i, j :: 0 <= i < j < |r| ==> r[i] < r[j]
    decreases sock
  {
    if sock <= 0 then []
    else
      var prefix := Reported(ready, sock - 1);
      if sock - 1 in ready then prefix + [sock - 1] else prefix
  }

  /** `cc3000_select` after the call: a negative result raises an I/O error;
      otherwise one list per set. */
  function SelectResult(tmp: int, ready: seq<set<int>>, sock: int): (r: Native<seq<seq<int>>>)
    ensures r.IoError? <==> tmp < 0
    ensures r.Ok? ==> |r.value| == |ready|
    ensures r.Ok? ==> forall j :: 0 <= j < |ready| ==> r.value[j] == Reported(ready[j], sock)
  {
    if tmp < 0 then IoError else Ok(seq(|ready|, j requires 0 <= j < |ready| => Reported(ready[j], sock)))
  }

  /** The largest descriptor is never reported ready, even when `select` says
      it is. */
  lemma HighestDescriptorNeverReported(lists: seq<seq<Item>>, tmp: int, ready: seq<set<int>>)
    requires MaxFd(lists, -1).Ok? && tmp >= 0
    ensures var sock := MaxFd(lists, -1).value;
      forall j :: 0 <= j < |ready| ==> sock !in SelectResult(tmp, ready, sock).value[j]
  {
  }

  // ------------------------------------------------------- socket and close

  const DrvAfInet: int := 0
  const DrvSockStream: int := 0
  const DrvSockDgram: int := 1

  /** The library socket kind a native socket type maps to: datagram sockets
      use UDP, stream sockets TCP. */
  datatype SocketKind = StreamTcp | DatagramUdp

  /** `cc3000_socket`: check the type, then the family; the library's result
      `created` is a descriptor or negative. A new descriptor is entered in the
      first free slot; with no free slot the table is left as it was. */
  function Socket(t: Table, family: int, kind: int, created: int): (r: (Native<(int, SocketKind)>, Table))
    ensures r.0.TypeError? <==> kind != DrvSockStream && kind != DrvSockDgram
    ensures r.0.Unsupported? <==> !r.0.TypeError? && family != DrvAfInet
    ensures r.0.IoError? <==> kind in {DrvSockStream, DrvSockDgram} && family == DrvAfInet && created < 0
    ensures r.0.Ok? ==> r.0.value.0 == created
    ensures r.0.Ok? ==> (r.0.value.1 == DatagramUdp <==> kind == DrvSockDgram)
    ensures !r.0.Ok? ==> r.1 == t
    ensures r.0.Ok? ==> r.1 == HandleSocket(t, Free, created).table
  {
    if kind != DrvSockDgram && kind != DrvSockStream then (TypeError, t)
    else if family != DrvAfInet then (Unsupported, t)
    else if created < 0 then (IoError, t)
    else (Ok((created, if kind == DrvSockDgram then DatagramUdp else StreamTcp)),
          HandleSocket(t, Free, created).table)
  }

  /** A created socket is known to the table exactly when the table had a free
      slot, and live descriptors stay distinct. */
  lemma SocketRegisters(t: Table, family: int, kind: int, created: int)
    requires Distinct(t) && created !in t
    requires Socket(t, family, kind, created).0.Ok?
    ensures var after := Socket(t, family, kind, created).1;
      && Distinct(after)
      && (IsSocketValid(after, created) <==> Free in t)
      && (Free !in t ==> after == t)
  {
    AssignKeepsDistinct(t, created);
  }

  /** `cc3000_close`: the library's result is ignored, the descriptor's slot is
      freed and the descriptor itself returned. */
  function Close(t: Table, sock: int): (r: (Native<int>, Table))
    ensures r.0 == Ok(sock)
    ensures sock in t ==>
      exists i :: 0 <= i < MaxSockets && t[i] == sock && (forall j :: 0 <= j < i ==> t[j] != sock) && r.1 == t[i := Free]
    ensures sock !in t ==> r.1 == t
  {
    (Ok(sock), HandleSocket(t, sock, Free).table)
  }

  /** Closing a socket and then creating one reuses a slot no later than the
      one closed; after a close the descriptor is unknown. */
  lemma CloseThenSocket(t: Table, sock: int, created: int)
    requires Distinct(t) && sock != Free && sock in t
    ensures !IsSocketValid(Close(t, sock).1, sock)
    ensures created >= 0 ==> IsSocketValid(Socket(Close(t, sock).1, DrvAfInet, DrvSockStream, created).1, created)
  {
    ReleaseKeepsDistinct(t, sock);
    ReleaseThenAssignReuses(t, sock, created);
    var released := HandleSocket(t, sock, Free);
    var h := HandleSocket(released.table, Free, created);
    assert h.table[h.index] == created;
  }

  // ------------------------------------------------------- accept and info

  /** How `cc3000_accept` reads the peer address: port and IP from the
      `sockaddr`, then the IP byte-swapped (`BLTSWAP32`). */
  function AcceptAddress(sa: SockAddr): (a: NetAddress)
    requires ValidSockAddr(sa)
    ensures ValidAddress(a)
    ensures a.port == ReadAddr(sa).port
    ensures ByteSwap32(a.ip) == ReadAddr(sa).ip
  {
    var raw := ReadAddr(sa);
    ByteSwapInvolution(raw.ip);
    NetAddress(ByteSwap32(raw.ip), raw.port)
  }

  /** The static configuration `cc3000_set_info` stores. */
  datatype NetInfo = NetInfo(ip: nat, gw: nat, dns: nat, mask: nat, infoSet: bool)

  /** `cc3000_set_info`: a zero DNS becomes 8.8.8.8, a zero mask
      255.255.255.255, a zero gateway the address's first three octets with
      last octet 1; the configuration counts as set exactly when the IP is
      non-zero. */
  function SetInfo(ip: nat, mask: nat, gw: nat, dns: nat): (r: NetInfo)
    requires ip < 0x1_0000_0000
    ensures r.ip == ip
    ensures r.infoSet <==> ip != 0
    ensures dns != 0 ==> r.dns == dns
    ensures mask != 0 ==> r.mask == mask
    ensures gw != 0 ==> r.gw == gw
    ensures r.dns != 0 && r.mask != 0 && r.gw != 0
  {
    MakeIpOctets(8, 8, 8, 8);
    MakeIpOctets(255, 255, 255, 255);
    MakeIpOctets(IpAt(ip, 0), IpAt(ip, 1), IpAt(ip, 2), 1);
    NetInfo(ip,
            if gw == 0 then MakeIp(IpAt(ip, 0), IpAt(ip, 1), IpAt(ip, 2), 1) else gw,
            if dns == 0 then MakeIp(8, 8, 8, 8) else dns,
            if mask == 0 then MakeIp(255, 255, 255, 255) else mask,
            ip != 0)
  }

  /** A zero DNS becomes 8.8.8.8, whatever the other fields are. */
  lemma SetInfoDnsDefault(ip: nat, mask: nat, gw: nat, dns: nat)
    requires ip < 0x1_0000_0000
    ensures var r := SetInfo(ip, mask, gw, dns);
      dns == 0 ==>
        && r.dns == MakeIp(8, 8, 8, 8)
        && IpAt(r.dns, 0) == 8 && IpAt(r.dns, 1) == 8 && IpAt(r.dns, 2) == 8 && IpAt(r.dns, 3) == 8
  {
    MakeIpOctets(8, 8, 8, 8);
  }

  /** A zero mask becomes 255.255.255.255, whatever the other fields are. */
  lemma SetInfoMaskDefault(ip: nat, mask: nat, gw: nat, dns: nat)
    requires ip < 0x1_0000_0000
    ensures var r := SetInfo(ip, mask, gw, dns);
      mask == 0 ==>
        && r.mask == MakeIp(255, 255, 255, 255)
        && IpAt(r.mask, 0) == 255 && IpAt(r.mask, 1) == 255 && IpAt(r.mask, 2) == 255 && IpAt(r.mask, 3) == 255
  {
    MakeIpOctets(255, 255, 255, 255);
  }

  /** A zero gateway becomes the address's /24 with host part 1, whatever the
      other fields are. */
  lemma SetInfoGatewayDefault(ip: nat, mask: nat, gw: nat, dns: nat)
    requires ip < 0x1_0000_0000
    ensures var r := SetInfo(ip, mask, gw, dns);
      gw == 0 ==>
        && r.gw == MakeIp(IpAt(ip, 0), IpAt(ip, 1), IpAt(ip, 2), 1)
        && IpAt(r.gw, 0) == IpAt(ip, 0) && IpAt(r.gw, 1) == IpAt(ip, 1) && IpAt(r.gw, 2) == IpAt(ip, 2)
        && IpAt(r.gw, 3) == 1
  {
    MakeIpOctets(IpAt(ip, 0), IpAt(ip, 1), IpAt(ip, 2), 1);
  }
}
