/**
 Framing on the CC3000 SPI link: the write path (`SpiWrite`, `SpiFirstWrite`),
 the read path (`SpiReadHeader`, `SpiReadAfterHeader`,
 `SpiReadDataSynchronous`) and the dispatch to the host library
 (`SpiTriggerRxProcessing`), over the link states of `SpiLink`.

 Both buffers end in a sentinel byte (0xDE). A write or a dispatch that finds
 its sentinel overwritten halts the driver (`while (1);`) instead of going on
 with corrupted framing.

 Bytes the C code would move beyond the end of a buffer are not modelled:
 a transfer that would run past the end is clipped at the end.
 */
module SpiFrames {
  import opened Basics
  import opened SpiLink
  import AsyncEvents

  /** `SPI_HEADER_SIZE`: op code, two length bytes, two busy bytes. */
  const SpiHeaderSize: nat := 5
  /** `CC3000_HEADERS_SIZE_EVNT`: the SPI header plus the five HCI header
      bytes read before the length of the rest is known. */
  const HeadersSizeEvnt: nat := SpiHeaderSize + 5
  /** `CC3000_SPI_MAGIC_NUMBER`. */
  const Magic: byte := 0xDE

  const OpWrite: byte := 1
  const OpRead: byte := 3
  const Busy: byte := 0

  /** HCI packet types and header offsets, counted from the end of the SPI
      header. */
  const HciTypeData: byte := 2
  const HciTypeEvnt: byte := 4
  const PacketTypeOffset: nat := 0
  const DataLengthOffset: nat := 3
  const EventLengthOffset: nat := 3

  /** `spiReadCommand`, copied to the front of every read. */
  const ReadCommand: seq<byte> := [OpRead, Busy, Busy]

  /** `HI(value)`: `((value) & 0xFF00) >> 8`. */
  function Hi(v: nat): byte {
    (v % 0x1_0000) / 0x100
  }

  /** `LO(value)`: `(value) & 0x00FF`. */
  function Lo(v: nat): byte {
    v % 0x100
  }

  /** The length a write announces: an even payload length gets one padding
      byte. The result is the least odd number not below the input. */
  function PaddedLength(us: nat): (r: nat)
    requires us < 0x1_0000
    ensures r % 2 == 1
    ensures us <= r <= us + 1
    ensures r < 0x1_0000
  {
    if us % 2 == 0 then us + 1 else us
  }

  /** The five header bytes `SpiWrite` fills in. */
  function WriteHeader(len: nat): (h: seq<byte>)
    ensures |h| == SpiHeaderSize
    ensures h[0] == OpWrite && h[3] == Busy && h[4] == Busy
    // the two length bytes are big-endian and give the length back
    ensures len < 0x1_0000 ==> (h[1] as int) * 0x100 + h[2] as int == len
  {
    [OpWrite, Hi(len), Lo(len), Busy, Busy]
  }

  /** The number of bytes a write clocks out: padded payload plus SPI header,
      kept in an `unsigned short`. */
  function TransferLength(us: nat): (r: nat)
    requires us < 0x1_0000
    ensures r < 0x1_0000
    ensures us + SpiHeaderSize + 1 < 0x1_0000 ==> r == PaddedLength(us) + SpiHeaderSize && r % 2 == 0
  {
    ToU16(PaddedLength(us) + SpiHeaderSize)
  }

  /** `buf` with `data` written from index `at` on; bytes that would land past
      the end of `buf` are dropped. */
  function Patch(buf: seq<byte>, at: nat, data: seq<byte>): (r: seq<byte>)
    ensures |r| == |buf|
    ensures forall i :: 0 <= i < |r| && at <= i < at + |data| ==> r[i] == data[i - at]
    ensures forall i :: 0 <= i < |r| && !(at <= i < at + |data|) ==> r[i] == buf[i]
  {
    seq(|buf|, i requires 0 <= i < |buf| =>
      if at <= i < at + |data| then data[i - at] else buf[i])
  }

  /** The up to `n` bytes of `buf` starting at `from`. */
  function Slice(buf: seq<byte>, from: nat, n: nat): (r: seq<byte>)
    ensures from + n <= |buf| ==> r == buf[from..from + n]
  {
    buf[Min(from, |buf|)..Min(from + n, |buf|)]
  }

  /** The last byte of a buffer still holds the sentinel. */
  predicate SentinelIntact(buf: seq<byte>) {
    |buf| > 0 && buf[|buf| - 1] == Magic
  }

  /** The transport: link state plus the receive buffer (`spi_buffer`) and the
      transmit buffer (`wlan_tx_buffer`). */
  datatype Transport = Transport(link: Link, rx: seq<byte>, tx: seq<byte>)

  /** `SpiOpen`: both buffers and the async record zeroed, both sentinels
      placed, link powering up. The configured buffers hold at least a read
      header (receive) or a write header (transmit) before the sentinel. */
  function SpiOpen(rxSize: nat, txSize: nat): (r: (Transport, AsyncEvents.AsyncData))
    requires rxSize > HeadersSizeEvnt && txSize > SpiHeaderSize
    ensures var t := r.0;
      && t.link == OpenLink()
      && |t.rx| == rxSize && |t.tx| == txSize
      && SentinelIntact(t.rx) && SentinelIntact(t.tx)
      && (forall i :: 0 <= i < rxSize - 1 ==> t.rx[i] == 0)
      && (forall i :: 0 <= i < txSize - 1 ==> t.tx[i] == 0)
    ensures r.1 == AsyncEvents.Cleared()
  {
    var rx := seq(rxSize, i => if i == rxSize - 1 then Magic else 0);
    var tx := seq(txSize, i => if i == txSize - 1 then Magic else 0);
    (Transport(OpenLink(), rx, tx), AsyncEvents.Cleared())
  }

  // ---------------------------------------------------------------- write path

  datatype WritePrep =
    | WriteHalted                          // tx sentinel overwritten: `while (1);`
    | Prepared(tx: seq<byte>, len: nat)    // header filled in, `len` bytes to clock out

  /** The part of `SpiWrite` before it looks at the link: pad the length, fill
      in the header, add the header size, check the transmit sentinel. */
  function PrepareWrite(tx: seq<byte>, us: nat): (p: WritePrep)
    requires |tx| > SpiHeaderSize && us < 0x1_0000
    ensures p.WriteHalted? <==> !SentinelIntact(tx)
    ensures p.Prepared? ==>
      && |p.tx| == |tx|
      && p.tx[..SpiHeaderSize] == WriteHeader(PaddedLength(us))
      && p.tx[SpiHeaderSize..] == tx[SpiHeaderSize..]
      && p.len == TransferLength(us)
  {
    var framed := Patch(tx, 0, WriteHeader(PaddedLength(us)));
    assert framed[|tx| - 1] == tx[|tx| - 1];
    if !SentinelIntact(framed) then WriteHalted
    else Prepared(framed, TransferLength(us))
  }

  datatype WriteStep =
    | Wait                                              // spins until the link is ready
    | FirstWrite(link: Link, transfers: seq<seq<byte>>) // `SpiFirstWrite`, done
    | Claimed(link: Link)                               // asked the peer; sleeps on `irqWriteSem`

  /** What a prepared write does with the link as it finds it: the very first
      write goes out in two pieces without handshake; otherwise the writer waits
      for an idle link and claims it. While powering up it waits for the first
      peer-ready signal. */
  function WriteProceed(l: Link, tx: seq<byte>, len: nat): (s: WriteStep)
    ensures s.FirstWrite? <==> l.state == Initialized
    ensures s.Claimed? <==> l.state == Idle
    ensures s.FirstWrite? ==> s.link == l.(state := Idle)
    ensures s.Claimed? ==> s.link == l.(state := WriteRequested)
  {
    if l.state == Initialized then
      FirstWrite(Step(l, WriterFirst).value,
                 [Slice(tx, 0, 4), Slice(tx, 4, ToU16(len - 4))])
    else if l.state == Idle then
      Claimed(Step(l, WriterClaim).value)
    else
      Wait
  }

  /** The claimed writer once `irqWriteSem` is posted: the whole frame goes out
      in one transfer and the link is released. */
  function WriteTransfer(l: Link, tx: seq<byte>, len: nat): (r: Option<(Link, seq<byte>)>)
    ensures r.None? <==> l.writeSem == 0
    ensures r.Some? ==> r.value.0 == Link(Idle, l.readSem, l.writeSem - 1)
    ensures r.Some? && len <= |tx| ==> r.value.1 == tx[..len]
  {
    match Step(l, WriterTransfer)
    case None => None
    case Some(l1) => Some((l1, Slice(tx, 0, len)))
  }

  /** A write finds the transmit sentinel overwritten: it halts. */
  lemma WriteHaltsOnCorruptSentinel(t: Transport, us: nat)
    requires |t.tx| > SpiHeaderSize && us < 0x1_0000
    requires !SentinelIntact(t.tx)
    ensures PrepareWrite(t.tx, us) == WriteHalted
  {
  }

  /** The first write after power-up: the first four bytes, then the remaining
      `len - 4`, together exactly the framed buffer's first `len` bytes; the
      link ends idle. */
  lemma FirstWriteSendsWholeFrame(t: Transport, us: nat)
    requires |t.tx| > SpiHeaderSize && SentinelIntact(t.tx)
    requires us + SpiHeaderSize < |t.tx| && us + SpiHeaderSize + 1 < 0x1_0000
    requires t.link.state == Initialized
    ensures var p := PrepareWrite(t.tx, us);
      && p.Prepared?
      && var s := WriteProceed(t.link, p.tx, p.len);
      && s.FirstWrite?
      && s.link.state == Idle
      && |s.transfers| == 2
      && |s.transfers[0]| == 4
      && s.transfers[0] + s.transfers[1] == p.tx[..PaddedLength(us) + SpiHeaderSize]
      && s.transfers[0][..4] == WriteHeader(PaddedLength(us))[..4]
  {
    var p := PrepareWrite(t.tx, us);
    var len := PaddedLength(us) + SpiHeaderSize;
    assert p.len == len;
    var s := WriteProceed(t.link, p.tx, p.len);
    assert s.transfers[1] == p.tx[4..len];
    assert p.tx[..len] == p.tx[..4] + p.tx[4..len];
    assert p.tx[..4] == p.tx[..SpiHeaderSize][..4];
  }

  /** Any later write: from an idle link, claim, the peer's grant, then one
      transfer of the whole framed buffer, ending idle with no token left. */
  lemma HandshakeWriteSendsWholeFrame(t: Transport, us: nat)
    requires |t.tx| > SpiHeaderSize && SentinelIntact(t.tx)
    requires us + SpiHeaderSize < |t.tx| && us + SpiHeaderSize + 1 < 0x1_0000
    requires Inv(t.link) && t.link.state == Idle
    ensures var p := PrepareWrite(t.tx, us);
      && p.Prepared?
      && var s := WriteProceed(t.link, p.tx, p.len);
      && s.Claimed?
      && var granted := Interrupt(s.link);
      && WriteTransfer(granted, p.tx, p.len)
           == Some((t.link, p.tx[..PaddedLength(us) + SpiHeaderSize]))
      && p.tx[..SpiHeaderSize] == WriteHeader(PaddedLength(us))
  {
  }

  /** A write issued while powering up waits; after the first peer-ready
      signal it becomes the first write. */
  lemma WriteWaitsForPowerUp(t: Transport, tx: seq<byte>, len: nat)
    requires t.link.state == PowerUp
    ensures WriteProceed(t.link, tx, len) == Wait
    ensures WriteProceed(Interrupt(t.link), tx, len).FirstWrite?
  {
  }

  // ----------------------------------------------------------------- read path

  /** One `SpiReadDataSynchronous`: what went out on the bus, and the buffer
      afterwards. */
  datatype Exchange = Exchange(sent: seq<byte>, buf: seq<byte>)

  /** `SpiReadDataSynchronous(buf + at, size)`: the read command is copied over
      the first three bytes, then `size` bytes are exchanged in place, the
      peer's bytes replacing what was sent. */
  function ReadSync(buf: seq<byte>, at: nat, size: nat, incoming: seq<byte>): (x: Exchange)
    requires |incoming| == size
    ensures |x.buf| == |buf|
    // what is clocked out begins with the read command
    ensures at + size <= |buf| ==> |x.sent| == size
    ensures size >= |ReadCommand| && at + size <= |buf| ==> x.sent[..|ReadCommand|] == ReadCommand
    // the exchanged range holds the peer's bytes
    ensures forall i :: at <= i < at + size && i < |buf| ==> x.buf[i] == incoming[i - at]
    // a read shorter than the command leaves the command's tail in the buffer
    ensures forall i :: at + size <= i < at + |ReadCommand| && i < |buf| ==>
      x.buf[i] == ReadCommand[i - at]
    // nothing else is touched
    ensures forall i :: 0 <= i < |buf| && !(at <= i < at + Max(size, |ReadCommand|)) ==>
      x.buf[i] == buf[i]
  {
    var primed := Patch(buf, at, ReadCommand);
    Exchange(Slice(primed, at, size), Patch(primed, at, incoming))
  }

  function Max(a: nat, b: nat): nat {
    if a < b then b else a
  }

  /** The packet type byte of a received header. */
  function PacketType(h: seq<byte>): byte
    requires |h| >= HeadersSizeEvnt
  {
    h[SpiHeaderSize + PacketTypeOffset]
  }

  /** A data frame's 16-bit length field (little-endian, as `STREAM_TO_UINT16`). */
  function DataLengthField(h: seq<byte>): nat
    requires |h| >= HeadersSizeEvnt
  {
    h[SpiHeaderSize + DataLengthOffset] as int + 0x100 * (h[SpiHeaderSize + DataLengthOffset + 1] as int)
  }

  /** An event frame's one-byte length field. */
  function EventLengthField(h: seq<byte>): nat
    requires |h| >= HeadersSizeEvnt
  {
    h[SpiHeaderSize + EventLengthOffset]
  }

  /** `SpiReadAfterHeader`'s `data_to_recv`: how many bytes follow the header.
      Data frames: the length field, padded so that header plus body is odd.
      Event frames: the length field minus the status byte, padded so that
      header plus body is even. Other types: nothing. */
  function BodyLength(h: seq<byte>): (n: nat)
    requires |h| >= HeadersSizeEvnt
    ensures PacketType(h) == HciTypeData ==>
      && (HeadersSizeEvnt + n) % 2 == 1
      && DataLengthField(h) <= n <= DataLengthField(h) + 1
    ensures PacketType(h) == HciTypeEvnt ==>
      && (HeadersSizeEvnt + n) % 2 == 0
      && EventLengthField(h) - 1 <= n <= EventLengthField(h)
    ensures PacketType(h) !in {HciTypeData, HciTypeEvnt} ==> n == 0
  {
    var ty := PacketType(h);
    if ty == HciTypeData then
      var len := DataLengthField(h);
      if (HeadersSizeEvnt + len) % 2 == 0 then len + 1 else len
    else if ty == HciTypeEvnt then
      var len := EventLengthField(h) - 1;
      if (HeadersSizeEvnt + len) % 2 == 1 then len + 1 else len
    else
      0
  }

  /** An event whose length field is 0 or 1 has no body to read. */
  lemma ShortEventHasNoBody(h: seq<byte>)
    requires |h| >= HeadersSizeEvnt && PacketType(h) == HciTypeEvnt
    requires EventLengthField(h) <= 1
    ensures BodyLength(h) == 0
  {
  }

  datatype ReadStep =
    | Blocked                                   // `irqReadSem` is zero
    | Skipped(t: Transport)                     // woken in another state: nothing read
    | ReadHalted(t: Transport)                  // rx sentinel overwritten: `while (1);`, link held
    | Dispatched(t: Transport, frame: seq<byte>) // the host library got the buffer past the SPI header

  /** The bytes the two reads of a frame deposit in the receive buffer. */
  function ReadFrame(rx: seq<byte>, incoming: seq<byte>): (r: seq<byte>)
    requires |rx| > HeadersSizeEvnt
    requires |incoming| >= HeadersSizeEvnt
    requires |incoming| >= HeadersSizeEvnt + BodyLength(incoming[..HeadersSizeEvnt])
    ensures |r| == |rx|
    ensures r[..HeadersSizeEvnt] == incoming[..HeadersSizeEvnt]
    ensures var n := BodyLength(incoming[..HeadersSizeEvnt]);
      forall i :: HeadersSizeEvnt <= i < HeadersSizeEvnt + n && i < |rx| ==> r[i] == incoming[i]
    ensures var n := BodyLength(incoming[..HeadersSizeEvnt]);
      forall i :: 0 <= i < |rx| && i >= HeadersSizeEvnt + (if n == 0 then 0 else Max(n, |ReadCommand|)) ==>
        r[i] == rx[i]
  {
    var header := ReadSync(rx, 0, HeadersSizeEvnt, incoming[..HeadersSizeEvnt]);
    assert header.buf[..HeadersSizeEvnt] == incoming[..HeadersSizeEvnt];
    var n := BodyLength(header.buf[..HeadersSizeEvnt]);
    if n == 0 then header.buf
    else ReadSync(header.buf, HeadersSizeEvnt, n, incoming[HeadersSizeEvnt..HeadersSizeEvnt + n]).buf
  }

  /** The reader worker's round: wake, guard, read header and body, check the
      receive sentinel, dispatch at offset `SPI_HEADER_SIZE`, release the link.
      `incoming` is what the peer clocks out during the two reads. */
  function ReaderStep(t: Transport, incoming: seq<byte>): (r: ReadStep)
    requires |t.rx| > HeadersSizeEvnt
    requires |incoming| >= HeadersSizeEvnt
    requires |incoming| >= HeadersSizeEvnt + BodyLength(incoming[..HeadersSizeEvnt])
    ensures r.Blocked? <==> t.link.readSem == 0
    ensures r.Skipped? <==> t.link.readSem > 0 && t.link.state != ReadRequested
    ensures r.Skipped? ==> r.t.link.state == t.link.state && r.t.rx == t.rx
    ensures r.ReadHalted? ==> r.t.link.state == ReadPermitted && !SentinelIntact(r.t.rx)
    ensures !r.Blocked? ==> |r.t.rx| == |t.rx|
    ensures r.Dispatched? ==>
      && r.t.link == Link(Idle, t.link.readSem - 1, t.link.writeSem)
      && SentinelIntact(r.t.rx)
      && r.frame == r.t.rx[SpiHeaderSize..]
    ensures !r.Blocked? ==> r.t.tx == t.tx
  {
    match WorkerWake(t.link)
    case None => Blocked
    case Some(l1) =>
      if t.link.state != ReadRequested then Skipped(t.(link := l1))
      else
        var rx := ReadFrame(t.rx, incoming);
        if !SentinelIntact(rx) then ReadHalted(Transport(l1, rx, t.tx))
        else Dispatched(Transport(l1.(state := Idle), rx, t.tx), rx[SpiHeaderSize..])
  }

  /** The two reads deposit the peer's header and body, and a frame that
      fits before the sentinel leaves the sentinel byte as it was. */
  lemma ReadFrameFits(rx: seq<byte>, incoming: seq<byte>)
    requires |rx| > HeadersSizeEvnt
    requires |incoming| >= HeadersSizeEvnt
    requires |incoming| >= HeadersSizeEvnt + BodyLength(incoming[..HeadersSizeEvnt])
    requires HeadersSizeEvnt + Max(BodyLength(incoming[..HeadersSizeEvnt]), |ReadCommand|) < |rx|
    ensures var n := BodyLength(incoming[..HeadersSizeEvnt]);
      && ReadFrame(rx, incoming)[..HeadersSizeEvnt + n] == incoming[..HeadersSizeEvnt + n]
      && ReadFrame(rx, incoming)[|rx| - 1] == rx[|rx| - 1]
  {
    var r := ReadFrame(rx, incoming);
    var n := BodyLength(incoming[..HeadersSizeEvnt]);
    forall i | 0 <= i < HeadersSizeEvnt + n
      ensures r[i] == incoming[i]
    {
      if i < HeadersSizeEvnt {
        assert r[..HeadersSizeEvnt][i] == incoming[..HeadersSizeEvnt][i];
      }
    }
  }

  /** A frame that fits before the sentinel is always dispatched, and the host
      library sees the HCI header and body exactly as the peer sent them. */
  lemma FittingFrameIsDispatched(t: Transport, incoming: seq<byte>)
    requires |t.rx| > HeadersSizeEvnt && SentinelIntact(t.rx)
    requires |incoming| >= HeadersSizeEvnt
    requires |incoming| >= HeadersSizeEvnt + BodyLength(incoming[..HeadersSizeEvnt])
    requires t.link.readSem > 0 && t.link.state == ReadRequested
    requires HeadersSizeEvnt + Max(BodyLength(incoming[..HeadersSizeEvnt]), |ReadCommand|) < |t.rx|
    ensures var r := ReaderStep(t, incoming);
      var n := BodyLength(incoming[..HeadersSizeEvnt]);
      && r.Dispatched?
      && r.frame[..HeadersSizeEvnt - SpiHeaderSize + n] == incoming[SpiHeaderSize..HeadersSizeEvnt + n]
  {
    ReaderStepDispatches(t, incoming);
    ReadFrameFits(t.rx, incoming);
    var rx := ReadFrame(t.rx, incoming);
    var n := BodyLength(incoming[..HeadersSizeEvnt]);
    PrefixOfSuffix(rx, SpiHeaderSize, HeadersSizeEvnt - SpiHeaderSize + n);
    PrefixOfSuffix(incoming, SpiHeaderSize, HeadersSizeEvnt - SpiHeaderSize + n);
  }

  /** Under the same conditions the reader dispatches the buffer the two
      reads filled, past the SPI header. */
  lemma ReaderStepDispatches(t: Transport, incoming: seq<byte>)
    requires |t.rx| > HeadersSizeEvnt && SentinelIntact(t.rx)
    requires |incoming| >= HeadersSizeEvnt
    requires |incoming| >= HeadersSizeEvnt + BodyLength(incoming[..HeadersSizeEvnt])
    requires t.link.readSem > 0 && t.link.state == ReadRequested
    requires HeadersSizeEvnt + Max(BodyLength(incoming[..HeadersSizeEvnt]), |ReadCommand|) < |t.rx|
    ensures ReaderStep(t, incoming).Dispatched?
    ensures ReaderStep(t, incoming).frame == ReadFrame(t.rx, incoming)[SpiHeaderSize..]
  {
    ReadFrameFits(t.rx, incoming);
    assert SentinelIntact(ReadFrame(t.rx, incoming));
    assert WorkerWake(t.link).Some?;
  }

  /** Taking `b` bytes after offset `a` is dropping `a` from the first `a + b`. */
  lemma PrefixOfSuffix(s: seq<byte>, a: nat, b: nat)
    requires a + b <= |s|
    ensures s[a..][..b] == s[..a + b][a..] == s[a..a + b]
  {
  }

  /** A receive sentinel that was already overwritten, and that the read does
      not reach, stops the driver before dispatch. */
  lemma CorruptRxSentinelHalts(t: Transport, incoming: seq<byte>)
    requires |t.rx| > HeadersSizeEvnt && !SentinelIntact(t.rx)
    requires |incoming| >= HeadersSizeEvnt
    requires |incoming| >= HeadersSizeEvnt + BodyLength(incoming[..HeadersSizeEvnt])
    requires t.link.readSem > 0 && t.link.state == ReadRequested
    requires HeadersSizeEvnt + Max(BodyLength(incoming[..HeadersSizeEvnt]), |ReadCommand|) < |t.rx|
    ensures ReaderStep(t, incoming).ReadHalted?
  {
    ReadFrameFits(t.rx, incoming);
    assert !SentinelIntact(ReadFrame(t.rx, incoming));
    assert WorkerWake(t.link).Some?;
  }
}
