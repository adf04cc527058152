/**
 The asynchronous event record (`cc3000AsyncData`) and the callback that the
 host library calls for every unsolicited event (`CC3000AsyncCb`).

 The callback is one dispatch over the event type; each branch assigns a few
 fields of the record, copies a validated payload, or frees a socket-table
 slot. It is modelled as a pure function from (record, table, event) to the
 new record and table.
 */
module AsyncEvents {
  import opened Basics
  import opened SocketTable

  /** `sizeof(tNetappDhcpParams)`: IP, mask, gateway, DHCP server and DNS
      server, four bytes each. */
  const DhcpParamsSize: nat := 20
  /** `DHCP_INFO_STATUS_BYTE`: the status byte follows the parameters. */
  const DhcpInfoStatusByte: nat := DhcpParamsSize
  /** `DHCP_INFO_LENGTH_STATUS`: parameters plus status byte. */
  const DhcpInfoLengthStatus: nat := DhcpParamsSize + 1
  /** `sizeof(netapp_pingreport_args_t)`: five 32-bit counters. */
  const PingReportSize: nat := 20

  datatype DhcpInformation = DhcpInformation(present: bool, info: seq<byte>)
  datatype PingInformation = PingInformation(present: bool, report: seq<byte>)

  /** `cc3000AsynchronousData`. */
  datatype AsyncData = AsyncData(
    shutdownOk: bool,
    smartConfigFinished: bool,
    connected: bool,
    disconnected: bool,
    dhcp: DhcpInformation,
    ping: PingInformation)

  /** The copied payloads always have the size of their C structs. */
  ghost predicate Valid(a: AsyncData) {
    |a.dhcp.info| == DhcpParamsSize && |a.ping.report| == PingReportSize
  }

  /** The record after `SpiOpen`'s `memset` to zero. */
  function Cleared(): (a: AsyncData)
    ensures Valid(a)
    ensures !a.shutdownOk && !a.smartConfigFinished && !a.connected && !a.disconnected
    ensures !a.dhcp.present && !a.ping.present
    ensures forall i :: 0 <= i < |a.dhcp.info| ==> a.dhcp.info[i] == 0
    ensures forall i :: 0 <= i < |a.ping.report| ==> a.ping.report[i] == 0
  {
    AsyncData(false, false, false, false,
              DhcpInformation(false, seq(DhcpParamsSize, _ => 0)),
              PingInformation(false, seq(PingReportSize, _ => 0)))
  }

  /** The `HCI_EVNT_*` codes the callback tells apart; any other code is
      `Unrecognised`. */
  datatype EventType =
    | Keepalive
    | SimpleConfigDone
    | UnsolInit
    | TxComplete
    | UnsolConnect
    | PingReport
    | UnsolDisconnect
    | UnsolDhcp
    | TcpCloseWait
    | CanShutDown
    | Unrecognised(code: int)

  /** One callback invocation: event type, payload buffer, declared length. */
  datatype Event = Event(kind: EventType, data: seq<byte>, length: byte)

  /** What the host library guarantees about the arguments: the buffer holds
      at least `length` bytes, and a close notification carries the
      descriptor in its first byte. */
  predicate WellFormed(e: Event) {
    && e.length as int <= |e.data|
    && (e.kind == TcpCloseWait ==> |e.data| >= 1)
  }

  datatype Outcome = Outcome(data: AsyncData, table: Table)

  /** `CC3000AsyncCb`. */
  function OnEvent(a: AsyncData, t: Table, e: Event): (o: Outcome)
    requires WellFormed(e)
    ensures Valid(a) ==> Valid(o.data)
    // only a close notification touches the socket table, and it leaves the record alone
    ensures e.kind != TcpCloseWait ==> o.table == t
    ensures e.kind == TcpCloseWait ==> o.data == a
    // the payload copies come only from a length-checked event
    ensures o.data.dhcp.info != a.dhcp.info ==>
      e.kind == UnsolDhcp && e.length as int == DhcpInfoLengthStatus
    ensures o.data.ping.report != a.ping.report ==>
      e.kind == PingReport && e.length as int == PingReportSize
  {
    match e.kind
    case Keepalive => Outcome(a, t)
    case SimpleConfigDone => Outcome(a.(smartConfigFinished := true), t)
    case UnsolInit => Outcome(a, t)
    case TxComplete => Outcome(a, t)
    case UnsolConnect => Outcome(a.(connected := true), t)
    case PingReport =>
      if e.length as int == PingReportSize then
        Outcome(a.(ping := PingInformation(true, e.data[..PingReportSize])), t)
      else
        Outcome(a, t)
    case UnsolDisconnect =>
      Outcome(a.(connected := false, disconnected := true,
                 dhcp := a.dhcp.(present := false)), t)
    case UnsolDhcp =>
      if e.length as int == DhcpInfoLengthStatus && e.data[DhcpInfoStatusByte] == 0 then
        Outcome(a.(dhcp := DhcpInformation(true, e.data[..DhcpParamsSize])), t)
      else
        Outcome(a.(dhcp := a.dhcp.(present := false)), t)
    case TcpCloseWait => Outcome(a, HandleSocket(t, e.data[0], Free).table)
    case CanShutDown => Outcome(a.(shutdownOk := true), t)
    case Unrecognised(_) => Outcome(a, t)
  }

  /** A connect event sets `connected` and nothing else. */
  lemma ConnectSetsOnlyConnected(a: AsyncData, t: Table, e: Event)
    requires WellFormed(e) && e.kind == UnsolConnect
    ensures OnEvent(a, t, e) == Outcome(a.(connected := true), t)
  {
  }

  /** A disconnect event clears `connected`, sets `disconnected` and withdraws
      the DHCP lease, keeping the lease bytes; nothing else changes. */
  lemma DisconnectWithdrawsLease(a: AsyncData, t: Table, e: Event)
    requires WellFormed(e) && e.kind == UnsolDisconnect
    ensures var o := OnEvent(a, t, e);
      && !o.data.connected && o.data.disconnected && !o.data.dhcp.present
      && o.data.dhcp.info == a.dhcp.info
      && o.data.shutdownOk == a.shutdownOk
      && o.data.smartConfigFinished == a.smartConfigFinished
      && o.data.ping == a.ping
      && o.table == t
  {
  }

  /** A DHCP event stores the lease exactly when the length is
      parameters-plus-status and the status byte is zero; otherwise the lease
      is marked absent and its bytes are kept. All other fields are kept. */
  lemma DhcpStoresOnlyValidLease(a: AsyncData, t: Table, e: Event)
    requires WellFormed(e) && e.kind == UnsolDhcp
    ensures var o := OnEvent(a, t, e);
      var ok := e.length as int == DhcpInfoLengthStatus && e.data[DhcpInfoStatusByte] == 0;
      && (o.data.dhcp.present <==> ok)
      && (ok ==> o.data.dhcp.info == e.data[..DhcpParamsSize])
      && (!ok ==> o.data.dhcp.info == a.dhcp.info)
      && o.data == a.(dhcp := o.data.dhcp)
      && o.table == t
  {
  }

  /** A ping report is stored only when its length is exactly the report size;
      on a mismatch the record is entirely unchanged (an earlier report stays
      present). */
  lemma PingStoresOnlyExactReport(a: AsyncData, t: Table, e: Event)
    requires WellFormed(e) && e.kind == PingReport
    ensures var o := OnEvent(a, t, e);
      && (e.length as int == PingReportSize ==>
            o.data == a.(ping := PingInformation(true, e.data[..PingReportSize])))
      && (e.length as int != PingReportSize ==> o.data == a)
      && o.table == t
  {
  }

  /** A close notification frees the slot holding the descriptor in the first
      payload byte; the record is unchanged and, on a table without duplicate
      descriptors, the descriptor is no longer valid. */
  lemma CloseWaitFreesSlot(a: AsyncData, t: Table, e: Event)
    requires WellFormed(e) && e.kind == TcpCloseWait && Distinct(t)
    ensures var o := OnEvent(a, t, e);
      && o.data == a
      && o.table == HandleSocket(t, e.data[0], Free).table
      && !IsSocketValid(o.table, e.data[0])
      && Distinct(o.table)
  {
    ReleaseKeepsDistinct(t, e.data[0]);
  }

  /** Shutdown-ready and simple-config-done each set their own flag only. */
  lemma FlagEventsSetOneFlag(a: AsyncData, t: Table, e: Event)
    requires WellFormed(e) && e.kind in {CanShutDown, SimpleConfigDone}
    ensures e.kind == CanShutDown ==> OnEvent(a, t, e) == Outcome(a.(shutdownOk := true), t)
    ensures e.kind == SimpleConfigDone ==>
      OnEvent(a, t, e) == Outcome(a.(smartConfigFinished := true), t)
  {
  }

  /** Keepalive, unsolicited-init, transmit-complete and unrecognised events
      change nothing. */
  lemma IgnoredEventsChangeNothing(a: AsyncData, t: Table, e: Event)
    requires WellFormed(e)
    requires e.kind in {Keepalive, UnsolInit, TxComplete} || e.kind.Unrecognised?
    ensures OnEvent(a, t, e) == Outcome(a, t)
  {
  }

  /** Delivering an event twice has the effect of delivering it once: every
      branch assigns or copies (last write wins). For the socket table this
      needs the table to hold each live descriptor once; the record needs
      nothing. */
  lemma {:induction false} DeliverTwiceIsOnce(a: AsyncData, t: Table, e: Event)
    requires WellFormed(e)
    ensures var once := OnEvent(a, t, e);
      OnEvent(once.data, once.table, e).data == once.data
    ensures Distinct(t) ==>
      var once := OnEvent(a, t, e);
      OnEvent(once.data, once.table, e).table == once.table
  {
    if e.kind == TcpCloseWait && Distinct(t) {
      ReleaseKeepsDistinct(t, e.data[0]);
    }
  }
}
