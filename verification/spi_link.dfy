/**
 The SPI link state machine of the CC3000 transport.

 One `LinkState` is shared by three actors: the peer-ready interrupt handler,
 the reader worker thread, and whichever caller is writing a frame. The two
 counting semaphores the handler posts (`irqReadSem`, `irqWriteSem`) are part
 of the modelled state, so that the hand-off between the interrupt and the
 threads it wakes can be stated and proved.
 */
module SpiLink {
  import opened Basics

  /** The seven `SPI_STATE_*` values. */
  datatype LinkState =
    | PowerUp
    | Initialized
    | Idle
    | WriteRequested
    | WritePermitted
    | ReadRequested
    | ReadPermitted

  /** The numeric value the driver stores in `spiInformation.spiState`. */
  function Code(s: LinkState): nat {
    match s
    case PowerUp => 0
    case Initialized => 1
    case Idle => 2
    case WriteRequested => 3
    case WritePermitted => 4
    case ReadRequested => 5
    case ReadPermitted => 6
  }

  /** Reads a stored state value back; values outside 0..6 name no state. */
  function FromCode(c: nat): Option<LinkState> {
    if c == 0 then Some(PowerUp)
    else if c == 1 then Some(Initialized)
    else if c == 2 then Some(Idle)
    else if c == 3 then Some(WriteRequested)
    else if c == 4 then Some(WritePermitted)
    else if c == 5 then Some(ReadRequested)
    else if c == 6 then Some(ReadPermitted)
    else None
  }

  /** The state codes are distinct and each decodes to its own state. */
  lemma CodeRoundTrip(s: LinkState, c: nat)
    ensures FromCode(Code(s)) == Some(s)
    ensures FromCode(c).Some? <==> c < 7
    ensures FromCode(c).Some? ==> Code(FromCode(c).value) == c
  {
  }

  /** Which semaphore, if any, the interrupt handler releases. */
  datatype Post = NoPost | PostRead | PostWrite

  datatype Edge = Edge(next: LinkState, post: Post)

  /** The peer-ready interrupt handler `cc3000ExtCb`: a pure transition table. */
  function PeerReady(s: LinkState): (e: Edge)
    // the handler only grants: a state it changes becomes a granted state
    ensures e.next != s ==> e.next in {Initialized, ReadRequested, WritePermitted}
    // a semaphore is posted exactly when a waiting thread is granted the link
    ensures e.post == PostRead <==> e.next == ReadRequested && e.next != s
    ensures e.post == PostWrite <==> e.next == WritePermitted && e.next != s
    // states the handler does not recognise are left alone
    ensures s !in {PowerUp, Idle, WriteRequested} ==> e == Edge(s, NoPost)
  {
    match s
    case PowerUp => Edge(Initialized, NoPost)
    case Idle => Edge(ReadRequested, PostRead)
    case WriteRequested => Edge(WritePermitted, PostWrite)
    case _ => Edge(s, NoPost)
  }

  /** The full transition table of the handler, one row per state. */
  lemma PeerReadyTable()
    ensures PeerReady(PowerUp) == Edge(Initialized, NoPost)
    ensures PeerReady(Idle) == Edge(ReadRequested, PostRead)
    ensures PeerReady(WriteRequested) == Edge(WritePermitted, PostWrite)
    ensures forall s :: s !in {PowerUp, Idle, WriteRequested} ==> PeerReady(s) == Edge(s, NoPost)
  {
  }

  /** A second peer-ready signal before anyone acts is lost: it changes nothing
      and posts nothing. */
  lemma PeerReadyTwiceIsOnce(s: LinkState)
    ensures PeerReady(PeerReady(s).next) == Edge(PeerReady(s).next, NoPost)
  {
  }

  /** The link together with the counts of the two semaphores. */
  datatype Link = Link(state: LinkState, readSem: nat, writeSem: nat)

  /** The link as `SpiOpen` and `cc3000WlanInit` leave it: powering up, and
      both semaphores created with count zero. */
  function OpenLink(): (l: Link)
    ensures Inv(l)
    ensures l.state == PowerUp
  {
    Link(PowerUp, 0, 0)
  }

  /** The actions of the three actors; each is one atomic step. */
  datatype Action =
    | Isr              // peer-ready interrupt (`cc3000ExtCb`)
    | WorkerBegin      // reader worker wakes on `irqReadSem` and runs its guard
    | WorkerEnd        // reader worker has dispatched the frame and releases the link
    | WriterFirst      // `SpiFirstWrite`: the very first write, without handshake
    | WriterClaim      // `SpiWrite` takes the idle link and asks the peer to write
    | WriterTransfer   // `SpiWrite` wakes on `irqWriteSem`, transfers, releases

  /** The peer-ready handler applied to a link: transition plus semaphore post. */
  function Interrupt(l: Link): (l': Link)
    // the reader is woken exactly from Idle, the writer exactly from WriteRequested
    ensures l'.readSem == l.readSem + (if l.state == Idle then 1 else 0)
    ensures l'.writeSem == l.writeSem + (if l.state == WriteRequested then 1 else 0)
    ensures l.state == PowerUp ==> l'.state == Initialized
    ensures l.state == Idle ==> l'.state == ReadRequested
    ensures l.state == WriteRequested ==> l'.state == WritePermitted
    ensures l.state !in {PowerUp, Idle, WriteRequested} ==> l' == l
    // the hand-off invariant survives the interrupt
    ensures Inv(l) ==> Inv(l')
  {
    var e := PeerReady(l.state);
    Link(e.next,
         if e.post == PostRead then l.readSem + 1 else l.readSem,
         if e.post == PostWrite then l.writeSem + 1 else l.writeSem)
  }

  /** The reader worker's guarded step (`irqSignalHandlerThread`): it blocks
      while `irqReadSem` is zero; once woken it proceeds only when the state is
      `ReadRequested`, and otherwise goes back to waiting with the state
      untouched. */
  function WorkerWake(l: Link): (r: Option<Link>)
    ensures r.None? <==> l.readSem == 0
    ensures r.Some? ==> r.value.readSem + 1 == l.readSem && r.value.writeSem == l.writeSem
    ensures r.Some? && l.state == ReadRequested ==> r.value.state == ReadPermitted
    ensures r.Some? && l.state != ReadRequested ==> r.value.state == l.state
  {
    if l.readSem == 0 then None
    else if l.state == ReadRequested then Some(Link(ReadPermitted, l.readSem - 1, l.writeSem))
    else Some(Link(l.state, l.readSem - 1, l.writeSem))
  }

  /** One step of the system; `None` when the acting party is blocked. */
  function Step(l: Link, a: Action): Option<Link> {
    match a
    case Isr => Some(Interrupt(l))
    case WorkerBegin => WorkerWake(l)
    case WorkerEnd =>
      if l.state == ReadPermitted then Some(l.(state := Idle)) else None
    case WriterFirst =>
      if l.state == Initialized then Some(l.(state := Idle)) else None
    case WriterClaim =>
      if l.state == Idle then Some(l.(state := WriteRequested)) else None
    case WriterTransfer =>
      if l.writeSem > 0 then Some(Link(Idle, l.readSem, l.writeSem - 1)) else None
  }

  /** The hand-off invariant: each semaphore holds at most one token, and it
      holds one exactly while the link is granted to the thread it wakes. */
  ghost predicate Inv(l: Link) {
    && l.readSem <= 1
    && l.writeSem <= 1
    && (l.readSem == 1 <==> l.state == ReadRequested)
    && (l.writeSem == 1 <==> l.state == WritePermitted)
  }

  /** Every action preserves the hand-off invariant. */
  lemma StepPreservesInv(l: Link, a: Action)
    requires Inv(l)
    ensures Step(l, a).Some? ==> Inv(Step(l, a).value)
  {
  }

  /** Runs a sequence of actions; `None` as soon as one of them is blocked. */
  function Run(l: Link, actions: seq<Action>): Option<Link>
    decreases |actions|
  {
    if |actions| == 0 then Some(l)
    else match Step(l, actions[0])
      case None => None
      case Some(l1) => Run(l1, actions[1..])
  }

  /** Every link reachable from the opened link satisfies the invariant. */
  lemma {:induction false} RunPreservesInv(l: Link, actions: seq<Action>)
    requires Inv(l)
    ensures Run(l, actions).Some? ==> Inv(Run(l, actions).value)
    decreases |actions|
  {
    if |actions| > 0 {
      StepPreservesInv(l, actions[0]);
      if Step(l, actions[0]).Some? {
        RunPreservesInv(Step(l, actions[0]).value, actions[1..]);
      }
    }
  }

  /** In every reachable link, the worker's guard holds whenever it is woken:
      the "state must be read requested" branch is never skipped, and a woken
      writer always finds the peer's permission. */
  lemma WokenThreadsFindTheirState(actions: seq<Action>)
    requires Run(OpenLink(), actions).Some?
    ensures var l := Run(OpenLink(), actions).value;
      && (l.readSem > 0 ==> l.state == ReadRequested)
      && (l.writeSem > 0 ==> l.state == WritePermitted)
      && (WorkerWake(l).Some? ==> WorkerWake(l).value.state == ReadPermitted)
  {
    RunPreservesInv(OpenLink(), actions);
  }

  /** The read cycle: from an idle link, a peer-ready signal followed by the
      worker's round ends idle again with no token left behind. */
  lemma ReadCycle(l: Link)
    requires Inv(l) && l.state == Idle
    ensures Run(l, [Isr, WorkerBegin, WorkerEnd]) == Some(l)
  {
    assert Step(l, Isr) == Some(Link(ReadRequested, 1, l.writeSem));
    assert Run(l, [Isr, WorkerBegin, WorkerEnd])
        == Run(Link(ReadRequested, 1, l.writeSem), [WorkerBegin, WorkerEnd]);
    assert Run(Link(ReadRequested, 1, l.writeSem), [WorkerBegin, WorkerEnd])
        == Run(Link(ReadPermitted, 0, l.writeSem), [WorkerEnd]);
  }

  /** The write handshake: from an idle link the writer claims, the peer's
      signal grants, and the transfer releases the link back to idle. */
  lemma WriteCycle(l: Link)
    requires Inv(l) && l.state == Idle
    ensures Run(l, [WriterClaim, Isr, WriterTransfer]) == Some(l)
  {
    assert Run(l, [WriterClaim, Isr, WriterTransfer])
        == Run(Link(WriteRequested, l.readSem, 0), [Isr, WriterTransfer]);
    assert Run(Link(WriteRequested, l.readSem, 0), [Isr, WriterTransfer])
        == Run(Link(WritePermitted, l.readSem, 1), [WriterTransfer]);
  }

  /** Power-up: the first peer-ready signal marks the peer booted, and the first
      write then takes the link straight to idle. */
  lemma StartupCycle()
    ensures Run(OpenLink(), [Isr, WriterFirst]) == Some(Link(Idle, 0, 0))
  {
    assert Run(OpenLink(), [Isr, WriterFirst]) == Run(Link(Initialized, 0, 0), [WriterFirst]);
  }
}
