/** The socket object: a transmit half and a receive half over one memory. A run of the object,
    byte for byte, is a run of the protocol over frame indices. */
module Xsk2s {
  import opened PowerOfTwo
  import opened Frames
  import opened Umem
  import opened Rings
  import TL = TxLink
  import RL = RxLink
  import TR = TxReady
  import RR = RxReady
  import T = TxProtocol
  import R = RxProtocol
  import S = System
  import TI = TxInvariant
  import RI = RxInvariant
  import XT = XskTxs
  import XR = XskRxs

  /** What a program does with the socket, and when the kernel runs. */
  datatype Event =
    | Send(data: Payload, turns: seq<T.Turn>)
    | SendApply(f: Payload -> (Payload, nat), turns: seq<T.Turn>)
    | Drain(turns: seq<T.Turn>)
    | TxKernel(turn: T.Turn)
    | Recv(room: nat, polled: bool, rxTurns: seq<seq<RL.KernelStep>>)
    | RecvApply(polled: bool, rxTurns: seq<seq<RL.KernelStep>>)
    | RxKernel(rxTurn: seq<RL.KernelStep>)

  /** Closures write in place; the kernel keeps a packet inside its chunk. */
  ghost predicate Allowed(e: Event, size: nat) {
    match e
    case SendApply(f, _) => XT.InPlace(f, size)
    case Recv(_, _, turns) => RL.TurnsFit(turns, size)
    case RecvApply(_, turns) => RL.TurnsFit(turns, size)
    case RxKernel(turn) => RL.AllFit(turn, size)
    case _ => true
  }

  /** The protocol's name for an event; what send_apply sends is what its closure makes of the region. */
  ghost function NameOf(e: Event, region: Payload): S.Event {
    match e
    case Send(data, turns) => S.Tx(T.SendCall(data, turns))
    case SendApply(f, turns) => S.Tx(T.SendApplyCall(XT.Packet(f, region), turns))
    case Drain(turns) => S.Tx(T.DrainCall(turns))
    case TxKernel(turn) => S.Tx(T.KernelTurn(turn))
    case Recv(room, polled, turns) => S.Rx(R.RecvCall(room, polled, RL.TurnsOf(turns)))
    case RecvApply(polled, turns) => S.Rx(R.RecvApplyCall(polled, RL.TurnsOf(turns)))
    case RxKernel(turn) => S.Rx(R.KernelTurn(RL.TurnOf(turn)))
  }

  /** The event respects the restrictions on kernel order and on calls. */
  ghost predicate Ordered(e: Event, fifo: bool, mode: RI.Mode) { S.Allows(NameOf(e, []), fifo, mode) }

  lemma OrderedNames(e: Event, region: Payload, fifo: bool, mode: RI.Mode)
    requires Ordered(e, fifo, mode)
    ensures S.Allows(NameOf(e, region), fifo, mode)
  {
    if e.SendApply? && fifo {
      var a, b := NameOf(e, []).te, NameOf(e, region).te;
      assert [a][0] == a && [b][0] == b;
    }
  }

  /** What a call tells the program when it returns. */
  datatype Report = Done | Refused | Got(p: Payload) | Saw(ps: seq<Payload>)

  ghost function ReportOf(sys: S.Sys, se: S.Event): Report
    requires S.WellFormed(sys)
  {
    match se
    case Tx(te) => if T.Step(sys.tx, te).NoFreeTxFrames? then Refused else Done
    case Rx(re) =>
      match R.Step(sys.rx, re)
      case Packet(_, p) => Got(p)
      case Applied(_, ps) => Saw(ps)
      case _ => Done
  }

  function Packets(reports: seq<Report>): seq<Payload> {
    if reports == [] then [] else
      var last := |reports| - 1;
      Packets(reports[..last]) + PacketsIn(reports[last])
  }

  function PacketsIn(report: Report): seq<Payload> {
    match report
    case Got(p) => [p]
    case Saw(ps) => ps
    case _ => []
  }

  /** The packets a call hands over are those the ledger then counts as delivered. */
  lemma HandedOver(sys: S.Sys, re: R.Event)
    requires S.WellFormed(sys) && S.Step(sys, S.Rx(re)).Between?
    ensures S.Step(sys, S.Rx(re)).sys.rx.delivered == sys.rx.delivered + PacketsIn(ReportOf(sys, S.Rx(re)))
  {
    R.DeliveredGrows(sys.rx, re);
  }

  /** The payload of a send that was not refused. */
  function AcceptedBy(se: S.Event, report: Report): seq<Payload> {
    if se.Tx? && (se.te.SendCall? || se.te.SendApplyCall?) && report != Refused then [se.te.p] else []
  }

  /** The payloads of the sends that were not refused. */
  function AcceptedIn(es: seq<S.Event>, reports: seq<Report>): seq<Payload>
    requires |es| == |reports|
  {
    if es == [] then [] else
      var last := |es| - 1;
      AcceptedIn(es[..last], reports[..last]) + AcceptedBy(es[last], reports[last])
  }

  /** The payloads the ledger counts as accepted are those of the sends that were not refused. */
  lemma TakenIn(sys: S.Sys, te: T.Event)
    requires S.WellFormed(sys) && S.Step(sys, S.Tx(te)).Between?
    ensures S.Step(sys, S.Tx(te)).sys.tx.accepted == sys.tx.accepted + AcceptedBy(S.Tx(te), ReportOf(sys, S.Tx(te)))
  {
    hide T.Drain;
    hide T.PutBatch;
    hide T.Run;
  }

  /** A call on one half adds nothing to the ledger of the other. */
  lemma OtherLedger(sys: S.Sys, se: S.Event)
    requires S.WellFormed(sys) && S.Step(sys, se).Between?
    ensures se.Tx? ==> S.Step(sys, se).sys.rx == sys.rx && PacketsIn(ReportOf(sys, se)) == []
    ensures se.Rx? ==> S.Step(sys, se).sys.tx == sys.tx && AcceptedBy(se, ReportOf(sys, se)) == []
  {
    hide T.Step;
    hide R.Step;
  }

  lemma LedgersGrow(sys: S.Sys, se: S.Event)
    requires S.WellFormed(sys) && S.Step(sys, se).Between?
    ensures S.Step(sys, se).sys.rx.delivered == sys.rx.delivered + PacketsIn(ReportOf(sys, se))
    ensures S.Step(sys, se).sys.tx.accepted == sys.tx.accepted + AcceptedBy(se, ReportOf(sys, se))
  {
    hide S.Step;
    hide ReportOf;
    OtherLedger(sys, se);
    match se {
      case Tx(te) => TakenIn(sys, te);
      case Rx(re) => HandedOver(sys, re);
    }
  }

  /** The bytes of the frame at the cursor. */
  ghost function RegionOf(v: TL.TxView): Payload {
    var addr := Base(v.cursor, v.env.size);
    if addr + v.env.size <= |v.mem| then v.mem[addr..addr + v.env.size] else []
  }

  /** The k-th event of a run from start: v is the transmit half before it, se its name in terms of the
      bytes then at the cursor, report what it told the program. */
  ghost predicate Moment(start: S.Sys, es: seq<S.Event>, k: nat, e: Event, v: TL.TxView)
    requires S.WellFormed(start) && k < |es|
  {
    && S.Run(start, es[..k]).Between? && TL.Linked(v) && TL.AbsOf(v) == S.Run(start, es[..k]).sys.tx
    && es[k] == NameOf(e, RegionOf(v))
  }

  ghost predicate Reported(start: S.Sys, es: seq<S.Event>, k: nat, report: Report)
    requires S.WellFormed(start) && k < |es|
  {
    S.Run(start, es[..k]).Between? && report == ReportOf(S.Run(start, es[..k]).sys, es[k])
  }

  ghost predicate AllMoments(start: S.Sys, events: seq<Event>, es: seq<S.Event>, views: seq<TL.TxView>)
    requires S.WellFormed(start) && |es| == |views| <= |events|
  {
    forall k {:trigger views[k]} :: 0 <= k < |es| ==> Moment(start, es, k, events[k], views[k])
  }

  ghost predicate AllReported(start: S.Sys, es: seq<S.Event>, reports: seq<Report>)
    requires S.WellFormed(start) && |reports| <= |es|
  {
    forall k {:trigger reports[k]} :: 0 <= k < |reports| ==> Reported(start, es, k, reports[k])
  }

  /** es are the protocol's names for the events of a run, up to the one that did not return if there
      is one; views are the transmit half before each of them; reports are what the ones that
      returned told the program. The packets in them are what the run delivered, and the payloads of
      the sends they do not refuse are what it accepted. */
  ghost predicate Traced(start: S.Sys, events: seq<Event>, es: seq<S.Event>, views: seq<TL.TxView>,
                         reports: seq<Report>)
    requires S.WellFormed(start)
  {
    && |reports| <= |es| == |views| <= |events|
    && AllMoments(start, events, es, views) && AllReported(start, es, reports)
    && (S.Run(start, es).Between? ==>
          && |reports| == |es|
          && S.Run(start, es).sys.rx.delivered == start.rx.delivered + Packets(reports)
          && S.Run(start, es).sys.tx.accepted == start.tx.accepted + AcceptedIn(es, reports))
  }

  lemma MomentStays(start: S.Sys, es: seq<S.Event>, se: S.Event, k: nat, e: Event, v: TL.TxView)
    requires S.WellFormed(start) && k < |es| && Moment(start, es, k, e, v)
    ensures Moment(start, es + [se], k, e, v)
  {
    hide S.Run;
    hide NameOf;
    assert (es + [se])[..k] == es[..k] && (es + [se])[k] == es[k];
  }

  lemma ReportStays(start: S.Sys, es: seq<S.Event>, se: S.Event, k: nat, report: Report)
    requires S.WellFormed(start) && k < |es| && Reported(start, es, k, report)
    ensures Reported(start, es + [se], k, report)
  {
    hide S.Run;
    hide ReportOf;
    assert (es + [se])[..k] == es[..k] && (es + [se])[k] == es[k];
  }

  lemma MomentsGrow(start: S.Sys, events: seq<Event>, es: seq<S.Event>, views: seq<TL.TxView>, se: S.Event,
                    v: TL.TxView)
    requires S.WellFormed(start) && |es| == |views| < |events| && AllMoments(start, events, es, views)
    requires Moment(start, es + [se], |es|, events[|es|], v)
    ensures AllMoments(start, events, es + [se], views + [v])
  {
    hide Moment;
    forall k: nat | k < |es| ensures Moment(start, es + [se], k, events[k], views[k]) {
      MomentStays(start, es, se, k, events[k], views[k]);
    }
  }

  lemma ReportsGrow(start: S.Sys, es: seq<S.Event>, reports: seq<Report>, se: S.Event, report: Report)
    requires S.WellFormed(start) && |reports| == |es| && AllReported(start, es, reports)
    requires Reported(start, es + [se], |es|, report)
    ensures AllReported(start, es + [se], reports) && AllReported(start, es + [se], reports + [report])
  {
    hide Reported;
    forall k: nat | k < |es| ensures Reported(start, es + [se], k, reports[k]) {
      ReportStays(start, es, se, k, reports[k]);
    }
  }

  lemma PacketsGrow(reports: seq<Report>, report: Report)
    ensures Packets(reports + [report]) == Packets(reports) + PacketsIn(report)
  {
    assert (reports + [report])[..|reports|] == reports;
  }

  lemma AcceptedGrow(es: seq<S.Event>, reports: seq<Report>, se: S.Event, report: Report)
    requires |es| == |reports|
    ensures AcceptedIn(es + [se], reports + [report]) == AcceptedIn(es, reports) + AcceptedBy(se, report)
  {
    assert (es + [se])[..|es|] == es && (reports + [report])[..|es|] == reports;
  }

  /** One more event. */
  lemma TraceGrows(start: S.Sys, events: seq<Event>, es: seq<S.Event>, views: seq<TL.TxView>, reports: seq<Report>,
                   before: S.Sys, v: TL.TxView, se: S.Event)
    requires S.WellFormed(start) && Traced(start, events, es, views, reports) && |es| < |events|
    requires S.Run(start, es) == S.Between(before) && |reports| == |es|
    requires TL.Linked(v) && TL.AbsOf(v) == before.tx && se == NameOf(events[|es|], RegionOf(v))
    ensures if S.Step(before, se).Between?
            then Traced(start, events, es + [se], views + [v], reports + [ReportOf(before, se)])
            else Traced(start, events, es + [se], views + [v], reports)
    ensures S.Run(start, es + [se]) == S.Step(before, se)
  {
    hide S.Run;
    hide S.Step;
    hide ReportOf;
    hide NameOf;
    hide RegionOf;
    hide TL.Linked;
    hide TL.AbsOf;
    hide Moment;
    hide Reported;
    hide AllMoments;
    hide AllReported;
    hide Packets;
    hide AcceptedIn;
    S.RunSnoc(start, es, se);
    NewMoment(start, es, before, events[|es|], v, se);
    MomentsGrow(start, events, es, views, se, v);
    ReportsGrow(start, es, reports, se, ReportOf(before, se));
    if S.Step(before, se).Between? {
      LedgersGrow(before, se);
      PacketsGrow(reports, ReportOf(before, se));
      AcceptedGrow(es, reports, se, ReportOf(before, se));
    }
  }

  lemma NothingTraced(start: S.Sys, events: seq<Event>)
    requires S.WellFormed(start)
    ensures Traced(start, events, [], [], []) && S.Run(start, []) == S.Between(start)
  {
  }

  datatype Ended = Returned | StillSpinning | Panicked

  datatype Creation = Created(xsk: Xsk2) | BatchTooLarge | Failed

  /** A valid configuration whose halves the 32-bit index arithmetic can address: by TxIndexExact
      and RxIndexExact it recovers every frame index exactly when this holds. */
  ghost predicate Usable(c: UmemConfig, txRingSize: nat, rxRingSize: nat, nTx: nat) {
    && NewConfig(c).Ok? && c.headroom < TWO32 && c.frameSize < TWO32 && c.fillRingSize < TWO32 && c.compRingSize < TWO32
    && IsPowOfTwo(txRingSize) && txRingSize < TWO32 && IsPowOfTwo(rxRingSize) && rxRingSize < TWO32
    && 0 < nTx && Base(nTx - 1, c.frameSize) < TWO32
    && (nTx <= c.frameCount ==> Base(c.frameCount - nTx, c.frameSize) <= TWO32)
  }

  function TxConfigOf(c: UmemConfig, txRingSize: nat, nTx: nat, batchSize: nat): T.TxConfig
    requires c.headroom < TWO32
  {
    T.TxConfig(nTx, batchSize, Mtu(c), txRingSize, c.compRingSize)
  }

  function RxConfigOf(c: UmemConfig, rxRingSize: nat, nTx: nat): R.RxConfig
    requires nTx <= c.frameCount
  {
    R.RxConfig(c.frameCount - nTx, c.fillRingSize, rxRingSize)
  }

  function NoContent(n: nat): (r: seq<Payload>)
    ensures |r| == n && forall i :: 0 <= i < n ==> r[i] == []
  {
    seq(n, _ => [])
  }

  /** The system a new socket starts as. */
  function StartOf(c: UmemConfig, txRingSize: nat, rxRingSize: nat, nTx: nat, batchSize: nat): S.Sys
    requires 0 < nTx < c.frameCount && c.headroom < TWO32
  {
    S.Init(TxConfigOf(c, txRingSize, nTx, batchSize), NoContent(nTx), RxConfigOf(c, rxRingSize, nTx))
  }

  /** Xsk2::new: refuse a batch that the tx ring cannot hold, create the frames, give the first nTx
      to the transmit half and the rest to the receive half. */
  method New(c: UmemConfig, txRingSize: nat, rxRingSize: nat, nTx: nat, batchSize: nat) returns (r: Creation)
    requires Usable(c, txRingSize, rxRingSize, nTx)
    ensures r.BatchTooLarge? <==> txRingSize < batchSize % TWO32
    ensures r.Failed? <==> !r.BatchTooLarge? && (!HeadroomsFit(c) || nTx >= c.frameCount)
    ensures r.Created? ==> fresh(r.xsk) && fresh(r.xsk.Repr()) && r.xsk.Quiet()
    ensures r.Created? ==> r.xsk.tx.frameSize == c.frameSize && nTx < c.frameCount && c.headroom < TWO32
    ensures r.Created? ==> r.xsk.Abs() == StartOf(c, txRingSize, rxRingSize, nTx, batchSize)
  {
    if txRingSize < batchSize % TWO32 {
      return BatchTooLarge;
    }
    var created := CreateFrames(c, true);
    if created.None? || nTx >= c.frameCount {
      return Failed;
    }
    var xsk := Build(c, created.value, txRingSize, rxRingSize, nTx, batchSize);
    r := Created(xsk);
  }

  method BuildTx(c: UmemConfig, frames: seq<Frame>, mem: array<Byte>, txRingSize: nat, rxRingSize: nat, nTx: nat,
                 batchSize: nat)
    returns (tx: XT.XskTx)
    requires Usable(c, txRingSize, rxRingSize, nTx) && Layout(frames, c) && HeadroomsFit(c) && nTx < c.frameCount
    requires mem.Length == Base(c.frameCount, c.frameSize)
    ensures fresh(tx.Own()) && tx.mem == mem && tx.frameSize == c.frameSize && |tx.txFrames| == nTx
    ensures tx.Valid() && TR.Ready(tx.Abs())
    ensures tx.Abs() == T.Init(TxConfigOf(c, txRingSize, nTx, batchSize), NoContent(nTx))
  {
    hide Base;
    hide IsPowOfTwo;
    hide TL.Linked;
    hide TL.AbsOf;
    hide TR.Ready;
    var compQ := new Ring<nat>(c.compRingSize);
    var txQ := new Ring<Desc>(txRingSize);
    TL.LayoutPlaced(frames, c, nTx);
    LayoutBases(frames, c);
    tx := new XT.XskTx(txQ, compQ, mem, frames[..nTx], c.frameSize, batchSize, Mtu(c));
    tx.Reads();
    assert TL.Contents(frames[..nTx], mem[..]) == NoContent(nTx);
  }

  method BuildRx(c: UmemConfig, frames: seq<Frame>, mem: array<Byte>, txRingSize: nat, rxRingSize: nat, nTx: nat)
    returns (rx: XR.XskRx)
    requires Usable(c, txRingSize, rxRingSize, nTx) && Layout(frames, c) && HeadroomsFit(c) && nTx < c.frameCount
    requires mem.Length == Base(c.frameCount, c.frameSize)
    ensures fresh(rx.Own()) && rx.mem == mem && rx.frameSize == c.frameSize && rx.offset == Base(nTx, c.frameSize)
    ensures rx.Valid() && rx.Quiet() && rx.Abs() == R.Init(RxConfigOf(c, rxRingSize, nTx))
  {
    hide Base;
    hide IsPowOfTwo;
    hide RL.Linked;
    hide RL.AbsOf;
    hide RL.Placed;
    hide RR.Ready;
    var fillQ := new Ring<nat>(c.fillRingSize);
    var rxQ := new Ring<Desc>(rxRingSize);
    RL.LayoutPlaced(frames, c, nTx, RL.RxEnv(c.frameSize, Base(nTx, c.frameSize), c.fillRingSize, rxRingSize));
    rx := new XR.XskRx(rxQ, fillQ, mem, frames[nTx..], c.frameSize);
  }

  method Build(c: UmemConfig, frames: seq<Frame>, txRingSize: nat, rxRingSize: nat, nTx: nat, batchSize: nat)
    returns (xsk: Xsk2)
    requires Usable(c, txRingSize, rxRingSize, nTx) && Layout(frames, c) && HeadroomsFit(c) && nTx < c.frameCount
    ensures fresh(xsk) && fresh(xsk.Repr()) && xsk.Quiet() && xsk.tx.frameSize == c.frameSize
    ensures xsk.Abs() == StartOf(c, txRingSize, rxRingSize, nTx, batchSize)
  {
    hide Base;
    hide Usable;
    hide Layout;
    hide TR.Ready;
    hide XT.XskTx.Valid;
    hide XT.XskTx.Abs;
    hide XR.XskRx.Quiet;
    hide XR.XskRx.Valid;
    hide XR.XskRx.Abs;
    hide T.Init;
    hide R.Init;
    hide TxConfigOf;
    var mem := new Byte[Base(c.frameCount, c.frameSize)];
    var tx := BuildTx(c, frames, mem, txRingSize, rxRingSize, nTx, batchSize);
    label L:
    var rx := BuildRx(c, frames, mem, txRingSize, rxRingSize, nTx);
    label M:
    xsk := new Xsk2(tx, rx);
    assert unchanged@L(tx.Repr()) && unchanged@M(rx.Repr());
  }

  class Xsk2 {
    const tx: XT.XskTx
    const rx: XR.XskRx

    constructor (tx: XT.XskTx, rx: XR.XskRx)
      ensures this.tx == tx && this.rx == rx
    {
      this.tx, this.rx := tx, rx;
    }

    ghost function Repr(): set<object> { tx.Repr() + rx.Repr() }

    /** The halves share the memory, one behind the other, and nothing else. */
    ghost predicate Apart()
      reads tx
    {
      && tx.mem == rx.mem && tx.frameSize == rx.frameSize
      && rx.offset == Base(|tx.txFrames|, tx.frameSize)
      && tx.Own() !! rx.Own() && tx.mem !in tx.Own() && tx.mem !in rx.Own()
    }

    ghost predicate Valid()
      reads Repr()
    {
      Apart() && tx.Valid() && rx.Valid()
    }

    ghost function Abs(): (sys: S.Sys)
      requires Valid()
      reads Repr()
      ensures S.WellFormed(sys)
    {
      S.Sys(tx.Abs(), rx.Abs())
    }

    /** Between calls. */
    ghost predicate Quiet()
      reads Repr()
    {
      Valid() && TR.Ready(tx.Abs()) && rx.Quiet()
    }

    /** Transmitting does not disturb the receive half. */
    twostate lemma RxKept()
      requires old(Valid()) && Apart()
      requires unchanged(rx.Own())
      requires |tx.txFrames| == old(|tx.txFrames|) && tx.Beyond() == old(tx.Beyond())
      ensures rx.Valid() && rx.Abs() == old(rx.Abs()) && rx.Quiet() == old(rx.Quiet())
    {
      hide RL.Linked;
      hide RL.AbsOf;
      hide RR.Ready;
      hide Base;
      RL.AbsReads(old(rx.Shot()));
      RL.OtherHalf(old(rx.Shot()), rx.mem[..]);
      assert rx.Shot() == old(rx.Shot()).(mem := rx.mem[..]);
    }

    /** Receiving does not disturb the transmit half. */
    twostate lemma TxKept()
      requires old(Valid()) && Apart()
      requires unchanged(tx.Own())
      requires rx.Front() == old(rx.Front())
      ensures tx.Valid() && tx.Abs() == old(tx.Abs())
    {
      hide TL.Linked;
      hide TL.AbsOf;
      hide Base;
      TL.AbsReads(old(tx.Shot()));
      TL.OtherHalf(old(tx.Shot()), tx.mem[..]);
      assert tx.Shot() == old(tx.Shot()).(mem := tx.mem[..]);
    }

    /** A call ended as the system's step says, in the state it says. */
    ghost predicate Follows(end: Ended, o: S.Outcome)
      reads Repr()
    {
      match o
      case Between(sys) => end == Returned && Quiet() && Abs() == sys
      case Inside(sys, _) => end == StillSpinning && Valid() && Abs() == sys
      case Panicked => end == Panicked
    }

    method SendStep(data: Payload, turns: seq<T.Turn>) returns (end: Ended, report: Report)
      requires Quiet()
      modifies tx.Own(), tx.mem
      ensures Follows(end, S.Step(old(Abs()), S.Tx(T.SendCall(data, turns))))
      ensures end == Returned ==> report == ReportOf(old(Abs()), S.Tx(T.SendCall(data, turns)))
    {
      hide T.Send;
      hide TR.Ready;
      hide XT.XskTx.Valid;
      hide XT.XskTx.Abs;
      hide XT.XskTx.Own;
      hide XR.XskRx.Quiet;
      hide XR.XskRx.Valid;
      hide XR.XskRx.Abs;
      hide XT.XskTx.Beyond;
      var e := tx.Send(data, turns);
      RxKept();
      report := if e.NoFreeTxFrames? then Refused else Done;
      end := if e.Panicked? then Panicked else if e.StillSpinning? then StillSpinning else Returned;
    }

    method SendApplyStep(f: Payload -> (Payload, nat), turns: seq<T.Turn>) returns (end: Ended, report: Report)
      requires Quiet() && XT.InPlace(f, tx.frameSize)
      modifies tx.Own(), tx.mem
      ensures Follows(end, S.Step(old(Abs()), S.Tx(T.SendApplyCall(XT.Packet(f, old(tx.Region())), turns))))
      ensures end == Returned ==>
                report == ReportOf(old(Abs()), S.Tx(T.SendApplyCall(XT.Packet(f, old(tx.Region())), turns)))
    {
      hide T.Send;
      hide XT.InPlace;
      hide XT.Packet;
      hide XT.XskTx.Region;
      hide TR.Ready;
      hide XT.XskTx.Valid;
      hide XT.XskTx.Abs;
      hide XT.XskTx.Own;
      hide XR.XskRx.Quiet;
      hide XR.XskRx.Valid;
      hide XR.XskRx.Abs;
      hide XT.XskTx.Beyond;
      var e := tx.SendApply(f, turns);
      RxKept();
      report := if e.NoFreeTxFrames? then Refused else Done;
      end := if e.Panicked? then Panicked else if e.StillSpinning? then StillSpinning else Returned;
    }

    method DrainStep(turns: seq<T.Turn>) returns (end: Ended)
      requires Quiet()
      modifies tx.Own()
      ensures Follows(end, S.Step(old(Abs()), S.Tx(T.DrainCall(turns))))
      ensures ReportOf(old(Abs()), S.Tx(T.DrainCall(turns))) == Done
    {
      hide T.Drain;
      hide TR.Ready;
      hide XT.XskTx.Valid;
      hide XT.XskTx.Abs;
      hide XT.XskTx.Own;
      hide XR.XskRx.Quiet;
      hide XR.XskRx.Valid;
      hide XR.XskRx.Abs;
      var e := tx.Drain(turns);
      RxKept();
      end := if e.Panicked? then Panicked else if e.StillSpinning? then StillSpinning else Returned;
    }

    method TxKernelStep(turn: T.Turn) returns (end: Ended)
      requires Quiet()
      modifies tx.Own()
      ensures Follows(end, S.Step(old(Abs()), S.Tx(T.KernelTurn(turn))))
    {
      hide T.Run;
      hide TR.Ready;
      hide XT.XskTx.Valid;
      hide XT.XskTx.Abs;
      hide XR.XskRx.Quiet;
      hide XR.XskRx.Valid;
      hide XR.XskRx.Abs;
      TR.RunReady(tx.Abs(), turn);
      tx.KernelTurn(turn);
      RxKept();
      end := Returned;
    }

    method RecvInto(buf: array<Byte>, polled: bool, turns: seq<seq<RL.KernelStep>>)
      returns (end: Ended, len: Option<nat>)
      requires Quiet() && RL.TurnsFit(turns, tx.frameSize) && buf !in Repr()
      modifies rx.Own(), rx.mem, buf
      ensures Follows(end, S.Step(old(Abs()), S.Rx(R.RecvCall(buf.Length, polled, RL.TurnsOf(turns)))))
      ensures len.Some? ==> len.value <= buf.Length
      ensures end == Returned ==>
                ReportOf(old(Abs()), S.Rx(R.RecvCall(buf.Length, polled, RL.TurnsOf(turns))))
                == if len.Some? then Got(buf[..len.value]) else Done
    {
      hide R.Recv;
      hide RL.TurnsFit;
      hide TR.Ready;
      hide RR.Ready;
      hide XT.XskTx.Valid;
      hide XT.XskTx.Abs;
      hide XR.XskRx.Valid;
      hide XR.XskRx.Abs;
      hide XR.XskRx.Own;
      hide XR.XskRx.Front;
      hide XR.XskRx.Quiet;
      hide RL.TurnsOf;
      hide Base;
      var e := rx.Recv(buf, polled, turns);
      TxKept();
      len := if e.Received? then Some(e.len) else None;
      end := if e.Panicked? then Panicked else if e.StillSpinning? then StillSpinning else Returned;
    }

    method RecvStep(room: nat, polled: bool, turns: seq<seq<RL.KernelStep>>) returns (end: Ended, report: Report)
      requires Quiet() && RL.TurnsFit(turns, tx.frameSize)
      modifies rx.Own(), rx.mem
      ensures Follows(end, S.Step(old(Abs()), S.Rx(R.RecvCall(room, polled, RL.TurnsOf(turns)))))
      ensures end == Returned ==> report == ReportOf(old(Abs()), S.Rx(R.RecvCall(room, polled, RL.TurnsOf(turns))))
    {
      hide S.Step;
      hide RL.TurnsFit;
      hide Quiet;
      hide Abs;
      hide Follows;
      var buf := new Byte[room];
      assert unchanged(Repr());
      var len;
      end, len := RecvInto(buf, polled, turns);
      report := if len.Some? then Got(buf[..len.value]) else Done;
    }

    method RecvApplyStep(polled: bool, turns: seq<seq<RL.KernelStep>>) returns (end: Ended, report: Report)
      requires Quiet() && RL.TurnsFit(turns, tx.frameSize)
      modifies rx.Own(), rx.mem
      ensures Follows(end, S.Step(old(Abs()), S.Rx(R.RecvApplyCall(polled, RL.TurnsOf(turns)))))
      ensures end == Returned ==> report == ReportOf(old(Abs()), S.Rx(R.RecvApplyCall(polled, RL.TurnsOf(turns))))
    {
      hide R.RecvApply;
      hide RL.TurnsFit;
      hide TR.Ready;
      hide RR.Ready;
      hide XT.XskTx.Valid;
      hide XT.XskTx.Abs;
      hide XR.XskRx.Valid;
      hide XR.XskRx.Abs;
      hide XR.XskRx.Own;
      var done, seen := rx.RecvApply(polled, turns);
      TxKept();
      end, report := if done then Returned else StillSpinning, Saw(seen);
    }

    method RxKernelStep(turn: seq<RL.KernelStep>) returns (end: Ended)
      requires Quiet() && RL.AllFit(turn, tx.frameSize)
      modifies rx.Own(), rx.mem
      ensures Follows(end, S.Step(old(Abs()), S.Rx(R.KernelTurn(RL.TurnOf(turn)))))
    {
      hide R.Run;
      hide RL.AllFit;
      hide TR.Ready;
      hide RR.Ready;
      hide XT.XskTx.Valid;
      hide XT.XskTx.Abs;
      hide XR.XskRx.Valid;
      hide XR.XskRx.Abs;
      rx.KernelTurn(turn, []);
      TxKept();
      end := Returned;
    }

    /** One event; its name is in terms of the bytes at the cursor when it starts. */
    method Step(e: Event) returns (end: Ended, report: Report)
      requires Quiet() && Allowed(e, tx.frameSize)
      modifies Repr()
      ensures Follows(end, S.Step(old(Abs()), NameOf(e, old(tx.Region()))))
      ensures end == Returned ==> report == ReportOf(old(Abs()), NameOf(e, old(tx.Region())))
    {
      hide S.Step;
      hide RL.TurnsFit;
      hide RL.AllFit;
      hide XT.InPlace;
      hide XT.Packet;
      hide XT.XskTx.Region;
      hide Valid;
      hide Quiet;
      hide Abs;
      hide Follows;
      match e {
        case Send(data, turns) => end, report := SendStep(data, turns);
        case SendApply(f, turns) => end, report := SendApplyStep(f, turns);
        case Drain(turns) =>
          end := DrainStep(turns);
          report := Done;
        case TxKernel(turn) =>
          end := TxKernelStep(turn);
          report := Done;
        case Recv(room, polled, turns) => end, report := RecvStep(room, polled, turns);
        case RecvApply(polled, turns) => end, report := RecvApplyStep(polled, turns);
        case RxKernel(turn) =>
          end := RxKernelStep(turn);
          report := Saw([]);
      }
    }

    /** A run of the object is a run of the protocol, event for event and byte for byte. */
    method Run(events: seq<Event>)
      returns (end: Ended, reports: seq<Report>, ghost es: seq<S.Event>, ghost views: seq<TL.TxView>)
      requires Quiet() && forall k :: 0 <= k < |events| ==> Allowed(events[k], tx.frameSize)
      modifies Repr()
      ensures Traced(old(Abs()), events, es, views, reports) && Follows(end, S.Run(old(Abs()), es))
      ensures end == Returned ==> |es| == |events|
    {
      hide S.Step;
      hide S.Run;
      hide Traced;
      hide ReportOf;
      hide Allowed;
      hide Valid;
      hide Abs;
      hide TR.Ready;
      hide XT.XskTx.Valid;
      hide XT.XskTx.Abs;
      hide XR.XskRx.Quiet;
      reports, es, views := [], [], [];
      end := Returned;
      ghost var start := Abs();
      NothingTraced(start, events);
      for k := 0 to |events|
        invariant |reports| == |es| == k && end == Returned && Traced(start, events, es, views, reports)
        invariant Follows(end, S.Run(start, es))
      {
        ghost var before := Abs();
        ghost var v, se := Now(events[k]);
        TraceGrows(start, events, es, views, reports, before, v, se);
        var report;
        end, report := Step(events[k]);
        es, views := es + [se], views + [v];
        if end != Returned {
          return;
        }
        reports := reports + [report];
      }
    }

    /** The transmit half as it is now, and the name an event has now. */
    lemma Now(e: Event) returns (v: TL.TxView, se: S.Event)
      requires Quiet()
      ensures TL.Linked(v) && TL.AbsOf(v) == Abs().tx && se == NameOf(e, tx.Region()) == NameOf(e, RegionOf(v))
    {
      v := tx.Shot();
      se := NameOf(e, tx.Region());
    }
  }

  lemma NewMoment(start: S.Sys, es: seq<S.Event>, before: S.Sys, e: Event, v: TL.TxView, se: S.Event)
    requires S.WellFormed(start) && S.Run(start, es) == S.Between(before)
    requires TL.Linked(v) && TL.AbsOf(v) == before.tx && se == NameOf(e, RegionOf(v))
    ensures Moment(start, es + [se], |es|, e, v)
    ensures Reported(start, es + [se], |es|, ReportOf(before, se))
  {
    hide S.Run;
    hide NameOf;
    hide ReportOf;
    hide TL.Linked;
    hide TL.AbsOf;
    assert (es + [se])[..|es|] == es;
  }

  /** From construction on, whatever the program and the kernel do, between calls and inside calls that
      spin: every frame is at exactly one place, and every payload accepted and every packet arrived
      is accounted for once, where payloads are the bytes in memory. What the program was given is
      what was delivered, and what was accepted are the payloads of the sends that did not report a
      refusal. If the kernel works in order (fifo), what was sent is a prefix of what was
      accepted; in the ordered receive modes, what was delivered is a prefix of what arrived. */
  method Session(c: UmemConfig, txRingSize: nat, rxRingSize: nat, nTx: nat, batchSize: nat, events: seq<Event>,
                 ghost fifo: bool, ghost mode: RI.Mode)
    returns (r: Creation, end: Ended, reports: seq<Report>, ghost o: S.Outcome, ghost es: seq<S.Event>,
             ghost views: seq<TL.TxView>)
    requires Usable(c, txRingSize, rxRingSize, nTx) && 1 <= batchSize <= nTx && c.frameCount <= nTx + c.fillRingSize
    requires forall k :: 0 <= k < |events| ==> Allowed(events[k], c.frameSize)
    requires forall k :: 0 <= k < |events| ==> Ordered(events[k], fifo, mode)
    ensures r.Created? ==> r.xsk.Follows(end, o) && S.Agrees(o, fifo, mode)
    ensures r.Created? && end != Panicked ==>
              && !o.Panicked? && S.WellFormed(o.sys) && o.sys.tx.batched <= nTx == o.sys.tx.cfg.frames
              && S.OnePlaceEach(o.sys, if o.Inside? then o.held else [])
              && (fifo ==> o.sys.tx.sent <= o.sys.tx.accepted)
              && (mode == RI.RecvFifo || mode == RI.ApplyOnly || mode == RI.ApplyFifo ==>
                    o.sys.rx.delivered <= o.sys.rx.arrived)
    ensures r.Created? ==> nTx < c.frameCount && c.headroom < TWO32
    ensures r.Created? ==>
              var start := StartOf(c, txRingSize, rxRingSize, nTx, batchSize);
              S.WellFormed(start) && Traced(start, events, es, views, reports) && o == S.Run(start, es)
    ensures r.Created? && end == Returned ==>
              && |reports| == |es| == |events| && o.Between?
              && o.sys.rx.delivered == Packets(reports) && o.sys.tx.accepted == AcceptedIn(es, reports)
  {
    hide Usable;
    hide Allowed;
    hide Ordered;
    hide Moment;
    hide Xsk2.Valid;
    hide Xsk2.Abs;
    hide TR.Ready;
    hide XT.XskTx.Valid;
    hide XT.XskTx.Abs;
    hide XR.XskRx.Quiet;
    hide S.Run;
    hide S.Agrees;
    hide S.OnePlaceEach;
    end, reports, o, es, views := Returned, [], S.Panicked, [], [];
    r := New(c, txRingSize, rxRingSize, nTx, batchSize);
    if r.Created? {
      ghost var start := r.xsk.Abs();
      end, reports, es, views := r.xsk.Run(events);
      o := S.Run(start, es);
      InitAgrees(c, txRingSize, rxRingSize, nTx, batchSize, fifo, mode);
      NamesAllowed(start, es, events, views, reports, fifo, mode);
      S.RunAgrees(start, es, fifo, mode);
      S.RunKeepsConfig(start, es);
      S.AgreesMeansOnePlace(o, fifo, mode);
      if !o.Panicked? { S.AgreesMeansOrder(o, fifo, mode); }
    }
  }

  lemma NamesAllowed(start: S.Sys, es: seq<S.Event>, events: seq<Event>, views: seq<TL.TxView>, reports: seq<Report>,
                     fifo: bool, mode: RI.Mode)
    requires S.WellFormed(start) && Traced(start, events, es, views, reports)
    requires forall k :: 0 <= k < |events| ==> Ordered(events[k], fifo, mode)
    ensures S.AllowsAll(es, fifo, mode)
  {
    hide S.Run;
    hide S.Allows;
    hide NameOf;
    hide TL.Linked;
    hide TL.AbsOf;
    forall k | 0 <= k < |es| ensures S.Allows(es[k], fifo, mode) {
      assert Moment(start, es, k, events[k], views[k]);
      OrderedNames(events[k], RegionOf(views[k]), fifo, mode);
    }
  }

  lemma InitAgrees(c: UmemConfig, txRingSize: nat, rxRingSize: nat, nTx: nat, batchSize: nat, fifo: bool, mode: RI.Mode)
    requires 1 <= batchSize <= nTx < c.frameCount <= nTx + c.fillRingSize && c.headroom < TWO32
    ensures S.Agrees(S.Between(StartOf(c, txRingSize, rxRingSize, nTx, batchSize)), fifo, mode)
  {
    hide TI.Inv;
    hide TI.ExactlyOnce;
    hide TI.InWindow;
    hide TI.InOrder;
    hide RI.Agrees;
    TI.InitIdle(TxConfigOf(c, txRingSize, nTx, batchSize), NoContent(nTx));
    RI.InitAgrees(RxConfigOf(c, rxRingSize, nTx), mode);
  }
}
