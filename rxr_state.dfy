/** The records the RxR protocol layer of the EFA provider updates in place:
    peers, packet entries, operation entries (TX and RX), RDMA-read
    entries and the endpoint with its pending lists.

    Flag words whose bit values are fixed by libfabric's public header are
    kept as 64-bit words; the provider's private flag bits (including
    RXR_NO_COMPLETION, which the provider keeps in bit 60 of fi_flags) are
    modelled as one boolean field each. What the endpoint does through collaborators
    outside this model (completion-queue writes, counters, packet posting,
    releasing entries) is recorded, in order, as `events`. */
module RxrState {
  import opened Common

  // Operation and completion flag bits of libfabric's public API (bits 8,
  // 16 and 24).
  const FI_READ: bv64 := 0x100
  const FI_MULTI_RECV: bv64 := 0x1_0000
  const FI_COMPLETION: bv64 := 0x100_0000

  /** The protocol version every control packet carries. */
  const RXR_PROTOCOL_VERSION: nat := 4

  /** The wire header of a packet, one variant per packet type; `connid` is
      Some exactly when the connection-id header flag is set. */
  datatype PktHdr =
    | NoHdr
    | Handshake(version: nat, nextraP3: nat, extraInfo: seq<bv64>, connid: Option<nat>)
    | Cts(version: nat, readReq: bool, sendId: nat, recvId: nat, recvLength: SizeT, connid: Option<nat>)
    | Readrsp(version: nat, sendId: nat, recvId: nat, segLength: SizeT, connid: Option<nat>)
    | RmaContext(version: nat, context: RmaContextKind)
    | Eor(version: nat, sendId: nat, recvId: nat, connid: Option<nat>)
    | Receipt(version: nat, txId: nat, msgId: nat, connid: Option<nat>)

  /** An RMA context packet never goes on the wire: it records which write
      or which segment of which read a device completion belongs to. */
  datatype RmaContextKind = WriteContext(txId: nat) | ReadContext(readId: nat, segSize: nat)

  datatype OpKind = TxEntry | RxEntry

  /** The states of an operation entry that the control packets move between. */
  datatype OpState = TxReq | TxSend | RxInit | RxRecv | Other

  class Peer {
    /** The peer's address in the endpoint's address vector (efa_fiaddr). */
    const addr: nat
    var inBackoff: bool
    var handshakeSent: bool
    var handshakeQueued: bool
    var handshakeReceived: bool
    var rnrQueuedPktCnt: nat
    var rnrBackoffBeginTs: nat
    var rnrBackoffWaitTime: int
    var nextraP3: nat
    var extraInfo: seq<bv64>
    var numReadMsgInFlight: int

    constructor (a: nat, extraCapacity: nat)
      ensures addr == a
      ensures !inBackoff && !handshakeSent && !handshakeQueued && !handshakeReceived
      ensures rnrQueuedPktCnt == 0 && rnrBackoffWaitTime == 0 && numReadMsgInFlight == 0
      ensures |extraInfo| == extraCapacity
    {
      addr := a;
      inBackoff := false;
      handshakeSent := false;
      handshakeQueued := false;
      handshakeReceived := false;
      rnrQueuedPktCnt := 0;
      rnrBackoffBeginTs := 0;
      rnrBackoffWaitTime := 0;
      nextraP3 := 0;
      extraInfo := seq(extraCapacity, _ => 0);
      numReadMsgInFlight := 0;
    }
  }

  class PktEntry {
    var rnrRetransmit: bool
    var hdr: PktHdr
    var pktSize: nat
    var addr: nat
    /** The packet's context (x_entry), a single pointer whose target's
        type the packet type tells: the operation entry (xOp) or the read
        entry (xRead) it belongs to. Setting one clears the other, so at
        most one is non-null. */
    var xOp: OpEntry?
    var xRead: ReadEntry?

    constructor ()
      ensures !rnrRetransmit && hdr == NoHdr && pktSize == 0 && xOp == null && xRead == null
    {
      rnrRetransmit := false;
      hdr := NoHdr;
      pktSize := 0;
      addr := 0;
      xOp := null;
      xRead := null;
    }
  }

  /** A list of packet entries, such as the queue of packets waiting to be
      resent after receiver-not-ready. */
  class PacketList {
    var pkts: seq<PktEntry>

    constructor ()
      ensures pkts == []
    {
      pkts := [];
    }
  }

  class OpEntry {
    const kind: OpKind
    var state: OpState
    var txId: nat
    var rxId: nat
    var msgId: nat
    var addr: nat
    var totalLen: nat
    var bytesReceived: nat
    var bytesCopied: nat
    var bytesQueuedBlockingCopy: nat
    var bytesSent: nat
    var bytesAcked: nat
    var bytesRunt: nat
    var window: int
    var fiFlags: bv64
    /** The RXR_NO_COMPLETION bit of fi_flags: the completion was written. */
    var noCompletion: bool
    /** cq_entry.flags and cq_entry.len of the completion this entry reports. */
    var cqFlags: bv64
    var cqLen: nat
    var recvCancel: bool
    var eorInFlight: bool
    var receiptReceived: bool
    var longctsProtocol: bool

    constructor (k: OpKind, total: nat)
      ensures kind == k && totalLen == total && state == (if k == TxEntry then TxReq else RxInit)
      ensures bytesReceived == 0 && bytesCopied == 0 && bytesSent == 0 && bytesAcked == 0
      ensures fiFlags == 0 && !noCompletion && !eorInFlight && !receiptReceived
    {
      kind := k;
      state := if k == TxEntry then TxReq else RxInit;
      txId := 0;
      rxId := 0;
      msgId := 0;
      addr := 0;
      totalLen := total;
      bytesReceived := 0;
      bytesCopied := 0;
      bytesQueuedBlockingCopy := 0;
      bytesSent := 0;
      bytesAcked := 0;
      bytesRunt := 0;
      window := 0;
      fiFlags := 0;
      noCompletion := false;
      cqFlags := 0;
      cqLen := 0;
      recvCancel := false;
      eorInFlight := false;
      receiptReceived := false;
      longctsProtocol := false;
    }
  }

  /** The entries a possibly-null reference denotes, for frames that name
      the fields of an optional entry. */
  function OpSet(op: OpEntry?): (r: set<OpEntry>)
    ensures op != null ==> r == {op}
    ensures op == null ==> r == {}
  {
    if op != null then {op} else {}
  }

  /** What an RDMA read was issued for: a TX entry (emulated read), an RX
      entry (long-read protocol), or a packet whose payload is fetched. */
  datatype ReadContextType = ReadForTx | ReadForRx | ReadForPkt

  class ReadEntry {
    var readId: nat
    var addr: nat
    var totalLen: nat
    var bytesFinished: nat
    var contextType: ReadContextType
    /** The entry read for, when the context is a TX or RX entry. */
    var contextOp: OpEntry?
    /** The payload size of the packet read for, when the context is a packet. */
    var contextPktDataSize: nat

    constructor (id: nat, total: nat, ct: ReadContextType, op: OpEntry?)
      ensures readId == id && totalLen == total && bytesFinished == 0
      ensures contextType == ct && contextOp == op
    {
      readId := id;
      addr := 0;
      totalLen := total;
      bytesFinished := 0;
      contextType := ct;
      contextOp := op;
      contextPktDataSize := 0;
    }
  }

  /** The effects the endpoint has through collaborators outside the model,
      in the order they happen. */
  datatype Event =
    | TxCompletionWritten(tx: OpEntry)
    | TxErrorWritten(tx: OpEntry, err: int)
    | TxCounterReported(tx: OpEntry)
    | RxCompletionWritten(rx: OpEntry)
    | RxTruncErrorWritten(rx: OpEntry, olen: int)
    | RxErrorWritten(rx: OpEntry, err: int)
    | RxCounterReported(rx: OpEntry)
    | RxErrorCounterReported(rx: OpEntry)
    | EqErrorWritten(err: int)
    | SendCompletionHandled(op: OpEntry)
    | RecvCompleted(op: OpEntry)
    | BlockingCopiesFlushed
    | PktDataCopied(dataSize: nat)
    | PktDataProcessed(op: OpEntry, pkt: PktEntry, offset: nat, len: nat)
    | OpReleased(op: OpEntry)
    | ReadReleased(read: ReadEntry)
    | TxOpRecorded
    | PktSent(pkt: PktEntry)
    | PktReleased(pkt: PktEntry)
    | EorPostRequested(rx: OpEntry)

  class Endpoint {
    /** The endpoint's own handshake words, and the connection id (qkey) it
        puts into every control packet. */
    const extraInfo: seq<bv64>
    const qkey: nat
    /** ep->mtu_size, ep->max_data_payload_size and util_ep.tx_msg_flags. */
    const mtuSize: nat
    const maxDataPayloadSize: nat
    const txMsgFlags: bv64
    /** The tunables of rxr_env this code reads. */
    const txMinCredits: nat
    const rnrBackoffInitialWaitTime: int
    const rnrBackoffWaitTimeCap: int

    var peerBackoffList: seq<Peer>
    var handshakeQueuedPeerList: seq<Peer>
    var longctsSendList: seq<OpEntry>
    var events: seq<Event>

    constructor (extra: seq<bv64>, key: nat, mtu: nat, payload: nat, msgFlags: bv64,
                 credits: nat, initialWait: int, waitCap: int)
      ensures extraInfo == extra && qkey == key && mtuSize == mtu && maxDataPayloadSize == payload
      ensures txMsgFlags == msgFlags && txMinCredits == credits
      ensures rnrBackoffInitialWaitTime == initialWait && rnrBackoffWaitTimeCap == waitCap
      ensures peerBackoffList == [] && handshakeQueuedPeerList == [] && longctsSendList == [] && events == []
    {
      extraInfo := extra;
      qkey := key;
      mtuSize := mtu;
      maxDataPayloadSize := payload;
      txMsgFlags := msgFlags;
      txMinCredits := credits;
      rnrBackoffInitialWaitTime := initialWait;
      rnrBackoffWaitTimeCap := waitCap;
      peerBackoffList := [];
      handshakeQueuedPeerList := [];
      longctsSendList := [];
      events := [];
    }
  }
}
