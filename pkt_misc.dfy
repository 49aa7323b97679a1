/** The control packets of the RxR protocol (rxr_pkt_type_misc.c):
    HANDSHAKE, CTS, READRSP, RMA context, EOR and RECEIPT.

    Each `Init*` method fills a packet's header record and size; each
    handler updates the operation entry, the peer or the read entry the
    packet belongs to, and records what it does through collaborators
    (posting and releasing packets, CQ writes, releasing entries) as
    endpoint events. Entries that the source looks up by index in a buffer
    pool are passed in. */
module PktMisc {
  import opened Common
  import opened RxrState
  import RxrCq

  /** The number of extra features and requests this endpoint knows of. */
  const RXR_NUM_EXTRA_FEATURE_OR_REQUEST: nat := 5
  /** The number of 64-bit words of extra information a handshake carries. */
  const NEX: nat := (RXR_NUM_EXTRA_FEATURE_OR_REQUEST - 1) / 64 + 1

  // Header sizes in bytes (the fixed parts of the wire headers).
  const HANDSHAKE_HDR_SIZE: nat := 8
  const HANDSHAKE_CONNID_HDR_SIZE: nat := 8
  const CTS_HDR_SIZE: nat := 24
  const READRSP_HDR_SIZE: nat := 24
  const RMA_CONTEXT_PKT_SIZE: nat := 24
  const EOR_HDR_SIZE: nat := 16
  const RECEIPT_HDR_SIZE: nat := 16

  /** The error number written to the event queue when a handshake cannot
      be posted. */
  const FI_EIO: int := 5

  // ---------------------------------------------------------------------
  // Counters that complete an operation

  /** How many of the successive additions of `segs` to a counter that
      starts at `start` make it equal `total`: the number of times a
      handler's completion test fires. */
  function Completions(start: nat, total: nat, segs: seq<nat>): nat
  {
    if segs == [] then 0
    else Completions(start, total, segs[..|segs| - 1]) + (if start + Sum(segs) == total then 1 else 0)
  }

  /** A counter fed positive segments and never pushed above its total
      (the handlers assert this) completes exactly once if the segments
      add up to what is missing, and never otherwise. */
  lemma {:induction false} CounterCompletesOnce(start: nat, total: nat, segs: seq<nat>)
    requires forall k :: 0 <= k < |segs| ==> segs[k] > 0
    requires start < total && start + Sum(segs) <= total
    ensures Completions(start, total, segs) == (if start + Sum(segs) == total then 1 else 0)
  {
    if segs != [] {
      var prefix := segs[..|segs| - 1];
      assert Sum(segs) == Sum(prefix) + segs[|segs| - 1];
      CounterCompletesOnce(start, total, prefix);
    }
  }

  // ---------------------------------------------------------------------
  // HANDSHAKE

  /** rxr_pkt_init_handshake: the endpoint's first NEX extra-information
      words, their count plus 3 (for compatibility with older peers), and
      always the connection id, which adds its own header to the size. */
  method InitHandshake(ep: Endpoint, pkt: PktEntry, addr: nat) returns (ret: int)
    requires |ep.extraInfo| >= NEX
    modifies pkt
    ensures ret == 0
    ensures pkt.hdr == Handshake(RXR_PROTOCOL_VERSION, NEX + 3, ep.extraInfo[..NEX], Some(ep.qkey))
    ensures pkt.hdr.nextraP3 == (RXR_NUM_EXTRA_FEATURE_OR_REQUEST - 1) / 64 + 4
    ensures pkt.pktSize == HANDSHAKE_HDR_SIZE + 8 * NEX + HANDSHAKE_CONNID_HDR_SIZE
    ensures pkt.addr == addr
    ensures pkt.rnrRetransmit == old(pkt.rnrRetransmit) && pkt.xOp == old(pkt.xOp) && pkt.xRead == old(pkt.xRead)
  {
    var nex := NEX;
    pkt.pktSize := HANDSHAKE_HDR_SIZE + nex * 8;
    // The connection id always follows the extra-information words.
    pkt.hdr := Handshake(RXR_PROTOCOL_VERSION, nex + 3, ep.extraInfo[..nex], Some(ep.qkey));
    pkt.pktSize := pkt.pktSize + HANDSHAKE_CONNID_HDR_SIZE;
    pkt.addr := addr;
    return 0;
  }

  /** The result of rxr_pkt_post_handshake: -FI_EAGAIN when no packet entry
      can be allocated, otherwise what the send returns. */
  function PostResult(allocOk: bool, sendRet: int): (r: int)
    ensures !allocOk ==> r == -FI_EAGAIN
    ensures allocOk ==> r == sendRet
  {
    if allocOk then sendRet else -FI_EAGAIN
  }

  /** rxr_pkt_post_handshake: allocates a packet, fills it as a handshake to
      the peer and sends it; a packet whose send fails is released. */
  method PostHandshake(ep: Endpoint, peer: Peer, allocOk: bool, sendRet: int) returns (ret: int)
    requires |ep.extraInfo| >= NEX
    modifies ep`events
    ensures ret == PostResult(allocOk, sendRet)
    ensures !allocOk ==> ep.events == old(ep.events)
    ensures allocOk ==> |ep.events| == |old(ep.events)| + 1 && ep.events[..|old(ep.events)|] == old(ep.events)
    ensures allocOk ==> var e := ep.events[|old(ep.events)|];
      (if sendRet == 0 then e.PktSent? else e.PktReleased?)
      && e.pkt.hdr.Handshake? && e.pkt.addr == peer.addr
    ensures ep.peerBackoffList == old(ep.peerBackoffList) && ep.handshakeQueuedPeerList == old(ep.handshakeQueuedPeerList)
    ensures ep.longctsSendList == old(ep.longctsSendList)
  {
    if !allocOk {
      return -FI_EAGAIN;
    }
    var pkt := new PktEntry();
    var _ := InitHandshake(ep, pkt, peer.addr);
    if sendRet != 0 {
      ep.events := ep.events + [PktReleased(pkt)];
    } else {
      ep.events := ep.events + [PktSent(pkt)];
    }
    return sendRet;
  }

  /** The two peer flags that guard the handshake. */
  datatype HandshakeFlags = HandshakeFlags(sent: bool, queued: bool)

  /** The flags after rxr_pkt_post_handshake_or_queue, given what posting
      returns, and whether a handshake went out: nothing is attempted once
      either flag is set; -FI_EAGAIN queues the peer for a retry; another
      error sets neither flag; success marks the handshake sent. */
  function HandshakeStep(f: HandshakeFlags, postRet: int): (r: (HandshakeFlags, bool))
    ensures r.1 <==> !f.sent && !f.queued && postRet == 0
    ensures f.sent || f.queued ==> r.0 == f
    ensures r.0.sent <==> f.sent || r.1
    ensures r.0.queued <==> f.queued || (!f.sent && postRet == -FI_EAGAIN)
  {
    if f.sent || f.queued then (f, false)
    else if postRet == -FI_EAGAIN then (HandshakeFlags(false, true), false)
    else if postRet != 0 then (f, false)
    else (HandshakeFlags(true, false), true)
  }

  /** The handshakes that go out over successive calls with the given post
      results. */
  function HandshakesSent(f: HandshakeFlags, rets: seq<int>): nat
    decreases |rets|
  {
    if rets == [] then 0
    else
      var step := HandshakeStep(f, rets[0]);
      (if step.1 then 1 else 0) + HandshakesSent(step.0, rets[1..])
  }

  /** However often the endpoint tries and whatever posting returns, at
      most one handshake goes out to a peer, none once it is sent or
      queued, and exactly one when the first attempt succeeds. */
  lemma {:induction false} HandshakeAtMostOnce(f: HandshakeFlags, rets: seq<int>)
    ensures HandshakesSent(f, rets) <= 1
    ensures f.sent || f.queued ==> HandshakesSent(f, rets) == 0
    ensures rets != [] && rets[0] == 0 && !f.sent && !f.queued ==> HandshakesSent(f, rets) == 1
    decreases |rets|
  {
    if rets != [] {
      HandshakeAtMostOnce(HandshakeStep(f, rets[0]).0, rets[1..]);
    }
  }

  /** rxr_pkt_post_handshake_or_queue: posts a handshake unless one was
      sent or queued; a -FI_EAGAIN result queues the peer for the progress
      engine, another error is reported on the event queue. */
  method PostHandshakeOrQueue(ep: Endpoint, peer: Peer, allocOk: bool, sendRet: int)
    requires |ep.extraInfo| >= NEX
    modifies ep`events, ep`handshakeQueuedPeerList, peer`handshakeSent, peer`handshakeQueued
    ensures var step := HandshakeStep(HandshakeFlags(old(peer.handshakeSent), old(peer.handshakeQueued)),
                                      PostResult(allocOk, sendRet));
      && HandshakeFlags(peer.handshakeSent, peer.handshakeQueued) == step.0
      && (step.1 <==> exists i :: |old(ep.events)| <= i < |ep.events| && ep.events[i].PktSent?)
    ensures ep.handshakeQueuedPeerList == old(ep.handshakeQueuedPeerList) +
      (if !old(peer.handshakeSent) && !old(peer.handshakeQueued) && PostResult(allocOk, sendRet) == -FI_EAGAIN
       then [peer] else [])
    ensures old(peer.handshakeSent) || old(peer.handshakeQueued) ==> ep.events == old(ep.events)
    ensures |ep.events| >= |old(ep.events)| && ep.events[..|old(ep.events)|] == old(ep.events)
    ensures !old(peer.handshakeSent) && !old(peer.handshakeQueued) && allocOk && sendRet != 0 && sendRet != -FI_EAGAIN ==>
      |ep.events| == |old(ep.events)| + 2 && ep.events[|ep.events| - 1] == EqErrorWritten(FI_EIO)
    ensures peer.handshakeReceived == old(peer.handshakeReceived) && peer.extraInfo == old(peer.extraInfo)
    ensures peer.inBackoff == old(peer.inBackoff)
    ensures ep.peerBackoffList == old(ep.peerBackoffList) && ep.longctsSendList == old(ep.longctsSendList)
  {
    if peer.handshakeSent || peer.handshakeQueued {
      return;
    }
    var err := PostHandshake(ep, peer, allocOk, sendRet);
    ghost var posted := ep.events;
    if err == -FI_EAGAIN {
      peer.handshakeQueued := true;
      ep.handshakeQueuedPeerList := ep.handshakeQueuedPeerList + [peer];
      return;
    }
    if err != 0 {
      ep.events := ep.events + [EqErrorWritten(FI_EIO)];
      assert ep.events[..|old(ep.events)|] == old(ep.events) by {
        assert ep.events[..|posted|] == posted;
      }
      return;
    }
    peer.handshakeSent := true;
  }

  /** The extra-information words a peer holds after a handshake: the
      first nextra_p3 - 3 are the packet's, the rest are kept. */
  function ReceivedExtraInfo(held: seq<bv64>, hdr: PktHdr): (r: seq<bv64>)
    requires hdr.Handshake? && 3 <= hdr.nextraP3
    requires hdr.nextraP3 - 3 <= |hdr.extraInfo| && hdr.nextraP3 - 3 <= |held|
    ensures |r| == |held|
    ensures r[..hdr.nextraP3 - 3] == hdr.extraInfo[..hdr.nextraP3 - 3]
    ensures r[hdr.nextraP3 - 3..] == held[hdr.nextraP3 - 3..]
  {
    hdr.extraInfo[..hdr.nextraP3 - 3] + held[hdr.nextraP3 - 3..]
  }

  /** rxr_pkt_handle_handshake_recv: records the peer's word count and its
      extra-information words, marks the handshake received and releases
      the packet. The handshake must not have been received before, and the
      packet must hold the words it announces. */
  method HandshakeRecv(ep: Endpoint, pkt: PktEntry, peer: Peer)
    requires pkt.hdr.Handshake? && !peer.handshakeReceived
    requires 3 <= pkt.hdr.nextraP3
    requires pkt.hdr.nextraP3 - 3 <= |pkt.hdr.extraInfo| && pkt.hdr.nextraP3 - 3 <= |peer.extraInfo|
    modifies ep`events, peer`nextraP3, peer`extraInfo, peer`handshakeReceived
    ensures peer.nextraP3 == pkt.hdr.nextraP3
    ensures peer.extraInfo == ReceivedExtraInfo(old(peer.extraInfo), pkt.hdr)
    ensures peer.handshakeReceived
    ensures peer.handshakeSent == old(peer.handshakeSent) && peer.handshakeQueued == old(peer.handshakeQueued)
    ensures ep.events == old(ep.events) + [PktReleased(pkt)]
    ensures ep.handshakeQueuedPeerList == old(ep.handshakeQueuedPeerList)
  {
    var n := pkt.hdr.nextraP3 - 3;
    peer.nextraP3 := pkt.hdr.nextraP3;
    peer.extraInfo := pkt.hdr.extraInfo[..n] + peer.extraInfo[n..];
    peer.handshakeReceived := true;
    ep.events := ep.events + [PktReleased(pkt)];
  }

  /** A handshake carries across exactly the sender's NEX words: the
      receiver's first nextra_p3 - 3 words are then the sender's first NEX
      extra-information words, and the others keep their values. */
  lemma HandshakeDeliversExtraInfo(sent: seq<bv64>, held: seq<bv64>, qkey: nat)
    requires |sent| >= NEX && |held| >= NEX
    ensures var hdr := Handshake(RXR_PROTOCOL_VERSION, NEX + 3, sent[..NEX], Some(qkey));
      && hdr.nextraP3 - 3 == NEX
      && ReceivedExtraInfo(held, hdr)[..NEX] == sent[..NEX]
      && ReceivedExtraInfo(held, hdr)[NEX..] == held[NEX..]
  {
    var hdr := Handshake(RXR_PROTOCOL_VERSION, NEX + 3, sent[..NEX], Some(qkey));
    var r := ReceivedExtraInfo(held, hdr);
    assert r[..hdr.nextraP3 - 3] == hdr.extraInfo[..NEX];
  }

  // ---------------------------------------------------------------------
  // CTS

  /** The length a CTS grants: what is left of the message, at most the
      credit of tx_min_credits full payloads, in size_t arithmetic. */
  function CtsRecvLength(totalLen: nat, bytesReceived: nat, credits: nat, payload: nat): (r: SizeT)
    ensures bytesReceived <= totalLen < SIZE_MODULUS && credits * payload < SIZE_MODULUS ==>
      && r <= totalLen - bytesReceived && r <= credits * payload
      && (r == totalLen - bytesReceived || r == credits * payload)
  {
    Min(ToSize(totalLen - bytesReceived), ToSize(credits * payload))
  }

  /** rxr_pkt_init_cts: grants the next part of the message. A TX entry
      (emulated long read) and an RX entry (long-CTS message or write) put
      their two ids in opposite fields, so the id of the side that sends
      the data is always `sendId`. */
  method InitCts(ep: Endpoint, op: OpEntry, pkt: PktEntry) returns (ret: int)
    requires CtsRecvLength(op.totalLen, op.bytesReceived, ep.txMinCredits, ep.maxDataPayloadSize) > 0
    modifies pkt
    ensures ret == 0
    ensures pkt.hdr.Cts? && pkt.hdr.version == RXR_PROTOCOL_VERSION && pkt.hdr.connid == Some(ep.qkey)
    ensures pkt.hdr.readReq <==> op.cqFlags & FI_READ != 0
    ensures op.kind == TxEntry ==> pkt.hdr.sendId == op.rxId && pkt.hdr.recvId == op.txId
    ensures op.kind == RxEntry ==> pkt.hdr.sendId == op.txId && pkt.hdr.recvId == op.rxId
    ensures pkt.hdr.recvLength == CtsRecvLength(op.totalLen, op.bytesReceived, ep.txMinCredits, ep.maxDataPayloadSize)
    ensures pkt.pktSize == CTS_HDR_SIZE && pkt.addr == op.addr && pkt.xOp == op
    ensures pkt.xRead == null && pkt.rnrRetransmit == old(pkt.rnrRetransmit)
  {
    var readReq := op.cqFlags & FI_READ != 0;
    var sendId, recvId;
    if op.kind == TxEntry {
      sendId, recvId := op.rxId, op.txId;
    } else {
      sendId, recvId := op.txId, op.rxId;
    }
    var recvLength := CtsRecvLength(op.totalLen, op.bytesReceived, ep.txMinCredits, ep.maxDataPayloadSize);
    pkt.hdr := Cts(RXR_PROTOCOL_VERSION, readReq, sendId, recvId, recvLength, Some(ep.qkey));
    pkt.pktSize := CTS_HDR_SIZE;
    pkt.addr := op.addr;
    pkt.xOp, pkt.xRead := op, null;
    return 0;
  }

  /** rxr_pkt_handle_cts_sent: the granting side opens its window to the
      granted length. */
  method CtsSent(ep: Endpoint, pkt: PktEntry)
    requires pkt.hdr.Cts? && pkt.xOp != null
    modifies pkt.xOp`window
    ensures pkt.xOp.window == pkt.hdr.recvLength
    ensures pkt.xOp.state == old(pkt.xOp.state) && pkt.xOp.bytesSent == old(pkt.xOp.bytesSent)
  {
    pkt.xOp.window := pkt.hdr.recvLength;
  }

  /** rxr_pkt_handle_cts_recv: the data sender `op` (the entry whose index
      is the packet's sendId) learns the receiver's id and the window,
      releases the packet, and enters the long-CTS send list the first time
      it moves into the TX_SEND state. */
  method CtsRecv(ep: Endpoint, pkt: PktEntry, op: OpEntry)
    requires pkt.hdr.Cts? && pkt.hdr.recvLength > 0
    modifies ep`events, ep`longctsSendList, op`rxId, op`window, op`state
    ensures op.rxId == pkt.hdr.recvId && op.window == pkt.hdr.recvLength
    ensures op.state == TxSend
    ensures ep.longctsSendList == old(ep.longctsSendList) + (if old(op.state) != TxSend then [op] else [])
    ensures ep.events == old(ep.events) + [PktReleased(pkt)]
    ensures op.txId == old(op.txId) && op.bytesSent == old(op.bytesSent) && op.bytesAcked == old(op.bytesAcked)
  {
    op.rxId := pkt.hdr.recvId;
    op.window := pkt.hdr.recvLength;
    ep.events := ep.events + [PktReleased(pkt)];
    if op.state != TxSend {
      op.state := TxSend;
      ep.longctsSendList := ep.longctsSendList + [op];
    }
  }

  /** Granting and receiving a CTS agree: the window the sender opens is
      the length the receiver granted, which never exceeds what is left of
      the message. */
  lemma CtsWindowBounded(totalLen: nat, bytesReceived: nat, credits: nat, payload: nat)
    requires bytesReceived < totalLen < SIZE_MODULUS && 0 < credits * payload < SIZE_MODULUS
    ensures 0 < CtsRecvLength(totalLen, bytesReceived, credits, payload) <= totalLen - bytesReceived
    ensures bytesReceived + CtsRecvLength(totalLen, bytesReceived, credits, payload) <= totalLen
  {
  }

  // ---------------------------------------------------------------------
  // READRSP

  /** The payload of one READRSP: what fits in an MTU after the header, at
      most the whole message. */
  function ReadrspSegLength(mtuSize: nat, totalLen: nat): (r: nat)
    ensures r <= totalLen
    ensures READRSP_HDR_SIZE <= mtuSize < SIZE_MODULUS ==> r == Min(mtuSize - READRSP_HDR_SIZE, totalLen)
  {
    Min(ToSize(mtuSize - READRSP_HDR_SIZE), totalLen)
  }

  /** rxr_pkt_init_readrsp: the response to an emulated read, sent from the
      RX entry, with the first segment of the data. Filling the payload is
      done by rxr_pkt_init_data_from_op_entry, which records the entry as the
      packet's context; its result is `dataRet`. */
  method InitReadrsp(ep: Endpoint, rx: OpEntry, pkt: PktEntry, dataRet: int) returns (ret: int)
    modifies pkt`hdr, pkt`addr, pkt`xOp, pkt`xRead
    ensures ret == dataRet
    ensures pkt.hdr == Readrsp(RXR_PROTOCOL_VERSION, rx.rxId, rx.txId,
                               ReadrspSegLength(ep.mtuSize, rx.totalLen), Some(ep.qkey))
    ensures pkt.hdr.segLength <= rx.totalLen
    ensures pkt.addr == rx.addr && pkt.xOp == rx
    ensures pkt.xRead == null && pkt.rnrRetransmit == old(pkt.rnrRetransmit)
  {
    var seg := ReadrspSegLength(ep.mtuSize, rx.totalLen);
    pkt.hdr := Readrsp(RXR_PROTOCOL_VERSION, rx.rxId, rx.txId, seg, Some(ep.qkey));
    pkt.addr := rx.addr;
    pkt.xOp, pkt.xRead := rx, null;
    return dataRet;
  }

  /** rxr_pkt_handle_readrsp_sent: the segment counts as sent and uses up
      window; while data remains, the entry goes (back) on the long-CTS send
      list in state TX_SEND. The window must cover the segment. */
  method ReadrspSent(ep: Endpoint, pkt: PktEntry)
    requires pkt.hdr.Readrsp? && pkt.xOp != null
    requires pkt.xOp.window >= pkt.hdr.segLength
    modifies ep`longctsSendList, pkt.xOp`bytesSent, pkt.xOp`window, pkt.xOp`state
    ensures pkt.xOp.bytesSent == old(pkt.xOp.bytesSent) + pkt.hdr.segLength
    ensures pkt.xOp.window == old(pkt.xOp.window) - pkt.hdr.segLength >= 0
    ensures pkt.xOp.bytesSent < pkt.xOp.totalLen ==>
      pkt.xOp.state == TxSend && ep.longctsSendList == old(ep.longctsSendList) + [pkt.xOp]
    ensures pkt.xOp.bytesSent >= pkt.xOp.totalLen ==>
      pkt.xOp.state == old(pkt.xOp.state) && ep.longctsSendList == old(ep.longctsSendList)
    ensures pkt.xOp.totalLen == old(pkt.xOp.totalLen) && pkt.xOp.bytesAcked == old(pkt.xOp.bytesAcked)
    ensures ep.events == old(ep.events)
  {
    var rx := pkt.xOp;
    var dataLen := pkt.hdr.segLength;
    rx.bytesSent := rx.bytesSent + dataLen;
    rx.window := rx.window - dataLen;
    if rx.bytesSent < rx.totalLen {
      rx.state := TxSend;
      ep.longctsSendList := ep.longctsSendList + [rx];
    }
  }

  /** rxr_pkt_handle_readrsp_send_completion: the segment counts as
      acknowledged, and the send completes when every byte is. */
  method ReadrspSendCompletion(ep: Endpoint, pkt: PktEntry)
    requires pkt.hdr.Readrsp? && pkt.xOp != null
    modifies ep`events, pkt.xOp`bytesAcked
    ensures pkt.xOp.bytesAcked == old(pkt.xOp.bytesAcked) + pkt.hdr.segLength
    ensures ep.events == old(ep.events) +
      (if pkt.xOp.bytesAcked == pkt.xOp.totalLen then [SendCompletionHandled(pkt.xOp)] else [])
    ensures pkt.xOp.totalLen == old(pkt.xOp.totalLen) && pkt.xOp.bytesSent == old(pkt.xOp.bytesSent)
    ensures pkt.xOp.state == old(pkt.xOp.state)
    ensures ep.longctsSendList == old(ep.longctsSendList)
  {
    var rx := pkt.xOp;
    rx.bytesAcked := rx.bytesAcked + pkt.hdr.segLength;
    if rx.totalLen == rx.bytesAcked {
      ep.events := ep.events + [SendCompletionHandled(rx)];
    }
  }

  /** rxr_pkt_handle_readrsp_recv: the reader (the TX entry whose index is
      the packet's recvId) learns the responder's id and hands the segment
      to the data path, which places it at offset 0. The entry must be a
      read. */
  method ReadrspRecv(ep: Endpoint, pkt: PktEntry, tx: OpEntry)
    requires pkt.hdr.Readrsp? && tx.cqFlags & FI_READ != 0
    modifies ep`events, tx`rxId
    ensures tx.rxId == pkt.hdr.sendId
    ensures ep.events == old(ep.events) + [PktDataProcessed(tx, pkt, 0, pkt.hdr.segLength)]
  {
    tx.rxId := pkt.hdr.sendId;
    ep.events := ep.events + [PktDataProcessed(tx, pkt, 0, pkt.hdr.segLength)];
  }

  // ---------------------------------------------------------------------
  // RMA context

  /** rxr_pkt_init_write_context: the context of an RDMA write issued for
      `tx`; it never goes on the wire. */
  method InitWriteContext(tx: OpEntry, pkt: PktEntry)
    modifies pkt`xOp, pkt`xRead, pkt`hdr
    ensures pkt.xOp == tx && pkt.xRead == null
    ensures pkt.hdr == RmaContext(RXR_PROTOCOL_VERSION, WriteContext(tx.txId))
    ensures pkt.pktSize == old(pkt.pktSize) && pkt.addr == old(pkt.addr)
    ensures pkt.rnrRetransmit == old(pkt.rnrRetransmit)
  {
    pkt.xOp, pkt.xRead := tx, null;
    pkt.hdr := RmaContext(RXR_PROTOCOL_VERSION, WriteContext(tx.txId));
  }

  /** rxr_pkt_init_read_context: the context of one RDMA read segment of
      `segSize` bytes issued for `read`. */
  method InitReadContext(ep: Endpoint, read: ReadEntry, segSize: nat, pkt: PktEntry)
    modifies pkt`xOp, pkt`xRead, pkt`addr, pkt`pktSize, pkt`hdr
    ensures pkt.xRead == read && pkt.xOp == null
    ensures pkt.addr == read.addr && pkt.pktSize == RMA_CONTEXT_PKT_SIZE
    ensures pkt.hdr == RmaContext(RXR_PROTOCOL_VERSION, ReadContext(read.readId, segSize))
    ensures pkt.rnrRetransmit == old(pkt.rnrRetransmit)
  {
    pkt.xOp, pkt.xRead := null, read;
    pkt.addr := read.addr;
    pkt.pktSize := RMA_CONTEXT_PKT_SIZE;
    pkt.hdr := RmaContext(RXR_PROTOCOL_VERSION, ReadContext(read.readId, segSize));
  }

  /** What finishing a long-read receive reports: the EOR request, the
      error and the release when posting it fails, then the receive
      completion once every byte is copied, or the flush of queued copies
      once the last ones are queued. */
  function LongReadRecvEvents(rx: OpEntry, eorPostRet: int, copied: nat, queued: nat, total: nat): (evs: seq<Event>)
    ensures |evs| >= 1 && evs[0] == EorPostRequested(rx)
    ensures RecvCompleted(rx) in evs <==> copied == total
    ensures BlockingCopiesFlushed in evs <==> copied != total && copied + queued == total
    ensures OpReleased(rx) in evs <==> eorPostRet != 0
  {
    [EorPostRequested(rx)]
    + (if eorPostRet != 0 then [RxErrorWritten(rx, -eorPostRet), OpReleased(rx)] else [])
    + (if copied == total then [RecvCompleted(rx)]
       else if copied + queued == total then [BlockingCopiesFlushed]
       else [])
  }

  /** The RX branch of rxr_pkt_handle_rma_read_completion: the receiver has
      read the whole message body. It asks for an EOR to the sender (a
      failure is reported and the entry released, after which the source
      goes on updating it), then counts the bytes past the runt as received
      and copied. */
  method FinishLongReadRecv(ep: Endpoint, rx: OpEntry, readTotal: nat, eorPostRet: int)
    requires rx.bytesRunt <= readTotal
    modifies ep`events, rx`eorInFlight, rx`bytesReceived, rx`bytesCopied
    ensures rx.eorInFlight
    ensures rx.bytesReceived == old(rx.bytesReceived) + (readTotal - rx.bytesRunt)
    ensures rx.bytesCopied == old(rx.bytesCopied) + (readTotal - rx.bytesRunt)
    ensures ep.events == old(ep.events) +
      LongReadRecvEvents(rx, eorPostRet, rx.bytesCopied, rx.bytesQueuedBlockingCopy, rx.totalLen)
    ensures rx.totalLen == old(rx.totalLen) && rx.bytesRunt == old(rx.bytesRunt)
    ensures rx.bytesQueuedBlockingCopy == old(rx.bytesQueuedBlockingCopy) && rx.bytesAcked == old(rx.bytesAcked)
    ensures ep.longctsSendList == old(ep.longctsSendList)
  {
    ep.events := ep.events + [EorPostRequested(rx)];
    if eorPostRet != 0 {
      ep.events := ep.events + [RxErrorWritten(rx, -eorPostRet), OpReleased(rx)];
    }
    rx.eorInFlight := true;
    rx.bytesReceived := rx.bytesReceived + (readTotal - rx.bytesRunt);
    rx.bytesCopied := rx.bytesCopied + (readTotal - rx.bytesRunt);
    if rx.bytesCopied == rx.totalLen {
      ep.events := ep.events + [RecvCompleted(rx)];
    } else if rx.bytesCopied + rx.bytesQueuedBlockingCopy == rx.totalLen {
      ep.events := ep.events + [BlockingCopiesFlushed];
    }
  }

  /** The entry a read was issued for, as a frame. */
  function ReadOpSet(read: ReadEntry?): (r: set<OpEntry>)
    reads read
    ensures read == null ==> r == {}
    ensures read != null ==> r == OpSet(read.contextOp)
  {
    if read != null then OpSet(read.contextOp) else {}
  }

  /** What handling a read segment's completion reports, given the read
      entry once the segment is counted. When the read is finished, its
      context is finished first: a TX entry gets its completion (needTx
      says whether it needed one before the call) and is released, an RX
      entry completes the long-read receive, a packet's fetched payload is
      copied; then the read entry is released. Every segment is recorded
      against the TX operation count. */
  function ReadCompletionEvents(read: ReadEntry, needTx: bool, cqWriteRet: int, eorPostRet: int): (evs: seq<Event>)
    reads read, read.contextOp
    requires read.contextType != ReadForPkt ==> read.contextOp != null
    ensures |evs| >= 1 && evs[|evs| - 1] == TxOpRecorded
    ensures read.bytesFinished != read.totalLen ==> evs == [TxOpRecorded]
    ensures read.bytesFinished == read.totalLen ==>
      |evs| >= 3 && evs[|evs| - 2] == ReadReleased(read)
    ensures read.bytesFinished == read.totalLen && read.contextType == ReadForPkt ==>
      evs == [PktDataCopied(read.contextPktDataSize), ReadReleased(read), TxOpRecorded]
    ensures read.bytesFinished == read.totalLen && read.contextType == ReadForTx ==>
      evs[|evs| - 3] == OpReleased(read.contextOp)
  {
    (if read.bytesFinished == read.totalLen then
       (match read.contextType
          case ReadForTx =>
            RxrCq.TxCompletionEvents(read.contextOp, needTx, cqWriteRet) + [OpReleased(read.contextOp)]
          case ReadForRx =>
            LongReadRecvEvents(read.contextOp, eorPostRet, read.contextOp.bytesCopied,
              read.contextOp.bytesQueuedBlockingCopy, read.contextOp.totalLen)
          case ReadForPkt =>
            [PktDataCopied(read.contextPktDataSize)])
       + [ReadReleased(read)]
     else [])
    + [TxOpRecorded]
  }

  /** rxr_pkt_handle_rma_read_completion: one segment of an RDMA read is
      done. When the read entry's bytes_finished reaches its total, the
      entry it was read for is finished (a TX entry is completed and
      released, an RX entry handled as above, a packet's data handed on),
      and the read entry is released. Every call records a completed TX
      operation. The segment must not push bytes_finished above the
      total. */
  method RmaReadCompletion(ep: Endpoint, ctx: PktEntry, cqWriteRet: int, eorPostRet: int)
    requires ctx.hdr.RmaContext? && ctx.hdr.context.ReadContext? && ctx.xRead != null
    requires ctx.xRead.bytesFinished + ctx.hdr.context.segSize <= ctx.xRead.totalLen
    requires ctx.xRead.contextType != ReadForPkt ==> ctx.xRead.contextOp != null
    requires ctx.xRead.contextType == ReadForRx ==> ctx.xRead.contextOp.bytesRunt <= ctx.xRead.totalLen
    requires ctx.xRead.contextType == ReadForPkt ==> ctx.xRead.contextPktDataSize > 0
    modifies ep`events, ctx.xRead`bytesFinished
    modifies OpSet(ctx.xRead.contextOp)`noCompletion, OpSet(ctx.xRead.contextOp)`eorInFlight
    modifies OpSet(ctx.xRead.contextOp)`bytesReceived, OpSet(ctx.xRead.contextOp)`bytesCopied
    ensures ctx.xRead.bytesFinished == old(ctx.xRead.bytesFinished) + ctx.hdr.context.segSize
    ensures ep.events == old(ep.events)
      + ReadCompletionEvents(ctx.xRead,
          old(ctx.xRead.contextOp != null
              && RxrCq.NeedTxCompletion(ctx.xRead.contextOp.noCompletion, ctx.xRead.contextOp.fiFlags, ep.txMsgFlags)),
          cqWriteRet, eorPostRet)
    ensures ctx.xRead.bytesFinished == ctx.xRead.totalLen && ctx.xRead.contextType == ReadForRx ==>
      && ctx.xRead.contextOp.eorInFlight
      && ctx.xRead.contextOp.bytesCopied
         == old(ctx.xRead.contextOp.bytesCopied) + (ctx.xRead.totalLen - ctx.xRead.contextOp.bytesRunt)
      && ctx.xRead.contextOp.bytesReceived
         == old(ctx.xRead.contextOp.bytesReceived) + (ctx.xRead.totalLen - ctx.xRead.contextOp.bytesRunt)
    ensures ctx.xRead.bytesFinished != ctx.xRead.totalLen && ctx.xRead.contextOp != null ==>
      unchanged(ctx.xRead.contextOp)
    ensures ctx.xRead.contextType != ReadForRx && ctx.xRead.contextOp != null ==>
      && ctx.xRead.contextOp.eorInFlight == old(ctx.xRead.contextOp.eorInFlight)
      && ctx.xRead.contextOp.bytesReceived == old(ctx.xRead.contextOp.bytesReceived)
      && ctx.xRead.contextOp.bytesCopied == old(ctx.xRead.contextOp.bytesCopied)
    ensures ctx.xRead.contextType != ReadForTx && ctx.xRead.contextOp != null ==>
      ctx.xRead.contextOp.noCompletion == old(ctx.xRead.contextOp.noCompletion)
  {
    var read := ctx.xRead;
    read.bytesFinished := read.bytesFinished + ctx.hdr.context.segSize;
    if read.bytesFinished == read.totalLen {
      FinishRead(ep, read, read.contextOp, cqWriteRet, eorPostRet);
    }
    ep.events := ep.events + [TxOpRecorded];
  }

  /** The finished-read part of a read segment's completion: finish the
      entry read for, then release the read entry. */
  method FinishRead(ep: Endpoint, read: ReadEntry, op: OpEntry?, cqWriteRet: int, eorPostRet: int)
    requires read.bytesFinished == read.totalLen && read.contextOp == op
    requires read.contextType != ReadForPkt ==> op != null
    requires read.contextType == ReadForRx ==> op.bytesRunt <= read.totalLen
    modifies ep`events
    modifies OpSet(op)`noCompletion, OpSet(op)`eorInFlight, OpSet(op)`bytesReceived, OpSet(op)`bytesCopied
    ensures ep.events + [TxOpRecorded] == old(ep.events)
      + ReadCompletionEvents(read,
          op != null && old(RxrCq.NeedTxCompletion(op.noCompletion, op.fiFlags, ep.txMsgFlags)),
          cqWriteRet, eorPostRet)
    ensures read.contextType == ReadForRx ==>
      && op.eorInFlight
      && op.bytesCopied == old(op.bytesCopied) + (read.totalLen - op.bytesRunt)
      && op.bytesReceived == old(op.bytesReceived) + (read.totalLen - op.bytesRunt)
    ensures read.contextType != ReadForRx && op != null ==>
      && op.eorInFlight == old(op.eorInFlight)
      && op.bytesReceived == old(op.bytesReceived)
      && op.bytesCopied == old(op.bytesCopied)
    ensures read.contextType != ReadForTx && op != null ==> op.noCompletion == old(op.noCompletion)
  {
    ghost var needTx := op != null && RxrCq.NeedTxCompletion(op.noCompletion, op.fiFlags, ep.txMsgFlags);
    match read.contextType {
      case ReadForTx =>
        FinishReadForTx(ep, read, op, needTx, cqWriteRet, eorPostRet);
      case ReadForRx =>
        FinishReadForRx(ep, read, op, needTx, cqWriteRet, eorPostRet);
      case ReadForPkt =>
        FinishReadForPkt(ep, read, needTx, cqWriteRet, eorPostRet);
    }
  }

  /** A finished read for a packet hands the fetched payload on. */
  method FinishReadForPkt(ep: Endpoint, read: ReadEntry, ghost needTx: bool, cqWriteRet: int, eorPostRet: int)
    requires read.bytesFinished == read.totalLen && read.contextType == ReadForPkt
    modifies ep`events
    ensures ep.events + [TxOpRecorded] == old(ep.events) + ReadCompletionEvents(read, needTx, cqWriteRet, eorPostRet)
  {
    ep.events := ep.events + [PktDataCopied(read.contextPktDataSize), ReadReleased(read)];
  }

  /** A finished read for a TX entry (emulated read) completes and
      releases the entry. */
  method FinishReadForTx(ep: Endpoint, read: ReadEntry, tx: OpEntry, ghost needTx: bool, cqWriteRet: int, eorPostRet: int)
    requires read.bytesFinished == read.totalLen && read.contextType == ReadForTx && read.contextOp == tx
    requires needTx == RxrCq.NeedTxCompletion(tx.noCompletion, tx.fiFlags, ep.txMsgFlags)
    modifies ep`events, tx`noCompletion
    ensures ep.events + [TxOpRecorded] == old(ep.events) + ReadCompletionEvents(read, needTx, cqWriteRet, eorPostRet)
  {
    RxrCq.WriteTxCompletion(ep, tx, cqWriteRet);
    ep.events := ep.events + [OpReleased(tx), ReadReleased(read)];
    assert ReadCompletionEvents(read, needTx, cqWriteRet, eorPostRet)
      == RxrCq.TxCompletionEvents(tx, needTx, cqWriteRet) + [OpReleased(tx)] + [ReadReleased(read)] + [TxOpRecorded];
  }

  /** A finished read for an RX entry completes the long-read receive. */
  method FinishReadForRx(ep: Endpoint, read: ReadEntry, rx: OpEntry, ghost needTx: bool, cqWriteRet: int, eorPostRet: int)
    requires read.bytesFinished == read.totalLen && read.contextType == ReadForRx && read.contextOp == rx
    requires rx.bytesRunt <= read.totalLen
    modifies ep`events, rx`eorInFlight, rx`bytesReceived, rx`bytesCopied
    ensures ep.events + [TxOpRecorded] == old(ep.events) + ReadCompletionEvents(read, needTx, cqWriteRet, eorPostRet)
    ensures rx.eorInFlight
    ensures rx.bytesCopied == old(rx.bytesCopied) + (read.totalLen - rx.bytesRunt)
    ensures rx.bytesReceived == old(rx.bytesReceived) + (read.totalLen - rx.bytesRunt)
  {
    FinishLongReadRecv(ep, rx, read.totalLen, eorPostRet);
    ep.events := ep.events + [ReadReleased(read)];
    assert ReadCompletionEvents(read, needTx, cqWriteRet, eorPostRet)
      == LongReadRecvEvents(rx, eorPostRet, rx.bytesCopied, rx.bytesQueuedBlockingCopy, rx.totalLen)
         + [ReadReleased(read)] + [TxOpRecorded];
  }

  /** rxr_pkt_handle_rma_completion: the device finished an RDMA operation.
      A write completes its TX entry (a CQ entry if the operation asked for
      one, the counter otherwise) and releases it; a read segment is handled
      as above. The context packet is released in both cases. */
  method RmaCompletion(ep: Endpoint, ctx: PktEntry, cqWriteRet: int, eorPostRet: int)
    requires ctx.hdr.RmaContext? && ctx.hdr.version == RXR_PROTOCOL_VERSION
    requires ctx.hdr.context.WriteContext? ==> ctx.xOp != null
    requires ctx.hdr.context.ReadContext? ==>
      && ctx.xRead != null
      && ctx.xRead.bytesFinished + ctx.hdr.context.segSize <= ctx.xRead.totalLen
      && (ctx.xRead.contextType != ReadForPkt ==> ctx.xRead.contextOp != null)
      && (ctx.xRead.contextType == ReadForRx ==> ctx.xRead.contextOp.bytesRunt <= ctx.xRead.totalLen)
      && (ctx.xRead.contextType == ReadForPkt ==> ctx.xRead.contextPktDataSize > 0)
    modifies ep`events, OpSet(ctx.xOp)`noCompletion
    modifies if ctx.xRead != null then {ctx.xRead} else {}`bytesFinished
    modifies ReadOpSet(ctx.xRead)`noCompletion, ReadOpSet(ctx.xRead)`eorInFlight
    modifies ReadOpSet(ctx.xRead)`bytesReceived, ReadOpSet(ctx.xRead)`bytesCopied
    ensures ctx.hdr.context.WriteContext? ==>
      ep.events == old(ep.events)
        + (if ctx.xOp.fiFlags & FI_COMPLETION != 0
           then RxrCq.TxCompletionEvents(ctx.xOp,
                  old(RxrCq.NeedTxCompletion(ctx.xOp.noCompletion, ctx.xOp.fiFlags, ep.txMsgFlags)), cqWriteRet)
           else [TxCounterReported(ctx.xOp)])
        + [OpReleased(ctx.xOp), PktReleased(ctx)]
    ensures ctx.hdr.context.ReadContext? ==>
      && ctx.xRead.bytesFinished == old(ctx.xRead.bytesFinished) + ctx.hdr.context.segSize
      && ep.events == old(ep.events)
        + ReadCompletionEvents(ctx.xRead,
            old(ctx.xRead.contextOp != null
                && RxrCq.NeedTxCompletion(ctx.xRead.contextOp.noCompletion, ctx.xRead.contextOp.fiFlags, ep.txMsgFlags)),
            cqWriteRet, eorPostRet)
        + [PktReleased(ctx)]
    ensures ctx.hdr.context.ReadContext? && ctx.xRead.bytesFinished == ctx.xRead.totalLen
            && ctx.xRead.contextType == ReadForRx ==>
      && ctx.xRead.contextOp.eorInFlight
      && ctx.xRead.contextOp.bytesCopied
         == old(ctx.xRead.contextOp.bytesCopied) + (ctx.xRead.totalLen - ctx.xRead.contextOp.bytesRunt)
      && ctx.xRead.contextOp.bytesReceived
         == old(ctx.xRead.contextOp.bytesReceived) + (ctx.xRead.totalLen - ctx.xRead.contextOp.bytesRunt)
    ensures ctx.hdr.context.ReadContext? && ctx.xRead.bytesFinished != ctx.xRead.totalLen
            && ctx.xRead.contextOp != null ==>
      unchanged(ctx.xRead.contextOp)
    ensures ctx.hdr.context.ReadContext? && ctx.xRead.contextType != ReadForRx && ctx.xRead.contextOp != null ==>
      && ctx.xRead.contextOp.eorInFlight == old(ctx.xRead.contextOp.eorInFlight)
      && ctx.xRead.contextOp.bytesReceived == old(ctx.xRead.contextOp.bytesReceived)
      && ctx.xRead.contextOp.bytesCopied == old(ctx.xRead.contextOp.bytesCopied)
    ensures ctx.hdr.context.ReadContext? && ctx.xRead.contextType != ReadForTx && ctx.xRead.contextOp != null ==>
      ctx.xRead.contextOp.noCompletion == old(ctx.xRead.contextOp.noCompletion)
  {
    match ctx.hdr.context {
      case WriteContext(_) =>
        RmaWriteCompletion(ep, ctx.xOp, cqWriteRet);
      case ReadContext(_, _) =>
        RmaReadCompletion(ep, ctx, cqWriteRet, eorPostRet);
    }
    ep.events := ep.events + [PktReleased(ctx)];
  }

  /** The write branch of an RMA completion: report the write (a
      completion when requested, otherwise the counter) and release the
      TX entry. */
  method RmaWriteCompletion(ep: Endpoint, tx: OpEntry, cqWriteRet: int)
    modifies ep`events, tx`noCompletion
    ensures ep.events == old(ep.events)
      + (if tx.fiFlags & FI_COMPLETION != 0
         then RxrCq.TxCompletionEvents(tx, old(RxrCq.NeedTxCompletion(tx.noCompletion, tx.fiFlags, ep.txMsgFlags)), cqWriteRet)
         else [TxCounterReported(tx)])
      + [OpReleased(tx)]
  {
    if tx.fiFlags & FI_COMPLETION != 0 {
      RxrCq.WriteTxCompletion(ep, tx, cqWriteRet);
    } else {
      ep.events := ep.events + [TxCounterReported(tx)];
    }
    ep.events := ep.events + [OpReleased(tx)];
  }

  // ---------------------------------------------------------------------
  // EOR

  /** rxr_pkt_init_eor: the receiver's end-of-read notice to the sender. */
  method InitEor(ep: Endpoint, rx: OpEntry, pkt: PktEntry) returns (ret: int)
    modifies pkt
    ensures ret == 0
    ensures pkt.hdr == Eor(RXR_PROTOCOL_VERSION, rx.txId, rx.rxId, Some(ep.qkey))
    ensures pkt.pktSize == EOR_HDR_SIZE && pkt.addr == rx.addr && pkt.xOp == rx
    ensures pkt.xRead == null && pkt.rnrRetransmit == old(pkt.rnrRetransmit)
  {
    pkt.hdr := Eor(RXR_PROTOCOL_VERSION, rx.txId, rx.rxId, Some(ep.qkey));
    pkt.pktSize := EOR_HDR_SIZE;
    pkt.addr := rx.addr;
    pkt.xOp, pkt.xRead := rx, null;
    return 0;
  }

  /** rxr_pkt_handle_eor_send_completion: the RX entry is released if all
      its data is copied; otherwise only its EOR-in-flight mark is cleared,
      and the last copy releases it. */
  method EorSendCompletion(ep: Endpoint, pkt: PktEntry)
    requires pkt.hdr.Eor? && pkt.xOp != null && pkt.xOp.rxId == pkt.hdr.recvId
    modifies ep`events, pkt.xOp`eorInFlight
    ensures pkt.xOp.bytesCopied == pkt.xOp.totalLen ==>
      ep.events == old(ep.events) + [OpReleased(pkt.xOp)] && pkt.xOp.eorInFlight == old(pkt.xOp.eorInFlight)
    ensures pkt.xOp.bytesCopied != pkt.xOp.totalLen ==>
      ep.events == old(ep.events) && !pkt.xOp.eorInFlight
    ensures pkt.xOp.bytesCopied == old(pkt.xOp.bytesCopied) && pkt.xOp.totalLen == old(pkt.xOp.totalLen)
  {
    var rx := pkt.xOp;
    if rx.bytesCopied == rx.totalLen {
      ep.events := ep.events + [OpReleased(rx)];
    } else {
      rx.eorInFlight := false;
    }
  }

  /** rxr_pkt_handle_eor_recv: the sender learns that the receiver has read
      the message. One read message fewer is in flight to the peer, the
      bytes past the runt count as acknowledged, and the send completes and
      releases the TX entry (the entry whose index is the packet's sendId)
      once every byte is acknowledged. */
  method EorRecv(ep: Endpoint, pkt: PktEntry, peer: Peer, tx: OpEntry, cqWriteRet: int)
    requires pkt.hdr.Eor? && tx.bytesRunt <= tx.totalLen
    modifies ep`events, peer`numReadMsgInFlight, tx`bytesAcked, tx`noCompletion
    ensures peer.numReadMsgInFlight == old(peer.numReadMsgInFlight) - 1
    ensures tx.bytesAcked == old(tx.bytesAcked) + (tx.totalLen - tx.bytesRunt)
    ensures ep.events == old(ep.events)
      + (if tx.bytesAcked == tx.totalLen
         then RxrCq.TxCompletionEvents(tx, old(RxrCq.NeedTxCompletion(tx.noCompletion, tx.fiFlags, ep.txMsgFlags)),
                                        cqWriteRet)
              + [OpReleased(tx)]
         else [])
      + [PktReleased(pkt)]
    ensures tx.bytesAcked != tx.totalLen ==> tx.noCompletion == old(tx.noCompletion)
    ensures tx.totalLen == old(tx.totalLen) && tx.bytesRunt == old(tx.bytesRunt)
  {
    peer.numReadMsgInFlight := peer.numReadMsgInFlight - 1;
    tx.bytesAcked := tx.bytesAcked + (tx.totalLen - tx.bytesRunt);
    if tx.bytesAcked == tx.totalLen {
      RxrCq.WriteTxCompletion(ep, tx, cqWriteRet);
      ep.events := ep.events + [OpReleased(tx)];
    }
    ep.events := ep.events + [PktReleased(pkt)];
  }

  // ---------------------------------------------------------------------
  // RECEIPT

  /** rxr_pkt_init_receipt: the receiver's delivery receipt for a message. */
  method InitReceipt(ep: Endpoint, rx: OpEntry, pkt: PktEntry) returns (ret: int)
    modifies pkt
    ensures ret == 0
    ensures pkt.hdr == Receipt(RXR_PROTOCOL_VERSION, rx.txId, rx.msgId, Some(ep.qkey))
    ensures pkt.pktSize == RECEIPT_HDR_SIZE && pkt.addr == rx.addr && pkt.xOp == rx
    ensures pkt.xRead == null && pkt.rnrRetransmit == old(pkt.rnrRetransmit)
  {
    pkt.hdr := Receipt(RXR_PROTOCOL_VERSION, rx.txId, rx.msgId, Some(ep.qkey));
    pkt.pktSize := RECEIPT_HDR_SIZE;
    pkt.addr := rx.addr;
    pkt.xOp, pkt.xRead := rx, null;
    return 0;
  }

  /** rxr_pkt_handle_receipt_send_completion: the receipt is out, so the RX
      entry is released. */
  method ReceiptSendCompletion(ep: Endpoint, pkt: PktEntry)
    requires pkt.xOp != null
    modifies ep`events
    ensures ep.events == old(ep.events) + [OpReleased(pkt.xOp)]
    ensures ep.longctsSendList == old(ep.longctsSendList)
  {
    ep.events := ep.events + [OpReleased(pkt.xOp)];
  }

  /** rxr_pkt_handle_receipt_recv: the sender learns that its message was
      delivered. A missing TX entry changes nothing (and the packet is not
      released). Otherwise the receipt is marked; a long-CTS send completes
      only if every byte is already acknowledged (else the last data
      acknowledgement completes it), any other send completes now; the
      packet is released. */
  method ReceiptRecv(ep: Endpoint, pkt: PktEntry, tx: OpEntry?)
    requires pkt.hdr.Receipt?
    modifies ep`events, OpSet(tx)`receiptReceived
    ensures tx == null ==> ep.events == old(ep.events)
    ensures tx != null ==>
      && tx.receiptReceived
      && ep.events == old(ep.events)
         + (if !tx.longctsProtocol || tx.totalLen == tx.bytesAcked then [SendCompletionHandled(tx)] else [])
         + [PktReleased(pkt)]
      && tx.bytesAcked == old(tx.bytesAcked) && tx.totalLen == old(tx.totalLen)
      && tx.longctsProtocol == old(tx.longctsProtocol)
  {
    if tx == null {
      return;
    }
    tx.receiptReceived := true;
    if tx.longctsProtocol {
      if tx.totalLen == tx.bytesAcked {
        ep.events := ep.events + [SendCompletionHandled(tx)];
      }
    } else {
      ep.events := ep.events + [SendCompletionHandled(tx)];
    }
    ep.events := ep.events + [PktReleased(pkt)];
  }
}
