/** Completion bookkeeping of the RxR layer (rxr_cq.c): the
    receiver-not-ready (RNR) backoff state machine, the once-only
    completion protocol built on the RXR_NO_COMPLETION bit, truncation
    reporting for receives, and the attribute checks of opening a CQ.

    The clock and rand() are parameters; completion-queue and counter
    writes are recorded as endpoint events, with the return code of a CQ
    write passed in. */
module RxrCq {
  import opened Common
  import opened RxrState

  /** Bounds of the random initial backoff wait, in microseconds. */
  const RXR_RAND_MIN_TIMEOUT: int := 40
  const RXR_RAND_MAX_TIMEOUT: int := 120

  // ---------------------------------------------------------------------
  // RNR backoff

  /** The wait time a peer gets when it (re-)enters backoff: a first wait
      from the environment or at random, then doubling up to the cap. */
  function NextBackoffWait(w: int, initialWait: int, randValue: nat, cap: int): (r: int)
    ensures w == 0 && initialWait > 0 ==> r == initialWait
    ensures w == 0 && initialWait <= 0 ==> RXR_RAND_MIN_TIMEOUT <= r < RXR_RAND_MAX_TIMEOUT
    ensures w != 0 ==> r <= cap && (r == cap || r == 2 * w)
    ensures w != 0 && 2 * w <= cap ==> r == 2 * w
  {
    if w == 0 then
      (if initialWait > 0 then initialWait
       else Max(RXR_RAND_MIN_TIMEOUT, randValue % RXR_RAND_MAX_TIMEOUT))
    else Min(w * 2, cap)
  }

  function Pow2(k: nat): (p: nat)
    ensures p >= 1
  {
    if k == 0 then 1 else 2 * Pow2(k - 1)
  }

  /** The wait time after `k` more backoff entries starting from `w`. */
  function WaitAfter(w: int, cap: int, k: nat): int
  {
    if k == 0 then w else NextBackoffWait(WaitAfter(w, cap, k - 1), 0, 0, cap)
  }

  /** From a nonzero wait, every further entry into backoff doubles the wait
      until it reaches the cap, and it stays there. */
  lemma {:induction false} BackoffDoubling(w: int, cap: int, k: nat)
    requires 0 < w && 0 < cap && k >= 1
    ensures WaitAfter(w, cap, k) == Min(w * Pow2(k), cap)
  {
    if k > 1 {
      BackoffDoubling(w, cap, k - 1);
      var p := Pow2(k - 1);
      DoubleProduct(w, p);
      assert WaitAfter(w, cap, k) == Min(2 * Min(w * p, cap), cap);
    }
  }

  lemma DoubleProduct(w: int, p: nat)
    ensures w * (2 * p) == 2 * (w * p)
  {
  }

  /** rxr_cq_queue_rnr_pkt: appends the packet to `list`. A packet's first
      RNR only marks it and counts it against the peer. A repeated RNR
      restarts the peer's backoff clock and, if the peer was not yet in
      backoff, puts it there with the next wait time. */
  method QueueRnrPkt(ep: Endpoint, list: PacketList, pkt: PktEntry, peer: Peer, now: nat, randValue: nat)
    modifies list`pkts, pkt`rnrRetransmit, ep`peerBackoffList
    modifies peer`rnrQueuedPktCnt, peer`inBackoff, peer`rnrBackoffBeginTs, peer`rnrBackoffWaitTime
    ensures list.pkts == old(list.pkts) + [pkt]
    ensures pkt.rnrRetransmit && pkt.hdr == old(pkt.hdr)
    ensures ep.events == old(ep.events) && ep.longctsSendList == old(ep.longctsSendList)
    ensures peer.handshakeSent == old(peer.handshakeSent) && peer.handshakeQueued == old(peer.handshakeQueued)
    ensures !old(pkt.rnrRetransmit) ==>
      && peer.rnrQueuedPktCnt == old(peer.rnrQueuedPktCnt) + 1
      && peer.inBackoff == old(peer.inBackoff)
      && peer.rnrBackoffBeginTs == old(peer.rnrBackoffBeginTs)
      && peer.rnrBackoffWaitTime == old(peer.rnrBackoffWaitTime)
      && ep.peerBackoffList == old(ep.peerBackoffList)
    ensures old(pkt.rnrRetransmit) ==>
      && peer.rnrQueuedPktCnt == old(peer.rnrQueuedPktCnt)
      && peer.inBackoff
      && peer.rnrBackoffBeginTs == now
    ensures old(pkt.rnrRetransmit) && old(peer.inBackoff) ==>
      && peer.rnrBackoffWaitTime == old(peer.rnrBackoffWaitTime)
      && ep.peerBackoffList == old(ep.peerBackoffList)
    ensures old(pkt.rnrRetransmit) && !old(peer.inBackoff) ==>
      && ep.peerBackoffList == old(ep.peerBackoffList) + [peer]
      && peer.rnrBackoffWaitTime == NextBackoffWait(old(peer.rnrBackoffWaitTime),
           ep.rnrBackoffInitialWaitTime, randValue, ep.rnrBackoffWaitTimeCap)
  {
    list.pkts := list.pkts + [pkt];
    if !pkt.rnrRetransmit {
      pkt.rnrRetransmit := true;
      peer.rnrQueuedPktCnt := peer.rnrQueuedPktCnt + 1;
      return;
    }
    if peer.inBackoff {
      peer.rnrBackoffBeginTs := now;
      return;
    }
    peer.inBackoff := true;
    ep.peerBackoffList := ep.peerBackoffList + [peer];
    peer.rnrBackoffBeginTs := now;
    if peer.rnrBackoffWaitTime == 0 {
      if ep.rnrBackoffInitialWaitTime > 0 {
        peer.rnrBackoffWaitTime := ep.rnrBackoffInitialWaitTime;
      } else {
        peer.rnrBackoffWaitTime := Max(RXR_RAND_MIN_TIMEOUT, randValue % RXR_RAND_MAX_TIMEOUT);
      }
    } else {
      peer.rnrBackoffWaitTime := Min(peer.rnrBackoffWaitTime * 2, ep.rnrBackoffWaitTimeCap);
    }
  }

  // ---------------------------------------------------------------------
  // TX completion

  /** rxr_cq_need_tx_completion: never once the completion is written;
      otherwise when the CQ was bound without selective completion (every
      operation completes), or the operation asked for one. */
  function NeedTxCompletion(noCompletion: bool, fiFlags: bv64, txMsgFlags: bv64): (r: bool)
    ensures noCompletion ==> !r
    ensures !noCompletion && fiFlags & FI_COMPLETION != 0 ==> r
    ensures !noCompletion && txMsgFlags == FI_COMPLETION ==> r
    ensures r ==> txMsgFlags == FI_COMPLETION || fiFlags & FI_COMPLETION != 0
  {
    !noCompletion && (txMsgFlags == FI_COMPLETION || fiFlags & FI_COMPLETION != 0)
  }

  /** The RXR_NO_COMPLETION bit after rxr_cq_write_tx_completion, and
      whether it wrote a completion: the bit is set on every path except a
      failed CQ write, and a completion is written only when one is needed
      and the write succeeds. */
  function TxCompletionStep(noCompletion: bool, fiFlags: bv64, txMsgFlags: bv64, cqWriteRet: int): (r: (bool, bool))
    ensures r.1 <==> NeedTxCompletion(noCompletion, fiFlags, txMsgFlags) && cqWriteRet == 0
    ensures r.0 <==> noCompletion || r.1 || !NeedTxCompletion(noCompletion, fiFlags, txMsgFlags)
    ensures r.1 ==> !noCompletion && r.0
  {
    if NeedTxCompletion(noCompletion, fiFlags, txMsgFlags) && cqWriteRet != 0 then (noCompletion, false)
    else (true, NeedTxCompletion(noCompletion, fiFlags, txMsgFlags))
  }

  /** The completions written by successive calls with the given CQ write
      results. */
  function CompletionsWritten(noCompletion: bool, fiFlags: bv64, txMsgFlags: bv64, rets: seq<int>): nat
    decreases |rets|
  {
    if rets == [] then 0
    else
      var step := TxCompletionStep(noCompletion, fiFlags, txMsgFlags, rets[0]);
      (if step.1 then 1 else 0) + CompletionsWritten(step.0, fiFlags, txMsgFlags, rets[1..])
  }

  /** However often it is called and whatever the CQ writes return, an
      operation gets at most one TX completion, none once its
      RXR_NO_COMPLETION bit is set, and exactly one when it needs one and
      the first write succeeds. */
  lemma {:induction false} TxCompletionAtMostOnce(noCompletion: bool, fiFlags: bv64, txMsgFlags: bv64, rets: seq<int>)
    ensures CompletionsWritten(noCompletion, fiFlags, txMsgFlags, rets) <= 1
    ensures noCompletion ==> CompletionsWritten(noCompletion, fiFlags, txMsgFlags, rets) == 0
    ensures rets != [] && rets[0] == 0 && NeedTxCompletion(noCompletion, fiFlags, txMsgFlags) ==>
      CompletionsWritten(noCompletion, fiFlags, txMsgFlags, rets) == 1
    decreases |rets|
  {
    if rets != [] {
      var step := TxCompletionStep(noCompletion, fiFlags, txMsgFlags, rets[0]);
      TxCompletionAtMostOnce(step.0, fiFlags, txMsgFlags, rets[1..]);
    }
  }

  /** What rxr_cq_write_tx_completion does through the CQ and the counter:
      the counter alone when no completion is needed, the error entry alone
      when the CQ write fails, otherwise the completion and the counter. */
  function TxCompletionEvents(tx: OpEntry, need: bool, cqWriteRet: int): (evs: seq<Event>)
    ensures TxCompletionWritten(tx) in evs <==> need && cqWriteRet == 0
    ensures TxCounterReported(tx) in evs <==> !need || cqWriteRet == 0
    ensures 1 <= |evs| <= 2
  {
    if !need then [TxCounterReported(tx)]
    else if cqWriteRet != 0 then [TxErrorWritten(tx, -cqWriteRet)]
    else [TxCompletionWritten(tx), TxCounterReported(tx)]
  }

  /** rxr_cq_write_tx_completion: writes the completion when one is needed
      (a failed write reports a TX error instead and returns early), then
      reports the counter and marks the completion written. */
  method WriteTxCompletion(ep: Endpoint, tx: OpEntry, cqWriteRet: int)
    modifies ep`events, tx`noCompletion
    ensures (tx.noCompletion, old(NeedTxCompletion(tx.noCompletion, tx.fiFlags, ep.txMsgFlags)) && cqWriteRet == 0)
            == TxCompletionStep(old(tx.noCompletion), old(tx.fiFlags), ep.txMsgFlags, cqWriteRet)
    ensures ep.events == old(ep.events) +
      TxCompletionEvents(tx, old(NeedTxCompletion(tx.noCompletion, tx.fiFlags, ep.txMsgFlags)), cqWriteRet)
  {
    if NeedTxCompletion(tx.noCompletion, tx.fiFlags, ep.txMsgFlags) {
      if cqWriteRet != 0 {
        ep.events := ep.events + [TxErrorWritten(tx, -cqWriteRet)];
        return;
      }
      ep.events := ep.events + [TxCompletionWritten(tx)];
    }
    ep.events := ep.events + [TxCounterReported(tx)];
    tx.noCompletion := true;
  }

  // ---------------------------------------------------------------------
  // RX completion

  /** rxr_cq_write_rx_completion. A receive whose buffer was shorter than
      the message reports a truncation error carrying the overflow length
      and no normal completion. Otherwise, unless cancelled, a completion is
      written when one is needed (`needCompletion` stands for
      ofi_need_completion on the endpoint's RX flags) or the buffer is a
      multi-receive one. The completion is marked written only after a
      successful CQ write. */
  method WriteRxCompletion(ep: Endpoint, rx: OpEntry, needCompletion: bool, cqWriteRet: int)
    modifies ep`events, rx`noCompletion
    ensures rx.cqLen < rx.totalLen ==>
      && ep.events == old(ep.events)
         + (if cqWriteRet == 0 then [RxTruncErrorWritten(rx, rx.totalLen - rx.cqLen), RxErrorCounterReported(rx)]
            else [])
      && rx.noCompletion == (cqWriteRet == 0 || old(rx.noCompletion))
    ensures rx.cqLen >= rx.totalLen && (rx.recvCancel || (!needCompletion && rx.cqFlags & FI_MULTI_RECV == 0)) ==>
      && ep.events == old(ep.events) + [RxCounterReported(rx)]
      && rx.noCompletion == old(rx.noCompletion)
    ensures rx.cqLen >= rx.totalLen && !rx.recvCancel && (needCompletion || rx.cqFlags & FI_MULTI_RECV != 0) ==>
      && ep.events == old(ep.events) +
           (if cqWriteRet == 0 then [RxCompletionWritten(rx), RxCounterReported(rx)]
            else [RxErrorWritten(rx, -cqWriteRet)])
      && rx.noCompletion == (cqWriteRet == 0 || old(rx.noCompletion))
  {
    if rx.cqLen < rx.totalLen {
      if cqWriteRet != 0 {
        return;
      }
      rx.noCompletion := true;
      ep.events := ep.events + [RxTruncErrorWritten(rx, rx.totalLen - rx.cqLen), RxErrorCounterReported(rx)];
      return;
    }
    if !rx.recvCancel && (needCompletion || rx.cqFlags & FI_MULTI_RECV != 0) {
      if cqWriteRet != 0 {
        ep.events := ep.events + [RxErrorWritten(rx, -cqWriteRet)];
        return;
      }
      ep.events := ep.events + [RxCompletionWritten(rx)];
      rx.noCompletion := true;
    }
    ep.events := ep.events + [RxCounterReported(rx)];
  }

  // ---------------------------------------------------------------------
  // Opening a CQ

  const FI_WAIT_NONE: int := 0

  /** The attributes the application passes to open a CQ. */
  class CqAttr {
    var waitObj: int
    var size: SizeT

    constructor (w: int, s: SizeT)
      ensures waitObj == w && size == s
    {
      waitObj := w;
      size := s;
    }
  }

  /** rxr_cq_open: only CQs without a wait object are supported; the
      requested size is raised to the domain's recommended CQ size. The
      allocation outcome and the generic initialisation's return code are
      inputs. */
  method CqOpen(attr: CqAttr, allocOk: bool, rdmCqSize: SizeT, initRet: int) returns (ret: int)
    modifies attr
    ensures attr.waitObj != FI_WAIT_NONE ==> ret == -FI_ENOSYS && attr.size == old(attr.size)
    ensures attr.waitObj == FI_WAIT_NONE && !allocOk ==> ret == -FI_ENOMEM && attr.size == old(attr.size)
    ensures attr.waitObj == FI_WAIT_NONE && allocOk ==>
      ret == initRet && attr.size == Max(rdmCqSize, old(attr.size))
    ensures attr.size >= old(attr.size) && attr.waitObj == old(attr.waitObj)
  {
    if attr.waitObj != FI_WAIT_NONE {
      return -FI_ENOSYS;
    }
    if !allocOk {
      return -FI_ENOMEM;
    }
    attr.size := Max(rdmCqSize, attr.size);
    ret := initRet;
  }
}
