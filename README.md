# EFA provider core: a Dafny model

This project models four pieces of libfabric's EFA provider and of its shared
network header, and proves properties of them.

- **Hmem** (`hmem.dfy`) is the per-memory-kind capability table a domain keeps
  (`efa_hmem.c`). It covers:
  - the eager-capacity formula;
  - the protocol-threshold rows of host, CUDA, Neuron and SynapseAI memory, with
    the provider parameters that override them;
  - the four initialisers and their device probes;
  - `efa_hmem_info_init_all`;
  - the validator of the P2P endpoint option.

  The table is an array owned by an `EfaDomain` object, and each initialiser is
  a method proved against a function that states the new slot.
- **HmemCopy** (`hmem_copy.dfy`) holds the two bounds-checked copies between a
  descriptor-tagged IOV and a flat buffer:
  - `efa_copy_from_hmem_iov`, the gather;
  - `efa_copy_to_hmem_iov`, the scatter.

  Both are loops over arrays, specified by functions of the segments. It also
  holds the gather/scatter round trip.
- **StagingBuffers** (`byte_queue.dfy`) holds `ofi_byteq`, the fixed 9000-byte
  staging queue with `head`/`tail`/`size`, and `ofi_bsock`, which pairs two of
  them (`ofi_net.h`).
- **NetAddr** (`net_addr.dfy`) holds the socket-address helpers of `ofi_net.h`:
  - `htonll`/`ntohll`;
  - the family, size and format tables;
  - wildcard detection;
  - port get and set, including the InfiniBand service-id packing;
  - destination validity and address equality.
- **RxrState** (`rxr_state.dfy`) holds the records the RxR protocol layer
  updates in place: peers, packet entries, operation entries, read entries and
  the endpoint with its pending lists. What the endpoint does through
  collaborators outside the model is kept, in order, in the endpoint's `events`
  log. These collaborators are CQ, EQ and counter writes, posting and releasing
  packets, and releasing entries.
- **RxrCq** (`rxr_cq.dfy`) covers `rxr_cq.c`:
  - the receiver-not-ready backoff state machine;
  - the once-only completion protocol built on the `RXR_NO_COMPLETION` flag;
  - truncation reporting for receives;
  - the attribute checks of `rxr_cq_open`.
- **PktMisc** (`pkt_misc.dfy`) covers the control packets of
  `rxr_pkt_type_misc.c`: HANDSHAKE, CTS, READRSP, RMA context, EOR and RECEIPT.
  Each `Init*` method fills the packet's header record. Each handler updates the
  entries and lists the source updates and appends its collaborator effects to
  the event log.

Device, accelerator and verbs calls become inputs:
- allocation succeeds or fails;
- memory registration succeeds or fails;
- the return code of deregistration;
- whether the runtime is initialised.

Provider parameters are optional values. The clock and `rand()` are parameters.
So are the return codes of CQ writes, packet sends and EOR posts. The host's
byte order is a parameter of the address helpers.

`efa_copy_to_hmem_iov` returns `buff_size` whenever the source runs out
before the segments are full, and returns `-FI_ETRUNC` only when the
segments' capacity runs out first (efa_hmem.c:473-495).
`HmemCopy.CopyToHmemIov` states this.

## Model

| member | source | states |
|---|---|---|
| Hmem.EagerMtu | prov/efa/src/efa_hmem.c:36-43 | The MTU is at most the device's largest message and at most RXR_MTU_MAX_LIMIT. It is at most the environment MTU when that is positive. It is the device's largest message, the limit, or a positive environment MTU, so it is the minimum of those. |
| Hmem.MaxEagerMsgSize | prov/efa/src/efa_hmem.c:35-50 | The eager capacity is 0 without CUDA and Neuron support. Otherwise it plus the largest header equals the MTU. When the header exceeds the MTU it is the size_t wrap-around of the difference. |
| Hmem.ProtocolThresholds | prov/efa/src/efa_hmem.c:53-86 | Setting the thresholds never touches the four P2P and initialised flags. ROCr and Ze, which have no row, are left unchanged. |
| Hmem.DefaultThresholds | prov/efa/src/efa_hmem.c:53-86 | Each threshold whose parameter is unset keeps its row's default, whatever the other parameters say. Host: runt 0 and the three EFA_DEFAULT_INTER_* sizes. CUDA and Neuron: the default runt size and eager capacity + 1 for both read sizes. SynapseAI: 0 / 0 / 1 / 1 always. |
| Hmem.ThresholdOverrides | prov/efa/src/efa_hmem.c:55-79 | A set parameter replaces each of the four host thresholds. For CUDA and Neuron it replaces runt and the two read sizes, and the medium size stays 0. SynapseAI's row does not depend on the parameters at all. |
| Hmem.EagerCapacityExample | prov/efa/src/efa_hmem.c:36-46 | With a 9000-byte MTU and a 100-byte largest header, CUDA and Neuron switch to the read protocols at 8901 bytes. |
| Hmem.CudaProbeOutcomes | prov/efa/src/efa_hmem.c:126-171 | An allocation failure returns -FI_ENOMEM and leaves the slot marked initialised. A registration failure reports no device P2P support and gives exactly the host thresholds, overrides included. Full success requires P2P unless copies through the CUDA API are enabled, and gives the CUDA row. |
| Hmem.NeuronProbeOutcomes | prov/efa/src/efa_hmem.c:204-250 | P2P is always required. A registration failure leaves the thresholds as they were, which is zero after the table's memset. A failed deregistration returns its code. |
| Hmem.ValidateP2pTransitions | prov/efa/src/efa_hmem.c:321-359 | The whole transition table of the P2P option: <br>- an uninitialised slot gives -FI_ENODATA, and an unknown option gives -FI_EINVAL;<br>- REQUIRED fails exactly when the device lacks P2P, and DISABLED exactly when the implementation requires it;<br>- PREFERRED and ENABLED always succeed;<br>- a failure changes nothing;<br>- a success sets only the user-disabled flag, to true exactly for DISABLED. |
| Hmem.ValidateKeepsRequiredEnabled | prov/efa/src/efa_hmem.c:345-355 | A slot that requires P2P can never become disabled by the user. |
| Hmem.LastErrorIsLastNonzero | prov/efa/src/efa_hmem.c:383-413 | The folded return code is 0 exactly when every code is 0. Otherwise it is a code after which every code is 0. |
| Hmem.InitAllOutcome | prov/efa/src/efa_hmem.c:372-414 | After init_all, the host slot is initialised and P2P-capable, and the unsupported kinds stay zeroed. The result is Neuron's error if Neuron failed, otherwise CUDA's. |
| Hmem.LastErrorOfFour | prov/efa/src/efa_hmem.c:383-413 | With host and SynapseAI never failing, the last nonzero of the four codes is Neuron's if nonzero, else CUDA's. |
| Hmem.EfaDomain.constructor | prov/efa/src/efa_hmem.c:381 | The table starts with every slot zeroed and no probe resources held. |
| Hmem.EfaDomain.InitProtocolThresholds | prov/efa/src/efa_hmem.c:53-86 | Only the named slot changes, and it gets the row of the given kind. |
| Hmem.EfaDomain.InitSystem | prov/efa/src/efa_hmem.c:94-102 | The host slot becomes SystemInit of its old value, and every other slot is unchanged. |
| Hmem.EfaDomain.InitCuda | prov/efa/src/efa_hmem.c:111-178 | The CUDA slot and the return code are CudaInit of the old slot, and the other slots are unchanged. The test buffer is freed on every path. A registration is left held only when deregistration fails. |
| Hmem.EfaDomain.InitNeuron | prov/efa/src/efa_hmem.c:187-257 | The Neuron slot and the return code are NeuronInit of the old slot, and the other slots are unchanged. The test buffer is always freed. A nonzero result is the deregistration's code, and only then is a registration left held. |
| Hmem.EfaDomain.InitSynapseAI | prov/efa/src/efa_hmem.c:265-305 | The SynapseAI slot and the return code are SynapseAIInit of the old slot, and the other slots are unchanged. |
| Hmem.EfaDomain.ValidateP2pOpt | prov/efa/src/efa_hmem.c:321-359 | The return code and the new table are those of ValidateP2p applied to the option's slot, and only that slot can change. |
| Hmem.EfaDomain.InitAll | prov/efa/src/efa_hmem.c:372-414 | Without a device, the result is -FI_ENODEV and the table is untouched. Otherwise the table and the code are those of InitAllSpec: zeroed, then host, CUDA, Neuron and SynapseAI in order, returning the last nonzero code. No test buffer leaks. A registration stays held only when the CUDA deregistration fails or the Neuron probe returns nonzero. |
| HmemCopy.SegmentPeer | prov/efa/src/efa_hmem.c:435-441 | A segment without a descriptor is copied as host memory on device 0. Otherwise it uses its descriptor's kind and device. |
| HmemCopy.CopyFromHmem | prov/efa/src/efa_hmem.c:444-446 | The segment lands at the given offset, and every other byte of the buffer is kept. |
| HmemCopy.CopyToHmem | prov/efa/src/efa_hmem.c:487 | The first `size` source bytes land at the start of the segment, and the rest of the segment is kept. |
| HmemCopy.RunningTotal | prov/efa/src/efa_hmem.c:443 | The running total after segment k is the length of segments 0..k. |
| HmemCopy.AcceptedFrom | prov/efa/src/efa_hmem.c:434-453 | The gather copies the longest run of segments whose running totals pass the bound check, and stops at the first one that fails it. |
| HmemCopy.GatherSucceedsIff | prov/efa/src/efa_hmem.c:434-453 | Every segment is accepted exactly when the IOV is empty or its total length passes the bound check. |
| HmemCopy.ExactFitRejected | prov/efa/src/efa_hmem.c:443 | A segment that exactly fills the buffer is rejected by the strict check and accepted by the inclusive one. |
| HmemCopy.AcceptedStep | prov/efa/src/efa_hmem.c:443-450 | Segment i either passes the bound check and the scan goes on past it, or it is the first segment refused. |
| HmemCopy.CopySegment | prov/efa/src/efa_hmem.c:443-446 | Copying an accepted segment extends the gathered bytes by exactly that segment, and the buffer bytes after it keep their old values. |
| HmemCopy.Gather | prov/efa/src/efa_hmem.c:426-454 | The buffer holds the accepted segments end to end, followed by its old bytes. The result is their total length, or -FI_ETRUNC when a segment was refused. |
| HmemCopy.CopyFromHmemIov | prov/efa/src/efa_hmem.c:426-454 | The gather as written. It fails with -FI_ETRUNC exactly when the IOV is non-empty and its total is not strictly below buff_size, and it copies the accepted prefix. |
| HmemCopy.CopyFromHmemIovInclusive | prov/efa/src/efa_hmem.c:443-453 | The corrected gather. It fails exactly when the IOV is larger than the buffer. On success it returns the IOV's length, with the whole IOV copied to the start of the buffer. |
| HmemCopy.Received | prov/efa/src/efa_hmem.c:482-485 | A segment receives at most its capacity and at most what is left of the source, and exactly the smaller of the two. |
| HmemCopy.ShareStart | prov/efa/src/efa_hmem.c:487 | A segment's share starts at 0 as written, and its end never passes buff_size. |
| HmemCopy.Share | prov/efa/src/efa_hmem.c:482-488 | A segment after the scatter keeps its length. |
| HmemCopy.ScatterAsWritten | prov/efa/src/efa_hmem.c:473-495 | As written, every segment receives the first bytes of the source, as many as it receives, and keeps the rest. |
| HmemCopy.Scatter | prov/efa/src/efa_hmem.c:473-495 | The corrected scatter keeps the number and length of the segments. Segment k receives its Received share of the source, starting where the shares of the segments before it end, and keeps the rest of its old bytes. |
| HmemCopy.ReceivedNothingAfter | prov/efa/src/efa_hmem.c:473 | Once the source is used up, later segments receive nothing. |
| HmemCopy.ShareOfNothing | prov/efa/src/efa_hmem.c:482-487 | A segment that receives no bytes keeps its old contents. |
| HmemCopy.RemainingAtExit | prov/efa/src/efa_hmem.c:491-495 | Source bytes are left over at loop exit exactly when the segments' capacities add up to less than buff_size. |
| HmemCopy.CopyShare | prov/efa/src/efa_hmem.c:482-488 | One loop round copies the segment's share, which is never more than what is left. |
| HmemCopy.ScatterRound | prov/efa/src/efa_hmem.c:474-488 | One loop round changes segment i only: it receives its share, and every other segment is unchanged. |
| HmemCopy.ScatterLoop | prov/efa/src/efa_hmem.c:466-496 | The result is -FI_ETRUNC exactly when the total capacity is below buff_size, else buff_size. Every segment ends up holding its share. |
| HmemCopy.CopyToHmemIov | prov/efa/src/efa_hmem.c:466-496 | The scatter as written: the result is as above, and the segments become ScatterAsWritten of their old contents. |
| HmemCopy.CopyToHmemIovAdvancing | prov/efa/src/efa_hmem.c:466-496 | The corrected scatter: the result is as above, and the segments become Scatter of their old contents. |
| HmemCopy.GatherScatterRoundTrip | prov/efa/src/efa_hmem.c:426-496 | Scattering the gathered bytes of some segments, with the corrected scatter, into segments of the same sizes gives back those segments. |
| HmemCopy.ShareOfFlatten | prov/efa/src/efa_hmem.c:482-488 | In the corrected scatter of gathered bytes, segment k's share is exactly segment k. |
| HmemCopy.ScatterAsWrittenRepeatsSource | prov/efa/src/efa_hmem.c:487 | Two one-byte segments scattered from [1, 2] become [1], [1] as written, and [1], [2] corrected. |
| HmemCopy.OneByteShares | prov/efa/src/efa_hmem.c:482-487 | From the source [1, 2], two one-byte segments both receive 1 as written; corrected, the first receives 1 and the second 2. |
| StagingBuffers.ClampedSize | include/ofi_net.h:332-341 | The size is the request clamped into [0, 9000]. |
| StagingBuffers.ByteQueue.constructor | include/ofi_net.h:332-341 | A new queue is empty and zero-filled, with head = tail = 0 and the clamped size. |
| StagingBuffers.ByteQueue.Discard | include/ofi_net.h:343-347 | The queue becomes empty with both indices at 0, and the size is kept. |
| StagingBuffers.ByteQueue.Readable | include/ofi_net.h:349-352 | The number of queued bytes, never above the size. |
| StagingBuffers.ByteQueue.Writeable | include/ofi_net.h:354-357 | The free room behind the tail, so that tail + writeable = size. |
| StagingBuffers.ByteQueue.Consume | include/ofi_net.h:359-365 | The oldest `bytes` bytes are dropped and the invariant is kept. Consuming everything rewinds both indices. Any other amount advances only head. |
| StagingBuffers.ByteQueue.Add | include/ofi_net.h:367-370 | The bytes placed after the tail join the queue behind the queued bytes. |
| StagingBuffers.ByteQueue.Read | include/ofi_net.h:372-390 | It returns min(len, readable) and copies out exactly the oldest bytes in order, leaving the rest of the buffer alone. Those bytes leave the queue. A drain rewinds both indices; otherwise only head advances. |
| StagingBuffers.ByteQueue.CopyOut | include/ofi_net.h:382-387 | The copy out of the queue's storage. |
| StagingBuffers.ByteQueue.Write | include/ofi_net.h:392-398 | The written bytes are appended behind the queued bytes (first in, first out), and the invariant is kept. |
| StagingBuffers.BufferedSocket.constructor | include/ofi_net.h:422-437 | There is no socket, and both queues are empty and sized from the requests. Zero-copy is off at SIZE_MAX. Both async indices are one below 0 modulo 2^32. |
| StagingBuffers.BufferedSocket.Discard | include/ofi_net.h:439-443 | Both queues are emptied, and their sizes are kept. |
| StagingBuffers.BufferedSocket.Readable | include/ofi_net.h:445-448 | The bytes waiting in the receive queue. |
| StagingBuffers.BufferedSocket.ToSend | include/ofi_net.h:450-453 | The bytes waiting in the send queue. |
| NetAddr.Bswap16 | include/ofi_net.h:659-661 | The two bytes trade places. |
| NetAddr.Bswap64 | include/ofi_net.h:85-88 | Byte k of the result is byte 7 - k of the value, for each of the eight bytes. |
| NetAddr.Bswap16Involution | include/ofi_net.h:659-679 | Swapping twice gives the value back. |
| NetAddr.Bswap64Involution | include/ofi_net.h:85-88 | Swapping twice gives the value back. |
| NetAddr.Htons | include/ofi_net.h:676-679 | A host store of the result lays the port out in network order: high byte first. |
| NetAddr.Ntohs | include/ofi_net.h:659-661 | The result is the value the field's bytes mean when read in network order. |
| NetAddr.NetworkBytes16 | include/ofi_net.h:659-679 | Network order puts the high byte first. |
| NetAddr.Htonll | include/ofi_net.h:83-97 | A byte swap on a little-endian host, the identity on a big-endian one. |
| NetAddr.Ntohll | include/ofi_net.h:83-97 | A byte swap on a little-endian host, the identity on a big-endian one. |
| NetAddr.HostNetworkRoundTrip64 | include/ofi_net.h:83-97 | ntohll(htonll(x)) = x and htonll(ntohll(x)) = x on either kind of host. |
| NetAddr.HostNetworkRoundTrip16 | include/ofi_net.h:659-679 | ntohs(htons(x)) = x on either kind of host. |
| NetAddr.Family | include/ofi_net.h:538-551 | The family field matches the address's layout. |
| NetAddr.SizeofAddr | include/ofi_net.h:538-551 | 16, 28 or 48 bytes for IPv4, IPv6 and InfiniBand, and 0 exactly for an unknown family. |
| NetAddr.IpBytes | include/ofi_net.h:553-566 | The address bytes of each family, and none for an unknown family. |
| NetAddr.SizeofIp | include/ofi_net.h:553-566 | The length of the address bytes: 4 for IPv4, 16 for IPv6 and InfiniBand. |
| NetAddr.TranslateAddrFormat | include/ofi_net.h:568-580 | Each known family maps to its format and back (both directions), and every other family maps to FI_FORMAT_UNSPEC. |
| NetAddr.SizeofAddrFormat | include/ofi_net.h:582-597 | 0 exactly for an unknown format. The generic sockaddr format gets the size of the union of all families. |
| NetAddr.SizeTablesAgree | include/ofi_net.h:538-597 | An address's size is the size of its family's format, and the generic format has room for every family. |
| NetAddr.GetPort | include/ofi_net.h:652-668 | 0 for NULL or an unknown family. The host-order port for IPv4 and IPv6. |
| NetAddr.Low16 | include/ofi_net.h:663 | The cast to uint16_t keeps the low 16 bits. |
| NetAddr.WithPort | include/ofi_net.h:670-690 | Setting a port keeps the family and the address bytes, and for IPv4 the padding. |
| NetAddr.SockAddrBuffer.constructor | include/ofi_net.h:670 | The buffer holds the given address. |
| NetAddr.SockAddrBuffer.SetPort | include/ofi_net.h:670-690 | The buffer's address becomes WithPort of the old one. |
| NetAddr.GetSetPortIp | include/ofi_net.h:652-690 | For IPv4 and IPv6, getting the port after setting it returns that port, and the stored field is htons(port). |
| NetAddr.GetSetPortIb | include/ofi_net.h:652-690 | For InfiniBand, get after set returns ntohs(port). The stored mask covers the whole service id, whose upper bits are the IB port space. |
| NetAddr.IbFieldsAfterSetPort | include/ofi_net.h:681-685 | The host-order service id is (PS_IB << 16) + ntohs(port), and the host-order mask is all ones. |
| NetAddr.LowPortBits | include/ofi_net.h:663-683 | The packing keeps the port in the low 16 bits and the port space above them. |
| NetAddr.IbPortRoundTripSwapsBytes | include/ofi_net.h:683 | On a little-endian host, InfiniBand port 0x1234 reads back as 0x3412. |
| NetAddr.WithPortHostOrder | include/ofi_net.h:670-690 | The corrected setter keeps the family and address, and differs from the original only for InfiniBand. |
| NetAddr.GetSetPortHostOrder | include/ofi_net.h:652-690 | With the corrected setter, get after set returns the port for every known family on either kind of host. |
| NetAddr.ValidDestIsKnownFamily | include/ofi_net.h:706-714 | A valid destination is of a known family and has a nonzero address byte. |
| NetAddr.EqualsSockAddrIsEquivalence | include/ofi_net.h:716-742 | Socket-address equality is reflexive exactly on known families, and it is symmetric and transitive. |
| NetAddr.SetPortKeepsIpAddr | include/ofi_net.h:716-742 | Setting a port keeps IP-address equality, and it makes the address equal to any same-address socket address carrying that port. |
| NetAddr.IsAnyAddr | include/ofi_net.h:634-650 | False for NULL and an unknown family. For IPv4, IPv6 and InfiniBand, true exactly when every address byte is zero. |
| NetAddr.ValidDestIpAddr | include/ofi_net.h:706-714 | Never for an unknown family. IPv4: a nonzero port field, a nonzero address and an all-zero padding. IPv6: a nonzero port and address. InfiniBand: a nonzero low half of the service id and a nonzero address. |
| NetAddr.EqualsIpAddr | include/ofi_net.h:716-735 | Only addresses of the same known family are equal, and then exactly when their address bytes are. |
| NetAddr.EqualsSockAddr | include/ofi_net.h:737-742 | Equal socket addresses are equal IP addresses. For IPv4 and IPv6, equal exactly when the port fields and the address bytes are; for InfiniBand, when the ports read from the service ids and the addresses are. |
| NetAddr.NtohsInjective | include/ofi_net.h:659-661 | Ports read through ntohs agree exactly when the fields do. |
| RxrCq.NextBackoffWait | prov/efa/src/rxr/rxr_cq.c:343-358 | A first wait is the environment's initial wait when positive, else a random value in [40, 120). A later wait doubles, capped. |
| RxrCq.BackoffDoubling | prov/efa/src/rxr/rxr_cq.c:343-358 | From a nonzero wait, k further entries into backoff give min(w * 2^k, cap). |
| RxrCq.QueueRnrPkt | prov/efa/src/rxr/rxr_cq.c:302-365 | The packet is always appended to the list and marked for retransmission. <br>- A first RNR only counts the packet against the peer.<br>- A repeat RNR while the peer is in backoff only restarts the backoff clock.<br>- Otherwise the peer enters backoff, joins the backoff list and gets the next wait time.<br>Nothing else changes: the frame names only the list, the packet's retransmit flag, the peer's four RNR fields and the backoff list. |
| RxrCq.TxCompletionStep | prov/efa/src/rxr/rxr_cq.c:736-816 | A completion is written exactly when one is needed (never after the completion flag is set) and the CQ write succeeds. The flag is set on every path except a failed CQ write. |
| RxrCq.NeedTxCompletion | prov/efa/src/rxr/rxr_cq.c:736-754 | Never once RXR_NO_COMPLETION is set. Otherwise always when the operation asked for FI_COMPLETION, or when the CQ was bound without selective completion; in no other case. |
| RxrCq.TxCompletionAtMostOnce | prov/efa/src/rxr/rxr_cq.c:736-816 | Over any number of calls and CQ write results, an operation gets at most one TX completion, and none once the flag is set. It gets exactly one when it needs one and the first write succeeds. |
| RxrCq.TxCompletionEvents | prov/efa/src/rxr/rxr_cq.c:763-816 | The completion is written exactly when it is needed and the write succeeds. The counter is reported exactly when no completion is needed or the write succeeds. |
| RxrCq.WriteTxCompletion | prov/efa/src/rxr/rxr_cq.c:763-816 | The flag and the written completion are TxCompletionStep of the old state. The effects are TxCompletionEvents. |
| RxrCq.WriteRxCompletion | prov/efa/src/rxr/rxr_cq.c:367-449 | A short receive buffer reports a truncation error with overflow total_len - cq len, and no normal completion. A cancelled or unneeded completion only reports the counter. Otherwise a completion is written. The truncation error and its counter are reported, and the flag set, only after a successful CQ write. |
| RxrCq.CqOpen | prov/efa/src/rxr/rxr_cq.c:892-924 | A wait object is rejected with -FI_ENOSYS, and an allocation failure gives -FI_ENOMEM. Otherwise the size is raised to at least the domain's CQ size and the initialisation's code is returned. The size never shrinks. |
| PktMisc.CounterCompletesOnce | prov/efa/src/rxr/rxr_pkt_type_misc.c:412-415 | A byte counter fed positive segments and never pushed above its total reaches the total (fires its completion) exactly once if the segments add up to what is missing, and never otherwise. |
| PktMisc.InitHandshake | prov/efa/src/rxr/rxr_pkt_type_misc.c:53-86 | The header carries the first nex extra-information words, nextra_p3 = (N-1)/64 + 4 and the connection id. The size is the header plus 8 per word plus the connection-id header. |
| PktMisc.PostResult | prov/efa/src/rxr/rxr_pkt_type_misc.c:94-115 | The result is -FI_EAGAIN without a packet, else the send's result. |
| PktMisc.PostHandshake | prov/efa/src/rxr/rxr_pkt_type_misc.c:94-115 | The result is PostResult. With a packet, exactly one handshake to the peer is either sent or, when the send fails, released. |
| PktMisc.HandshakeStep | prov/efa/src/rxr/rxr_pkt_type_misc.c:141-166 | Nothing is attempted once sent or queued. -FI_EAGAIN sets queued, another error sets no flag, and success sets sent. A handshake goes out exactly on success from the fresh state. |
| PktMisc.HandshakeAtMostOnce | prov/efa/src/rxr/rxr_pkt_type_misc.c:141-166 | Over any number of attempts, at most one handshake goes out to a peer, and none once it is sent or queued. Exactly one goes out when the first attempt succeeds. |
| PktMisc.PostHandshakeOrQueue | prov/efa/src/rxr/rxr_pkt_type_misc.c:141-166 | The peer's flags become HandshakeStep of the old flags, and a handshake is sent exactly when the step says so. Only -FI_EAGAIN appends the peer to the queued list. Another error writes FI_EIO to the event queue. Nothing else changes: the frame names only the events, the queued list and the peer's two handshake flags. |
| PktMisc.ReceivedExtraInfo | prov/efa/src/rxr/rxr_pkt_type_misc.c:185-188 | The first nextra_p3 - 3 words are the packet's, and the rest are kept. |
| PktMisc.HandshakeRecv | prov/efa/src/rxr/rxr_pkt_type_misc.c:168-193 | The peer records nextra_p3 and the words and is marked received, and the packet is released. Nothing else of the peer or the endpoint changes. |
| PktMisc.HandshakeDeliversExtraInfo | prov/efa/src/rxr/rxr_pkt_type_misc.c:66-188 | The receiver copies nextra_p3 - 3 = nex words, which are exactly the sender's first nex words. |
| PktMisc.CtsRecvLength | prov/efa/src/rxr/rxr_pkt_type_misc.c:217-220 | The granted length is the smaller of what is left and the credit. |
| PktMisc.InitCts | prov/efa/src/rxr/rxr_pkt_type_misc.c:196-241 | The read-request flag is set exactly when the operation is a read. The ids are swapped between TX and RX entries. The granted length is CtsRecvLength. The packet's context is the operation alone. |
| PktMisc.CtsSent | prov/efa/src/rxr/rxr_pkt_type_misc.c:243-250 | The window becomes the granted length, and nothing else changes. |
| PktMisc.CtsRecv | prov/efa/src/rxr/rxr_pkt_type_misc.c:252-271 | The data sender learns the receiver's id and sets its window to the granted length. It joins the long-CTS list only when its state changes into TX_SEND. No other field of the entry or the endpoint changes. |
| PktMisc.CtsWindowBounded | prov/efa/src/rxr/rxr_pkt_type_misc.c:217-228 | A granted length is positive and never exceeds what is left of the message. |
| PktMisc.ReadrspSegLength | prov/efa/src/rxr/rxr_pkt_type_misc.c:289-290 | The segment is min(mtu - header, total_len), never more than the message. |
| PktMisc.InitReadrsp | prov/efa/src/rxr/rxr_pkt_type_misc.c:274-295 | The response carries the ids and the first segment's length, and its result is the data fill's. The packet's context is the RX entry alone. |
| PktMisc.ReadrspSent | prov/efa/src/rxr/rxr_pkt_type_misc.c:297-322 | bytes_sent grows and the window shrinks by the segment. The entry is re-queued in TX_SEND exactly while bytes_sent < total_len. Nothing else changes. |
| PktMisc.ReadrspSendCompletion | prov/efa/src/rxr/rxr_pkt_type_misc.c:324-337 | bytes_acked grows by the segment, and the send completes exactly when it reaches total_len. Nothing else changes. |
| PktMisc.ReadrspRecv | prov/efa/src/rxr/rxr_pkt_type_misc.c:339-354 | The reader learns the responder's id, and the segment goes to the data path at offset 0. |
| PktMisc.InitWriteContext | prov/efa/src/rxr/rxr_pkt_type_misc.c:362-373 | The context names the TX entry alone, and the packet's size, address and retransmit flag stay. |
| PktMisc.InitReadContext | prov/efa/src/rxr/rxr_pkt_type_misc.c:375-393 | The context names the read entry alone and the segment size, with the read's address and the context size. The retransmit flag stays. |
| PktMisc.LongReadRecvEvents | prov/efa/src/rxr/rxr_pkt_type_misc.c:425-445 | An EOR is always requested. The receive completes exactly when every byte is copied, and the queued copies are flushed exactly when the last ones are queued. The entry is released exactly when the EOR post fails. |
| PktMisc.FinishLongReadRecv | prov/efa/src/rxr/rxr_pkt_type_misc.c:425-445 | The EOR is marked in flight, and the bytes past the runt count as received and copied. The effects are LongReadRecvEvents, and nothing else changes. |
| PktMisc.ReadCompletionEvents | prov/efa/src/rxr/rxr_pkt_type_misc.c:396-455 | Every segment ends with a recorded TX operation, and an unfinished read reports nothing else. A finished read releases the read entry after finishing what it was for: a TX entry's completion and release, an RX entry's long-read receive, or a packet's copied data. |
| PktMisc.RmaReadCompletion | prov/efa/src/rxr/rxr_pkt_type_misc.c:396-455 | bytes_finished grows by the segment, and the effects are ReadCompletionEvents. An RX entry read for gets its EOR mark and counters when the read finishes, and an entry read for is untouched until then. A TX entry changes only its completion flag, and an RX entry only its EOR mark and its two counters. Nothing else changes. |
| PktMisc.FinishRead | prov/efa/src/rxr/rxr_pkt_type_misc.c:415-452 | The effects of finishing a read are ReadCompletionEvents without the final record. An RX entry gets its EOR mark and advances both counters by the bytes past the runt, and changes nothing else. A TX entry changes only its completion flag. |
| PktMisc.FinishReadForTx | prov/efa/src/rxr/rxr_pkt_type_misc.c:416-451 | A finished read for a TX entry completes and releases it, then releases the read entry. |
| PktMisc.FinishReadForPkt | prov/efa/src/rxr/rxr_pkt_type_misc.c:443-451 | A finished read for a packet hands the fetched payload on, then releases the read entry. |
| PktMisc.FinishReadForRx | prov/efa/src/rxr/rxr_pkt_type_misc.c:421-451 | A finished read for an RX entry completes the long-read receive, then releases the read entry. |
| PktMisc.RmaWriteCompletion | prov/efa/src/rxr/rxr_pkt_type_misc.c:468-476 | A write writes its TX completion when the entry asked for one, with exactly the events of the TX completion step (an error entry when the CQ write fails); otherwise it reports the TX counter. Either way the TX entry is then released. |
| PktMisc.RmaCompletion | prov/efa/src/rxr/rxr_pkt_type_misc.c:457-487 | A write completes its TX entry (a CQ entry if it asked for one, else the counter) and releases it. A read segment has exactly the effects of ReadCompletionEvents. Its RX entry gets its EOR mark and counters when the read finishes, and the entry is untouched until then. A TX entry changes only its completion flag, and an RX entry only its EOR mark and counters. The context packet is released in both cases. |
| PktMisc.InitEor | prov/efa/src/rxr/rxr_pkt_type_misc.c:490-506 | The EOR carries the sender's and receiver's ids, and its context is the RX entry alone. |
| PktMisc.EorSendCompletion | prov/efa/src/rxr/rxr_pkt_type_misc.c:508-521 | The RX entry is released exactly when all its bytes are copied. Otherwise only its EOR-in-flight mark is cleared. Nothing else changes. |
| PktMisc.EorRecv | prov/efa/src/rxr/rxr_pkt_type_misc.c:527-551 | One read message fewer is in flight, and the bytes past the runt count as acknowledged. The send completes and the entry is released exactly when bytes_acked reaches total_len. The packet is released, and nothing else changes. |
| PktMisc.InitReceipt | prov/efa/src/rxr/rxr_pkt_type_misc.c:554-573 | The receipt carries the TX id and the message id, and its context is the RX entry alone. |
| PktMisc.ReceiptSendCompletion | prov/efa/src/rxr/rxr_pkt_type_misc.c:580-587 | The RX entry is released, and only the events change. |
| PktMisc.ReceiptRecv | prov/efa/src/rxr/rxr_pkt_type_misc.c:664-697 | A missing TX entry changes nothing. Otherwise the receipt is marked and the packet is released. A long-CTS send completes only when every byte is acknowledged; any other send completes at once. Nothing else changes. |

## Left out

- Accelerator and verbs calls (buffer allocation, memory registration and deregistration, runtime queries, RDMA-read support, the device count) are inputs. The per-kind copy routines are plain byte copies.
- `fi_param_get_size_t` is an optional value. Environment parsing is not modelled.
- Socket and io_uring I/O, and the functions `ofi_net.h` only declares (vectored byte-queue I/O, buffered-socket send, receive and flush, address listing and formatting), are not part of this model.
- Only the transport effects of the CQ, EQ and counter writes, packet posting and release, and entry release are kept: they are recorded as events, with the return codes they produce passed in. Buffer-pool lookups by id are replaced by the entry they return, passed in.
- The receive-window functions of `rxr_cq.c` are not part of this model. They depend on a reorder buffer whose code is not part of this model.
- The atomic-response packet handlers of `rxr_pkt_type_misc.c` are not part of this model.
- `rxr_pkt_handle_receipt_sent` has an empty body and needs no member.
- The SRQ verbs file, the collective-operation declarations and the tracepoint definitions hold no logic modelled here.
- Logging, tracing and debug-only blocks are not modelled.
- Several values come from headers that are not part of this model, and are taken from libfabric's definitions:
  - the error numbers;
  - the `EFA_DEFAULT_*` sizes and `RXR_MTU_MAX_LIMIT`;
  - `RXR_RAND_MIN_TIMEOUT`/`RXR_RAND_MAX_TIMEOUT`;
  - the flag bits `FI_READ`, `FI_MULTI_RECV` and `FI_COMPLETION`;
  - the `fi_hmem_iface` order;
  - the wire-header sizes;
  - `RXR_NUM_EXTRA_FEATURE_OR_REQUEST` (5).
- The provider's private flag bits are one boolean field each, rather than bits of a flag word. This covers `RXR_NO_COMPLETION`, the peer and packet flags, and the receipt, EOR and long-CTS markers. Flags from libfabric's public API stay 64-bit words.
- Wire layout is not modelled. Headers are records; only the packet sizes the source computes are kept.
- HmemCopy.CopyToHmemIov: the segments must be distinct arrays. Aliased IOV segments are not modelled.
- HmemCopy.Gather: `iov_len` and `buff_size` are unbounded integers. The `size_t` arithmetic of the running total cannot wrap for buffers of realistic size, and is not modelled. A negative `buff_size`, which C converts to a huge `size_t` in the comparison, is excluded by the precondition; this holds for both copies.
- NetAddr.WithPort: an unknown family leaves the address unchanged. The source's assertion for that case is compiled out of release builds.
- RxrCq.WriteTxCompletion: the source's assertion that the entry is a TX entry is not modelled.
- Hmem.EagerMtu: the source holds the MTU in an `int` and assigns it the device's `size_t` maximum message size. A size above INT_MAX would be truncated there; the model computes with natural numbers.
- HmemCopy.CopyToHmemIov: `buff_size` and the per-segment `size` are `int` in the source, and `iov_len` is narrowed into `size`. The model uses unbounded integers, so a segment longer than INT_MAX is not truncated as it would be there. The same holds for HmemCopy.ScatterLoop.
- PktMisc.HandshakeRecv: the model requires `nextra_p3 >= 3` and at most as many words as the peer can hold. The source's memcpy checks neither, and a malformed handshake would make it copy out of bounds; that case is not modelled.
- PktMisc.FinishLongReadRecv: the runt must not exceed the total length, since the counters are natural numbers. The source's unsigned subtraction would wrap otherwise.
- PktMisc.RmaReadCompletion: the same bound on the runt of an RX entry read for, for the same reason.
- PktMisc.FinishLongReadRecv: when posting the EOR fails, the RX entry is released and then still updated and possibly completed, as in the source. The model records the release and the later updates in that order, with no notion of a freed entry.
- PktMisc.EorRecv: the counters are natural numbers, so the runt must not exceed the total length. The source's unsigned arithmetic would wrap otherwise.
- PktMisc.ReceiptRecv: with no TX entry for the packet, the packet is not released either, as in the source.
- PktMisc.InitReadrsp: filling the payload (`rxr_pkt_init_data_from_op_entry`) is not part of this model. Its return code is an input.
- The descriptor preparation (`rxr_prepare_desc_send`) done before the READRSP and CTS data exchanges is not part of this model.

## Findings

| source | as written | input that shows it | evidently intended | confidence | as-written member | corrected member |
|---|---|---|---|---|---|---|
| prov/efa/src/efa_hmem.c:443 | `data_size + iov_len < buff_size`, a strict bound | one segment of n > 0 bytes and buff_size = n: rejected with -FI_ETRUNC although it fits | accept a total equal to buff_size (`<=`), as the warning text says the IOV must not be larger than the buffer | not executed | HmemCopy.CopyFromHmemIov, HmemCopy.ExactFitRejected | HmemCopy.CopyFromHmemIovInclusive, HmemCopy.GatherSucceedsIff |
| prov/efa/src/efa_hmem.c:487 | every segment is copied from `buff`, never advanced | two one-byte segments, source [1, 2], buff_size 2: the segments become [1], [1] | copy each segment from `buff + (buff_size - bytes_remaining)` | not executed | HmemCopy.CopyToHmemIov, HmemCopy.ScatterAsWrittenRepeatsSource | HmemCopy.CopyToHmemIovAdvancing, HmemCopy.GatherScatterRoundTrip |
| include/ofi_net.h:683 | the InfiniBand service id stores `ntohs(port)`, a host-order port already | AF_IB address, port 0x1234, little-endian host: ofi_addr_get_port returns 0x3412 | store the host-order port itself, as the IPv4 and IPv6 branches do (via htons of the field) | not executed | NetAddr.WithPort, NetAddr.IbPortRoundTripSwapsBytes | NetAddr.WithPortHostOrder, NetAddr.GetSetPortHostOrder |
