/** The EFA provider's per-memory-kind capability table (efa_hmem.c): the
    protocol thresholds of each kind, the probes that fill the table once per
    domain, and the validator of the application's peer-to-peer (P2P) option.

    Device and accelerator calls (test-buffer allocation, memory registration
    and deregistration, runtime queries) are inputs of the model: an
    AccelProbe says how each of them turns out. */
module Hmem {
  import opened Common

  /** enum fi_hmem_iface, in declaration order; Index() is the table slot. */
  datatype HmemIface = System | Cuda | Rocr | Ze | Neuron | SynapseAI
  {
    function Index(): (i: nat)
      ensures i < OFI_HMEM_MAX
    {
      match this
      case System => 0
      case Cuda => 1
      case Rocr => 2
      case Ze => 3
      case Neuron => 4
      case SynapseAI => 5
    }
  }

  /** Number of slots of the per-domain table. */
  const OFI_HMEM_MAX: nat := 6

  // Provider defaults of the protocol thresholds, and the largest MTU the
  // protocol allows (EFA_DEFAULT_* and RXR_MTU_MAX_LIMIT).
  const EFA_DEFAULT_RUNT_SIZE: SizeT := 307200
  const EFA_DEFAULT_INTER_MAX_MEDIUM_MESSAGE_SIZE: SizeT := 65536
  const EFA_DEFAULT_INTER_MIN_READ_MESSAGE_SIZE: SizeT := 1048576
  const EFA_DEFAULT_INTER_MIN_READ_WRITE_SIZE: SizeT := 65536
  const RXR_MTU_MAX_LIMIT: nat := 32768

  // Values of the FI_OPT_FI_HMEM_P2P endpoint option.
  const FI_HMEM_P2P_ENABLED: int := 0
  const FI_HMEM_P2P_REQUIRED: int := 1
  const FI_HMEM_P2P_PREFERRED: int := 2
  const FI_HMEM_P2P_DISABLED: int := 3

  /** struct efa_hmem_info: one slot of the table. */
  datatype HmemInfo = HmemInfo(
    initialized: bool,
    p2pDisabledByUser: bool,
    p2pRequiredByImpl: bool,
    p2pSupportedByDevice: bool,
    runtSize: SizeT,
    maxMediumMsgSize: SizeT,
    minReadMsgSize: SizeT,
    minReadWriteSize: SizeT)

  /** A slot after the table's memset to zero. */
  const ZeroInfo: HmemInfo := HmemInfo(false, false, false, false, 0, 0, 0, 0)

  /** The four thresholds of a slot, in table order. */
  function Thresholds(info: HmemInfo): (SizeT, SizeT, SizeT, SizeT)
  {
    (info.runtSize, info.maxMediumMsgSize, info.minReadMsgSize, info.minReadWriteSize)
  }

  /** The provider parameters read with fi_param_get_size_t; None when unset. */
  datatype Params = Params(
    runtSize: Option<SizeT>,
    interMaxMediumMessageSize: Option<SizeT>,
    interMinReadMessageSize: Option<SizeT>,
    interMinReadWriteSize: Option<SizeT>)

  /** What the table depends on besides the probes: the compile-time
      accelerator support (HAVE_CUDA, HAVE_NEURON, HAVE_SYNAPSEAI), the
      device's largest message, the MTU asked for in the environment, the
      largest packet header (rxr_pkt_max_hdr_size), whether the device can
      do RDMA read, and the provider parameters. */
  datatype Config = Config(
    haveCuda: bool,
    haveNeuron: bool,
    haveSynapseAI: bool,
    deviceMaxMsgSize: nat,
    envMtuSize: int,
    maxHdrSize: nat,
    deviceRdmaRead: bool,
    params: Params)

  /** How one accelerator's probe turns out: whether its runtime is
      initialised, whether the test buffer is allocated and registered,
      what deregistration returns, and (CUDA only) whether the user enabled
      copies through the CUDA API, which lifts the P2P requirement. */
  datatype AccelProbe = AccelProbe(
    runtimeInitialized: bool,
    allocOk: bool,
    regOk: bool,
    deregRet: int,
    xferEnabled: bool)

  /** The MTU used for the eager capacity: the device's largest message,
      lowered to the environment's MTU when that is positive and smaller,
      and capped at RXR_MTU_MAX_LIMIT. */
  function EagerMtu(cfg: Config): (m: nat)
    ensures m <= cfg.deviceMaxMsgSize && m <= RXR_MTU_MAX_LIMIT
    ensures 0 < cfg.envMtuSize ==> m <= cfg.envMtuSize
    ensures m == cfg.deviceMaxMsgSize || m == RXR_MTU_MAX_LIMIT || (0 < cfg.envMtuSize && m == cfg.envMtuSize)
  {
    var m := if 0 < cfg.envMtuSize < cfg.deviceMaxMsgSize then cfg.envMtuSize else cfg.deviceMaxMsgSize;
    if m > RXR_MTU_MAX_LIMIT then RXR_MTU_MAX_LIMIT else m
  }

  /** efa_max_eager_msg_size_with_largest_header: the payload that fits in
      one packet after the largest header. The subtraction is done in size_t
      and wraps when the header exceeds the MTU; without CUDA and Neuron
      support the capacity is 0. */
  function MaxEagerMsgSize(cfg: Config): (r: SizeT)
    ensures !(cfg.haveCuda || cfg.haveNeuron) ==> r == 0
    ensures (cfg.haveCuda || cfg.haveNeuron) && cfg.maxHdrSize <= EagerMtu(cfg) ==>
              r + cfg.maxHdrSize == EagerMtu(cfg)
    ensures (cfg.haveCuda || cfg.haveNeuron) && EagerMtu(cfg) < cfg.maxHdrSize <= EagerMtu(cfg) + SIZE_MODULUS ==>
              r == SIZE_MODULUS + EagerMtu(cfg) - cfg.maxHdrSize
  {
    if cfg.haveCuda || cfg.haveNeuron then ToSize(EagerMtu(cfg) - cfg.maxHdrSize) else 0
  }

  /** efa_hmem_info_init_protocol_thresholds: sets the four thresholds of
      `info` as the table row of `iface` prescribes; a parameter that is set
      replaces the default of a threshold that the row lets the user
      override. Kinds without a row leave `info` as it is. */
  function ProtocolThresholds(info: HmemInfo, iface: HmemIface, cfg: Config): (r: HmemInfo)
    ensures r.initialized == info.initialized && r.p2pDisabledByUser == info.p2pDisabledByUser
    ensures r.p2pRequiredByImpl == info.p2pRequiredByImpl && r.p2pSupportedByDevice == info.p2pSupportedByDevice
    ensures iface !in {System, Cuda, Neuron, SynapseAI} ==> r == info
  {
    var p := cfg.params;
    match iface
    case System =>
      info.(runtSize := p.runtSize.GetOr(0),
            maxMediumMsgSize := p.interMaxMediumMessageSize.GetOr(EFA_DEFAULT_INTER_MAX_MEDIUM_MESSAGE_SIZE),
            minReadMsgSize := p.interMinReadMessageSize.GetOr(EFA_DEFAULT_INTER_MIN_READ_MESSAGE_SIZE),
            minReadWriteSize := p.interMinReadWriteSize.GetOr(EFA_DEFAULT_INTER_MIN_READ_WRITE_SIZE))
    case Cuda | Neuron =>
      var eagerPlusOne := ToSize(MaxEagerMsgSize(cfg) + 1);
      info.(runtSize := p.runtSize.GetOr(EFA_DEFAULT_RUNT_SIZE),
            maxMediumMsgSize := 0,
            minReadMsgSize := p.interMinReadMessageSize.GetOr(eagerPlusOne),
            minReadWriteSize := p.interMinReadWriteSize.GetOr(eagerPlusOne))
    case SynapseAI =>
      info.(runtSize := 0, maxMediumMsgSize := 0, minReadMsgSize := 1, minReadWriteSize := 1)
    case _ => info
  }

  /** A threshold whose parameter is not set takes its row's default,
      whatever the other parameters say: host memory runs without runt and
      with the EFA_DEFAULT_INTER_* sizes; CUDA and Neuron use the default
      runt size and start the read protocols one byte past the eager
      capacity, with the medium protocol off; SynapseAI always uses
      (0, 0, 1, 1). */
  lemma DefaultThresholds(info: HmemInfo, cfg: Config, k: HmemIface)
    requires k in {Cuda, Neuron}
    ensures var s := ProtocolThresholds(info, System, cfg);
      && (cfg.params.runtSize.None? ==> s.runtSize == 0)
      && (cfg.params.interMaxMediumMessageSize.None? ==> s.maxMediumMsgSize == EFA_DEFAULT_INTER_MAX_MEDIUM_MESSAGE_SIZE)
      && (cfg.params.interMinReadMessageSize.None? ==> s.minReadMsgSize == EFA_DEFAULT_INTER_MIN_READ_MESSAGE_SIZE)
      && (cfg.params.interMinReadWriteSize.None? ==> s.minReadWriteSize == EFA_DEFAULT_INTER_MIN_READ_WRITE_SIZE)
    ensures var a := ProtocolThresholds(info, k, cfg);
      && (cfg.params.runtSize.None? ==> a.runtSize == EFA_DEFAULT_RUNT_SIZE)
      && (cfg.params.interMinReadMessageSize.None? ==> a.minReadMsgSize == ToSize(MaxEagerMsgSize(cfg) + 1))
      && (cfg.params.interMinReadWriteSize.None? ==> a.minReadWriteSize == ToSize(MaxEagerMsgSize(cfg) + 1))
    ensures Thresholds(ProtocolThresholds(info, SynapseAI, cfg)) == (0, 0, 1, 1)
  {
  }

  /** Host memory lets each of the four thresholds be overridden; CUDA and
      Neuron let runt and the two read sizes be overridden but always
      disable the medium protocol; SynapseAI ignores every parameter. */
  lemma ThresholdOverrides(info: HmemInfo, cfg: Config, k: HmemIface)
    requires k in {Cuda, Neuron}
    ensures var s := ProtocolThresholds(info, System, cfg);
      && (cfg.params.runtSize.Some? ==> s.runtSize == cfg.params.runtSize.value)
      && (cfg.params.interMaxMediumMessageSize.Some? ==> s.maxMediumMsgSize == cfg.params.interMaxMediumMessageSize.value)
      && (cfg.params.interMinReadMessageSize.Some? ==> s.minReadMsgSize == cfg.params.interMinReadMessageSize.value)
      && (cfg.params.interMinReadWriteSize.Some? ==> s.minReadWriteSize == cfg.params.interMinReadWriteSize.value)
    ensures var a := ProtocolThresholds(info, k, cfg);
      && a.maxMediumMsgSize == 0
      && (cfg.params.runtSize.Some? ==> a.runtSize == cfg.params.runtSize.value)
      && (cfg.params.interMinReadMessageSize.Some? ==> a.minReadMsgSize == cfg.params.interMinReadMessageSize.value)
      && (cfg.params.interMinReadWriteSize.Some? ==> a.minReadWriteSize == cfg.params.interMinReadWriteSize.value)
    ensures forall other: Params ::
      ProtocolThresholds(info, SynapseAI, cfg) == ProtocolThresholds(info, SynapseAI, cfg.(params := other))
  {
  }

  /** With an MTU of 9000 and a 100-byte largest header, the read-based
      protocols of CUDA and Neuron memory start at 8901 bytes. */
  lemma EagerCapacityExample(info: HmemInfo, cfg: Config, k: HmemIface)
    requires k in {Cuda, Neuron} && cfg.haveCuda
    requires cfg.deviceMaxMsgSize == 9000 && cfg.envMtuSize == 0 && cfg.maxHdrSize == 100
    requires cfg.params == Params(None, None, None, None)
    ensures ProtocolThresholds(info, k, cfg).minReadMsgSize == 8901
    ensures ProtocolThresholds(info, k, cfg).minReadWriteSize == 8901
  {
  }

  // ---------------------------------------------------------------------
  // The initialisers of the four supported kinds, as functions of the slot
  // they start from. Each returns the new slot and the return code.

  /** efa_hmem_info_init_system. */
  function SystemInit(info: HmemInfo, cfg: Config): (HmemInfo, int)
  {
    (ProtocolThresholds(info.(initialized := true, p2pDisabledByUser := false,
                              p2pRequiredByImpl := false, p2pSupportedByDevice := true),
                        System, cfg), 0)
  }

  /** efa_hmem_info_init_cuda. The slot is marked initialised before the
      test buffer is allocated, so an allocation failure leaves it marked. */
  function CudaInit(info: HmemInfo, cfg: Config, probe: AccelProbe): (HmemInfo, int)
  {
    if !cfg.haveCuda || !probe.runtimeInitialized then (info, 0)
    else
      var marked := info.(initialized := true);
      if !probe.allocOk then (marked, -FI_ENOMEM)
      else
        var held := marked.(p2pDisabledByUser := false, p2pRequiredByImpl := !probe.xferEnabled);
        if !probe.regOk then
          (ProtocolThresholds(held.(p2pSupportedByDevice := false), System, cfg), 0)
        else if probe.deregRet != 0 then (held, probe.deregRet)
        else (ProtocolThresholds(held.(p2pSupportedByDevice := true), Cuda, cfg), 0)
  }

  /** efa_hmem_info_init_neuron. Without RDMA read, or when the test buffer
      cannot be allocated, the slot stays as it was; a registration failure
      leaves the thresholds untouched. */
  function NeuronInit(info: HmemInfo, cfg: Config, probe: AccelProbe): (HmemInfo, int)
  {
    if !cfg.haveNeuron || !probe.runtimeInitialized || !cfg.deviceRdmaRead || !probe.allocOk then (info, 0)
    else
      var held := info.(initialized := true, p2pDisabledByUser := false, p2pRequiredByImpl := true);
      if !probe.regOk then (held.(p2pSupportedByDevice := false), 0)
      else if probe.deregRet != 0 then (held, probe.deregRet)
      else (ProtocolThresholds(held.(p2pSupportedByDevice := true), Neuron, cfg), 0)
  }

  /** efa_hmem_info_init_synapseai. */
  function SynapseAIInit(info: HmemInfo, cfg: Config, probe: AccelProbe): (HmemInfo, int)
  {
    if !cfg.haveSynapseAI || !probe.runtimeInitialized || !cfg.deviceRdmaRead then (info, 0)
    else
      (ProtocolThresholds(info.(initialized := true, p2pDisabledByUser := false,
                                p2pRequiredByImpl := true, p2pSupportedByDevice := true),
                          SynapseAI, cfg), 0)
  }

  /** The outcomes of the CUDA probe: an allocation failure returns
      -FI_ENOMEM with the slot marked initialised and nothing else set; a
      registration failure reports no device support and gives the slot
      exactly the thresholds host memory gets; full success requires P2P
      unless copies through the CUDA API are enabled. */
  lemma CudaProbeOutcomes(info: HmemInfo, cfg: Config, probe: AccelProbe)
    requires cfg.haveCuda && probe.runtimeInitialized
    ensures !probe.allocOk ==> CudaInit(info, cfg, probe) == (info.(initialized := true), -FI_ENOMEM)
    ensures probe.allocOk && !probe.regOk ==>
      var (r, ret) := CudaInit(info, cfg, probe);
      && ret == 0 && r.initialized && !r.p2pSupportedByDevice && !r.p2pDisabledByUser
      && Thresholds(r) == Thresholds(SystemInit(info, cfg).0)
    ensures probe.allocOk && probe.regOk && probe.deregRet == 0 ==>
      var (r, ret) := CudaInit(info, cfg, probe);
      && ret == 0 && r.initialized && r.p2pSupportedByDevice
      && r.p2pRequiredByImpl == !probe.xferEnabled
      && Thresholds(r) == Thresholds(ProtocolThresholds(info, Cuda, cfg))
  {
  }

  /** The outcomes of the Neuron probe: a registration failure keeps the
      thresholds the slot had (zero after the table's memset); full success
      gives the CUDA/Neuron row; P2P is always required. */
  lemma NeuronProbeOutcomes(info: HmemInfo, cfg: Config, probe: AccelProbe)
    requires cfg.haveNeuron && probe.runtimeInitialized && cfg.deviceRdmaRead && probe.allocOk
    ensures var (r, ret) := NeuronInit(info, cfg, probe);
      r.initialized && r.p2pRequiredByImpl && !r.p2pDisabledByUser
    ensures !probe.regOk ==>
      var (r, ret) := NeuronInit(info, cfg, probe);
      ret == 0 && !r.p2pSupportedByDevice && Thresholds(r) == Thresholds(info)
    ensures !probe.regOk && info == ZeroInfo ==> Thresholds(NeuronInit(info, cfg, probe).0) == (0, 0, 0, 0)
    ensures probe.regOk && probe.deregRet != 0 ==> NeuronInit(info, cfg, probe).1 == probe.deregRet
  {
  }

  // ---------------------------------------------------------------------
  // The P2P option validator.

  /** efa_hmem_validate_p2p_opt on one slot: the new slot and the return code. */
  function ValidateP2p(info: HmemInfo, p2pOpt: int): (HmemInfo, int)
  {
    if !info.initialized then (info, -FI_ENODATA)
    else if p2pOpt == FI_HMEM_P2P_REQUIRED then
      if !info.p2pSupportedByDevice then (info, -FI_EOPNOTSUPP)
      else (info.(p2pDisabledByUser := false), 0)
    else if p2pOpt == FI_HMEM_P2P_PREFERRED || p2pOpt == FI_HMEM_P2P_ENABLED then
      (info.(p2pDisabledByUser := false), 0)
    else if p2pOpt == FI_HMEM_P2P_DISABLED then
      if info.p2pRequiredByImpl then (info, -FI_EOPNOTSUPP)
      else (info.(p2pDisabledByUser := true), 0)
    else (info, -FI_EINVAL)
  }

  /** The validator's transition table: an uninitialised slot answers
      -FI_ENODATA to every option; an unknown option is -FI_EINVAL;
      REQUIRED fails exactly when the device lacks P2P, DISABLED exactly
      when the implementation requires it, PREFERRED and ENABLED never;
      a failure changes nothing, and a success changes only the user's
      disabled flag, which becomes true exactly for DISABLED. */
  lemma ValidateP2pTransitions(info: HmemInfo, p2pOpt: int)
    ensures var (r, ret) := ValidateP2p(info, p2pOpt);
      && (!info.initialized ==> ret == -FI_ENODATA)
      && (info.initialized && !(0 <= p2pOpt <= 3) ==> ret == -FI_EINVAL)
      && (info.initialized && p2pOpt == FI_HMEM_P2P_REQUIRED ==>
            (ret == -FI_EOPNOTSUPP <==> !info.p2pSupportedByDevice))
      && (info.initialized && p2pOpt == FI_HMEM_P2P_DISABLED ==>
            (ret == -FI_EOPNOTSUPP <==> info.p2pRequiredByImpl))
      && (info.initialized && p2pOpt in {FI_HMEM_P2P_PREFERRED, FI_HMEM_P2P_ENABLED} ==> ret == 0)
      && (ret != 0 ==> r == info)
      && (ret == 0 ==> r == info.(p2pDisabledByUser := (p2pOpt == FI_HMEM_P2P_DISABLED)))
      && (ret == 0 || ret == -FI_ENODATA || ret == -FI_EINVAL || ret == -FI_EOPNOTSUPP)
  {
  }

  /** The record's invariants hold after any validation: a kind that
      requires P2P can never end up disabled by the user unless it already
      was, and REQUIRED never succeeds on a device without P2P. */
  lemma ValidateKeepsRequiredEnabled(info: HmemInfo, p2pOpt: int)
    requires info.p2pRequiredByImpl && !info.p2pDisabledByUser
    ensures !ValidateP2p(info, p2pOpt).0.p2pDisabledByUser
  {
  }

  // ---------------------------------------------------------------------
  // efa_hmem_info_init_all

  /** The last nonzero code of a sequence of return codes, or 0. */
  function LastError(errs: seq<int>): int
  {
    if errs == [] then 0
    else if errs[|errs| - 1] != 0 then errs[|errs| - 1]
    else LastError(errs[..|errs| - 1])
  }

  /** LastError is 0 exactly when every code is 0; otherwise it is one of
      the codes, and every code after it is 0. */
  lemma {:induction false} LastErrorIsLastNonzero(errs: seq<int>)
    ensures LastError(errs) == 0 <==> forall i :: 0 <= i < |errs| ==> errs[i] == 0
    ensures LastError(errs) != 0 ==>
      exists k :: 0 <= k < |errs| && errs[k] == LastError(errs) &&
                  forall j :: k < j < |errs| ==> errs[j] == 0
  {
    if errs != [] {
      var n := |errs| - 1;
      var front := errs[..n];
      assert errs == front + [errs[n]];
      if errs[n] == 0 {
        LastErrorIsLastNonzero(front);
        assert LastError(errs) == LastError(front);
        if LastError(errs) != 0 {
          var k :| 0 <= k < n && front[k] == LastError(front) &&
                   forall j :: k < j < n ==> front[j] == 0;
          assert errs[k] == LastError(errs);
          assert forall j :: k < j < |errs| ==> errs[j] == 0;
        } else {
          assert forall i :: 0 <= i < |errs| ==> errs[i] == 0 by {
            forall i | 0 <= i < |errs| ensures errs[i] == 0 {
              if i < n {
                assert errs[i] == front[i];
              }
            }
          }
        }
      } else {
        assert LastError(errs) == errs[n];
        assert errs[n] != 0;
      }
    }
  }

  /** The table and return code efa_hmem_info_init_all produces when a
      device is present: every slot zeroed, then system, CUDA, Neuron and
      SynapseAI initialised in that order, returning the last nonzero code. */
  function InitAllSpec(cfg: Config, cuda: AccelProbe, neuron: AccelProbe, synapseai: AccelProbe): (seq<HmemInfo>, int)
  {
    var s := SystemInit(ZeroInfo, cfg);
    var c := CudaInit(ZeroInfo, cfg, cuda);
    var n := NeuronInit(ZeroInfo, cfg, neuron);
    var g := SynapseAIInit(ZeroInfo, cfg, synapseai);
    ([s.0, c.0, ZeroInfo, ZeroInfo, n.0, g.0], LastError([s.1, c.1, n.1, g.1]))
  }

  /** Properties of a fully initialised table: host memory is always
      usable; the kinds the provider does not support stay zeroed; the
      return code is Neuron's error if it failed, otherwise CUDA's. */
  lemma InitAllOutcome(cfg: Config, cuda: AccelProbe, neuron: AccelProbe, synapseai: AccelProbe)
    ensures var (t, ret) := InitAllSpec(cfg, cuda, neuron, synapseai);
      && |t| == OFI_HMEM_MAX
      && t[System.Index()].initialized && t[System.Index()].p2pSupportedByDevice
      && t[Rocr.Index()] == ZeroInfo && t[Ze.Index()] == ZeroInfo
      && ret == (if NeuronInit(ZeroInfo, cfg, neuron).1 != 0 then NeuronInit(ZeroInfo, cfg, neuron).1
                 else CudaInit(ZeroInfo, cfg, cuda).1)
  {
    var c, n := CudaInit(ZeroInfo, cfg, cuda).1, NeuronInit(ZeroInfo, cfg, neuron).1;
    LastErrorOfFour(0, c, n, 0);
  }

  /** Return-code folding of the four initialisers, whose first and last never fail. */
  lemma LastErrorOfFour(s: int, c: int, n: int, g: int)
    requires s == 0 && g == 0
    ensures LastError([s, c, n, g]) == if n != 0 then n else c
  {
    assert [s, c, n, g][..3] == [s, c, n];
    assert [s, c, n][..2] == [s, c];
    assert [s, c][..1] == [s];
    assert [s][..0] == [];
    assert LastError([s]) == 0;
    assert LastError([s, c]) == c;
    assert LastError([s, c, n]) == if n != 0 then n else c;
  }

  // ---------------------------------------------------------------------
  // The domain object that owns the table, with the in-place operations.

  /** The part of struct efa_domain the core uses: the table, plus counts of
      the probe's test buffers and registrations that are currently held,
      so that a leak on some exit path would show in the contracts. */
  class EfaDomain {
    const hmemInfo: array<HmemInfo>
    var liveTestBuffers: nat
    var liveRegistrations: nat

    ghost predicate Valid()
      reads this
    {
      hmemInfo.Length == OFI_HMEM_MAX
    }

    /** The domain is allocated zeroed. */
    constructor ()
      ensures Valid() && fresh(hmemInfo)
      ensures hmemInfo[..] == seq(OFI_HMEM_MAX, _ => ZeroInfo)
      ensures liveTestBuffers == 0 && liveRegistrations == 0
    {
      hmemInfo := new HmemInfo[OFI_HMEM_MAX](_ => ZeroInfo);
      liveTestBuffers, liveRegistrations := 0, 0;
    }

    /** efa_hmem_info_init_protocol_thresholds applied to slot `slot`,
        following the row of `iface` (which may differ from the slot's own
        kind, as in CUDA's fallback to host thresholds). */
    method InitProtocolThresholds(slot: HmemIface, iface: HmemIface, cfg: Config) returns (ret: int)
      requires Valid()
      modifies hmemInfo
      ensures ret == 0
      ensures hmemInfo[..] == old(hmemInfo[..])[slot.Index() := ProtocolThresholds(old(hmemInfo[slot.Index()]), iface, cfg)]
    {
      var i := slot.Index();
      hmemInfo[i] := ProtocolThresholds(hmemInfo[i], iface, cfg);
      return 0;
    }

    /** efa_hmem_info_init_system. */
    method InitSystem(cfg: Config) returns (ret: int)
      requires Valid()
      modifies hmemInfo
      ensures ret == SystemInit(old(hmemInfo[System.Index()]), cfg).1
      ensures hmemInfo[..] == old(hmemInfo[..])[System.Index() := SystemInit(old(hmemInfo[System.Index()]), cfg).0]
    {
      var i := System.Index();
      hmemInfo[i] := hmemInfo[i].(initialized := true);
      hmemInfo[i] := hmemInfo[i].(p2pDisabledByUser := false);
      hmemInfo[i] := hmemInfo[i].(p2pRequiredByImpl := false);
      hmemInfo[i] := hmemInfo[i].(p2pSupportedByDevice := true);
      var _ := InitProtocolThresholds(System, System, cfg);
      return 0;
    }

    /** efa_hmem_info_init_cuda. The test buffer is freed on every path
        after its allocation; the registration is released unless
        deregistration itself fails. */
    method InitCuda(cfg: Config, probe: AccelProbe) returns (ret: int)
      requires Valid()
      modifies hmemInfo, this`liveTestBuffers, this`liveRegistrations
      ensures ret == CudaInit(old(hmemInfo[Cuda.Index()]), cfg, probe).1
      ensures hmemInfo[..] == old(hmemInfo[..])[Cuda.Index() := CudaInit(old(hmemInfo[Cuda.Index()]), cfg, probe).0]
      ensures liveTestBuffers == old(liveTestBuffers)
      ensures liveRegistrations == old(liveRegistrations) +
        (if cfg.haveCuda && probe.runtimeInitialized && probe.allocOk && probe.regOk && probe.deregRet != 0 then 1 else 0)
    {
      if !cfg.haveCuda {
        return 0;
      }
      var i := Cuda.Index();
      if !probe.runtimeInitialized {
        return 0;
      }
      hmemInfo[i] := hmemInfo[i].(initialized := true);
      if !probe.allocOk {
        return -FI_ENOMEM;
      }
      liveTestBuffers := liveTestBuffers + 1;
      hmemInfo[i] := hmemInfo[i].(p2pDisabledByUser := false);
      hmemInfo[i] := hmemInfo[i].(p2pRequiredByImpl := !probe.xferEnabled);
      if !probe.regOk {
        hmemInfo[i] := hmemInfo[i].(p2pSupportedByDevice := false);
        var _ := InitProtocolThresholds(Cuda, System, cfg);
        liveTestBuffers := liveTestBuffers - 1;
        return 0;
      }
      liveRegistrations := liveRegistrations + 1;
      ret := probe.deregRet;
      if ret == 0 {
        liveRegistrations := liveRegistrations - 1;
      }
      liveTestBuffers := liveTestBuffers - 1;
      if ret != 0 {
        return ret;
      }
      hmemInfo[i] := hmemInfo[i].(p2pSupportedByDevice := true);
      var _ := InitProtocolThresholds(Cuda, Cuda, cfg);
      return 0;
    }

    /** efa_hmem_info_init_neuron, with the same release discipline as CUDA. */
    method InitNeuron(cfg: Config, probe: AccelProbe) returns (ret: int)
      requires Valid()
      modifies hmemInfo, this`liveTestBuffers, this`liveRegistrations
      ensures ret == NeuronInit(old(hmemInfo[Neuron.Index()]), cfg, probe).1
      ensures hmemInfo[..] == old(hmemInfo[..])[Neuron.Index() := NeuronInit(old(hmemInfo[Neuron.Index()]), cfg, probe).0]
      ensures liveTestBuffers == old(liveTestBuffers)
      ensures liveRegistrations == old(liveRegistrations) + (if ret != 0 then 1 else 0)
      ensures ret != 0 ==> ret == probe.deregRet
    {
      if !cfg.haveNeuron || !probe.runtimeInitialized || !cfg.deviceRdmaRead {
        return 0;
      }
      if !probe.allocOk {
        return 0;
      }
      liveTestBuffers := liveTestBuffers + 1;
      var i := Neuron.Index();
      hmemInfo[i] := hmemInfo[i].(initialized := true);
      hmemInfo[i] := hmemInfo[i].(p2pDisabledByUser := false);
      hmemInfo[i] := hmemInfo[i].(p2pRequiredByImpl := true);
      if !probe.regOk {
        hmemInfo[i] := hmemInfo[i].(p2pSupportedByDevice := false);
        liveTestBuffers := liveTestBuffers - 1;
        return 0;
      }
      liveRegistrations := liveRegistrations + 1;
      ret := probe.deregRet;
      if ret == 0 {
        liveRegistrations := liveRegistrations - 1;
      }
      liveTestBuffers := liveTestBuffers - 1;
      if ret != 0 {
        return ret;
      }
      hmemInfo[i] := hmemInfo[i].(p2pSupportedByDevice := true);
      var _ := InitProtocolThresholds(Neuron, Neuron, cfg);
      return 0;
    }

    /** efa_hmem_info_init_synapseai: no probe buffer, P2P assumed. */
    method InitSynapseAI(cfg: Config, probe: AccelProbe) returns (ret: int)
      requires Valid()
      modifies hmemInfo
      ensures ret == SynapseAIInit(old(hmemInfo[SynapseAI.Index()]), cfg, probe).1
      ensures hmemInfo[..] == old(hmemInfo[..])[SynapseAI.Index() := SynapseAIInit(old(hmemInfo[SynapseAI.Index()]), cfg, probe).0]
    {
      if !cfg.haveSynapseAI || !probe.runtimeInitialized || !cfg.deviceRdmaRead {
        return 0;
      }
      var i := SynapseAI.Index();
      hmemInfo[i] := hmemInfo[i].(initialized := true);
      hmemInfo[i] := hmemInfo[i].(p2pDisabledByUser := false);
      hmemInfo[i] := hmemInfo[i].(p2pRequiredByImpl := true);
      hmemInfo[i] := hmemInfo[i].(p2pSupportedByDevice := true);
      var _ := InitProtocolThresholds(SynapseAI, SynapseAI, cfg);
      return 0;
    }

    /** efa_hmem_validate_p2p_opt. */
    method ValidateP2pOpt(iface: HmemIface, p2pOpt: int) returns (ret: int)
      requires Valid()
      modifies hmemInfo
      ensures ret == ValidateP2p(old(hmemInfo[iface.Index()]), p2pOpt).1
      ensures hmemInfo[..] == old(hmemInfo[..])[iface.Index() := ValidateP2p(old(hmemInfo[iface.Index()]), p2pOpt).0]
    {
      var i := iface.Index();
      if !hmemInfo[i].initialized {
        return -FI_ENODATA;
      }
      if p2pOpt == FI_HMEM_P2P_REQUIRED {
        if !hmemInfo[i].p2pSupportedByDevice {
          return -FI_EOPNOTSUPP;
        }
        hmemInfo[i] := hmemInfo[i].(p2pDisabledByUser := false);
        return 0;
      } else if p2pOpt == FI_HMEM_P2P_PREFERRED || p2pOpt == FI_HMEM_P2P_ENABLED {
        hmemInfo[i] := hmemInfo[i].(p2pDisabledByUser := false);
        return 0;
      } else if p2pOpt == FI_HMEM_P2P_DISABLED {
        if hmemInfo[i].p2pRequiredByImpl {
          return -FI_EOPNOTSUPP;
        }
        hmemInfo[i] := hmemInfo[i].(p2pDisabledByUser := true);
        return 0;
      }
      return -FI_EINVAL;
    }

    /** efa_hmem_info_init_all. Without a device the table is left alone;
        otherwise it is zeroed and refilled, and no probe resource leaks
        unless a deregistration failed. */
    method InitAll(cfg: Config, deviceCnt: int, cuda: AccelProbe, neuron: AccelProbe, synapseai: AccelProbe)
      returns (ret: int)
      requires Valid()
      modifies hmemInfo, this`liveTestBuffers, this`liveRegistrations
      ensures deviceCnt <= 0 ==> ret == -FI_ENODEV && hmemInfo[..] == old(hmemInfo[..])
      ensures deviceCnt > 0 ==> (hmemInfo[..], ret) == InitAllSpec(cfg, cuda, neuron, synapseai)
      ensures liveTestBuffers == old(liveTestBuffers)
      ensures liveRegistrations == old(liveRegistrations)
        + (if deviceCnt > 0 && cfg.haveCuda && cuda.runtimeInitialized && cuda.allocOk && cuda.regOk
              && cuda.deregRet != 0 then 1 else 0)
        + (if deviceCnt > 0 && NeuronInit(ZeroInfo, cfg, neuron).1 != 0 then 1 else 0)
    {
      if deviceCnt <= 0 {
        return -FI_ENODEV;
      }
      forall i | 0 <= i < hmemInfo.Length {
        hmemInfo[i] := ZeroInfo;
      }
      assert hmemInfo[..] == [ZeroInfo, ZeroInfo, ZeroInfo, ZeroInfo, ZeroInfo, ZeroInfo];
      ghost var regs := liveRegistrations;
      ret := 0;
      var err := InitSystem(cfg);
      if err != 0 {
        ret := err;
      }
      err := InitCuda(cfg, cuda);
      if err != 0 {
        ret := err;
      }
      assert liveRegistrations == regs
        + (if cfg.haveCuda && cuda.runtimeInitialized && cuda.allocOk && cuda.regOk && cuda.deregRet != 0 then 1 else 0);
      assert hmemInfo[Neuron.Index()] == ZeroInfo;
      err := InitNeuron(cfg, neuron);
      assert err == NeuronInit(ZeroInfo, cfg, neuron).1;
      if err != 0 {
        ret := err;
      }
      err := InitSynapseAI(cfg, synapseai);
      if err != 0 {
        ret := err;
      }
      LastErrorOfFour(0, CudaInit(ZeroInfo, cfg, cuda).1, NeuronInit(ZeroInfo, cfg, neuron).1, 0);
      assert hmemInfo[..] == [SystemInit(ZeroInfo, cfg).0, CudaInit(ZeroInfo, cfg, cuda).0, ZeroInfo, ZeroInfo,
                              NeuronInit(ZeroInfo, cfg, neuron).0, SynapseAIInit(ZeroInfo, cfg, synapseai).0];
    }
  }
}
