/** The two bounds-checked copies of efa_hmem.c between an IOV whose
    segments may live in accelerator memory and a flat host buffer:
    efa_copy_from_hmem_iov (gather) and efa_copy_to_hmem_iov (scatter).

    Each segment carries an optional memory descriptor naming its memory
    kind; the per-kind copy routine is modelled as a plain byte copy. The
    module also holds the corrected forms of both copies (see the README's
    findings) and the round trip that the corrected forms complete. */
module HmemCopy {
  import opened Common
  import Hmem

  type byte = bv8

  /** The peer part of a memory descriptor: the memory kind and device. */
  datatype MrPeer = MrPeer(iface: Hmem.HmemIface, device: nat)

  /** The descriptor list of a call: NULL, or one optional descriptor per segment. */
  type Descs = Option<seq<Option<MrPeer>>>

  /** The kind and device segment `i` is copied with: its descriptor's, or
      host memory and device 0 when the list or the entry is NULL. */
  function SegmentPeer(desc: Descs, i: nat): (p: MrPeer)
    requires desc.Some? ==> i < |desc.value|
    ensures desc.None? || desc.value[i].None? ==> p == MrPeer(Hmem.System, 0)
    ensures desc.Some? && desc.value[i].Some? ==> p == desc.value[i].value
  {
    if desc.Some? && desc.value[i].Some? then desc.value[i].value else MrPeer(Hmem.System, 0)
  }

  /** ofi_copy_from_hmem: copies `src` into `dst` at `offset`. */
  method CopyFromHmem(peer: MrPeer, dst: array<byte>, offset: nat, src: seq<byte>)
    requires offset + |src| <= dst.Length
    modifies dst
    ensures dst[..] == old(dst[..])[..offset] + src + old(dst[..])[offset + |src|..]
  {
    forall j | offset <= j < offset + |src| {
      dst[j] := src[j - offset];
    }
  }

  /** ofi_copy_to_hmem: copies the first `size` bytes of `src` into `dst`. */
  method CopyToHmem(peer: MrPeer, dst: array<byte>, src: seq<byte>, size: nat)
    requires size <= dst.Length && size <= |src|
    modifies dst
    ensures dst[..] == src[..size] + old(dst[..])[size..]
  {
    forall j | 0 <= j < size {
      dst[j] := src[j];
    }
  }

  // ---------------------------------------------------------------------
  // Gather: efa_copy_from_hmem_iov

  /** The segments laid end to end. */
  function Flatten(segs: seq<seq<byte>>): seq<byte>
  {
    if segs == [] then [] else Flatten(segs[..|segs| - 1]) + segs[|segs| - 1]
  }

  lemma FlattenStep(segs: seq<seq<byte>>, k: nat)
    requires k < |segs|
    ensures Flatten(segs[..k + 1]) == Flatten(segs[..k]) + segs[k]
  {
    assert segs[..k + 1][..k] == segs[..k];
  }

  lemma {:induction false} FlattenPrefixShorter(segs: seq<seq<byte>>, i: nat, j: nat)
    requires i <= j <= |segs|
    ensures |Flatten(segs[..i])| <= |Flatten(segs[..j])|
    decreases j - i
  {
    if i < j {
      FlattenPrefixShorter(segs, i, j - 1);
      FlattenStep(segs, j - 1);
    }
  }

  /** Whether a running total passes the bound check: strictly below the
      buffer size as efa_copy_from_hmem_iov is written, or at most the
      buffer size in the corrected form. */
  predicate WithinBuffer(total: int, buffSize: int, inclusive: bool)
  {
    if inclusive then total <= buffSize else total < buffSize
  }

  /** The running total after segment `k`: the length of segments 0..k. */
  function RunningTotal(iov: seq<seq<byte>>, k: nat): (n: nat)
    requires k < |iov|
    ensures n == |Flatten(iov[..k])| + |iov[k]|
  {
    FlattenStep(iov, k);
    |Flatten(iov[..k + 1])|
  }

  /** The number of leading segments the gather copies, scanning from
      segment `i`: it stops at the first segment whose running total fails
      the bound check. */
  function AcceptedFrom(iov: seq<seq<byte>>, buffSize: int, inclusive: bool, i: nat): (j: nat)
    requires i <= |iov|
    ensures i <= j <= |iov|
    ensures forall k :: i <= k < j ==> WithinBuffer(RunningTotal(iov, k), buffSize, inclusive)
    ensures j < |iov| ==> !WithinBuffer(RunningTotal(iov, j), buffSize, inclusive)
    decreases |iov| - i
  {
    if i == |iov| || !WithinBuffer(RunningTotal(iov, i), buffSize, inclusive) then i
    else AcceptedFrom(iov, buffSize, inclusive, i + 1)
  }

  /** The gather succeeds exactly when the IOV is empty or its total length
      passes the bound check: the running totals only grow, so the last one
      decides. */
  lemma GatherSucceedsIff(iov: seq<seq<byte>>, buffSize: int, inclusive: bool)
    ensures AcceptedFrom(iov, buffSize, inclusive, 0) == |iov| <==>
              (|iov| == 0 || WithinBuffer(|Flatten(iov)|, buffSize, inclusive))
  {
    var j := AcceptedFrom(iov, buffSize, inclusive, 0);
    if |iov| > 0 {
      var n := |iov| - 1;
      assert iov[..n + 1] == iov;
      assert RunningTotal(iov, n) == |Flatten(iov)|;
      if WithinBuffer(|Flatten(iov)|, buffSize, inclusive) && j < |iov| {
        FlattenStep(iov, j);
        FlattenPrefixShorter(iov, j + 1, |iov|);
        assert false;
      }
    }
  }

  /** An IOV that exactly fills the buffer is rejected as written. */
  lemma ExactFitRejected(seg: seq<byte>)
    requires |seg| > 0
    ensures AcceptedFrom([seg], |seg|, false, 0) == 0
    ensures AcceptedFrom([seg], |seg|, true, 0) == 1
  {
    assert [seg][..1] == [seg];
    assert Flatten([seg]) == Flatten([]) + seg;
  }

  /** One round of the gather loop: copies segment `i` right after the
      bytes already gathered, which extends them by the segment and keeps
      the buffer's old bytes after it. */
  method CopySegment(peer: MrPeer, buff: array<byte>, dataSize: nat, iov: seq<seq<byte>>, i: nat,
                     ghost orig: seq<byte>)
    requires i < |iov| && |orig| == buff.Length
    requires dataSize == |Flatten(iov[..i])| && dataSize + |iov[i]| <= buff.Length
    requires buff[..dataSize] == Flatten(iov[..i]) && buff[dataSize..] == orig[dataSize..]
    modifies buff
    ensures |Flatten(iov[..i + 1])| == dataSize + |iov[i]|
    ensures buff[..dataSize + |iov[i]|] == Flatten(iov[..i + 1])
    ensures buff[dataSize + |iov[i]|..] == orig[dataSize + |iov[i]|..]
  {
    ghost var prev := buff[..];
    assert prev == prev[..dataSize] + prev[dataSize..];
    CopyFromHmem(peer, buff, dataSize, iov[i]);
    FlattenStep(iov, i);
    assert prev[dataSize + |iov[i]|..] == orig[dataSize + |iov[i]|..];
    assert buff[..] == buff[..dataSize + |iov[i]|] + buff[dataSize + |iov[i]|..];
  }

  /** Shared loop of both gathers; `inclusive` selects the bound check.
      Returns the bytes copied, or -FI_ETRUNC with the segments accepted so
      far already copied and nothing written past them. */
  method Gather(desc: Descs, buff: array<byte>, buffSize: int, iov: seq<seq<byte>>, inclusive: bool)
    returns (ret: int)
    requires desc.Some? ==> |desc.value| >= |iov|
    requires 0 <= buffSize <= buff.Length
    modifies buff
    ensures var j := AcceptedFrom(iov, buffSize, inclusive, 0);
      var n := |Flatten(iov[..j])|;
      && n <= buffSize
      && ret == (if j == |iov| then n else -FI_ETRUNC)
      && buff[..] == Flatten(iov[..j]) + old(buff[..])[n..]
  {
    ghost var orig := buff[..];
    var dataSize := 0;
    var i := 0;
    while i < |iov| && WithinBuffer(dataSize + |iov[i]|, buffSize, inclusive)
      invariant 0 <= i <= |iov|
      invariant AcceptedFrom(iov, buffSize, inclusive, 0) == AcceptedFrom(iov, buffSize, inclusive, i)
      invariant dataSize == |Flatten(iov[..i])| <= buffSize
      invariant buff[..dataSize] == Flatten(iov[..i])
      invariant buff[dataSize..] == orig[dataSize..]
    {
      var peer := SegmentPeer(desc, i);
      AcceptedStep(iov, buffSize, inclusive, i);
      CopySegment(peer, buff, dataSize, iov, i, orig);
      dataSize := dataSize + |iov[i]|;
      i := i + 1;
    }
    assert buff[..] == Flatten(iov[..i]) + orig[dataSize..];
    if i < |iov| {
      AcceptedStep(iov, buffSize, inclusive, i);
      ret := -FI_ETRUNC;
    } else {
      ret := dataSize;
    }
    assert AcceptedFrom(iov, buffSize, inclusive, 0) == i;
  }

  /** One step of the scan: segment `i` is accepted and the scan goes on,
      or it is the first segment refused. */
  lemma AcceptedStep(iov: seq<seq<byte>>, buffSize: int, inclusive: bool, i: nat)
    requires i < |iov|
    ensures WithinBuffer(|Flatten(iov[..i])| + |iov[i]|, buffSize, inclusive) ==>
              AcceptedFrom(iov, buffSize, inclusive, i) == AcceptedFrom(iov, buffSize, inclusive, i + 1)
    ensures !WithinBuffer(|Flatten(iov[..i])| + |iov[i]|, buffSize, inclusive) ==>
              AcceptedFrom(iov, buffSize, inclusive, i) == i
  {
    assert RunningTotal(iov, i) == |Flatten(iov[..i])| + |iov[i]|;
  }

  /** efa_copy_from_hmem_iov as written: every running total must stay
      strictly below buff_size. */
  method CopyFromHmemIov(desc: Descs, buff: array<byte>, buffSize: int, iov: seq<seq<byte>>)
    returns (ret: int)
    requires desc.Some? ==> |desc.value| >= |iov|
    requires 0 <= buffSize <= buff.Length
    modifies buff
    ensures var j := AcceptedFrom(iov, buffSize, false, 0);
      var n := |Flatten(iov[..j])|;
      && n <= buffSize
      && ret == (if j == |iov| then n else -FI_ETRUNC)
      && buff[..] == Flatten(iov[..j]) + old(buff[..])[n..]
    ensures ret != -FI_ETRUNC <==> (|iov| == 0 || |Flatten(iov)| < buffSize)
  {
    ret := Gather(desc, buff, buffSize, iov, false);
    GatherSucceedsIff(iov, buffSize, false);
    assert iov[..|iov|] == iov;
  }

  /** The gather with the bound the warning message describes: it fails
      only when the IOV is larger than the buffer, and then copies a prefix
      of the IOV only. */
  method CopyFromHmemIovInclusive(desc: Descs, buff: array<byte>, buffSize: int, iov: seq<seq<byte>>)
    returns (ret: int)
    requires desc.Some? ==> |desc.value| >= |iov|
    requires 0 <= buffSize <= buff.Length
    modifies buff
    ensures ret != -FI_ETRUNC <==> |Flatten(iov)| <= buffSize
    ensures ret != -FI_ETRUNC ==> ret == |Flatten(iov)| && buff[..] == Flatten(iov) + old(buff[..])[ret..]
  {
    ret := Gather(desc, buff, buffSize, iov, true);
    GatherSucceedsIff(iov, buffSize, true);
    assert iov[..|iov|] == iov;
  }

  // ---------------------------------------------------------------------
  // Scatter: efa_copy_to_hmem_iov

  /** The capacities of the destination segments. */
  function Capacities(iov: seq<array<byte>>): (lens: seq<nat>)
    ensures |lens| == |iov| && forall k :: 0 <= k < |iov| ==> lens[k] == iov[k].Length
  {
    seq(|iov|, k requires 0 <= k < |iov| => iov[k].Length)
  }

  /** The contents of the destination segments. */
  function Contents(iov: seq<array<byte>>): (s: seq<seq<byte>>)
    reads set k | 0 <= k < |iov| :: iov[k]
    ensures |s| == |iov| && forall k :: 0 <= k < |iov| ==> s[k] == iov[k][..]
  {
    seq(|iov|, k requires 0 <= k < |iov| reads set j | 0 <= j < |iov| :: iov[j] => iov[k][..])
  }

  function Lens(segs: seq<seq<byte>>): (lens: seq<nat>)
    ensures |lens| == |segs| && forall k :: 0 <= k < |segs| ==> lens[k] == |segs[k]|
  {
    seq(|segs|, k requires 0 <= k < |segs| => |segs[k]|)
  }

  /** The bytes segment `k` receives: its capacity, or what is left of the
      source after the segments before it, whichever is smaller. */
  function Received(lens: seq<nat>, buffSize: int, k: nat): (w: nat)
    requires k < |lens|
    ensures w <= lens[k] && w <= Max(0, buffSize - Sum(lens[..k])) && w <= Max(0, buffSize)
    ensures w == lens[k] || w == Max(0, buffSize - Sum(lens[..k]))
  {
    Min(lens[k], Max(0, buffSize - Sum(lens[..k])))
  }

  /** Where in the source segment `k`'s share starts: after the shares of
      the segments before it when `advance`, at the start otherwise. */
  function ShareStart(lens: seq<nat>, buffSize: int, advance: bool, k: nat): (from: nat)
    requires k < |lens| && 0 <= buffSize
    ensures from + Received(lens, buffSize, k) <= buffSize
    ensures !advance ==> from == 0
  {
    if advance then Min(Sum(lens[..k]), buffSize) else 0
  }

  /** Segment `k` after the scatter: its share of the source, then whatever
      it held before. */
  function Share(lens: seq<nat>, before: seq<byte>, buff: seq<byte>, buffSize: int, advance: bool, k: nat): (r: seq<byte>)
    requires k < |lens| && |before| == lens[k] && 0 <= buffSize <= |buff|
    ensures |r| == |before|
  {
    var w := Received(lens, buffSize, k);
    var from := ShareStart(lens, buffSize, advance, k);
    buff[from..from + w] + before[w..]
  }

  /** The destination segments after efa_copy_to_hmem_iov as written:
      each receives its share, always taken from the start of the source. */
  function ScatterAsWritten(olds: seq<seq<byte>>, buff: seq<byte>, buffSize: int): (r: seq<seq<byte>>)
    requires 0 <= buffSize <= |buff|
    ensures |r| == |olds|
    ensures forall k :: 0 <= k < |olds| ==>
      r[k] == buff[..Received(Lens(olds), buffSize, k)] + olds[k][Received(Lens(olds), buffSize, k)..]
  {
    seq(|olds|, k requires 0 <= k < |olds| => Share(Lens(olds), olds[k], buff, buffSize, false, k))
  }

  /** The destination segments after the corrected scatter: each receives
      its share from where the previous segment's share stopped. */
  function Scatter(olds: seq<seq<byte>>, buff: seq<byte>, buffSize: int): (r: seq<seq<byte>>)
    requires 0 <= buffSize <= |buff|
    ensures |r| == |olds|
    ensures forall k :: 0 <= k < |olds| ==> |r[k]| == |olds[k]|
    ensures forall k :: 0 <= k < |olds| ==>
      var w := Received(Lens(olds), buffSize, k);
      var from := Min(Sum(Lens(olds)[..k]), buffSize);
      r[k] == buff[from..from + w] + olds[k][w..]
  {
    seq(|olds|, k requires 0 <= k < |olds| => Share(Lens(olds), olds[k], buff, buffSize, true, k))
  }

  /** Once the source is used up, later segments receive nothing. */
  lemma ReceivedNothingAfter(lens: seq<nat>, buffSize: int, i: nat, k: nat)
    requires i <= k < |lens| && buffSize <= Sum(lens[..i])
    ensures Received(lens, buffSize, k) == 0
  {
    SumPrefixMonotone(lens, i, k);
  }

  /** A segment that receives nothing keeps what it held. */
  lemma ShareOfNothing(lens: seq<nat>, before: seq<byte>, buff: seq<byte>, buffSize: int, advance: bool, k: nat)
    requires k < |lens| && |before| == lens[k] && 0 <= buffSize <= |buff|
    requires Received(lens, buffSize, k) == 0
    ensures Share(lens, before, buff, buffSize, advance, k) == before
  {
    assert before[0..] == before;
  }

  /** What is left of the source when the loop stops at segment `i`
      decides the result: something is left exactly when the capacities of
      all segments add up to less than the source. */
  lemma RemainingAtExit(lens: seq<nat>, buffSize: int, i: nat)
    requires i <= |lens| && 0 <= buffSize
    requires i < |lens| ==> buffSize <= Sum(lens[..i])
    ensures Max(0, buffSize - Sum(lens[..i])) != 0 <==> Sum(lens) < buffSize
  {
    SumPrefixMonotone(lens, i, |lens|);
    assert lens[..|lens|] == lens;
  }

  /** One round of the scatter loop: copies segment `i`'s share of the
      source, `bytesRemaining` bytes of which are still to be placed, and
      returns how many bytes it copied. */
  method CopyShare(peer: MrPeer, dst: array<byte>, buff: seq<byte>, buffSize: int, bytesRemaining: int,
                   advance: bool, ghost lens: seq<nat>, ghost i: nat)
    returns (size: nat)
    requires 0 <= buffSize <= |buff| && i < |lens| && lens[i] == dst.Length
    requires 0 < bytesRemaining == buffSize - Sum(lens[..i])
    modifies dst
    ensures size == Received(lens, buffSize, i) && size <= bytesRemaining
    ensures dst[..] == Share(lens, old(dst[..]), buff, buffSize, advance, i)
  {
    size := dst.Length;
    if bytesRemaining < size {
      size := bytesRemaining;
    }
    var from := if advance then buffSize - bytesRemaining else 0;
    assert from == ShareStart(lens, buffSize, advance, i);
    CopyToHmem(peer, dst, buff[from..], size);
    assert buff[from..][..size] == buff[from..from + size];
  }

  /** One round of the scatter loop over the whole IOV: only segment `i`
      changes. */
  method ScatterRound(desc: Descs, iov: seq<array<byte>>, buff: seq<byte>, buffSize: int, bytesRemaining: int,
                      advance: bool, ghost lens: seq<nat>, i: nat)
    returns (size: nat)
    requires desc.Some? ==> |desc.value| >= |iov|
    requires 0 <= buffSize <= |buff| && i < |iov| && lens == Capacities(iov)
    requires 0 < bytesRemaining == buffSize - Sum(lens[..i])
    requires forall i, j :: 0 <= i < j < |iov| ==> iov[i] != iov[j]
    modifies iov[i]
    ensures size == Received(lens, buffSize, i) && size <= bytesRemaining
    ensures iov[i][..] == Share(lens, old(iov[i][..]), buff, buffSize, advance, i)
    ensures forall k :: 0 <= k < |iov| && k != i ==> iov[k][..] == old(iov[k][..])
  {
    var peer := SegmentPeer(desc, i);
    size := CopyShare(peer, iov[i], buff, buffSize, bytesRemaining, advance, lens, i);
    forall k | 0 <= k < |iov| && k != i
      ensures iov[k][..] == old(iov[k][..])
    {
      assert iov[k] != iov[i] by {
        if k < i { } else { }
      }
    }
  }

  /** Shared loop of both scatters; `advance` selects whether the source
      position moves on after each segment (the corrected form) or stays at
      the start (as written). */
  method ScatterLoop(desc: Descs, iov: seq<array<byte>>, buff: seq<byte>, buffSize: int, advance: bool)
    returns (ret: int)
    requires desc.Some? ==> |desc.value| >= |iov|
    requires 0 <= buffSize <= |buff|
    requires forall i, j :: 0 <= i < j < |iov| ==> iov[i] != iov[j]
    modifies set k | 0 <= k < |iov| :: iov[k]
    ensures ret == if Sum(Capacities(iov)) < buffSize then -FI_ETRUNC else buffSize
    ensures forall k :: 0 <= k < |iov| ==>
      iov[k][..] == Share(Capacities(iov), old(iov[k][..]), buff, buffSize, advance, k)
  {
    ghost var lens := Capacities(iov);
    var bytesRemaining := buffSize;
    var i := 0;
    while i < |iov| && bytesRemaining != 0
      invariant 0 <= i <= |iov|
      invariant bytesRemaining == Max(0, buffSize - Sum(lens[..i]))
      invariant forall k :: 0 <= k < i ==> iov[k][..] == Share(lens, old(iov[k][..]), buff, buffSize, advance, k)
      invariant forall k :: i <= k < |iov| ==> iov[k][..] == old(iov[k][..])
    {
      var size := ScatterRound(desc, iov, buff, buffSize, bytesRemaining, advance, lens, i);
      SumPrefixStep(lens, i);
      bytesRemaining := bytesRemaining - size;
      i := i + 1;
    }
    forall k | i <= k < |iov|
      ensures iov[k][..] == Share(lens, old(iov[k][..]), buff, buffSize, advance, k)
    {
      ReceivedNothingAfter(lens, buffSize, i, k);
      ShareOfNothing(lens, old(iov[k][..]), buff, buffSize, advance, k);
    }
    RemainingAtExit(lens, buffSize, i);
    if bytesRemaining != 0 {
      return -FI_ETRUNC;
    }
    return buffSize;
  }

  /** efa_copy_to_hmem_iov as written: succeeds whenever the source is used
      up, even if destination capacity is left over, and fails with
      -FI_ETRUNC only when the capacity runs out first. Every segment's
      share is copied from the start of the source. */
  method CopyToHmemIov(desc: Descs, iov: seq<array<byte>>, buff: seq<byte>, buffSize: int)
    returns (ret: int)
    requires desc.Some? ==> |desc.value| >= |iov|
    requires 0 <= buffSize <= |buff|
    requires forall i, j :: 0 <= i < j < |iov| ==> iov[i] != iov[j]
    modifies set k | 0 <= k < |iov| :: iov[k]
    ensures ret == if Sum(Capacities(iov)) < buffSize then -FI_ETRUNC else buffSize
    ensures Contents(iov) == ScatterAsWritten(old(Contents(iov)), buff, buffSize)
  {
    ghost var olds := Contents(iov);
    assert Lens(olds) == Capacities(iov);
    ret := ScatterLoop(desc, iov, buff, buffSize, false);
    assert Contents(iov) == ScatterAsWritten(olds, buff, buffSize);
  }

  /** The scatter with the source position advanced past each segment's
      share, which the gather/scatter round trip needs. */
  method CopyToHmemIovAdvancing(desc: Descs, iov: seq<array<byte>>, buff: seq<byte>, buffSize: int)
    returns (ret: int)
    requires desc.Some? ==> |desc.value| >= |iov|
    requires 0 <= buffSize <= |buff|
    requires forall i, j :: 0 <= i < j < |iov| ==> iov[i] != iov[j]
    modifies set k | 0 <= k < |iov| :: iov[k]
    ensures ret == if Sum(Capacities(iov)) < buffSize then -FI_ETRUNC else buffSize
    ensures Contents(iov) == Scatter(old(Contents(iov)), buff, buffSize)
  {
    ghost var olds := Contents(iov);
    assert Lens(olds) == Capacities(iov);
    ret := ScatterLoop(desc, iov, buff, buffSize, true);
    assert Contents(iov) == Scatter(olds, buff, buffSize);
  }

  // ---------------------------------------------------------------------
  // The round trip

  lemma {:induction false} FlattenLength(segs: seq<seq<byte>>)
    ensures |Flatten(segs)| == Sum(Lens(segs))
  {
    if segs != [] {
      var n := |segs| - 1;
      FlattenLength(segs[..n]);
      assert Lens(segs)[..n] == Lens(segs[..n]);
    }
  }

  /** Segment `k` sits in the flattened IOV right after the segments before it. */
  lemma {:induction false} FlattenSlice(segs: seq<seq<byte>>, k: nat)
    requires k < |segs|
    ensures Sum(Lens(segs)[..k]) + |segs[k]| <= |Flatten(segs)|
    ensures Flatten(segs)[Sum(Lens(segs)[..k])..Sum(Lens(segs)[..k]) + |segs[k]|] == segs[k]
  {
    var n := |segs| - 1;
    assert Lens(segs)[..n] == Lens(segs[..n]);
    FlattenLength(segs[..n]);
    if k == n {
    } else {
      FlattenSlice(segs[..n], k);
      assert Lens(segs[..n])[..k] == Lens(segs)[..k];
      var off := Sum(Lens(segs)[..k]);
      assert Flatten(segs) == Flatten(segs[..n]) + segs[n];
      assert Flatten(segs)[off..off + |segs[k]|] == Flatten(segs[..n])[off..off + |segs[k]|];
    }
  }

  /** Gathering segments and scattering the result, with the corrected
      scatter, into segments of the same sizes gives back the segments. */
  lemma GatherScatterRoundTrip(segs: seq<seq<byte>>, olds: seq<seq<byte>>)
    requires Lens(olds) == Lens(segs)
    ensures Scatter(olds, Flatten(segs), |Flatten(segs)|) == segs
  {
    var flat := Flatten(segs);
    FlattenLength(segs);
    forall k | 0 <= k < |segs|
      ensures Scatter(olds, flat, |flat|)[k] == segs[k]
    {
      ShareOfFlatten(segs, olds, k);
    }
  }

  /** Segment `k`'s share of the flattened segments is segment `k`. */
  lemma ShareOfFlatten(segs: seq<seq<byte>>, olds: seq<seq<byte>>, k: nat)
    requires Lens(olds) == Lens(segs) && k < |segs|
    requires |Flatten(segs)| == Sum(Lens(segs))
    ensures Share(Lens(olds), olds[k], Flatten(segs), |Flatten(segs)|, true, k) == segs[k]
  {
    FlattenSlice(segs, k);
    var lens := Lens(segs);
    SumPrefixMonotone(lens, k + 1, |lens|);
    SumPrefixStep(lens, k);
    assert lens[..|lens|] == lens;
  }

  /** As written, the scatter gives the second of two one-byte segments the
      first source byte again, so the round trip fails. */
  lemma ScatterAsWrittenRepeatsSource()
    ensures ScatterAsWritten([[0], [0]], [1, 2], 2) == [[1], [1]]
    ensures Scatter([[0], [0]], [1, 2], 2) == [[1], [2]]
    ensures ScatterAsWritten([[0], [0]], Flatten([[1], [2]]), 2) != [[1], [2]]
  {
    var olds: seq<seq<byte>> := [[0], [0]];
    var buff: seq<byte> := [1, 2];
    OneByteShares();
    var asWritten := ScatterAsWritten(olds, buff, 2);
    var corrected := Scatter(olds, buff, 2);
    assert asWritten[0] == [1] && asWritten[1] == [1];
    assert corrected[0] == [1] && corrected[1] == [2];
    assert Flatten([[1], [2]]) == [1, 2] by {
      assert [[1 as byte], [2 as byte]][..1] == [[1]];
      assert [[1 as byte]][..0] == [];
    }
  }

  /** The shares of two one-byte segments of the two-byte source [1, 2]. */
  lemma OneByteShares()
    ensures Share([1, 1], [0], [1, 2], 2, false, 0) == [1]
    ensures Share([1, 1], [0], [1, 2], 2, false, 1) == [1]
    ensures Share([1, 1], [0], [1, 2], 2, true, 0) == [1]
    ensures Share([1, 1], [0], [1, 2], 2, true, 1) == [2]
    ensures Lens([[0], [0]]) == [1, 1]
  {
    var lens: seq<nat> := [1, 1];
    assert lens[..0] == [] && lens[..1] == [1];
    assert Sum([1]) == 1 by { assert [1][..0] == []; }
    assert Received(lens, 2, 0) == 1 && Received(lens, 2, 1) == 1;
    assert ShareStart(lens, 2, true, 1) == 1;
  }
}
