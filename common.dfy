/** Definitions shared by every part of the model: libfabric's error numbers,
    C's size_t arithmetic, and the Option wrapper used for optional lookups. */
module Common {

  /** An optional value: a configuration knob that may be unset, a pointer that may be NULL. */
  datatype Option<+T> = None | Some(value: T) {
    function GetOr(default: T): T {
      match this
      case Some(v) => v
      case None => default
    }
  }

  // libfabric error numbers (positive; the sources return their negation).
  // They are the Linux errno values that libfabric re-exports, plus FI_ETRUNC
  // from libfabric's own range above 256.
  const FI_EAGAIN: int := 11
  const FI_ENOMEM: int := 12
  const FI_ENODEV: int := 19
  const FI_EINVAL: int := 22
  const FI_ENOSYS: int := 38
  const FI_ENODATA: int := 61
  const FI_EOPNOTSUPP: int := 95
  const FI_ETRUNC: int := 265

  const SIZE_MODULUS: int := 0x1_0000_0000_0000_0000

  /** A value of C's 64-bit size_t. */
  type SizeT = x: int | 0 <= x < SIZE_MODULUS

  /** Conversion of a mathematical integer to size_t, wrapping modulo 2^64 as C does. */
  function ToSize(x: int): (r: SizeT)
    ensures 0 <= x < SIZE_MODULUS ==> r == x
    ensures -SIZE_MODULUS <= x < 0 ==> r == x + SIZE_MODULUS
  {
    x % SIZE_MODULUS
  }

  function Min(a: int, b: int): int { if a < b then a else b }
  function Max(a: int, b: int): int { if a < b then b else a }

  /** Sum of a sequence of lengths. */
  function Sum(lens: seq<nat>): nat
  {
    if lens == [] then 0 else Sum(lens[..|lens| - 1]) + lens[|lens| - 1]
  }

  lemma {:induction false} SumPrefixMonotone(lens: seq<nat>, i: nat, j: nat)
    requires i <= j <= |lens|
    ensures Sum(lens[..i]) <= Sum(lens[..j])
    decreases j - i
  {
    if i < j {
      SumPrefixMonotone(lens, i, j - 1);
      assert lens[..j][..j - 1] == lens[..j - 1];
    }
  }

  lemma SumPrefixStep(lens: seq<nat>, i: nat)
    requires i < |lens|
    ensures Sum(lens[..i + 1]) == Sum(lens[..i]) + lens[i]
  {
    assert lens[..i + 1][..i] == lens[..i];
  }
}
