/**
 * ContinuationHandle: an unsigned 32-bit slot index and an unsigned 32-bit
 * encoded version whose top bit marks a handle that was ever initialized
 * and whose low 31 bits carry the version.
 */
module Handles {
  import opened Bits

  newtype UInt32 = x: int | 0 <= x < 0x1_0000_0000

  /** `1u << 31`, the initialized flag. */
  const INITIALIZED_BIT: nat := 0x8000_0000

  datatype ContinuationHandle = ContinuationHandle(index: UInt32, encodedVersion: UInt32)
  {
    /** The slot index the handle refers to. */
    function Index(): nat {
      index as nat
    }

    /** The version: the encoded version masked with `(1u << 31) - 1`. */
    function Version(): (v: nat)
      ensures v == (encodedVersion as nat) % 0x8000_0000
    {
      MaskIsMod(encodedVersion as nat, 31);
      Pow2Constants();
      And(encodedVersion as nat, INITIALIZED_BIT - 1)
    }

    /** Whether the handle was ever initialized: its top bit is set. */
    predicate Initialized() {
      encodedVersion as nat >= INITIALIZED_BIT
    }

    /** Field-by-field equality, as the handle's Equals compares both fields. */
    predicate Equals(other: ContinuationHandle)
      ensures Equals(other) <==> this == other
    {
      other.index == index && other.encodedVersion == encodedVersion
    }
  }

  /** The unsigned reinterpretation of a 32-bit signed value (`(uint)version`). */
  function AsUInt32(version: int): (u: UInt32)
    requires IsInt32(version)
    ensures u as int == version % 0x1_0000_0000
    ensures u as int % 0x8000_0000 == version % 0x8000_0000
  {
    if version >= 0 then version as UInt32 else (version + 0x1_0000_0000) as UInt32
  }

  /** `u | 1u << 31` on an unsigned 32-bit value: the top bit set, the low 31 bits kept. */
  function WithInitializedBit(u: UInt32): (r: UInt32)
    ensures r as nat >= INITIALIZED_BIT
    ensures r as nat % 0x8000_0000 == u as nat % 0x8000_0000
  {
    SetTopBit(u as nat);
    Or(u as nat, INITIALIZED_BIT) as UInt32
  }

  lemma SetTopBit(u: nat)
    requires u < 0x1_0000_0000
    ensures var r := Or(u, INITIALIZED_BIT);
      r < 0x1_0000_0000 && r >= INITIALIZED_BIT && r % 0x8000_0000 == u % 0x8000_0000
  {
    Pow2Constants();
    OrPow2(u, 31);
    if u >= INITIALIZED_BIT {
      DivModUnique(u, 1, u - INITIALIZED_BIT, INITIALIZED_BIT);
    } else {
      DivModUnique(u, 0, u, INITIALIZED_BIT);
      DivModUnique(u + INITIALIZED_BIT, 1, u, INITIALIZED_BIT);
    }
  }

  /**
   * The handle built from a slot index and an int32 version. It is always
   * initialized and gives back its index; its version is the original one
   * for every non-negative version, and otherwise the version modulo 2^31.
   */
  function New(index: nat, version: int): (h: ContinuationHandle)
    requires index < 0x1_0000_0000 && IsInt32(version)
    ensures h.Initialized()
    ensures h.Index() == index
    ensures h.Version() == version % 0x8000_0000
    ensures 0 <= version ==> h.Version() == version
  {
    ContinuationHandle(index as UInt32, WithInitializedBit(AsUInt32(version)))
  }

  /** The default handle (both fields zero): never initialized. */
  function Null(): (h: ContinuationHandle)
    ensures !h.Initialized()
  {
    ContinuationHandle(0, 0)
  }

  /** Distinct (index, version) pairs give distinct handles while versions stay below 2^31. */
  lemma NewIsInjective(i: nat, v: int, i': nat, v': int)
    requires i < 0x1_0000_0000 && i' < 0x1_0000_0000 && 0 <= v < 0x8000_0000 && 0 <= v' < 0x8000_0000
    requires New(i, v) == New(i', v')
    ensures i == i' && v == v'
  {
  }
}
