/** Value types shared by the models of the Rust core and of the Kotlin link layer. */
module Common {

  datatype Option<+T> = None | Some(value: T)

  /** Rust's `Result<T>` with the error text dropped: only success or failure is ever branched on. */
  datatype Result<+T> = Ok(value: T) | Err

  type Byte = b: int | 0 <= b < 256

  type Bytes16 = s: seq<Byte> | |s| == 16 witness seq(16, _ => 0)
  type Bytes32 = s: seq<Byte> | |s| == 32 witness seq(32, _ => 0)

  /** A 32-byte public key, the form of every node and identity name. */
  type NodeId = Bytes32

  const I64_MIN := -0x8000_0000_0000_0000
  const I64_MAX := 0x7FFF_FFFF_FFFF_FFFF
  const U64_MAX := 0xFFFF_FFFF_FFFF_FFFF

  type I64 = x: int | I64_MIN <= x <= I64_MAX
  type U64 = x: int | 0 <= x <= U64_MAX

  function Min(a: int, b: int): int { if a <= b then a else b }

  function Max(a: int, b: int): int { if a >= b then a else b }

  function Abs(x: int): nat { if x < 0 then -x else x }

  function Clamp(x: int, lo: int, hi: int): int { Max(lo, Min(x, hi)) }

  /** `i64::saturating_*`: the exact result, held inside the 64-bit range. */
  function SatI64(x: int): I64 { Clamp(x, I64_MIN, I64_MAX) }

  /** `u64::saturating_*`. */
  function SatU64(x: int): U64 { Clamp(x, 0, U64_MAX) }

  /** A text constant as bytes; every such constant is ASCII. */
  function Ascii(s: string): (r: seq<Byte>)
    ensures |r| == |s|
  {
    seq(|s|, i requires 0 <= i < |s| => s[i] as int % 256)
  }

  ghost function Range(lo: int, hi: int): (r: set<int>)
    requires lo <= hi
    ensures |r| == hi - lo && forall k :: k in r <==> lo <= k < hi
    decreases hi - lo
  {
    if lo == hi then {} else Range(lo, hi - 1) + {hi - 1}
  }
}
