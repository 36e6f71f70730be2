/** Option, and the bytes the agent handles. */
module Common {

  datatype Option<+T> = None | Some(value: T) {
    predicate IsFailure() { None? }
    function PropagateFailure<U>(): Option<U>
      requires None?
    { None }
    function Extract(): T
      requires Some?
    { value }
  }

  type Byte = b: nat | b < 256

  type Bytes = seq<Byte>

  function Max(a: int, b: int): int { if a < b then b else a }

  function Min(a: int, b: int): int { if a < b then a else b }

  /** struct.unpack_from("<H"). */
  function U16(data: Bytes, pos: nat): nat
    requires pos + 2 <= |data|
  {
    var low: nat, high: nat := data[pos], data[pos + 1];
    low + 0x100 * high
  }

  /** struct.unpack_from("<I"). */
  function U32(data: Bytes, pos: nat): nat
    requires pos + 4 <= |data|
  {
    U16(data, pos) + 0x1_0000 * U16(data, pos + 2)
  }

  /** The least significant byte comes first. */
  lemma LittleEndian(data: Bytes, pos: nat)
    requires pos + 4 <= |data|
    ensures var a: nat, b: nat, c: nat, d: nat := data[pos], data[pos + 1], data[pos + 2], data[pos + 3];
            U16(data, pos) == a + 256 * b && U32(data, pos) == a + 256 * (b + 256 * (c + 256 * d))
  {
  }
}
