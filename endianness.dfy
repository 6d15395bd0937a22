/** The two byte orders of instructor/src/lib.rs and the index mapping `map_index` that places a
    narrower value inside a wider array. */
module Endianness {

  /** The only two types implementing `Endian` (lib.rs:18-31). */
  datatype Endian = LittleEndian | BigEndian

  /** `NetworkEndian` is an alias of `BigEndian`. */
  const NetworkEndian: Endian := BigEndian

  /** `E::map_index(n, m)`: the sub-range `lo..hi` of an m-byte array that an n-byte value occupies.
      Little endian puts it at the front, big endian at the back; the `m - n` of the big-endian
      case is a usize subtraction, so it needs n <= m. */
  function MapIndex(e: Endian, n: nat, m: nat): (r: (nat, nat))
    requires e.BigEndian? ==> n <= m
    ensures r.1 - r.0 == n
    ensures e.LittleEndian? ==> r.0 == 0
    ensures e.BigEndian? ==> r.1 == m
    ensures n <= m ==> r.0 <= r.1 <= m
  {
    match e
    case LittleEndian => (0, n)
    case BigEndian => (m - n, m)
  }

  /** The endianness parameter of a derived impl: fixed by `#[instructor(endian = ...)]`, or generic
      over E (instructor-derive-internals/src/attr.rs:5-10). */
  datatype EndianAttr = Little | Big | Generic

  /** The byte order a derived impl uses when its caller asks for e. A fixed attribute fixes the only
      order the impl exists at (the derive emits `Exstruct<LittleEndian>` or `Exstruct<BigEndian>`
      only), and the impl reads and writes in that order. A request at the other order would not
      compile; the model does not reject it and uses the fixed order. A generic impl uses e. */
  function Resolve(attr: EndianAttr, e: Endian): (r: Endian)
    ensures attr.Little? ==> r == LittleEndian
    ensures attr.Big? ==> r == BigEndian
    ensures attr.Generic? ==> r == e
  {
    match attr
    case Little => LittleEndian
    case Big => BigEndian
    case Generic => e
  }

  /** Both mappings select the same number of bytes, and they coincide exactly when the value fills
      the array. */
  lemma MapIndexAgree(n: nat, m: nat)
    requires n <= m
    ensures MapIndex(LittleEndian, n, m).1 - MapIndex(LittleEndian, n, m).0
         == MapIndex(BigEndian, n, m).1 - MapIndex(BigEndian, n, m).0
    ensures MapIndex(LittleEndian, n, m) == MapIndex(BigEndian, n, m) <==> n == m
  {
  }
}
