/** `BitBuffer` (instructor/src/bitfield.rs:41-123): one register of a bitfield group, read from and
    written to through a window `[start, end)` chosen by `set_range`. As a read buffer it is the
    `Bits` case of `Buffers.Source`; as a write sink it ORs each slice into its window. */
module Bitfield {
  import opened Errors
  import opened Ints
  import opened Bitwise
  import opened Endianness
  import opened BitStorage
  import opened Types
  import opened Buffers
  import opened Unpack
  import opened Pack
  import Readers
  import RoundTrip

  /** `buf` right-justified in a zeroed array of w bytes: `buffer[w - buf.len()..] = buf`. */
  function RightJustify(w: nat, buf: seq<Byte>): (r: seq<Byte>)
    requires |buf| <= w
    ensures |r| == w && r[w - |buf|..] == buf
    ensures forall i :: 0 <= i < w - |buf| ==> r[i] == 0
    ensures BeValue(r) == BeValue(buf)
  {
    BeValueLeadingZeros(w - |buf|, buf);
    seq(w - |buf|, _ => 0) + buf
  }

  /** The register after `extend_from_slice` of each chunk in turn into the window `[start, end)`. */
  function ExtendAll(s: Storage, reg: nat, start: nat, end: nat, chunks: seq<seq<Byte>>): (r: nat)
    requires ValidRange(s, start, end)
    requires forall i :: 0 <= i < |chunks| ==> |chunks[i]| <= s.Width()
    ensures ValidReg(s, reg) ==> ValidReg(s, r)
    decreases |chunks|
  {
    if |chunks| == 0 then reg
    else ExtendAll(s, Insert(s, reg, start, end, RightJustify(s.Width(), chunks[0])), start, end, chunks[1..])
  }

  /** Extending by chunks never clears a bit: every bit of the register before is set after. */
  lemma {:induction false} ExtendAllKeepsBits(s: Storage, reg: nat, start: nat, end: nat, chunks: seq<seq<Byte>>, i: nat)
    requires ValidRange(s, start, end)
    requires forall j :: 0 <= j < |chunks| ==> |chunks[j]| <= s.Width()
    requires Bit(reg, i)
    ensures Bit(ExtendAll(s, reg, start, end, chunks), i)
    decreases |chunks|
  {
    if |chunks| > 0 {
      var reg' := Insert(s, reg, start, end, RightJustify(s.Width(), chunks[0]));
      BitOfInsert(s, reg, start, end, RightJustify(s.Width(), chunks[0]), i);
      ExtendAllKeepsBits(s, reg', start, end, chunks[1..], i);
    }
  }

  /** Extending by chunks leaves every bit outside the window as it was. */
  lemma {:induction false} ExtendAllOutside(s: Storage, reg: nat, start: nat, end: nat, chunks: seq<seq<Byte>>, i: nat)
    requires ValidRange(s, start, end)
    requires forall j :: 0 <= j < |chunks| ==> |chunks[j]| <= s.Width()
    requires !(start <= i < end)
    ensures Bit(ExtendAll(s, reg, start, end, chunks), i) == Bit(reg, i)
    decreases |chunks|
  {
    if |chunks| > 0 {
      var reg' := Insert(s, reg, start, end, RightJustify(s.Width(), chunks[0]));
      BitOfInsert(s, reg, start, end, RightJustify(s.Width(), chunks[0]), i);
      ExtendAllOutside(s, reg', start, end, chunks[1..], i);
    }
  }

  /** The value of type k whose bit pattern is x's, cut to its low w bits; a value whose pattern
      fits in w bits is kept. */
  function Cut(k: IntKind, x: int, w: nat): (r: int)
    requires InRange(k, x)
    ensures InRange(k, r)
    ensures Pattern(k, x) < Pow2(w) ==> r == x
  {
    var p := Pattern(k, x);
    ModAtMost(p, Pow2(w));
    FromPatternOfPattern(k, x);
    FromPattern(k, p % Pow2(w))
  }

  /** An integer decoded from a register reads the last `size_of::<T>()` bytes of the window and
      leaves the register as it was. */
  lemma DecodeIntFromBits(s: Storage, reg: nat, start: nat, end: nat, remaining: nat, k: IntKind, e: Endian)
    requires ValidRange(s, start, end) && k.Size() <= s.Width()
    ensures
      var src := Bits(s, reg, start, end, remaining);
      Decode(Prim(k), e, src)
        == Ok((IntV(ReadPrimitive(e, k, Extract(s, reg, start, end)[s.Width() - k.Size()..])), src))
  {
    CopyOutBits(s, reg, start, end, remaining, k.Size());
  }

  /** A bits field round-trips through a clear window: an integer written big-endian into
      `[start, end)` of a register whose window is zero is read back, big-endian, as its bit pattern
      cut to `end - start` bits, so a value that fits the window comes back unchanged. */
  lemma BitsFieldRoundTrip(s: Storage, reg: nat, start: nat, end: nat, remaining: nat, k: IntKind, x: int)
    requires ValidRange(s, start, end) && Window(reg, start, end) == 0
    requires k.Size() <= s.Width() && InRange(k, x)
    ensures
      var reg' := Insert(s, reg, start, end, RightJustify(s.Width(), WritePrimitive(BigEndian, k, x)));
      var src := Bits(s, reg', start, end, remaining);
      Decode(Prim(k), BigEndian, src) == Ok((IntV(Cut(k, x, end - start)), src))
  {
    var n := k.Size();
    var p := Pattern(k, x);
    ModulusIsPow256(k);
    assert WritePrimitive(BigEndian, k, x) == BeBytes(n, p);
    var reg' := Insert(s, reg, start, end, RightJustify(s.Width(), BeBytes(n, p)));
    ClearInsertTail(s, reg, start, end, n, p);
    ReadCut(k, x, end - start);
    DecodeTail(s, reg', start, end, remaining, k, BeBytes(n, p % Pow2(end - start)));
  }

  /** An integer decoded from a register whose window ends with the bytes tail reads tail. */
  lemma DecodeTail(s: Storage, reg: nat, start: nat, end: nat, remaining: nat, k: IntKind, tail: seq<Byte>)
    requires ValidRange(s, start, end) && k.Size() <= s.Width() && |tail| == k.Size()
    requires Extract(s, reg, start, end)[s.Width() - k.Size()..] == tail
    ensures Decode(Prim(k), BigEndian, Bits(s, reg, start, end, remaining))
            == Ok((IntV(ReadPrimitive(BigEndian, k, tail)), Bits(s, reg, start, end, remaining)))
  {
    DecodeIntFromBits(s, reg, start, end, remaining, k, BigEndian);
  }

  /** Reading back the big-endian bytes of x's pattern cut to w bits gives x cut to w bits. */
  lemma ReadCut(k: IntKind, x: int, w: nat)
    requires InRange(k, x)
    ensures Pattern(k, x) % Pow2(w) < Pow256(k.Size())
    ensures ReadPrimitive(BigEndian, k, BeBytes(k.Size(), Pattern(k, x) % Pow2(w))) == Cut(k, x, w)
  {
    var p := Pattern(k, x);
    ModulusIsPow256(k);
    ModAtMost(p, Pow2(w));
    BeValueOfBeBytes(k.Size(), p % Pow2(w));
  }

  /** The last n bytes extracted from a clear window after inserting the n-byte big-endian p are the
      n-byte big-endian p, cut to the window. */
  lemma ClearInsertTail(s: Storage, reg: nat, start: nat, end: nat, n: nat, p: nat)
    requires ValidRange(s, start, end) && Window(reg, start, end) == 0
    requires n <= s.Width() && p < Pow256(n)
    ensures
      var ex := Extract(s, Insert(s, reg, start, end, RightJustify(s.Width(), BeBytes(n, p))), start, end);
      ex[s.Width() - n..] == BeBytes(n, p % Pow2(end - start))
  {
    BeValueOfBeBytes(n, p);
    var padded := RightJustify(s.Width(), BeBytes(n, p));
    ExtractOfInsert(s, reg, start, end, padded);
    var ex := Extract(s, Insert(s, reg, start, end, padded), start, end);
    ModAtMost(p, Pow2(end - start));
    TailOfBeBytes(ex, n, p % Pow2(end - start));
  }

  lemma ModAtMost(p: nat, m: nat)
    requires m > 0
    ensures p % m <= p
    ensures p < m ==> p % m == p
  {
  }

  /** A big-endian array whose value fits n bytes ends with that value's n-byte encoding. */
  lemma TailOfBeBytes(ex: seq<Byte>, n: nat, v: nat)
    requires n <= |ex| && BeValue(ex) == v && v < Pow256(n)
    ensures ex[|ex| - n..] == BeBytes(n, v)
  {
    BeBytesOfBeValue(ex);
    BeBytesSuffix(|ex|, n, v);
  }

  /** A bitfield register together with its current window and the byte count of the buffer it was
      read from. */
  class BitBuffer {
    const kind: Storage
    var storage: nat
    var start: nat
    var end: nat
    var remaining: nat

    ghost predicate Valid()
      reads this
    {
      ValidReg(kind, storage)
    }

    /** The buffer as a `Source`. */
    function Model(): Source
      reads this
    {
      Bits(kind, storage, start, end, remaining)
    }

    constructor Init(kind: Storage, storage: nat, remaining: nat)
      requires ValidReg(kind, storage)
      ensures Valid() && this.kind == kind && this.storage == storage && this.remaining == remaining
      ensures start == 0 && end == 0
    {
      this.kind := kind;
      this.storage := storage;
      this.start := 0;
      this.end := 0;
      this.remaining := remaining;
    }

    /** `BitBuffer::empty`: a zero register, an empty range and nothing remaining. */
    constructor Empty(kind: Storage)
      ensures Valid() && this.kind == kind
      ensures storage == 0 && start == 0 && end == 0 && remaining == 0
    {
      this.kind := kind;
      this.storage := 0;
      this.start := 0;
      this.end := 0;
      this.remaining := 0;
    }

    /** `BitBuffer::new::<E>(source)`: decodes the register from source with byte order e, then
        records how many bytes source has left; the range starts empty. */
    static method New(kind: Storage, e: Endian, source: ByteCursor) returns (r: Result<BitBuffer, Error>)
      requires source.Valid()
      modifies source
      ensures source.Valid() && source.data == old(source.data)
      ensures r.Ok? <==> Decode(StorageTy(kind), e, Cursor(old(source.Rest()))).Ok?
      ensures r.Err? ==> r.error == TooShort
      ensures r.Ok? ==>
        var (v, after) := Decode(StorageTy(kind), e, Cursor(old(source.Rest()))).value;
        && fresh(r.value) && r.value.Valid() && r.value.kind == kind
        && r.value.storage == RegisterOf(v) && r.value.start == 0 && r.value.end == 0
        && after == Cursor(source.Rest()) && r.value.remaining == |source.Rest()|
    {
      var v := Readers.Read(source, StorageTy(kind), e);
      if v.Err? {
        DecodeStorageErr(kind, e, old(source.Rest()));
        return Err(v.error);
      }
      RegisterOfValid(kind, v.value);
      var b := new BitBuffer.Init(kind, RegisterOf(v.value), source.Remaining());
      r := Ok(b);
    }

    /** `set_range(start, end)`: moves the window and changes nothing else. */
    method SetRange(start: nat, end: nat)
      modifies this
      ensures this.start == start && this.end == end
      ensures storage == old(storage) && remaining == old(remaining)
    {
      this.start := start;
      this.end := end;
    }

    /** `remaining()`: the count recorded by `new`. */
    function Remaining(): (n: nat)
      reads this
      ensures n == Buffers.Remaining(Model())
    {
      remaining
    }

    /** `try_copy_to_slice` into `buf[lo..hi]`: fails with `TooShort` exactly when the slice is
        longer than the register; otherwise copies the last `hi - lo` bytes of the extracted window.
        It changes nothing of the buffer itself. */
    method TryCopyToSlice(buf: array<Byte>, lo: nat, hi: nat) returns (r: Result<(), Error>)
      requires ValidRange(kind, start, end) && lo <= hi <= buf.Length
      modifies buf
      ensures r.Err? <==> kind.Width() < hi - lo
      ensures r.Ok? <==> CopyOut(Model(), hi - lo).Ok?
      ensures r.Err? ==> r.error == TooShort && buf[..] == old(buf[..])
      ensures r.Ok? ==> (buf[lo..hi], Model()) == CopyOut(Model(), hi - lo).value
      ensures r.Ok? ==> buf[..lo] == old(buf[..lo]) && buf[hi..] == old(buf[hi..])
    {
      var own := Extract(kind, storage, start, end);
      if |own| < hi - lo {
        return Err(TooShort);
      }
      var from := |own| - (hi - lo);
      forall i | lo <= i < hi {
        buf[i] := own[from + i - lo];
      }
      assert buf[lo..hi] == own[from..];
      r := Ok(());
    }

    /** `extend_from_slice(buf)`: buf, right-justified in a zeroed register-sized array, is ORed into
        the window. A slice longer than the register panics. */
    method ExtendFromSlice(buf: seq<Byte>)
      requires Valid() && ValidRange(kind, start, end) && |buf| <= kind.Width()
      modifies this
      ensures start == old(start) && end == old(end) && remaining == old(remaining)
      ensures Valid()
      ensures storage == Insert(kind, old(storage), start, end, RightJustify(kind.Width(), buf))
    {
      var w := kind.Width();
      var padded := new Byte[w](_ => 0);
      forall i | w - |buf| <= i < w {
        padded[i] := buf[i - (w - |buf|)];
      }
      assert padded[..] == RightJustify(w, buf);
      storage := Insert(kind, storage, start, end, padded[..]);
    }

    /** `write::<T, E>(v)` into the register for a type written with at most one
        `extend_from_slice` call: the register is as `ExtendAll` says of T's chunks. */
    method WriteLeaf(t: Ty, e: Endian, v: Value)
      requires Valid() && ValidRange(kind, start, end)
      requires Encodable(t) && WellFormed(t) && HasType(v, t) && Leaf(t)
      requires forall i :: 0 <= i < |Chunks(t, e, v)| ==> |Chunks(t, e, v)[i]| <= kind.Width()
      modifies this
      ensures start == old(start) && end == old(end) && remaining == old(remaining)
      ensures Valid()
      ensures storage == ExtendAll(kind, old(storage), start, end, Chunks(t, e, v))
    {
      var chunks := Chunks(t, e, v);
      LeafChunks(t, e, v);
      if |chunks| == 1 {
        ExtendFromSlice(chunks[0]);
        assert chunks[1..] == [];
      }
    }

    /** `write_to_buffer` of the buffer itself: only the register, with the outer byte order. */
    method WriteToBuffer(e: Endian, sink: ByteSink)
      requires Valid()
      modifies sink
      ensures sink.bytes == old(sink.bytes) + Encode(StorageTy(kind), e, RegisterValue(kind, storage))
    {
      Write(sink, StorageTy(kind), e, RegisterValue(kind, storage));
    }
  }

  /** Decoding a register only fails for want of bytes. */
  lemma DecodeStorageErr(s: Storage, e: Endian, bytes: seq<Byte>)
    requires Decode(StorageTy(s), e, Cursor(bytes)).Err?
    ensures Decode(StorageTy(s), e, Cursor(bytes)).error == TooShort
  {
  }

  /** The register written by `write_to_buffer` is the one `new` reads back. */
  lemma RegisterRoundTrip(s: Storage, e: Endian, reg: nat, rest: seq<Byte>)
    requires ValidReg(s, reg)
    ensures
      var v := RegisterValue(s, reg);
      var d := Decode(StorageTy(s), e, Cursor(Encode(StorageTy(s), e, v) + rest));
      d.Ok? && RegisterOf(d.value.0) == reg && d.value.1 == Cursor(rest)
  {
    var v := RegisterValue(s, reg);
    var t := StorageTy(s);
    assert RoundTrip.Framed(t, v, |rest|) by {
      assert !t.LengthOf? && !t.Enum?;
    }
    RoundTrip.DecodeEncode(t, e, v, rest);
  }
}
