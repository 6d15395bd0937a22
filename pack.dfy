/** Encoding (`Instruct`, instructor/src/pack.rs): what `write_to_buffer` hands to the sink. An
    encoding is the sequence of `extend_from_slice` calls it makes (`Chunks`); a byte sink appends
    them all (`Encode`), a bitfield register ORs each one into its window. Covers the types of
    pack.rs, `Length` and `u24` from instructor/src/utils.rs, and the impls `derive(Instruct)`
    generates for enums (instructor-derive-internals/src/pack.rs:105-172). */
module Pack {
  import opened Errors
  import opened Ints
  import opened Endianness
  import opened Types
  import opened Buffers

  /** `WritePrimitive`: `to_le_bytes` for little endian, `to_be_bytes` for big endian. */
  function WritePrimitive(e: Endian, k: IntKind, v: int): (bs: seq<Byte>)
    requires InRange(k, v)
    ensures |bs| == k.Size()
    ensures e.LittleEndian? ==> bs == ToLeBytes(k, v)
    ensures e.BigEndian? ==> bs == ToBeBytes(k, v)
  {
    match e
    case LittleEndian => ToLeBytes(k, v)
    case BigEndian => ToBeBytes(k, v)
  }

  /** The two byte orders write reversed arrays. */
  lemma WritePrimitiveReversed(k: IntKind, v: int)
    requires InRange(k, v)
    ensures WritePrimitive(BigEndian, k, v) == Reverse(WritePrimitive(LittleEndian, k, v))
  {
    ToBeIsToLeReversed(k, v);
    ReverseReverse(WritePrimitive(BigEndian, k, v));
  }

  lemma {:induction false} ReverseReverse<T>(s: seq<T>)
    ensures Reverse(Reverse(s)) == s
    decreases |s|
  {
    if |s| > 0 {
      var init := s[..|s| - 1];
      assert Reverse(s) == [s[|s| - 1]] + Reverse(init);
      ReverseCons(s[|s| - 1], Reverse(init));
      ReverseReverse(init);
      assert s == init + [s[|s| - 1]];
    }
  }

  lemma {:induction false} ReverseCons<T>(x: T, s: seq<T>)
    ensures Reverse([x] + s) == Reverse(s) + [x]
    decreases |s|
  {
    var t := [x] + s;
    if |s| > 0 {
      var init := s[..|s| - 1];
      assert t[|t| - 1] == s[|s| - 1];
      assert t[..|t| - 1] == [x] + init;
      ReverseCons(x, init);
      assert Reverse(t) == [s[|s| - 1]] + (Reverse(init) + [x]);
      assert Reverse(s) == [s[|s| - 1]] + Reverse(init);
    } else {
      assert t == [x];
      assert t[..0] == [];
    }
  }

  /** The discriminant a repr enum value carries (the `transmute_copy` to the repr type). */
  function Discriminant(decl: EnumDecl, index: nat): int
    requires index < |decl.variants| && decl.variants[index].discr.Some?
  {
    decl.variants[index].discr.value
  }

  /** The `extend_from_slice` calls `write_to_buffer` makes, in order. */
  function Chunks(t: Ty, e: Endian, v: Value): (r: seq<seq<Byte>>)
    requires Encodable(t) && WellFormed(t) && HasType(v, t)
    decreases t, 0
  {
    match t
    case Prim(k) => [WritePrimitive(e, k, v.i)]
    case ByteArray(_) => [v.bs]
    case Unit => []
    case Bool => [WritePrimitive(e, U8, if v.b then 1 else 0)]
    case Bytes => [v.bs]
    case VecOf(el) => ChunksEach(el, e, v.items)
    case Tuple(items) => ChunksAll(items, e, v.items)
    case LengthOf(k, _) => [WritePrimitive(e, k, v.len)]
    case U24 =>
      Pow256IsU32();
      var data := WritePrimitive(e, U32, v.u);
      var range := MapIndex(e, 3, 4);
      [data[range.0..range.1]]
    case Enum(decl) =>
      if decl.repr.Some? then
        [WritePrimitive(Resolve(decl.attr, e), decl.repr.value, Discriminant(decl, v.index))]
      else
        ChunksAll(decl.variants[v.index].fields, Resolve(decl.attr, e), v.fields)
  }

  lemma Pow256IsU32()
    ensures U32.Modulus() == 0x1_0000_0000 && U24_MAX < U32.Modulus()
  {
  }

  /** The calls of `Vec<T>`'s `for item in self { buffer.write(item) }`. */
  function ChunksEach(el: Ty, e: Endian, items: seq<Value>): (r: seq<seq<Byte>>)
    requires Encodable(el) && WellFormed(el)
    requires forall i :: 0 <= i < |items| ==> HasType(items[i], el)
    decreases el, |items|
  {
    if |items| == 0 then []
    else ChunksEach(el, e, items[..|items| - 1]) + Chunks(el, e, items[|items| - 1])
  }

  /** The calls of writing each component (a tuple's, or a data variant's fields) in order. */
  function ChunksAll(ts: seq<Ty>, e: Endian, vs: seq<Value>): (r: seq<seq<Byte>>)
    requires |ts| == |vs|
    requires forall i :: 0 <= i < |ts| ==> Encodable(ts[i]) && WellFormed(ts[i]) && HasType(vs[i], ts[i])
    decreases ts, 0
  {
    if |ts| == 0 then []
    else ChunksAll(ts[..|ts| - 1], e, vs[..|vs| - 1]) + Chunks(ts[|ts| - 1], e, vs[|vs| - 1])
  }

  function Flatten(chunks: seq<seq<Byte>>): seq<Byte> {
    if |chunks| == 0 then [] else chunks[0] + Flatten(chunks[1..])
  }

  lemma {:induction false} FlattenAppend(a: seq<seq<Byte>>, b: seq<seq<Byte>>)
    ensures Flatten(a + b) == Flatten(a) + Flatten(b)
    decreases |a|
  {
    if |a| > 0 {
      assert (a + b)[1..] == a[1..] + b;
      FlattenAppend(a[1..], b);
    } else {
      assert a + b == b;
    }
  }

  /** The bytes `write_to_buffer` appends to a byte sink. */
  function Encode(t: Ty, e: Endian, v: Value): seq<Byte>
    requires Encodable(t) && WellFormed(t) && HasType(v, t)
  {
    Flatten(Chunks(t, e, v))
  }

  /** The reference reading of "each component, concatenated in declared order". */
  function EncodeSeq(ts: seq<Ty>, e: Endian, vs: seq<Value>): seq<Byte>
    requires |ts| == |vs|
    requires forall i :: 0 <= i < |ts| ==> Encodable(ts[i]) && WellFormed(ts[i]) && HasType(vs[i], ts[i])
  {
    if |ts| == 0 then []
    else EncodeSeq(ts[..|ts| - 1], e, vs[..|vs| - 1]) + Encode(ts[|ts| - 1], e, vs[|vs| - 1])
  }

  lemma {:induction false} FlattenChunksAll(ts: seq<Ty>, e: Endian, vs: seq<Value>)
    requires |ts| == |vs|
    requires forall i :: 0 <= i < |ts| ==> Encodable(ts[i]) && WellFormed(ts[i]) && HasType(vs[i], ts[i])
    ensures Flatten(ChunksAll(ts, e, vs)) == EncodeSeq(ts, e, vs)
    decreases |ts|
  {
    if |ts| > 0 {
      var n := |ts| - 1;
      FlattenAppend(ChunksAll(ts[..n], e, vs[..n]), Chunks(ts[n], e, vs[n]));
      FlattenChunksAll(ts[..n], e, vs[..n]);
    }
  }

  /** An integer appends `size_of::<T>()` bytes: `to_le_bytes` or `to_be_bytes`. */
  lemma EncodePrim(k: IntKind, e: Endian, v: int)
    requires InRange(k, v)
    ensures Encode(Prim(k), e, IntV(v)) == WritePrimitive(e, k, v)
    ensures |Encode(Prim(k), e, IntV(v))| == k.Size()
  {
    assert Flatten([WritePrimitive(e, k, v)]) == WritePrimitive(e, k, v) + [];
  }

  /** `[u8; N]` and `Bytes` append exactly their bytes; `()` appends nothing. */
  lemma EncodeBytes(n: nat, e: Endian, bs: seq<Byte>)
    ensures |bs| == n ==> Encode(ByteArray(n), e, BytesV(bs)) == bs
    ensures Encode(Bytes, e, BytesV(bs)) == bs
    ensures Encode(Unit, e, UnitV) == []
  {
    assert Flatten([bs]) == bs + [];
  }

  /** `bool` is one byte, 1 for true and 0 for false. */
  lemma EncodeBool(e: Endian, b: bool)
    ensures Encode(Bool, e, BoolV(b)) == [if b then 1 else 0]
  {
    var x: Byte := if b then 1 else 0;
    assert Flatten([WritePrimitive(e, U8, x)]) == WritePrimitive(e, U8, x) + [];
    assert LeBytes(0, x / 256) == [] && BeBytes(0, x / 256) == [];
  }

  /** `Vec<T>` appends its items' encodings in order: nothing for an empty vector, and one more
      item's encoding for each item added at the end. */
  lemma EncodeVec(el: Ty, e: Endian, xs: seq<Value>, x: Value)
    requires Encodable(el) && WellFormed(el) && HasType(x, el)
    requires forall i :: 0 <= i < |xs| ==> HasType(xs[i], el)
    ensures Encode(VecOf(el), e, ListV([])) == []
    ensures Encode(VecOf(el), e, ListV(xs + [x])) == Encode(VecOf(el), e, ListV(xs)) + Encode(el, e, x)
  {
    assert Chunks(VecOf(el), e, ListV([])) == [];
    ChunksEachSnoc(el, e, xs, x);
  }

  /** A tuple appends its components' encodings in declared order. */
  lemma EncodeTuple(ts: seq<Ty>, e: Endian, vs: seq<Value>)
    requires WellFormed(Tuple(ts)) && Encodable(Tuple(ts)) && HasType(ListV(vs), Tuple(ts))
    ensures Encode(Tuple(ts), e, ListV(vs)) == EncodeSeq(ts, e, vs)
  {
    FlattenChunksAll(ts, e, vs);
  }

  /** `Length` writes its inner value only; the offset plays no part. */
  lemma EncodeLength(k: IntKind, off: int, off': int, e: Endian, len: int)
    requires InRange(k, len) && ISIZE_MIN <= off <= ISIZE_MAX && ISIZE_MIN <= off' <= ISIZE_MAX
    ensures Encode(LengthOf(k, off), e, LengthV(len)) == Encode(Prim(k), e, IntV(len))
    ensures Encode(LengthOf(k, off), e, LengthV(len)) == Encode(LengthOf(k, off'), e, LengthV(len))
  {
  }

  /** A repr enum writes its discriminant as the repr integer, in the enum's byte order. */
  lemma EncodeIntEnum(decl: EnumDecl, e: Endian, index: nat)
    requires WellFormed(Enum(decl)) && Encodable(Enum(decl)) && decl.repr.Some?
    requires index < |decl.variants|
    ensures HasType(VariantV(index, []), Enum(decl)) <==> decl.variants[index].fields == []
    ensures decl.variants[index].fields == [] ==>
      Encode(Enum(decl), e, VariantV(index, []))
        == Encode(Prim(decl.repr.value), Resolve(decl.attr, e), IntV(Discriminant(decl, index)))
  {
  }

  /** A data enum writes the active variant's fields in declared order; a unit variant writes
      nothing. */
  lemma EncodeDataEnum(decl: EnumDecl, e: Endian, index: nat, fields: seq<Value>)
    requires WellFormed(Enum(decl)) && Encodable(Enum(decl)) && decl.repr.None?
    requires HasType(VariantV(index, fields), Enum(decl))
    ensures Encode(Enum(decl), e, VariantV(index, fields))
         == EncodeSeq(decl.variants[index].fields, Resolve(decl.attr, e), fields)
    ensures decl.variants[index].fields == [] ==> Encode(Enum(decl), e, VariantV(index, fields)) == []
  {
    FlattenChunksAll(decl.variants[index].fields, Resolve(decl.attr, e), fields);
  }

  /** u24 writes three bytes: the u32 encoding without its high byte. */
  lemma EncodeU24(e: Endian, u: nat)
    requires u <= U24_MAX
    ensures |Encode(U24, e, U24V(u))| == 3
  {
    var data := WritePrimitive(e, U32, u);
    var range := MapIndex(e, 3, 4);
    assert Flatten([data[range.0..range.1]]) == data[range.0..range.1] + [];
  }

  /** Types written with one `extend_from_slice` call, or none. */
  predicate Leaf(t: Ty) {
    !t.VecOf? && !t.Tuple? && !(t.Enum? && t.decl.repr.None?)
  }

  lemma LeafChunks(t: Ty, e: Endian, v: Value)
    requires Encodable(t) && WellFormed(t) && HasType(v, t) && Leaf(t)
    ensures |Chunks(t, e, v)| <= 1
    ensures Encode(t, e, v) == if |Chunks(t, e, v)| == 1 then Chunks(t, e, v)[0] else []
  {
    var chunks := Chunks(t, e, v);
    if |chunks| == 1 {
      assert chunks[1..] == [];
      assert Encode(t, e, v) == chunks[0] + Flatten(chunks[1..]);
    }
  }

  /** `write_to_buffer` into a byte sink: appends `Encode(t, e, v)`. Vectors, tuples and data
      variants write their parts one after another. */
  method Write(sink: ByteSink, t: Ty, e: Endian, v: Value)
    requires Encodable(t) && WellFormed(t) && HasType(v, t)
    modifies sink
    ensures sink.bytes == old(sink.bytes) + Encode(t, e, v)
    decreases t, 0
  {
    if t.VecOf? {
      WriteEach(sink, t.elem, e, v.items);
      assert Chunks(t, e, v) == ChunksEach(t.elem, e, v.items);
    } else if t.Tuple? {
      WriteAll(sink, t.items, e, v.items);
      assert Chunks(t, e, v) == ChunksAll(t.items, e, v.items);
      FlattenChunksAll(t.items, e, v.items);
    } else if t.Enum? && t.decl.repr.None? {
      var fields := t.decl.variants[v.index].fields;
      WriteAll(sink, fields, Resolve(t.decl.attr, e), v.fields);
      assert Chunks(t, e, v) == ChunksAll(fields, Resolve(t.decl.attr, e), v.fields);
      FlattenChunksAll(fields, Resolve(t.decl.attr, e), v.fields);
    } else {
      var chunks := Chunks(t, e, v);
      LeafChunks(t, e, v);
      if |chunks| == 1 {
        sink.ExtendFromSlice(chunks[0]);
      }
    }
  }

  /** `Vec<T>`'s `for item in self { buffer.write::<T, E>(item) }`. */
  method WriteEach(sink: ByteSink, el: Ty, e: Endian, items: seq<Value>)
    requires Encodable(el) && WellFormed(el)
    requires forall i :: 0 <= i < |items| ==> HasType(items[i], el)
    modifies sink
    ensures sink.bytes == old(sink.bytes) + Flatten(ChunksEach(el, e, items))
    decreases el, 1
  {
    for i := 0 to |items|
      invariant sink.bytes == old(sink.bytes) + Flatten(ChunksEach(el, e, items[..i]))
    {
      ghost var done := Flatten(ChunksEach(el, e, items[..i]));
      Write(sink, el, e, items[i]);
      ChunksEachStep(el, e, items, i);
      AppendAssoc(old(sink.bytes), done, Encode(el, e, items[i]));
    }
    TakeAll(items);
  }

  /** Writes each component in declared order: appends `EncodeSeq(ts, e, vs)`. */
  method WriteAll(sink: ByteSink, ts: seq<Ty>, e: Endian, vs: seq<Value>)
    requires |ts| == |vs|
    requires forall i :: 0 <= i < |ts| ==> Encodable(ts[i]) && WellFormed(ts[i]) && HasType(vs[i], ts[i])
    modifies sink
    ensures sink.bytes == old(sink.bytes) + EncodeSeq(ts, e, vs)
    decreases ts, 1
  {
    for i := 0 to |ts|
      invariant sink.bytes == old(sink.bytes) + EncodeSeq(ts[..i], e, vs[..i])
    {
      ghost var done := EncodeSeq(ts[..i], e, vs[..i]);
      Write(sink, ts[i], e, vs[i]);
      EncodeSeqSnoc(ts[..i], e, vs[..i], ts[i], vs[i]);
      TakeSnoc(ts, i + 1);
      TakeSnoc(vs, i + 1);
      AppendAssoc(old(sink.bytes), done, Encode(ts[i], e, vs[i]));
    }
    TakeAll(ts);
    TakeAll(vs);
  }

  lemma ChunksEachAppend(el: Ty, e: Endian, items: seq<Value>, x: Value)
    requires Encodable(el) && WellFormed(el) && HasType(x, el)
    requires forall i :: 0 <= i < |items| ==> HasType(items[i], el)
    ensures ChunksEach(el, e, items + [x]) == ChunksEach(el, e, items) + Chunks(el, e, x)
  {
    SnocParts(items, x);
  }

  lemma ChunksEachSnoc(el: Ty, e: Endian, items: seq<Value>, x: Value)
    requires Encodable(el) && WellFormed(el) && HasType(x, el)
    requires forall i :: 0 <= i < |items| ==> HasType(items[i], el)
    ensures Flatten(ChunksEach(el, e, items + [x])) == Flatten(ChunksEach(el, e, items)) + Encode(el, e, x)
  {
    ChunksEachAppend(el, e, items, x);
    FlattenAppend(ChunksEach(el, e, items), Chunks(el, e, x));
  }

  lemma ChunksEachStep(el: Ty, e: Endian, items: seq<Value>, i: nat)
    requires Encodable(el) && WellFormed(el) && i < |items|
    requires forall k :: 0 <= k < |items| ==> HasType(items[k], el)
    ensures Flatten(ChunksEach(el, e, items[..i + 1])) == Flatten(ChunksEach(el, e, items[..i])) + Encode(el, e, items[i])
  {
    TakeSnoc(items, i + 1);
    ChunksEachSnoc(el, e, items[..i], items[i]);
  }

  lemma EncodeSeqSnoc(ts: seq<Ty>, e: Endian, vs: seq<Value>, t: Ty, v: Value)
    requires |ts| == |vs|
    requires forall i :: 0 <= i < |ts| ==> Encodable(ts[i]) && WellFormed(ts[i]) && HasType(vs[i], ts[i])
    requires Encodable(t) && WellFormed(t) && HasType(v, t)
    ensures EncodeSeq(ts + [t], e, vs + [v]) == EncodeSeq(ts, e, vs) + Encode(t, e, v)
  {
    SnocParts(ts, t);
    SnocParts(vs, v);
  }
}
