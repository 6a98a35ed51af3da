/** `HilogMsg`: the fixed header of a HiLog record, declared `repr(C, packed)`,
    and `as_bytes`, which exposes its memory image. `AsBytes` writes that
    image out field by field in declaration order (see `PackedLayout`). */
module Header {
  import opened ByteOrder
  import opened MetaField
  import PackedLayout

  datatype HilogMsg = HilogMsg(
    len: bv16,
    metaBitfield: MessageMetaField,
    tvSec: bv32,
    tvNsec: bv32,
    monoSec: bv32,
    pid: bv32,
    tid: bv32,
    domain: bv32)

  /** The fields of `HilogMsg`, by name. */
  datatype FieldName = Len | MetaBitfield | TvSec | TvNsec | MonoSec | Pid | Tid | Domain

  /** The order in which the source declares the fields. */
  const DECLARATION_ORDER: seq<FieldName> :=
    [Len, MetaBitfield, TvSec, TvNsec, MonoSec, Pid, Tid, Domain]

  /** `size_of` of a field's type: `u16` and the transparent `MessageMetaField`
      take 2 bytes, `u32` takes 4. */
  function SizeOf(f: FieldName): nat {
    match f
    case Len | MetaBitfield => 2
    case _ => 4
  }

  /** The memory image of one field of `m`. */
  function FieldBytes(m: HilogMsg, f: FieldName, e: Endian): (r: seq<bv8>)
    ensures |r| == SizeOf(f)
  {
    match f
    case Len => U16Bytes(m.len, e)
    case MetaBitfield => U16Bytes(m.metaBitfield.bits, e)
    case TvSec => U32Bytes(m.tvSec, e)
    case TvNsec => U32Bytes(m.tvNsec, e)
    case MonoSec => U32Bytes(m.monoSec, e)
    case Pid => U32Bytes(m.pid, e)
    case Tid => U32Bytes(m.tid, e)
    case Domain => U32Bytes(m.domain, e)
  }

  /** `m` and `m'` hold the same value in field `f`. */
  predicate SameField(m: HilogMsg, m': HilogMsg, f: FieldName) {
    match f
    case Len => m.len == m'.len
    case MetaBitfield => m.metaBitfield == m'.metaBitfield
    case TvSec => m.tvSec == m'.tvSec
    case TvNsec => m.tvNsec == m'.tvNsec
    case MonoSec => m.monoSec == m'.monoSec
    case Pid => m.pid == m'.pid
    case Tid => m.tid == m'.tid
    case Domain => m.domain == m'.domain
  }

  /** The images of all fields of `m`, as one function of the field name. */
  function FieldImage(m: HilogMsg, e: Endian): FieldName -> seq<bv8> {
    f => FieldBytes(m, f, e)
  }

  /** Each field's image has the size of the field's type. */
  lemma FieldImageFits(m: HilogMsg, e: Endian)
    ensures PackedLayout.ImagesFit(SizeOf, FieldImage(m, e))
  {
    forall g ensures |FieldImage(m, e)(g)| == SizeOf(g) {
      assert FieldImage(m, e)(g) == FieldBytes(m, g, e);
    }
  }

  /** `size_of::<HilogMsg>()`: 2 + 2 + 6 * 4 bytes (`SizeIsPacked`). */
  const SIZE_OF_HILOG_MSG: nat := 28

  /** The offset of field `f` within `HilogMsg`: the sum of the sizes of the
      fields declared before it (`OffsetsArePacked`). */
  function Offset(f: FieldName): (r: nat)
    ensures r + SizeOf(f) <= SIZE_OF_HILOG_MSG
  {
    match f
    case Len => 0
    case MetaBitfield => 2
    case TvSec => 4
    case TvNsec => 8
    case MonoSec => 12
    case Pid => 16
    case Tid => 20
    case Domain => 24
  }

  /** `HilogMsg::as_bytes`: the struct's memory image, `size_of::<HilogMsg>()`
      bytes long, whatever the field values. Reading it leaves `m` as it is. */
  function AsBytes(m: HilogMsg, e: Endian): (r: seq<bv8>)
    ensures |r| == SIZE_OF_HILOG_MSG
  {
    FieldImageFits(m, e);
    SizeIsPacked();
    PackedLayout.ImageFrom(DECLARATION_ORDER, SizeOf, FieldImage(m, e), 0)
  }

  datatype Option<T> = None | Some(value: T)

  /** The bytes of `b` in field `f`'s range. */
  function FieldSlice(b: seq<bv8>, f: FieldName): (r: seq<bv8>)
    requires |b| == SIZE_OF_HILOG_MSG
    ensures |r| == SizeOf(f)
  {
    b[Offset(f)..Offset(f) + SizeOf(f)]
  }

  /** The inverse of `AsBytes`: reads a header back from a byte image, each
      field from its own range, and fails on an image that is not exactly
      `size_of::<HilogMsg>()` bytes long. */
  function FromBytes(b: seq<bv8>, e: Endian): (r: Option<HilogMsg>)
    ensures r.Some? <==> |b| == SIZE_OF_HILOG_MSG
  {
    if |b| != SIZE_OF_HILOG_MSG then None
    else Some(HilogMsg(
      U16FromBytes(FieldSlice(b, Len), e),
      MessageMetaField(U16FromBytes(FieldSlice(b, MetaBitfield), e)),
      U32FromBytes(FieldSlice(b, TvSec), e),
      U32FromBytes(FieldSlice(b, TvNsec), e),
      U32FromBytes(FieldSlice(b, MonoSec), e),
      U32FromBytes(FieldSlice(b, Pid), e),
      U32FromBytes(FieldSlice(b, Tid), e),
      U32FromBytes(FieldSlice(b, Domain), e)))
  }

  /** Every field is declared. */
  lemma DeclarationOrderComplete(f: FieldName)
    ensures PackedLayout.DeclaredFrom(DECLARATION_ORDER, f, 0)
  {
    var d := DECLARATION_ORDER;
    match f
    case Len => assert d[0] == f;
    case MetaBitfield => assert d[1] == f;
    case TvSec => assert d[2] == f;
    case TvNsec => assert d[3] == f;
    case MonoSec => assert d[4] == f;
    case Pid => assert d[5] == f;
    case Tid => assert d[6] == f;
    case Domain => assert d[7] == f;
  }

  /** No field is declared twice. */
  lemma DeclarationOrderDistinct()
    ensures PackedLayout.Distinct(DECLARATION_ORDER)
  {
  }

  /** A packed `HilogMsg` takes 2 + 2 + 6 * 4 = 28 bytes: no padding. */
  lemma SizeIsPacked()
    ensures PackedLayout.SizeFrom(DECLARATION_ORDER, SizeOf, 0) == SIZE_OF_HILOG_MSG
  {
  }

  /** Each field's offset is the sum of the sizes of the fields declared
      before it, and the field ends within the struct. */
  lemma OffsetsArePacked(f: FieldName)
    ensures Offset(f) == PackedLayout.OffsetFrom(DECLARATION_ORDER, SizeOf, f, 0)
    ensures Offset(f) + SizeOf(f) <= SIZE_OF_HILOG_MSG
  {
    match f
    case Len =>
    case MetaBitfield =>
    case TvSec =>
    case TvNsec =>
    case MonoSec =>
    case Pid =>
    case Tid =>
    case Domain =>
  }

  /** Each field occupies the byte range [Offset(f), Offset(f) + SizeOf(f))
      of the image, and that range holds exactly the field's own bytes. */
  lemma AsBytesFieldRange(m: HilogMsg, f: FieldName, e: Endian)
    ensures Offset(f) + SizeOf(f) <= |AsBytes(m, e)|
    ensures AsBytes(m, e)[Offset(f)..Offset(f) + SizeOf(f)] == FieldBytes(m, f, e)
  {
    OffsetsArePacked(f);
    DeclarationOrderComplete(f);
    FieldImageFits(m, e);
    PackedLayout.ImageAtOffset(DECLARATION_ORDER, SizeOf, FieldImage(m, e), f, 0);
    assert FieldImage(m, e)(f) == FieldBytes(m, f, e);
  }

  /** `b` is a header image holding the fields of `m`: it has the struct's
      size, and each field's range holds that field's bytes. */
  ghost predicate HoldsFields(b: seq<bv8>, m: HilogMsg, e: Endian) {
    |b| == SIZE_OF_HILOG_MSG
    && forall f :: FieldSlice(b, f) == FieldBytes(m, f, e)
  }

  /** The field whose byte range covers byte `i` of the header. */
  function FieldAt(i: nat): (f: FieldName)
    requires i < SIZE_OF_HILOG_MSG
    ensures Offset(f) <= i < Offset(f) + SizeOf(f)
  {
    if i < 2 then Len
    else if i < 4 then MetaBitfield
    else if i < 8 then TvSec
    else if i < 12 then TvNsec
    else if i < 16 then MonoSec
    else if i < 20 then Pid
    else if i < 24 then Tid
    else Domain
  }

  /** The image of a header holds its fields. */
  lemma AsBytesHoldsFields(m: HilogMsg, e: Endian)
    ensures HoldsFields(AsBytes(m, e), m, e)
  {
    forall f ensures FieldSlice(AsBytes(m, e), f) == FieldBytes(m, f, e) {
      AsBytesFieldRange(m, f, e);
    }
  }

  /** The field ranges cover the whole image, so the fields' bytes fix it. */
  lemma {:induction false} FieldsDetermineBytes(a: seq<bv8>, b: seq<bv8>, m: HilogMsg, e: Endian)
    requires HoldsFields(a, m, e) && HoldsFields(b, m, e)
    ensures a == b
  {
    forall i | 0 <= i < |a| ensures a[i] == b[i] {
      var f := FieldAt(i);
      var lo, hi := Offset(f), Offset(f) + SizeOf(f);
      assert a[lo..hi] == FieldSlice(a, f) == FieldSlice(b, f) == b[lo..hi];
      assert a[i] == a[lo..hi][i - lo] && b[i] == b[lo..hi][i - lo];
    }
  }

  /** Reading an image that holds the fields of `m` gives back `m`. */
  lemma FromBytesReadsFields(b: seq<bv8>, m: HilogMsg, e: Endian)
    requires HoldsFields(b, m, e)
    ensures FromBytes(b, e) == Some(m)
  {
    assert U16FromBytes(FieldSlice(b, Len), e) == m.len by {
      assert FieldSlice(b, Len) == FieldBytes(m, Len, e);
      U16RoundTrip(m.len, e);
    }
    assert U16FromBytes(FieldSlice(b, MetaBitfield), e) == m.metaBitfield.bits by {
      assert FieldSlice(b, MetaBitfield) == FieldBytes(m, MetaBitfield, e);
      U16RoundTrip(m.metaBitfield.bits, e);
    }
    assert U32FromBytes(FieldSlice(b, TvSec), e) == m.tvSec by {
      assert FieldSlice(b, TvSec) == FieldBytes(m, TvSec, e);
      U32RoundTrip(m.tvSec, e);
    }
    assert U32FromBytes(FieldSlice(b, TvNsec), e) == m.tvNsec by {
      assert FieldSlice(b, TvNsec) == FieldBytes(m, TvNsec, e);
      U32RoundTrip(m.tvNsec, e);
    }
    assert U32FromBytes(FieldSlice(b, MonoSec), e) == m.monoSec by {
      assert FieldSlice(b, MonoSec) == FieldBytes(m, MonoSec, e);
      U32RoundTrip(m.monoSec, e);
    }
    assert U32FromBytes(FieldSlice(b, Pid), e) == m.pid by {
      assert FieldSlice(b, Pid) == FieldBytes(m, Pid, e);
      U32RoundTrip(m.pid, e);
    }
    assert U32FromBytes(FieldSlice(b, Tid), e) == m.tid by {
      assert FieldSlice(b, Tid) == FieldBytes(m, Tid, e);
      U32RoundTrip(m.tid, e);
    }
    assert U32FromBytes(FieldSlice(b, Domain), e) == m.domain by {
      assert FieldSlice(b, Domain) == FieldBytes(m, Domain, e);
      U32RoundTrip(m.domain, e);
    }
  }

  /** Every 28-byte sequence holds the fields of the header read from it. */
  lemma FromBytesHoldsFields(b: seq<bv8>, e: Endian)
    requires |b| == SIZE_OF_HILOG_MSG
    ensures FromBytes(b, e).Some? && HoldsFields(b, FromBytes(b, e).value, e)
  {
    var m := FromBytes(b, e).value;
    forall f ensures FieldSlice(b, f) == FieldBytes(m, f, e) {
      match f
      case Len =>
      case MetaBitfield =>
      case TvSec =>
      case TvNsec =>
      case MonoSec =>
      case Pid =>
      case Tid =>
      case Domain =>
    }
  }

  /** Reading back the image of a header gives the same header. */
  lemma FromAsBytes(m: HilogMsg, e: Endian)
    ensures FromBytes(AsBytes(m, e), e) == Some(m)
  {
    AsBytesHoldsFields(m, e);
    FromBytesReadsFields(AsBytes(m, e), m, e);
  }

  /** Every 28-byte sequence is the image of exactly the header read from it. */
  lemma AsBytesFromBytes(b: seq<bv8>, e: Endian)
    requires |b| == SIZE_OF_HILOG_MSG
    ensures FromBytes(b, e).Some? && AsBytes(FromBytes(b, e).value, e) == b
  {
    FromBytesHoldsFields(b, e);
    var m := FromBytes(b, e).value;
    AsBytesHoldsFields(m, e);
    FieldsDetermineBytes(AsBytes(m, e), b, m, e);
  }

  /** Equal headers have equal images, and equal images come from equal headers. */
  lemma AsBytesInjective(m: HilogMsg, m': HilogMsg, e: Endian)
    ensures AsBytes(m, e) == AsBytes(m', e) <==> m == m'
  {
    FromAsBytes(m, e);
    FromAsBytes(m', e);
  }

  /** Equal values in a field give equal bytes for it, and conversely. */
  lemma FieldBytesExact(m: HilogMsg, m': HilogMsg, f: FieldName, e: Endian)
    ensures FieldBytes(m, f, e) == FieldBytes(m', f, e) <==> SameField(m, m', f)
  {
    if FieldBytes(m, f, e) == FieldBytes(m', f, e) {
      match f
      case Len => U16BytesInjective(m.len, m'.len, e);
      case MetaBitfield => U16BytesInjective(m.metaBitfield.bits, m'.metaBitfield.bits, e);
      case TvSec => U32BytesInjective(m.tvSec, m'.tvSec, e);
      case TvNsec => U32BytesInjective(m.tvNsec, m'.tvNsec, e);
      case MonoSec => U32BytesInjective(m.monoSec, m'.monoSec, e);
      case Pid => U32BytesInjective(m.pid, m'.pid, e);
      case Tid => U32BytesInjective(m.tid, m'.tid, e);
      case Domain => U32BytesInjective(m.domain, m'.domain, e);
    }
  }

  /** Headers that agree on every field but `f` have field images that
      agree on every field but `f`. */
  lemma FieldImagesAgreeExcept(m: HilogMsg, m': HilogMsg, f: FieldName, e: Endian)
    requires forall g :: g != f ==> SameField(m, m', g)
    ensures forall g :: g != f ==> FieldImage(m, e)(g) == FieldImage(m', e)(g)
  {
    forall g | g != f ensures FieldImage(m, e)(g) == FieldImage(m', e)(g) {
      FieldBytesExact(m, m', g, e);
    }
  }

  /** Changing one field of a header leaves every byte before that
      field's range as it was. */
  lemma ChangeOneFieldBefore(m: HilogMsg, m': HilogMsg, f: FieldName, e: Endian)
    requires forall g :: g != f ==> SameField(m, m', g)
    ensures AsBytes(m, e)[..Offset(f)] == AsBytes(m', e)[..Offset(f)]
  {
    OffsetsArePacked(f);
    DeclarationOrderComplete(f);
    FieldImageFits(m, e);
    FieldImageFits(m', e);
    FieldImagesAgreeExcept(m, m', f, e);
    PackedLayout.ImageBeforeField(DECLARATION_ORDER, SizeOf, FieldImage(m, e), FieldImage(m', e), f, 0);
  }

  /** Changing one field of a header leaves every byte after that
      field's range as it was. */
  lemma ChangeOneFieldAfter(m: HilogMsg, m': HilogMsg, f: FieldName, e: Endian)
    requires forall g :: g != f ==> SameField(m, m', g)
    ensures AsBytes(m, e)[Offset(f) + SizeOf(f)..] == AsBytes(m', e)[Offset(f) + SizeOf(f)..]
  {
    OffsetsArePacked(f);
    DeclarationOrderComplete(f);
    DeclarationOrderDistinct();
    FieldImageFits(m, e);
    FieldImageFits(m', e);
    FieldImagesAgreeExcept(m, m', f, e);
    PackedLayout.ImageAfterField(DECLARATION_ORDER, SizeOf, FieldImage(m, e), FieldImage(m', e), f, 0);
  }

  /** The bytes in a field's range differ exactly when the field's values differ. */
  lemma FieldRangeChangesIff(m: HilogMsg, m': HilogMsg, f: FieldName, e: Endian)
    ensures Offset(f) + SizeOf(f) <= |AsBytes(m, e)| == |AsBytes(m', e)|
    ensures AsBytes(m, e)[Offset(f)..Offset(f) + SizeOf(f)] == AsBytes(m', e)[Offset(f)..Offset(f) + SizeOf(f)]
        <==> SameField(m, m', f)
  {
    AsBytesFieldRange(m, f, e);
    AsBytesFieldRange(m', f, e);
    FieldBytesExact(m, m', f, e);
  }
}
