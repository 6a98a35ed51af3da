/** `MessageMetaField`: the 16-bit packed field of the HiLog header. The
    source's doc comment gives its layout as the C bitfield

      uint16_t version : 3;   bits [0, 3)
      uint16_t type    : 4;   bits [3, 7)
      uint16_t level   : 3;   bits [7, 10)
      uint16_t tagLen  : 6;   bits [10, 16)

    The source's constructor does not follow that layout: it shifts `level`
    by VERSION_OFFSET instead of LEVEL_OFFSET. `PackAsWritten` is that
    constructor as written, `PackDocumented` the documented layout, and the
    two differ ONLY in where `level` goes (`AsWrittenMovesOnlyLevel`). */
module MetaField {
  import opened HilogBase
  import opened TagLength

  /** Bit widths and offsets within the 16-bit field (`usize` in the source). */
  type Width = bv16

  const VERSION_BITS: Width := 3
  const TYPE_BITS: Width := 4
  const LEVEL_BITS: Width := 3
  const TAG_LEN_BITS: Width := 6
  const VERSION_OFFSET: Width := 0
  const TYPE_OFFSET: Width := VERSION_OFFSET + VERSION_BITS
  const LEVEL_OFFSET: Width := TYPE_OFFSET + TYPE_BITS
  const TAG_LEN_OFFSET: Width := LEVEL_OFFSET + LEVEL_BITS
  /** The wire-format revision this encoder writes. */
  const VERSION: bv16 := 0

  /** The source's `#[repr(transparent)] struct MessageMetaField(u16)`. */
  datatype MessageMetaField = MessageMetaField(bits: bv16)

  /** The four sub-fields of a meta field, each right-aligned. */
  datatype MetaFields = MetaFields(version: bv16, logType: bv16, level: bv16, tagLen: bv16)

  /** The `width` low bits set. */
  function LowMask(width: Width): (r: bv16)
    requires width <= 16
    ensures forall k: Width {:trigger r >> k} :: k < width ==> (r >> k) & 1 == 1
    ensures width < 16 ==> r >> width == 0
  {
    ((1 as bv16) << width) - 1
  }

  /** The bits of the range [offset, offset + width). */
  function FieldMask(offset: Width, width: Width): bv16
    requires offset <= 16 && width <= 16 - offset
  {
    LowMask(width) << offset
  }

  /** The value held in bits [offset, offset + width) of `bits`. */
  function Field(bits: bv16, offset: Width, width: Width): (r: bv16)
    requires offset <= 16 && width <= 16 - offset
    ensures r & LowMask(width) == r
  {
    (bits >> offset) & LowMask(width)
  }

  /** The precondition the source checks with `debug_assert!` before packing. */
  predicate FitsTagLenField(t: TagLen) {
    t.value < (1 as bv16) << TAG_LEN_BITS
  }

  /** `MessageMetaField::new` exactly as written: `level` is OR-ed in at
      VERSION_OFFSET (0), not LEVEL_OFFSET (7). The `.0 as u16` casts of the
      log type and level keep their low 16 bits. For in-range inputs the
      log type and the tag length land in their documented ranges, the level
      lands in the version's range [0, 3) and the level's range [7, 10) stays
      zero. */
  function PackAsWritten(logType: EnumCode, level: EnumCode, tagLen: TagLen): (r: MessageMetaField)
    ensures logType < 16 && level < 8 && FitsTagLenField(tagLen) ==>
      Unpack(r) == MetaFields(AsU16(level), AsU16(logType), 0, tagLen.value)
  {
    MessageMetaField(
      (VERSION << VERSION_OFFSET)
      | (AsU16(logType) << TYPE_OFFSET)
      | (AsU16(level) << VERSION_OFFSET)
      | (tagLen.value << TAG_LEN_OFFSET))
  }

  /** The layout the doc comment documents: `level` at LEVEL_OFFSET. For
      in-range inputs each sub-field lands in its own range, so unpacking
      gives back the version and the three inputs. */
  function PackDocumented(logType: EnumCode, level: EnumCode, tagLen: TagLen): (r: MessageMetaField)
    ensures logType < 16 && level < 8 && FitsTagLenField(tagLen) ==>
      Unpack(r) == MetaFields(VERSION, AsU16(logType), AsU16(level), tagLen.value)
  {
    MessageMetaField(
      (VERSION << VERSION_OFFSET)
      | (AsU16(logType) << TYPE_OFFSET)
      | (AsU16(level) << LEVEL_OFFSET)
      | (tagLen.value << TAG_LEN_OFFSET))
  }

  /** Reads the four sub-fields back out of a packed value, by the documented layout. */
  function Unpack(m: MessageMetaField): (r: MetaFields)
    ensures r.version < 8 && r.logType < 16 && r.level < 8 && r.tagLen < 64
  {
    MetaFields(
      Field(m.bits, VERSION_OFFSET, VERSION_BITS),
      Field(m.bits, TYPE_OFFSET, TYPE_BITS),
      Field(m.bits, LEVEL_OFFSET, LEVEL_BITS),
      Field(m.bits, TAG_LEN_OFFSET, TAG_LEN_BITS))
  }

  /** The derived offsets are 3, 7 and 10, and the four ranges are pairwise
      disjoint and together cover all sixteen bits. */
  lemma LayoutFillsU16()
    ensures TYPE_OFFSET == 3 && LEVEL_OFFSET == 7 && TAG_LEN_OFFSET == 10
    ensures VERSION_BITS + TYPE_BITS + LEVEL_BITS + TAG_LEN_BITS == 16
    ensures TAG_LEN_OFFSET + TAG_LEN_BITS == 16
    ensures FieldMask(VERSION_OFFSET, VERSION_BITS) & FieldMask(TYPE_OFFSET, TYPE_BITS) == 0
    ensures FieldMask(VERSION_OFFSET, VERSION_BITS) & FieldMask(LEVEL_OFFSET, LEVEL_BITS) == 0
    ensures FieldMask(VERSION_OFFSET, VERSION_BITS) & FieldMask(TAG_LEN_OFFSET, TAG_LEN_BITS) == 0
    ensures FieldMask(TYPE_OFFSET, TYPE_BITS) & FieldMask(LEVEL_OFFSET, LEVEL_BITS) == 0
    ensures FieldMask(TYPE_OFFSET, TYPE_BITS) & FieldMask(TAG_LEN_OFFSET, TAG_LEN_BITS) == 0
    ensures FieldMask(LEVEL_OFFSET, LEVEL_BITS) & FieldMask(TAG_LEN_OFFSET, TAG_LEN_BITS) == 0
    ensures FieldMask(VERSION_OFFSET, VERSION_BITS) | FieldMask(TYPE_OFFSET, TYPE_BITS)
          | FieldMask(LEVEL_OFFSET, LEVEL_BITS) | FieldMask(TAG_LEN_OFFSET, TAG_LEN_BITS) == 0xFFFF
  {
  }

  /** Every `TagLen` that `TagLen::new` accepts passes the `debug_assert!`
      of `MessageMetaField::new`, so that assertion can never fire. */
  lemma NewTagLenPassesDebugAssert(len: Usize)
    requires New(len).Ok?
    ensures FitsTagLenField(New(len).value)
  {
  }

  /** `PackAsWritten`'s contract restated in terms of the inputs themselves:
      the log type and the tag length land in their documented ranges, the
      level lands in bits [0, 3) (the version's range), and bits [7, 10) are
      always zero. */
  lemma AsWrittenPlacement(logType: EnumCode, level: EnumCode, tagLen: TagLen)
    requires logType < 16 && level < 8 && FitsTagLenField(tagLen)
    ensures var u := Unpack(PackAsWritten(logType, level, tagLen));
      && u.version as EnumCode == level
      && u.logType as EnumCode == logType
      && u.level == 0
      && u.tagLen == tagLen.value
  {
  }

  /** The two packings agree except on `level`: the as-written value is the
      documented one with the level range cleared and the level OR-ed in at
      offset 0 instead. */
  lemma AsWrittenMovesOnlyLevel(logType: EnumCode, level: EnumCode, tagLen: TagLen)
    requires logType < 16 && level < 8 && FitsTagLenField(tagLen)
    ensures PackAsWritten(logType, level, tagLen).bits
         == (PackDocumented(logType, level, tagLen).bits & !FieldMask(LEVEL_OFFSET, LEVEL_BITS))
            | (AsU16(level) << VERSION_OFFSET)
    ensures Unpack(PackAsWritten(logType, level, tagLen)).version
         == Unpack(PackDocumented(logType, level, tagLen)).level
  {
  }

  /** `PackDocumented`'s contract restated in terms of the inputs
      themselves: unpacking recovers the version and the three inputs exactly. */
  lemma DocumentedRoundTrip(logType: EnumCode, level: EnumCode, tagLen: TagLen)
    requires logType < 16 && level < 8 && FitsTagLenField(tagLen)
    ensures var u := Unpack(PackDocumented(logType, level, tagLen));
      && u.version == VERSION
      && u.logType as EnumCode == logType
      && u.level as EnumCode == level
      && u.tagLen == tagLen.value
  {
  }

  /** Conversely, every 16-bit value that carries the current version is
      the documented packing of its own unpacked sub-fields. */
  lemma DocumentedIsOnto(m: MessageMetaField)
    requires Unpack(m).version == VERSION
    ensures PackDocumented(Unpack(m).logType as EnumCode, Unpack(m).level as EnumCode, TagLen(Unpack(m).tagLen)) == m
  {
  }

  /** The worked example (type 2, level 4, tag length 10): the documented
      layout gives (2 << 3) | (4 << 7) | (10 << 10) = 10768; the source as
      written gives (2 << 3) | 4 | (10 << 10) = 10260, from which the
      documented unpacking reads level 0 and version 4. */
  lemma LevelMisplacedExample()
    ensures New(10).Ok?
    ensures PackDocumented(2, 4, New(10).value).bits == 10768
    ensures PackAsWritten(2, 4, New(10).value).bits == 10260
    ensures Unpack(PackAsWritten(2, 4, New(10).value)) == MetaFields(4, 2, 0, 10)
  {
  }
}
