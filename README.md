# hilog-sys: the HiLog record header

This project models `src/hilog_base.rs` of hilog-sys. That file defines the fixed binary header that precedes every HiLog log record sent to the logging daemon's socket. It has three parts:

- `TagLen::new` checks a tag length against `MAX_TAG_LEN`.
- `MessageMetaField::new` packs the version, the log type, the level and the tag length into one `u16`, following a C bitfield.
- `HilogMsg` is a `repr(C, packed)` struct of two `u16` and six `u32` fields, and `as_bytes` exposes its memory image.

The model is pure: the source has no loops and no mutable state, so every operation is a function and every property is a lemma or a function contract.

- `hilog_base.dfy` (module `HilogBase`): the constants, and the integer widths of `usize` (64 bits) and of the log-type and level codes (32 bits), with the truncating `as u16` casts.
- `tag_len.dfy` (module `TagLength`): `TagLen` and its checked constructor. The panic is an `Err` value.
- `meta_field.dfy` (module `MetaField`): the bitfield constants, the constructor as written (`PackAsWritten`), the layout its doc comment documents (`PackDocumented`), and `Unpack`, which reads a packed value by that documented layout.
- `byte_order.dfy` (module `ByteOrder`): `u16` and `u32` values as bytes in a given byte order, with their inverses.
- `packed_layout.dfy` (module `PackedLayout`): the memory image of a packed struct. It is generic in the fields, and lays them out back to back in declaration order.
- `header.dfy` (module `Header`): `HilogMsg`, `as_bytes` as an explicit serialiser built on `PackedLayout`, and its inverse `FromBytes`.

`as_bytes` reinterprets the struct's memory, so its bytes are in the host's native order. The model takes the byte order as a parameter (`Endian`), and every property holds for both orders.

The struct as declared has 2 + 2 + 6 × 4 = 28 bytes with no padding. The model follows the declaration: `SIZE_OF_HILOG_MSG` is 28.

## Model

| member | source | states |
|---|---|---|
| HilogBase.SocketPathComposed | src/hilog_base.rs:3-6 | The socket path is the socket directory followed by the input socket's name |
| HilogBase.UsizeAsU16 | src/hilog_base.rs:20 | `as u16` on a `usize` leaves a value below 65536 unchanged |
| HilogBase.UsizeAsU16Truncates | src/hilog_base.rs:20 | For every `usize`, `as u16` keeps exactly its low 16 bits: the value is its higher bits followed by the result |
| HilogBase.AsU16 | src/hilog_base.rs:52-54 | `.0 as u16` on a log type or level code leaves a value below 65536 unchanged |
| HilogBase.AsU16Truncates | src/hilog_base.rs:52-54 | For every log type or level code, `.0 as u16` keeps exactly its low 16 bits, as `PackAsWritten` and `PackDocumented` use it on codes of any size |
| TagLength.New | src/hilog_base.rs:16-21 | Succeeds exactly when `len <= MAX_TAG_LEN` and then stores `len` itself; otherwise it fails with the "len exceeded MAX_TAG_LEN" error and never clamps or wraps |
| TagLength.NewStoresLength | src/hilog_base.rs:16-20 | From the caller's side: every length up to 32 is accepted and stored unchanged, because the `as u16` cast is lossless there, and the result is a valid tag length |
| TagLength.NewIsExactlyValid | src/hilog_base.rs:11-21 | A tag length is within `MAX_TAG_LEN` if and only if `New` on its own value builds it |
| MetaField.LayoutFillsU16 | src/hilog_base.rs:36-43 | The derived offsets are 3, 7 and 10; the widths sum to 16; the four bit ranges are pairwise disjoint and together cover all 16 bits |
| MetaField.NewTagLenPassesDebugAssert | src/hilog_base.rs:49 | Every `TagLen` that `TagLen::new` accepts is below `1 << TAG_LEN_BITS`, so the `debug_assert!` can never fire |
| MetaField.Unpack | src/hilog_base.rs:24-31 | Reading a packed value by the documented layout gives a version below 8, a type below 16, a level below 8 and a tag length below 64 |
| MetaField.PackAsWritten | src/hilog_base.rs:48-56 | As written, for a type below 16, a level below 8 and a tag length below 64, unpacking gives the level as the version, the log type as the type, 0 as the level and the tag length as the tag length |
| MetaField.PackDocumented | src/hilog_base.rs:24-31 | With the level at `LEVEL_OFFSET`, for the same in-range inputs, unpacking gives version 0, the log type, the level and the tag length |
| MetaField.AsWrittenPlacement | src/hilog_base.rs:48-56 | As written, for in-range inputs, the log type lands in bits [3, 7) and the tag length in bits [10, 16); the level lands in bits [0, 3), the version's range; bits [7, 10) are always zero |
| MetaField.AsWrittenMovesOnlyLevel | src/hilog_base.rs:51-54 | The as-written value is the documented one with the level range cleared and the level OR-ed in at offset 0, so the two differ only in where the level goes |
| MetaField.DocumentedRoundTrip | src/hilog_base.rs:24-31 | With the level at `LEVEL_OFFSET`, unpacking gives back the version 0, the log type, the level and the tag length exactly |
| MetaField.DocumentedIsOnto | src/hilog_base.rs:24-31 | Every 16-bit value that carries version 0 is the documented packing of its own unpacked fields |
| MetaField.LevelMisplacedExample | src/hilog_base.rs:53 | For type 2, level 4 and tag length 10, the documented layout gives 10768, but the code as written gives 10260, which reads back as version 4 and level 0 |
| ByteOrder.U16Bytes | src/hilog_base.rs:61-62 | A `u16` field takes 2 bytes in either byte order |
| ByteOrder.U32Bytes | src/hilog_base.rs:63-68 | A `u32` field takes 4 bytes in either byte order |
| ByteOrder.U16FromBytes | src/hilog_base.rs:61-62 | Every pair of bytes is the image of the `u16` read from it |
| ByteOrder.U32FromBytes | src/hilog_base.rs:63-68 | Every four bytes are the image of the `u32` read from them |
| ByteOrder.U16BytesInjective | src/hilog_base.rs:61-62 | Two `u16` values with the same bytes are equal |
| ByteOrder.U32BytesInjective | src/hilog_base.rs:63-68 | Two `u32` values with the same bytes are equal |
| ByteOrder.U16RoundTrip | src/hilog_base.rs:61-62 | Reading back the bytes of a `u16` gives the same value |
| ByteOrder.U32RoundTrip | src/hilog_base.rs:63-68 | Reading back the bytes of a `u32` gives the same value |
| PackedLayout.ImageFrom | src/hilog_base.rs:59 | A packed struct's image is exactly as long as the sum of its fields' sizes: there is no padding |
| PackedLayout.ImageAtOffset | src/hilog_base.rs:59-69 | A declared field ends within the image, and the bytes at its offset are its own image |
| PackedLayout.ImageAgrees | src/hilog_base.rs:59-69 | Fields with equal images give equal struct images |
| PackedLayout.ImageBeforeField | src/hilog_base.rs:59-69 | When only one field's image differs, the struct images agree on every byte before that field |
| PackedLayout.ImageAfterHere | src/hilog_base.rs:59-69 | When the differing field is the first one still to be laid out, the struct images agree on every byte after it |
| PackedLayout.ImageAfterField | src/hilog_base.rs:59-69 | When only one field's image differs and no field is declared twice, the struct images agree on every byte after that field |
| Header.Offset | src/hilog_base.rs:60-68 | Every field of `HilogMsg` ends within the 28-byte struct |
| Header.DeclarationOrderComplete | src/hilog_base.rs:60-68 | Every field of `HilogMsg` is in the declaration order |
| Header.DeclarationOrderDistinct | src/hilog_base.rs:60-68 | No field is declared twice |
| Header.SizeIsPacked | src/hilog_base.rs:59-69 | The packed struct takes 2 + 2 + 6 × 4 = 28 bytes |
| Header.OffsetsArePacked | src/hilog_base.rs:59-69 | The field offsets 0, 2, 4, 8, 12, 16, 20 and 24 are the sums of the sizes of the fields declared before each one |
| Header.AsBytes | src/hilog_base.rs:72-82 | The image is `size_of::<HilogMsg>()` = 28 bytes long, whatever the field values |
| Header.FromBytes | src/hilog_base.rs:59-69 | Reading a header back succeeds exactly on a 28-byte sequence |
| Header.AsBytesFieldRange | src/hilog_base.rs:72-82 | Each field's fixed byte range in the image holds exactly that field's bytes |
| Header.AsBytesHoldsFields | src/hilog_base.rs:72-82 | The image is 28 bytes long and holds every field of the header at its range |
| Header.FieldsDetermineBytes | src/hilog_base.rs:59-69 | The field ranges cover all 28 bytes, so two images holding the same fields are equal |
| Header.FromBytesReadsFields | src/hilog_base.rs:72-82 | Reading an image that holds a header's fields gives that header back |
| Header.FromBytesHoldsFields | src/hilog_base.rs:72-82 | Every 28-byte sequence holds the fields of the header read from it |
| Header.FromAsBytes | src/hilog_base.rs:72-82 | Reading back the image of a header gives the same header |
| Header.AsBytesFromBytes | src/hilog_base.rs:72-82 | Every 28-byte sequence is the image of the header read from it |
| Header.AsBytesInjective | src/hilog_base.rs:72-82 | Two headers have equal images if and only if they are equal |
| Header.FieldBytes | src/hilog_base.rs:61-68 | Each field's image is as long as the field's type: 2 bytes for `len` and `meta_bitfield`, 4 for the other fields |
| Header.FieldBytesExact | src/hilog_base.rs:61-68 | A field's bytes are equal for two headers if and only if the field's values are equal |
| Header.ChangeOneFieldBefore | src/hilog_base.rs:72-82 | Changing one field leaves every byte before its range unchanged |
| Header.ChangeOneFieldAfter | src/hilog_base.rs:72-82 | Changing one field leaves every byte after its range unchanged |
| Header.FieldRangeChangesIff | src/hilog_base.rs:72-82 | The bytes in a field's range change if and only if the field's value changes |

## Left out

- The raw-pointer reborrow in `as_bytes` (`unsafe`, `slice::from_raw_parts`, lifetimes) is not modelled. `AsBytes` is an explicit serialiser that writes the fields in declaration order, and being a function it cannot change the header it reads.
- The host's native byte order is not visible in the code, so it is the parameter `Endian`.
- `usize` is taken to be 64 bits wide. `TagLen::new` rejects any length above 32 before the cast, so a narrower `usize` gives the same results.
- The definitions of `LogType` and `LogLevel` are not part of this model. Their `.0` is taken as a 32-bit code that `as u16` truncates.
- `MessageMetaField::new` does not check that the type is below 16 or the level below 8. `PackAsWritten` and `PackDocumented` accept any code, as the source does. The placement and round-trip lemmas state these ranges as preconditions.
- `MetaField.AsWrittenPlacement` and `MetaField.DocumentedRoundTrip` require `tag_len < 64`, which is the `debug_assert!`, rather than `tag_len <= 32`. That is more general than the ranges the source builds.
- The `debug_assert!` is debug-only and is not modelled as a panic. `NewTagLenPassesDebugAssert` shows it cannot fire for a `TagLen` built by `TagLen::new`.
- `TagLen::new` is a `const fn`, so its panic can also happen at compile time. The model has one error value for both cases.
- `MAX_LOG_LEN` is not used anywhere in this file, so the model keeps it only as a constant.
- Opening and writing to the socket at `HILOG_SOCKET_PATH` happens outside this file, and is not modelled.

## Findings

| source | as written | input that shows it | evidently intended | confidence | as-written member | corrected member |
|---|---|---|---|---|---|---|
| src/hilog_base.rs:53 | `level` is shifted by `VERSION_OFFSET` (0), so it lands in the version bits [0, 3) and bits [7, 10) stay zero | type 2, level 4, tag length 10 packs to 10260, which reads back as version 4 and level 0 | `level` shifted by `LEVEL_OFFSET` (7), as the bitfield in the doc comment at lines 24-31 lays out, giving 10768 | not executed | MetaField.LevelMisplacedExample | MetaField.DocumentedRoundTrip |
