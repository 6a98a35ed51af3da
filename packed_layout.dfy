/** The layout of a `repr(C, packed)` struct: its fields in declaration
    order, back to back, with no padding. A field's offset is the sum of the
    sizes of the fields declared before it, and the struct's memory image is
    the concatenation of the fields' images. Generic in the field names, the
    size of each field and the bytes each field holds; the functions walk the
    declaration list from index `i` on. */
module PackedLayout {

  /** Every field's image has the field's size. */
  ghost predicate ImagesFit<F(!new)>(sizeOf: F -> nat, bytesOf: F -> seq<bv8>) {
    forall g :: |bytesOf(g)| == sizeOf(g)
  }

  /** No field is declared twice. */
  ghost predicate Distinct<F>(fs: seq<F>) {
    forall j, k :: 0 <= j < k < |fs| ==> fs[j] != fs[k]
  }

  /** `f` is declared at index `i` or later. */
  ghost predicate DeclaredFrom<F>(fs: seq<F>, f: F, i: nat) {
    exists j :: i <= j < |fs| && fs[j] == f
  }

  /** The total size of the fields from index `i` on. */
  function SizeFrom<F>(fs: seq<F>, sizeOf: F -> nat, i: nat): nat
    requires i <= |fs|
    decreases |fs| - i
  {
    if i == |fs| then 0 else sizeOf(fs[i]) + SizeFrom(fs, sizeOf, i + 1)
  }

  /** The offset of `f` relative to index `i`: the sizes of the fields from
      `i` up to `f`'s first occurrence, added up. */
  function OffsetFrom<F(==)>(fs: seq<F>, sizeOf: F -> nat, f: F, i: nat): nat
    requires i <= |fs|
    decreases |fs| - i
  {
    if i == |fs| || fs[i] == f then 0 else sizeOf(fs[i]) + OffsetFrom(fs, sizeOf, f, i + 1)
  }

  /** The memory image of the fields from index `i` on, as long as they are. */
  function ImageFrom<F(!new)>(fs: seq<F>, sizeOf: F -> nat, bytesOf: F -> seq<bv8>, i: nat): (r: seq<bv8>)
    requires ImagesFit(sizeOf, bytesOf) && i <= |fs|
    ensures |r| == SizeFrom(fs, sizeOf, i)
    decreases |fs| - i
  {
    if i == |fs| then [] else bytesOf(fs[i]) + ImageFrom(fs, sizeOf, bytesOf, i + 1)
  }

  /** Cutting a concatenation inside its second part. */
  lemma SplitAppend(a: seq<bv8>, b: seq<bv8>, k: nat, l: nat)
    requires k <= l <= |b|
    ensures (a + b)[..|a| + k] == a + b[..k]
    ensures (a + b)[|a| + k..] == b[k..]
    ensures (a + b)[|a| + k..|a| + l] == b[k..l]
  {
  }

  /** The bytes at `f`'s offset are `f`'s own image. */
  lemma {:induction false} ImageAtOffset<F(!new)>(fs: seq<F>, sizeOf: F -> nat, bytesOf: F -> seq<bv8>, f: F, i: nat)
    requires ImagesFit(sizeOf, bytesOf) && i <= |fs| && DeclaredFrom(fs, f, i)
    ensures OffsetFrom(fs, sizeOf, f, i) + sizeOf(f) <= SizeFrom(fs, sizeOf, i)
    ensures ImageFrom(fs, sizeOf, bytesOf, i)[OffsetFrom(fs, sizeOf, f, i)..OffsetFrom(fs, sizeOf, f, i) + sizeOf(f)]
         == bytesOf(f)
    decreases |fs| - i
  {
    var head, tail := bytesOf(fs[i]), ImageFrom(fs, sizeOf, bytesOf, i + 1);
    assert ImageFrom(fs, sizeOf, bytesOf, i) == head + tail;
    if fs[i] == f {
      SplitAppend([], head + tail, 0, |head|);
    } else {
      var j :| i <= j < |fs| && fs[j] == f;
      assert DeclaredFrom(fs, f, i + 1);
      ImageAtOffset(fs, sizeOf, bytesOf, f, i + 1);
      var k := OffsetFrom(fs, sizeOf, f, i + 1);
      SplitAppend(head, tail, k, k + sizeOf(f));
    }
  }

  /** Fields with the same images give the same struct image. */
  lemma {:induction false} ImageAgrees<F(!new)>(fs: seq<F>, sizeOf: F -> nat, bytesOf: F -> seq<bv8>, bytesOf': F -> seq<bv8>, i: nat)
    requires ImagesFit(sizeOf, bytesOf) && ImagesFit(sizeOf, bytesOf') && i <= |fs|
    requires forall j :: i <= j < |fs| ==> bytesOf(fs[j]) == bytesOf'(fs[j])
    ensures ImageFrom(fs, sizeOf, bytesOf, i) == ImageFrom(fs, sizeOf, bytesOf', i)
    decreases |fs| - i
  {
    if i < |fs| {
      ImageAgrees(fs, sizeOf, bytesOf, bytesOf', i + 1);
    }
  }

  /** If only `f`'s image differs, the struct images agree before `f`. */
  lemma {:induction false} ImageBeforeField<F(!new)>(fs: seq<F>, sizeOf: F -> nat, bytesOf: F -> seq<bv8>, bytesOf': F -> seq<bv8>, f: F, i: nat)
    requires ImagesFit(sizeOf, bytesOf) && ImagesFit(sizeOf, bytesOf') && i <= |fs|
    requires DeclaredFrom(fs, f, i)
    requires forall g :: g != f ==> bytesOf(g) == bytesOf'(g)
    ensures OffsetFrom(fs, sizeOf, f, i) <= SizeFrom(fs, sizeOf, i)
    ensures ImageFrom(fs, sizeOf, bytesOf, i)[..OffsetFrom(fs, sizeOf, f, i)]
         == ImageFrom(fs, sizeOf, bytesOf', i)[..OffsetFrom(fs, sizeOf, f, i)]
    decreases |fs| - i
  {
    ImageAtOffset(fs, sizeOf, bytesOf, f, i);
    if fs[i] != f {
      var head, tail := bytesOf(fs[i]), ImageFrom(fs, sizeOf, bytesOf, i + 1);
      var tail' := ImageFrom(fs, sizeOf, bytesOf', i + 1);
      assert ImageFrom(fs, sizeOf, bytesOf, i) == head + tail;
      assert ImageFrom(fs, sizeOf, bytesOf', i) == head + tail';
      var j :| i <= j < |fs| && fs[j] == f;
      assert DeclaredFrom(fs, f, i + 1);
      var k := OffsetFrom(fs, sizeOf, f, i + 1);
      ImageBeforeField(fs, sizeOf, bytesOf, bytesOf', f, i + 1);
      SplitAppend(head, tail, k, k);
      SplitAppend(head, tail', k, k);
    }
  }

  /** The case of `ImageAfterField` where `f` is the field at index `i`:
      what follows it are the later fields, whose images all agree. */
  lemma ImageAfterHere<F(!new)>(fs: seq<F>, sizeOf: F -> nat, bytesOf: F -> seq<bv8>, bytesOf': F -> seq<bv8>, f: F, i: nat)
    requires ImagesFit(sizeOf, bytesOf) && ImagesFit(sizeOf, bytesOf') && i < |fs|
    requires fs[i] == f && Distinct(fs)
    requires forall g :: g != f ==> bytesOf(g) == bytesOf'(g)
    ensures sizeOf(f) <= SizeFrom(fs, sizeOf, i)
    ensures ImageFrom(fs, sizeOf, bytesOf, i)[sizeOf(f)..] == ImageFrom(fs, sizeOf, bytesOf', i)[sizeOf(f)..]
  {
    var head, tail := bytesOf(f), ImageFrom(fs, sizeOf, bytesOf, i + 1);
    var head', tail' := bytesOf'(f), ImageFrom(fs, sizeOf, bytesOf', i + 1);
    assert ImageFrom(fs, sizeOf, bytesOf, i) == head + tail;
    assert ImageFrom(fs, sizeOf, bytesOf', i) == head' + tail';
    assert tail == tail' by {
      forall j | i + 1 <= j < |fs| ensures bytesOf(fs[j]) == bytesOf'(fs[j]) {
        assert fs[j] != fs[i];
      }
      ImageAgrees(fs, sizeOf, bytesOf, bytesOf', i + 1);
    }
    SplitAppend(head, tail, 0, 0);
    SplitAppend(head', tail', 0, 0);
  }

  /** If only `f`'s image differs, and no field is declared twice, the
      struct images agree after `f`. */
  lemma {:induction false} ImageAfterField<F(!new)>(fs: seq<F>, sizeOf: F -> nat, bytesOf: F -> seq<bv8>, bytesOf': F -> seq<bv8>, f: F, i: nat)
    requires ImagesFit(sizeOf, bytesOf) && ImagesFit(sizeOf, bytesOf') && i <= |fs|
    requires DeclaredFrom(fs, f, i) && Distinct(fs)
    requires forall g :: g != f ==> bytesOf(g) == bytesOf'(g)
    ensures OffsetFrom(fs, sizeOf, f, i) + sizeOf(f) <= SizeFrom(fs, sizeOf, i)
    ensures ImageFrom(fs, sizeOf, bytesOf, i)[OffsetFrom(fs, sizeOf, f, i) + sizeOf(f)..]
         == ImageFrom(fs, sizeOf, bytesOf', i)[OffsetFrom(fs, sizeOf, f, i) + sizeOf(f)..]
    decreases |fs| - i
  {
    ImageAtOffset(fs, sizeOf, bytesOf, f, i);
    if fs[i] == f {
      ImageAfterHere(fs, sizeOf, bytesOf, bytesOf', f, i);
    } else {
      var head, tail := bytesOf(fs[i]), ImageFrom(fs, sizeOf, bytesOf, i + 1);
      var tail' := ImageFrom(fs, sizeOf, bytesOf', i + 1);
      assert ImageFrom(fs, sizeOf, bytesOf, i) == head + tail;
      assert ImageFrom(fs, sizeOf, bytesOf', i) == head + tail';
      var j :| i <= j < |fs| && fs[j] == f;
      assert DeclaredFrom(fs, f, i + 1);
      var k := OffsetFrom(fs, sizeOf, f, i + 1) + sizeOf(f);
      ImageAfterField(fs, sizeOf, bytesOf, bytesOf', f, i + 1);
      SplitAppend(head, tail, k, k);
      SplitAppend(head, tail', k, k);
    }
  }
}
