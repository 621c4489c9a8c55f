/** C struct layout of the `Example` record and its variants.

    A record is a list of fields, each an array of one scalar type. Every field
    starts at the next offset that is a multiple of its scalar's alignment; the
    struct's size is its end rounded up to the struct's alignment, which is the
    largest field alignment, or 8 when the declaration carries
    `__attribute__((aligned(8)))`. The scalar sizes are those of the UPMEM
    toolchains (`int32_t` and `float` are 4 bytes, `char` is 1). */
module Layout {
  import opened Align

  datatype Scalar = Int32 | Float32 | Char

  datatype Field = Field(elem: Scalar, count: nat)

  /** The fields in declaration order. */
  datatype Fields = Nil | Cons(head: Field, tail: Fields) {
    function Length(): nat {
      match this
      case Nil => 0
      case Cons(_, rest) => 1 + rest.Length()
    }

    function At(k: nat): Field
      requires k < Length()
    {
      if k == 0 then head else tail.At(k - 1)
    }
  }

  datatype StructDecl = StructDecl(fields: Fields, aligned8: bool)

  function ScalarSize(s: Scalar): nat {
    match s
    case Char => 1
    case _ => 4
  }

  /** Every scalar here is naturally aligned. */
  function AlignOf(s: Scalar): nat {
    ScalarSize(s)
  }

  function FieldSize(f: Field): nat {
    ScalarSize(f.elem) * f.count
  }

  /** The alignments that occur: 1, 4 and 8. */
  predicate ValidAlign(a: nat) {
    a == 1 || a == 4 || a == 8
  }

  function RoundUpTo(x: nat, a: nat): (r: nat)
    requires ValidAlign(a)
    ensures r % a == 0 && x <= r < x + a
  {
    if x % a == 0 then x else x + (a - x % a)
  }

  /** Offsets of the fields when the first one may start at `cursor`. */
  function Offsets(fs: Fields, cursor: nat): (offs: seq<nat>)
    ensures |offs| == fs.Length()
  {
    match fs
    case Nil => []
    case Cons(f, rest) =>
      var o := RoundUpTo(cursor, AlignOf(f.elem));
      [o] + Offsets(rest, o + FieldSize(f))
  }

  /** The first byte after the last field. */
  function EndOf(fs: Fields, cursor: nat): nat {
    match fs
    case Nil => cursor
    case Cons(f, rest) => EndOf(rest, RoundUpTo(cursor, AlignOf(f.elem)) + FieldSize(f))
  }

  function MaxAlign(fs: Fields): (a: nat)
    ensures a == 1 || a == 4
  {
    match fs
    case Nil => 1
    case Cons(f, rest) =>
      var r := MaxAlign(rest);
      if AlignOf(f.elem) > r then AlignOf(f.elem) else r
  }

  function StructAlign(d: StructDecl): (a: nat)
    ensures ValidAlign(a)
  {
    if d.aligned8 then 8 else MaxAlign(d.fields)
  }

  /** `sizeof` of the declaration. */
  function SizeOf(d: StructDecl): nat {
    RoundUpTo(EndOf(d.fields, 0), StructAlign(d))
  }

  /** Fields are placed in order, each aligned for its type, and none overlaps
      the next; the last one ends at `EndOf`. */
  lemma {:induction false} OffsetsWellPlaced(fs: Fields, cursor: nat)
    ensures forall k :: 0 <= k < fs.Length() ==>
      Offsets(fs, cursor)[k] % AlignOf(fs.At(k).elem) == 0 &&
      cursor <= Offsets(fs, cursor)[k]
    ensures forall k :: 0 <= k < fs.Length() - 1 ==>
      Offsets(fs, cursor)[k] + FieldSize(fs.At(k)) <= Offsets(fs, cursor)[k + 1]
    ensures fs.Length() > 0 ==>
      Offsets(fs, cursor)[fs.Length() - 1] + FieldSize(fs.At(fs.Length() - 1)) == EndOf(fs, cursor)
    ensures cursor <= EndOf(fs, cursor)
  {
    OffsetsAligned(fs, cursor);
    OffsetsDisjoint(fs, cursor);
    LastFieldEnds(fs, cursor);
  }

  lemma {:induction false} OffsetsAligned(fs: Fields, cursor: nat)
    ensures forall k :: 0 <= k < fs.Length() ==>
      Offsets(fs, cursor)[k] % AlignOf(fs.At(k).elem) == 0 &&
      cursor <= Offsets(fs, cursor)[k]
  {
    match fs
    case Nil =>
    case Cons(f, rest) =>
      var o := RoundUpTo(cursor, AlignOf(f.elem));
      var next := o + FieldSize(f);
      OffsetsAligned(rest, next);
      var offs := Offsets(fs, cursor);
      assert offs == [o] + Offsets(rest, next);
      forall k | 0 <= k < fs.Length()
        ensures offs[k] % AlignOf(fs.At(k).elem) == 0 && cursor <= offs[k]
      {
        if k > 0 {
          assert offs[k] == Offsets(rest, next)[k - 1] && fs.At(k) == rest.At(k - 1);
        }
      }
  }

  lemma {:induction false} OffsetsDisjoint(fs: Fields, cursor: nat)
    ensures forall k :: 0 <= k < fs.Length() - 1 ==>
      Offsets(fs, cursor)[k] + FieldSize(fs.At(k)) <= Offsets(fs, cursor)[k + 1]
  {
    match fs
    case Nil =>
    case Cons(f, rest) =>
      var o := RoundUpTo(cursor, AlignOf(f.elem));
      var next := o + FieldSize(f);
      OffsetsDisjoint(rest, next);
      var offs := Offsets(fs, cursor);
      assert offs == [o] + Offsets(rest, next);
      forall k | 0 <= k < fs.Length() - 1
        ensures offs[k] + FieldSize(fs.At(k)) <= offs[k + 1]
      {
        if k > 0 {
          assert offs[k] == Offsets(rest, next)[k - 1] && fs.At(k) == rest.At(k - 1);
          assert offs[k + 1] == Offsets(rest, next)[k];
        } else {
          assert offs[1] == Offsets(rest, next)[0];
          OffsetsAligned(rest, next);
        }
      }
  }

  lemma {:induction false} LastFieldEnds(fs: Fields, cursor: nat)
    ensures fs.Length() > 0 ==>
      Offsets(fs, cursor)[fs.Length() - 1] + FieldSize(fs.At(fs.Length() - 1)) == EndOf(fs, cursor)
    ensures cursor <= EndOf(fs, cursor)
  {
    match fs
    case Nil =>
    case Cons(f, rest) =>
      var o := RoundUpTo(cursor, AlignOf(f.elem));
      var next := o + FieldSize(f);
      LastFieldEnds(rest, next);
      var offs := Offsets(fs, cursor);
      assert offs == [o] + Offsets(rest, next);
      if rest.Cons? {
        assert offs[fs.Length() - 1] == Offsets(rest, next)[rest.Length() - 1];
        assert fs.At(fs.Length() - 1) == rest.At(rest.Length() - 1);
      }
  }

  /** A struct declared `aligned(8)` always has a size that is a multiple of 8,
      whatever its fields. */
  lemma Aligned8SizeIsMultiple(d: StructDecl)
    requires d.aligned8
    ensures Aligned(SizeOf(d))
    ensures EndOf(d.fields, 0) <= SizeOf(d) < EndOf(d.fields, 0) + 8
  {
  }

  /** The common shape: `int32_t domain_len; char domain_name[N];
      int32_t char_ids[N]; int32_t label; int32_t padding[P];`. */
  function PlainExample(maxLen: nat, paddingWords: nat, aligned8: bool): StructDecl {
    StructDecl(Cons(Field(Int32, 1), Cons(Field(Char, maxLen), Cons(Field(Int32, maxLen),
               Cons(Field(Int32, 1), Cons(Field(Int32, paddingWords), Nil))))), aligned8)
  }

  /** dga1.c: 130 characters, two padding words, no `aligned(8)`. */
  const Dga1Example: StructDecl := PlainExample(130, 2, false)
  /** dga.c and the hosts dga_host1.c to dga_host4.c: six padding words, no `aligned(8)`. */
  const DgaExample: StructDecl := PlainExample(130, 6, false)
  /** dgaa1.c: the same fields declared `aligned(8)`. */
  const DgaaExample: StructDecl := PlainExample(130, 6, true)
  /** dtest_host2.c: 164 characters, aligned. */
  const Host2Example: StructDecl := PlainExample(164, 6, true)
  /** dga_host5.c: 64 characters, aligned. */
  const Host5Example: StructDecl := PlainExample(64, 6, true)
  /** dtest.c and dtest_host.c: 32 characters, aligned. */
  const DtestExample: StructDecl := PlainExample(32, 6, true)

  /** dt2.c (164 characters) and dtest_host1.c (64 characters): explicit
      padding words after the length and after the name. */
  function PaddedExample(maxLen: nat): StructDecl {
    StructDecl(Cons(Field(Int32, 1), Cons(Field(Int32, 1), Cons(Field(Char, maxLen),
               Cons(Field(Int32, 1), Cons(Field(Int32, maxLen), Cons(Field(Int32, 1),
               Cons(Field(Int32, 4), Nil))))))), true)
  }

  /** dt1good.c and domain_host.c: the gated record with float scratch fields. */
  const GatedExample: StructDecl :=
    StructDecl(Cons(Field(Int32, 1), Cons(Field(Char, 16), Cons(Field(Int32, 16),
               Cons(Field(Int32, 1), Cons(Field(Float32, 8), Cons(Field(Float32, 4),
               Cons(Field(Float32, 4), Nil))))))), true)

  /** dtest2.c: the round-trip record. */
  const RoundTripExample: StructDecl :=
    StructDecl(Cons(Field(Int32, 1), Cons(Field(Char, 120), Cons(Field(Int32, 120),
               Cons(Field(Int32, 6), Cons(Field(Int32, 1), Nil))))), true)

  /** End of the last field of each declaration, before the final rounding. */
  lemma Dga1End() ensures EndOf(Dga1Example.fields, 0) == 668 {
    var fs := Dga1Example.fields;
    EndCons(fs.tail.tail.tail.tail, 660, 668);
    EndCons(fs.tail.tail.tail, 656, 668);
    EndCons(fs.tail.tail, 134, 668);
    EndCons(fs.tail, 4, 668);
    EndCons(fs, 0, 668);
  }
  lemma DgaEnd() ensures EndOf(DgaExample.fields, 0) == 684 {
    var fs := DgaExample.fields;
    EndCons(fs.tail.tail.tail.tail, 660, 684);
    EndCons(fs.tail.tail.tail, 656, 684);
    EndCons(fs.tail.tail, 134, 684);
    EndCons(fs.tail, 4, 684);
    EndCons(fs, 0, 684);
  }
  lemma Host2End() ensures EndOf(Host2Example.fields, 0) == 852 {
    var fs := Host2Example.fields;
    EndCons(fs.tail.tail.tail.tail, 828, 852);
    EndCons(fs.tail.tail.tail, 824, 852);
    EndCons(fs.tail.tail, 168, 852);
    EndCons(fs.tail, 4, 852);
    EndCons(fs, 0, 852);
  }
  lemma Host5End() ensures EndOf(Host5Example.fields, 0) == 352 {
    var fs := Host5Example.fields;
    EndCons(fs.tail.tail.tail.tail, 328, 352);
    EndCons(fs.tail.tail.tail, 324, 352);
    EndCons(fs.tail.tail, 68, 352);
    EndCons(fs.tail, 4, 352);
    EndCons(fs, 0, 352);
  }
  lemma DtestEnd() ensures EndOf(DtestExample.fields, 0) == 192 {
    var fs := DtestExample.fields;
    EndCons(fs.tail.tail.tail.tail, 168, 192);
    EndCons(fs.tail.tail.tail, 164, 192);
    EndCons(fs.tail.tail, 36, 192);
    EndCons(fs.tail, 4, 192);
    EndCons(fs, 0, 192);
  }
  lemma Padded164End() ensures EndOf(PaddedExample(164).fields, 0) == 852 {
    var fs := PaddedExample(164).fields;
    EndCons(fs.tail.tail.tail.tail.tail.tail, 836, 852);
    EndCons(fs.tail.tail.tail.tail.tail, 832, 852);
    EndCons(fs.tail.tail.tail.tail, 176, 852);
    EndCons(fs.tail.tail.tail, 172, 852);
    EndCons(fs.tail.tail, 8, 852);
    EndCons(fs.tail, 4, 852);
    EndCons(fs, 0, 852);
  }
  lemma Padded64End() ensures EndOf(PaddedExample(64).fields, 0) == 352 {
    var fs := PaddedExample(64).fields;
    EndCons(fs.tail.tail.tail.tail.tail.tail, 336, 352);
    EndCons(fs.tail.tail.tail.tail.tail, 332, 352);
    EndCons(fs.tail.tail.tail.tail, 76, 352);
    EndCons(fs.tail.tail.tail, 72, 352);
    EndCons(fs.tail.tail, 8, 352);
    EndCons(fs.tail, 4, 352);
    EndCons(fs, 0, 352);
  }
  lemma GatedEnd() ensures EndOf(GatedExample.fields, 0) == 152 {
    var fs := GatedExample.fields;
    EndCons(fs.tail.tail.tail.tail.tail.tail, 136, 152);
    EndCons(fs.tail.tail.tail.tail.tail, 120, 152);
    EndCons(fs.tail.tail.tail.tail, 88, 152);
    EndCons(fs.tail.tail.tail, 84, 152);
    EndCons(fs.tail.tail, 20, 152);
    EndCons(fs.tail, 4, 152);
    EndCons(fs, 0, 152);
  }
  /** One step of `EndOf`, with the cursor after the head field's rounding. */
  lemma EndCons(fs: Fields, cursor: nat, end: nat)
    requires fs.Cons?
    requires EndOf(fs.tail, RoundUpTo(cursor, AlignOf(fs.head.elem)) + FieldSize(fs.head)) == end
    ensures EndOf(fs, cursor) == end
  {
  }
  lemma RoundTripEnd() ensures EndOf(RoundTripExample.fields, 0) == 632 {
    var fs := RoundTripExample.fields;
    EndCons(fs.tail.tail.tail.tail, 628, 632);
    EndCons(fs.tail.tail.tail, 604, 632);
    EndCons(fs.tail.tail, 124, 632);
    EndCons(fs.tail, 4, 632);
    EndCons(fs, 0, 632);
  }
  /** One step of `Offsets`: the head field lands at the rounded cursor. */
  lemma OffsetsCons(fs: Fields, cursor: nat, offs: seq<nat>)
    requires fs.Cons? && |offs| > 0
    requires offs[0] == RoundUpTo(cursor, AlignOf(fs.head.elem))
    requires Offsets(fs.tail, offs[0] + FieldSize(fs.head)) == offs[1..]
    ensures Offsets(fs, cursor) == offs
  {
  }
  lemma PlainAlign(maxLen: nat, paddingWords: nat) ensures MaxAlign(PlainExample(maxLen, paddingWords, false).fields) == 4 {}

  /** The record sizes of the programs without `aligned(8)`: neither is a
      multiple of 8, although the comment on their padding field says it should
      be. */
  lemma UnalignedExampleSizes()
    ensures SizeOf(Dga1Example) == 668 && !Aligned(SizeOf(Dga1Example))
    ensures SizeOf(DgaExample) == 684 && !Aligned(SizeOf(DgaExample))
  {
    Dga1End();
    DgaEnd();
    PlainAlign(130, 2);
    PlainAlign(130, 6);
  }

  /** The record sizes of the programs that declare `aligned(8)`. */
  lemma AlignedExampleSizes()
    ensures SizeOf(DgaaExample) == 688
    ensures SizeOf(Host2Example) == 856
    ensures SizeOf(Host5Example) == 352
    ensures SizeOf(DtestExample) == 192
    ensures SizeOf(PaddedExample(164)) == 856
    ensures SizeOf(PaddedExample(64)) == 352
    ensures SizeOf(GatedExample) == 152
    ensures SizeOf(RoundTripExample) == 632
  {
    DgaEnd();
    assert EndOf(DgaaExample.fields, 0) == 684;
    Host2End();
    Host5End();
    DtestEnd();
    Padded164End();
    Padded64End();
    GatedEnd();
    RoundTripEnd();
  }

  /** The field offsets dt2.c prints: `domain_len` at 0, `domain_name` at 8,
      `char_ids` at 176 and `label` at 832, all multiples of 8. dtest_host1.c
      copies the declaration with 64 characters, where `char_ids` lands at 76,
      not at the 176 its comment states. */
  lemma Dt2Offsets()
    ensures Offsets(PaddedExample(164).fields, 0) == [0, 4, 8, 172, 176, 832, 836]
  {
    var fs := PaddedExample(164).fields;
    OffsetsCons(fs.tail.tail.tail.tail.tail.tail, 836, [836]);
    OffsetsCons(fs.tail.tail.tail.tail.tail, 832, [832, 836]);
    OffsetsCons(fs.tail.tail.tail.tail, 176, [176, 832, 836]);
    OffsetsCons(fs.tail.tail.tail, 172, [172, 176, 832, 836]);
    OffsetsCons(fs.tail.tail, 8, [8, 172, 176, 832, 836]);
    OffsetsCons(fs.tail, 4, [4, 8, 172, 176, 832, 836]);
    OffsetsCons(fs, 0, [0, 4, 8, 172, 176, 832, 836]);
  }

  lemma Host1Offsets()
    ensures Offsets(PaddedExample(64).fields, 0) == [0, 4, 8, 72, 76, 332, 336]
  {
    var fs := PaddedExample(64).fields;
    OffsetsCons(fs.tail.tail.tail.tail.tail.tail, 336, [336]);
    OffsetsCons(fs.tail.tail.tail.tail.tail, 332, [332, 336]);
    OffsetsCons(fs.tail.tail.tail.tail, 76, [76, 332, 336]);
    OffsetsCons(fs.tail.tail.tail, 72, [72, 76, 332, 336]);
    OffsetsCons(fs.tail.tail, 8, [8, 72, 76, 332, 336]);
    OffsetsCons(fs.tail, 4, [4, 8, 72, 76, 332, 336]);
    OffsetsCons(fs, 0, [0, 4, 8, 72, 76, 332, 336]);
  }

  /** The field offsets of the dtest2.c round-trip record. */
  lemma RoundTripOffsets()
    ensures Offsets(RoundTripExample.fields, 0) == [0, 4, 124, 604, 628]
  {
    var fs := RoundTripExample.fields;
    OffsetsCons(fs.tail.tail.tail.tail, 628, [628]);
    OffsetsCons(fs.tail.tail.tail, 604, [604, 628]);
    OffsetsCons(fs.tail.tail, 124, [124, 604, 628]);
    OffsetsCons(fs.tail, 4, [4, 124, 604, 628]);
    OffsetsCons(fs, 0, [0, 4, 124, 604, 628]);
  }
}
