/**
  The type entities of the simulator: atomic types, structs and unions.

  A struct or union computes its layout once, when it is built from member
  types that are already defined, and is never changed afterwards; so every
  entity is an immutable value here.  A struct or union is built by running
  the layout engine over the views of its members.
 */
module DataTypes {
  import opened Layout

  datatype DataType =
    | Atomic(name: string, size: nat, alignment: nat)
    | Struct(name: string, types: seq<DataType>, alignment: nat,
             sizeUnpacked: nat, wastedUnpacked: int, sizePacked: nat,
             sizeOptimized: nat, wastedOptimized: int)
    | Union(name: string, types: seq<DataType>, alignment: nat,
            sizeUnpacked: nat, wastedUnpacked: int, sizePacked: nat, sizeOptimized: nat)

  /** The number of bytes a value of type `t` occupies when it is a member of
      another aggregate: an atomic type's own size, an aggregate's natural
      size. */
  function Size(t: DataType): nat {
    if t.Atomic? then t.size else t.sizeUnpacked
  }

  /** The `size` attribute every type carries in DataTypeManager.py: the
      constructors of structs and unions set it to 0 and never update it, so
      it agrees with the natural size only for atomic types and empty
      aggregates. */
  function InheritedSize(t: DataType): (r: nat)
    ensures r <= Size(t)
    ensures r == Size(t) <==> t.Atomic? || Size(t) == 0
  {
    if t.Atomic? then t.size else 0
  }

  function View(t: DataType): Member {
    Member(Size(t), t.alignment)
  }

  function Views(ts: seq<DataType>): (vs: seq<Member>)
    ensures |vs| == |ts|
    ensures forall i :: 0 <= i < |ts| ==> vs[i] == View(ts[i])
  {
    seq(|ts|, i requires 0 <= i < |ts| => View(ts[i]))
  }

  /** The members as the layout code of DataTypeManager.py reads them,
      through the inherited `size` attribute. */
  function AsWrittenViews(ts: seq<DataType>): (vs: seq<Member>)
    ensures |vs| == |ts|
    ensures forall i :: 0 <= i < |ts| ==> vs[i] == Member(InheritedSize(ts[i]), ts[i].alignment)
  {
    seq(|ts|, i requires 0 <= i < |ts| => Member(InheritedSize(ts[i]), ts[i].alignment))
  }

  /** Member lists the layout engine accepts: non-empty, positive alignments. */
  predicate Composable(ts: seq<DataType>) {
    |ts| > 0 && forall i :: 0 <= i < |ts| ==> ts[i].alignment > 0
  }

  /** Member lists a union accepts: non-empty, with the largest alignment,
      the only one divided by, positive. */
  predicate UnionComposable(ts: seq<DataType>) {
    |ts| > 0 && exists i :: 0 <= i < |ts| && ts[i].alignment > 0
  }

  /** Over atomic members the code's view and the natural view coincide, so
      the two differ only for nested aggregates. */
  lemma AsWrittenAgreesOnAtomics(ts: seq<DataType>)
    requires forall i :: 0 <= i < |ts| ==> ts[i].Atomic?
    ensures AsWrittenViews(ts) == Views(ts)
  {
  }

  /** A nested aggregate of positive size is seen by the code as smaller than
      it is. */
  lemma AsWrittenHidesAggregates(ts: seq<DataType>, i: nat)
    requires i < |ts| && !ts[i].Atomic? && Size(ts[i]) > 0
    ensures AsWrittenViews(ts)[i].size == 0 < Views(ts)[i].size
  {
  }

  lemma ViewsLayable(ts: seq<DataType>)
    requires Composable(ts)
    ensures Layable(Views(ts))
  {
  }

  /** The struct built from `ts`, with every layout metric StructType caches. */
  function StructOf(name: string, ts: seq<DataType>): (t: DataType)
    requires Composable(ts)
    ensures t.Struct? && t.name == name && t.types == ts
    ensures t.alignment > 0
    ensures forall i :: 0 <= i < |ts| ==> ts[i].alignment <= t.alignment
    ensures exists i :: 0 <= i < |ts| && ts[i].alignment == t.alignment
    ensures t.sizeUnpacked % t.alignment == 0 && t.sizeOptimized % t.alignment == 0
    ensures t.sizePacked == SumSizes(Views(ts))
    ensures t.wastedUnpacked == t.sizeUnpacked - t.sizePacked && t.wastedUnpacked >= 0
    ensures t.wastedOptimized == t.sizeOptimized - t.sizePacked && t.wastedOptimized >= 0
    ensures forall i :: 0 <= i < |ts| ==> Size(ts[i]) <= t.sizePacked <= Size(t)
  {
    var ms := Views(ts);
    assert forall i :: 0 <= i < |ts| ==> ms[i].alignment == ts[i].alignment;
    var sizeUnpacked := UnpackedSize(ms);
    var sizeOptimized := OptimizedSize(ms);
    var packed := SumSizes(ms);
    Struct(name, ts, MaxAlignment(ms), sizeUnpacked, sizeUnpacked - packed, packed,
           sizeOptimized, sizeOptimized - packed)
  }

  /** The union built from `ts`: the largest member size rounded up to the
      largest alignment, the same in all three modes. */
  function UnionOf(name: string, ts: seq<DataType>): (t: DataType)
    requires UnionComposable(ts)
    ensures t.Union? && t.name == name && t.types == ts
    ensures t.alignment > 0
    ensures forall i :: 0 <= i < |ts| ==> ts[i].alignment <= t.alignment
    ensures exists i :: 0 <= i < |ts| && ts[i].alignment == t.alignment
    ensures t.sizeUnpacked == t.sizePacked == t.sizeOptimized
    ensures t.sizeUnpacked % t.alignment == 0
    ensures 0 <= t.wastedUnpacked < t.alignment
    ensures forall i :: 0 <= i < |ts| ==> Size(ts[i]) <= t.sizeUnpacked
    ensures exists i :: 0 <= i < |ts| && Size(ts[i]) == t.sizeUnpacked - t.wastedUnpacked
  {
    var ms := Views(ts);
    assert MaxAlignment(ms) > 0 by {
      var k :| 0 <= k < |ts| && ts[k].alignment > 0;
      assert ms[k].alignment == ts[k].alignment;
    }
    var maxSize := MaxSize(ms);
    var size := UnionSize(ms);
    assert forall i :: 0 <= i < |ts| ==> ms[i].alignment == ts[i].alignment && ms[i].size == Size(ts[i]);
    Union(name, ts, MaxAlignment(ms), size, size - maxSize, size, size)
  }

  /** The metrics of a struct, field by field, as the layout engine computes
      them over the member views. */
  lemma StructOfFields(name: string, ts: seq<DataType>)
    requires Composable(ts)
    ensures Layable(Views(ts))
    ensures var ms := Views(ts);
      StructOf(name, ts) ==
        Struct(name, ts, MaxAlignment(ms), UnpackedSize(ms), UnpackedSize(ms) - SumSizes(ms),
               SumSizes(ms), OptimizedSize(ms), OptimizedSize(ms) - SumSizes(ms))
  {
  }

  /** The metrics of a union, field by field. */
  lemma UnionOfFields(name: string, ts: seq<DataType>)
    requires UnionComposable(ts)
    ensures |Views(ts)| > 0 && MaxAlignment(Views(ts)) > 0
    ensures var ms := Views(ts);
      UnionOf(name, ts) ==
        Union(name, ts, MaxAlignment(ms), UnionSize(ms), UnionSize(ms) - MaxSize(ms),
              UnionSize(ms), UnionSize(ms))
  {
    var k :| 0 <= k < |ts| && ts[k].alignment > 0;
    assert Views(ts)[k].alignment > 0;
  }

  /** Builds a struct the way StructType does: the unpacked walk, the packed
      sum, then the walk over the sorted members. */
  method NewStruct(name: string, ts: seq<DataType>) returns (t: DataType)
    requires Composable(ts)
    ensures t == StructOf(name, ts)
  {
    var ms := Views(ts);
    ViewsLayable(ts);
    var sizeUnpacked, alignment, wastedUnpacked := CalculateUnpacked(ms);
    var sizePacked := SumSizes(ms);
    var sizeOptimized, wastedOptimized := CalculateOptimized(ms);
    t := Struct(name, ts, alignment, sizeUnpacked, wastedUnpacked, sizePacked,
                sizeOptimized, wastedOptimized);
    StructOfFields(name, ts);
  }

  /** An entity whose cached metrics are those its members determine, all the
      way down. */
  predicate WellFormed(t: DataType) {
    match t
    case Atomic(_, _, _) => true
    case Struct(name, ts, _, _, _, _, _, _) =>
      Composable(ts) && (forall i :: 0 <= i < |ts| ==> WellFormed(ts[i])) && t == StructOf(name, ts)
    case Union(name, ts, _, _, _, _, _) =>
      UnionComposable(ts) && (forall i :: 0 <= i < |ts| ==> WellFormed(ts[i])) && t == UnionOf(name, ts)
  }

  /** Packed mode never wastes a byte: the packed size minus the member
      sizes is 0 for every struct. */
  lemma PackedWasteIsZero(t: DataType)
    requires WellFormed(t) && t.Struct?
    ensures t.sizePacked - SumSizes(Views(t.types)) == 0
  {
  }

  // ---------------------------------------------------------------------
  // A struct nested in a struct
  // ---------------------------------------------------------------------

  const Char: DataType := Atomic("char", 1, 1)
  const Int: DataType := Atomic("int", 4, 4)
  const Double: DataType := Atomic("double", 8, 8)

  /** The worked example: struct [char, int, double] is 16 bytes aligned to
      8 with 3 wasted in declared order, 13 packed, 16 with 3 wasted when
      optimized; as a union it is 8 bytes with nothing wasted. */
  lemma CharIntDoubleStruct(name: string, c: DataType, i: DataType, d: DataType)
    requires c == Char && i == Int && d == Double
    ensures StructOf(name, [c, i, d]) == Struct(name, [c, i, d], 8, 16, 3, 13, 16, 3)
    ensures UnionOf(name, [c, i, d]) == Union(name, [c, i, d], 8, 8, 0, 8, 8)
  {
    var ms := Views([c, i, d]);
    assert ms == [View(c), View(i), View(d)];
    CharIntDoubleExample(View(c), View(i), View(d));
    SizesSumOfThree(View(c), View(i), View(d));
    StructOfFields(name, [c, i, d]);
    assert [c, i, d][2].alignment > 0;
    UnionOfFields(name, [c, i, d]);
  }

  /** A union accepts a member of alignment 0 as long as another member has
      a positive one: [z(1, 0), int] is a union of 4 bytes aligned to 4 with
      nothing wasted. */
  lemma UnionWithZeroAlignedMember(z: DataType, i: DataType)
    requires z == Atomic("z", 1, 0) && i == Int
    ensures UnionComposable([z, i])
    ensures UnionOf("U", [z, i]) == Union("U", [z, i], 4, 4, 0, 4, 4)
  {
    assert [z, i][1].alignment > 0;
    assert Views([z, i]) == [View(z), View(i)];
    UnionWithZeroAlignment(View(z), View(i));
  }

  /** As written, a struct used as a member counts for 0 bytes: struct
      S1 = [char, int, double] has 16 bytes, yet S2 = [S1, char] is laid out
      in 8 bytes, smaller than its own first member. */
  lemma NestedStructAsWritten(c: DataType, i: DataType, d: DataType)
    requires c == Char && i == Int && d == Double
    ensures var s1 := StructOf("S1", [c, i, d]);
      && Size(s1) == 16
      && Layable(AsWrittenViews([s1, c]))
      && UnpackedSize(AsWrittenViews([s1, c])) == 8
  {
    CharIntDoubleStruct("S1", c, i, d);
    var s1 := StructOf("S1", [c, i, d]);
    var inner, outer := Member(InheritedSize(s1), s1.alignment), Member(InheritedSize(c), c.alignment);
    assert AsWrittenViews([s1, c]) == [inner, outer];
    UnpackedOfEmptyThenByte(inner, outer);
  }

  /** Counting the nested struct by its natural size, S2 = [S1, char] takes
      24 bytes. */
  lemma NestedStructCorrected(c: DataType, i: DataType, d: DataType)
    requires c == Char && i == Int && d == Double
    ensures var s1 := StructOf("S1", [c, i, d]);
      StructOf("S2", [s1, c]).sizeUnpacked == 24
  {
    CharIntDoubleStruct("S1", c, i, d);
    var s1 := StructOf("S1", [c, i, d]);
    var inner, outer := View(s1), View(c);
    assert Views([s1, c]) == [inner, outer];
    UnpackedOfSixteenThenByte(inner, outer);
  }
}
