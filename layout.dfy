/**
  The layout engine of the aggregate-type simulator: how a list of member
  types is placed in memory by a compiler's ABI.

  Every member is seen here only through its size and its alignment.  Three
  layouts are computed for a struct:
  - unpacked: members in declared order, each placed at the next multiple of
    its alignment, then tail padding up to the largest alignment;
  - packed: members back to back, the sum of their sizes;
  - optimized: the unpacked walk over the members stably sorted by
    descending alignment.
  A union takes the largest member size rounded up to the largest alignment.
 */
module Layout {

  /** A member as the layout engine sees it. */
  datatype Member = Member(size: nat, alignment: nat)

  /** The engine divides by every alignment, so it needs at least one member
      and only positive alignments. */
  predicate Layable(ms: seq<Member>) {
    |ms| > 0 && forall i :: 0 <= i < |ms| ==> ms[i].alignment > 0
  }

  function Max(a: nat, b: nat): nat {
    if a < b then b else a
  }

  /** Rounds `offset` up to the next multiple of `align`: the padding step. */
  function PadTo(offset: nat, align: nat): (r: nat)
    requires align > 0
    ensures r % align == 0
    ensures offset <= r < offset + align
    ensures offset % align == 0 ==> r == offset
  {
    if offset % align != 0 then
      MultipleMod(align, offset / align + 1);
      assert offset + (align - offset % align) == align * (offset / align + 1);
      offset + (align - offset % align)
    else offset
  }

  lemma MultipleMod(a: nat, k: nat)
    requires a > 0
    ensures (a * k) % a == 0
  {
    var x := a * k;
    var q := x / a;
    var r := x % a;
    assert x == a * q + r;
    var d := k - q;
    assert a * d == r by { assert a * d == a * k - a * q; }
  }

  /** Σ member.size, in the order given. */
  function SumSizes(ms: seq<Member>): (r: nat)
    ensures forall i :: 0 <= i < |ms| ==> ms[i].size <= r
  {
    if |ms| == 0 then 0 else SumSizes(ms[..|ms| - 1]) + ms[|ms| - 1].size
  }

  /** The running maximum of the alignments, starting from 0. */
  function MaxAlignment(ms: seq<Member>): (r: nat)
    ensures forall i :: 0 <= i < |ms| ==> ms[i].alignment <= r
    ensures |ms| > 0 ==> exists i :: 0 <= i < |ms| && ms[i].alignment == r
    ensures |ms| == 0 ==> r == 0
  {
    if |ms| == 0 then 0
    else
      var m := MaxAlignment(ms[..|ms| - 1]);
      assert |ms| > 1 ==> ms[..|ms| - 1][0] == ms[0];
      Max(m, ms[|ms| - 1].alignment)
  }

  /** The largest member size. */
  function MaxSize(ms: seq<Member>): (r: nat)
    requires |ms| > 0
    ensures forall i :: 0 <= i < |ms| ==> ms[i].size <= r
    ensures exists i :: 0 <= i < |ms| && ms[i].size == r
  {
    if |ms| == 1 then ms[0].size
    else
      var m := MaxSize(ms[..|ms| - 1]);
      Max(m, ms[|ms| - 1].size)
  }

  /** Where member `i` starts: the running offset after the members before
      it, padded to its alignment. */
  function OffsetOf(ms: seq<Member>, i: nat): (r: nat)
    requires i < |ms| && forall j :: 0 <= j < |ms| ==> ms[j].alignment > 0
  {
    PadTo(Walk(ms[..i]), ms[i].alignment)
  }

  /** The running offset after placing every member in order, each at the
      next multiple of its alignment (no tail padding yet). */
  function Walk(ms: seq<Member>): (r: nat)
    requires forall i :: 0 <= i < |ms| ==> ms[i].alignment > 0
    ensures r >= SumSizes(ms)
  {
    if |ms| == 0 then 0
    else PadTo(Walk(ms[..|ms| - 1]), ms[|ms| - 1].alignment) + ms[|ms| - 1].size
  }

  /** The natural size: the walk followed by tail padding to the largest
      alignment. */
  function UnpackedSize(ms: seq<Member>): (r: nat)
    requires Layable(ms)
    ensures MaxAlignment(ms) > 0 && r % MaxAlignment(ms) == 0
    ensures r >= SumSizes(ms)
    ensures Walk(ms) <= r < Walk(ms) + MaxAlignment(ms)
  {
    MaxAlignmentPositive(ms);
    PadTo(Walk(ms), MaxAlignment(ms))
  }

  /** Elements sorted by non-increasing alignment. */
  predicate Descending(ms: seq<Member>) {
    forall i, j :: 0 <= i < j < |ms| ==> ms[i].alignment >= ms[j].alignment
  }

  /** Inserts `x` into `s` after every element whose alignment is at least
      x's: for a descending `s` the result stays descending, and `x` comes
      after the elements of equal alignment that preceded it. */
  function InsertDesc(s: seq<Member>, x: Member): (r: seq<Member>)
    ensures |r| == |s| + 1 && x in r
  {
    if |s| == 0 || s[|s| - 1].alignment >= x.alignment then s + [x]
    else InsertDesc(s[..|s| - 1], x) + [s[|s| - 1]]
  }

  /** A stable sort by descending alignment (Python's
      `sorted(types, key=alignment, reverse=True)`). */
  function SortDesc(ms: seq<Member>): (r: seq<Member>)
    ensures |r| == |ms|
  {
    if |ms| == 0 then [] else InsertDesc(SortDesc(ms[..|ms| - 1]), ms[|ms| - 1])
  }

  /** The members of `ms` with alignment exactly `a`, in order. */
  function WithAlignment(ms: seq<Member>, a: nat): seq<Member> {
    if |ms| == 0 then []
    else WithAlignment(ms[..|ms| - 1], a) + (if ms[|ms| - 1].alignment == a then [ms[|ms| - 1]] else [])
  }

  /** The optimized size: the same padding walk over the sorted members. */
  function OptimizedSize(ms: seq<Member>): (r: nat)
    requires Layable(ms)
    ensures MaxAlignment(ms) > 0 && r % MaxAlignment(ms) == 0
    ensures r >= SumSizes(ms)
    ensures Descending(ms) ==> r == UnpackedSize(ms)
  {
    SortDescLayable(ms);
    SortDescSum(ms);
    assert Descending(ms) ==> SortDesc(ms) == ms by {
      if Descending(ms) {
        SortDescOfDescending(ms);
      }
    }
    UnpackedSize(SortDesc(ms))
  }

  /** The union size: the largest size rounded up to the largest alignment.
      Members overlap, so it is the same in every mode.  Only the largest
      alignment is divided by, so a member of alignment 0 is accepted. */
  function UnionSize(ms: seq<Member>): (r: nat)
    requires |ms| > 0 && MaxAlignment(ms) > 0
    ensures r % MaxAlignment(ms) == 0
    ensures MaxSize(ms) <= r < MaxSize(ms) + MaxAlignment(ms)
    ensures forall i :: 0 <= i < |ms| ==> ms[i].size <= r
  {
    PadTo(MaxSize(ms), MaxAlignment(ms))
  }

  // ---------------------------------------------------------------------
  // Properties of the unpacked walk
  // ---------------------------------------------------------------------

  lemma MaxAlignmentPositive(ms: seq<Member>)
    requires Layable(ms)
    ensures MaxAlignment(ms) > 0
  {
    assert ms[0].alignment <= MaxAlignment(ms);
  }

  /** Each member starts at a multiple of its alignment, after fewer than
      `alignment` padding bytes, and does not overlap the member before it. */
  lemma {:induction false} OffsetsAligned(ms: seq<Member>, i: nat)
    requires Layable(ms) && i < |ms|
    ensures OffsetOf(ms, i) % ms[i].alignment == 0
    ensures 0 <= OffsetOf(ms, i) - Walk(ms[..i]) < ms[i].alignment
    ensures i > 0 ==> OffsetOf(ms, i - 1) + ms[i - 1].size <= OffsetOf(ms, i)
    ensures OffsetOf(ms, i) + ms[i].size <= UnpackedSize(ms)
  {
    if i > 0 {
      assert ms[..i][..i - 1] == ms[..i - 1];
      assert Walk(ms[..i]) == OffsetOf(ms, i - 1) + ms[i - 1].size;
    }
    WalkPrefixMonotone(ms, i + 1);
    assert ms[..i + 1][..i] == ms[..i];
    assert Walk(ms[..i + 1]) == OffsetOf(ms, i) + ms[i].size;
  }

  /** The walk never shrinks as members are added. */
  lemma {:induction false} WalkPrefixMonotone(ms: seq<Member>, k: nat)
    requires forall i :: 0 <= i < |ms| ==> ms[i].alignment > 0
    requires k <= |ms|
    ensures Walk(ms[..k]) <= Walk(ms)
    decreases |ms| - k
  {
    if k < |ms| {
      WalkPrefixMonotone(ms, k + 1);
      assert ms[..k + 1][..k] == ms[..k];
    } else {
      assert ms[..k] == ms;
    }
  }


  // ---------------------------------------------------------------------
  // Properties of the stable sort
  // ---------------------------------------------------------------------

  lemma {:induction false} InsertDescMultiset(s: seq<Member>, x: Member)
    ensures multiset(InsertDesc(s, x)) == multiset(s) + multiset{x}
  {
    if |s| == 0 || s[|s| - 1].alignment >= x.alignment {
    } else {
      InsertDescMultiset(s[..|s| - 1], x);
      assert s == s[..|s| - 1] + [s[|s| - 1]];
    }
  }

  /** SortDesc is a permutation of its input. */
  lemma {:induction false} SortDescPermutation(ms: seq<Member>)
    ensures multiset(SortDesc(ms)) == multiset(ms)
  {
    if |ms| > 0 {
      var init, last := ms[..|ms| - 1], ms[|ms| - 1];
      SortDescPermutation(init);
      InsertDescMultiset(SortDesc(init), last);
      MultisetOfLast(ms);
    }
  }

  /** The multiset of a non-empty sequence splits off its last element. */
  lemma MultisetOfLast(ms: seq<Member>)
    requires |ms| > 0
    ensures multiset(ms) == multiset(ms[..|ms| - 1]) + multiset{ms[|ms| - 1]}
  {
    assert ms == ms[..|ms| - 1] + [ms[|ms| - 1]];
  }

  lemma {:induction false} InsertDescSorted(s: seq<Member>, x: Member)
    requires Descending(s)
    ensures Descending(InsertDesc(s, x))
  {
    if |s| == 0 || s[|s| - 1].alignment >= x.alignment {
    } else {
      var s' := s[..|s| - 1];
      var last := s[|s| - 1];
      InsertDescSorted(s', x);
      InsertDescMultiset(s', x);
      var r' := InsertDesc(s', x);
      forall i | 0 <= i < |r'| ensures r'[i].alignment >= last.alignment {
        assert r'[i] in multiset(r');
        if r'[i] != x {
          assert r'[i] in multiset(s');
          var k :| 0 <= k < |s'| && s'[k] == r'[i];
          assert s[k] == r'[i];
        }
      }
    }
  }

  /** SortDesc orders its input by non-increasing alignment. */
  lemma {:induction false} SortDescSorted(ms: seq<Member>)
    ensures Descending(SortDesc(ms))
  {
    if |ms| > 0 {
      SortDescSorted(ms[..|ms| - 1]);
      InsertDescSorted(SortDesc(ms[..|ms| - 1]), ms[|ms| - 1]);
    }
  }

  lemma {:induction false} WithAlignmentAppend(s: seq<Member>, x: Member, a: nat)
    ensures WithAlignment(s + [x], a) == WithAlignment(s, a) + (if x.alignment == a then [x] else [])
  {
    assert (s + [x])[..|s|] == s;
  }

  lemma {:induction false} InsertDescStable(s: seq<Member>, x: Member, a: nat)
    ensures WithAlignment(InsertDesc(s, x), a) == WithAlignment(s, a) + (if x.alignment == a then [x] else [])
  {
    if |s| == 0 || s[|s| - 1].alignment >= x.alignment {
      WithAlignmentAppend(s, x, a);
    } else {
      var s' := s[..|s| - 1];
      var last := s[|s| - 1];
      InsertDescStable(s', x, a);
      WithAlignmentAppend(InsertDesc(s', x), last, a);
      WithAlignmentAppend(s', last, a);
      assert s' + [last] == s;
    }
  }

  /** SortDesc is stable: members of equal alignment keep their declared
      relative order. */
  lemma {:induction false} SortDescStable(ms: seq<Member>, a: nat)
    ensures WithAlignment(SortDesc(ms), a) == WithAlignment(ms, a)
  {
    if |ms| > 0 {
      SortDescStable(ms[..|ms| - 1], a);
      InsertDescStable(SortDesc(ms[..|ms| - 1]), ms[|ms| - 1], a);
    }
  }

  /** A list already in descending alignment order is left as it is. */
  lemma {:induction false} SortDescOfDescending(ms: seq<Member>)
    requires Descending(ms)
    ensures SortDesc(ms) == ms
  {
    if |ms| > 0 {
      var init, last := ms[..|ms| - 1], ms[|ms| - 1];
      assert Descending(init);
      SortDescOfDescending(init);
      assert |init| > 0 ==> init[|init| - 1].alignment >= last.alignment;
      InsertDescStays(init, last);
      SplitLast(ms);
    }
  }

  /** A non-empty sequence is its prefix followed by its last element. */
  lemma SplitLast(ms: seq<Member>)
    requires |ms| > 0
    ensures ms == ms[..|ms| - 1] + [ms[|ms| - 1]]
  {
  }

  lemma SortDescLayable(ms: seq<Member>)
    requires Layable(ms)
    ensures Layable(SortDesc(ms))
    ensures MaxAlignment(SortDesc(ms)) == MaxAlignment(ms)
  {
    SortDescPermutation(ms);
    var r := SortDesc(ms);
    assert |r| == |multiset(r)| == |multiset(ms)| == |ms|;
    forall i | 0 <= i < |r| ensures r[i].alignment > 0 && r[i].alignment <= MaxAlignment(ms) {
      assert r[i] in multiset(ms);
      var k :| 0 <= k < |ms| && ms[k] == r[i];
    }
    var k :| 0 <= k < |ms| && ms[k].alignment == MaxAlignment(ms);
    assert ms[k] in multiset(r);
    var j :| 0 <= j < |r| && r[j] == ms[k];
  }

  lemma {:induction false} InsertDescSum(s: seq<Member>, x: Member)
    ensures SumSizes(InsertDesc(s, x)) == SumSizes(s) + x.size
  {
    if |s| == 0 || s[|s| - 1].alignment >= x.alignment {
      assert (s + [x])[..|s|] == s;
    } else {
      var s' := s[..|s| - 1];
      InsertDescSum(s', x);
      assert (InsertDesc(s', x) + [s[|s| - 1]])[..|InsertDesc(s', x)|] == InsertDesc(s', x);
    }
  }

  /** Reordering does not change the packed size. */
  lemma {:induction false} SortDescSum(ms: seq<Member>)
    ensures SumSizes(SortDesc(ms)) == SumSizes(ms)
  {
    if |ms| > 0 {
      SortDescSum(ms[..|ms| - 1]);
      InsertDescSum(SortDesc(ms[..|ms| - 1]), ms[|ms| - 1]);
    }
  }

  // ---------------------------------------------------------------------
  // Optimized against unpacked
  // ---------------------------------------------------------------------

  // The worked examples below take their members as parameters fixed by
  // `requires` rather than writing the literals into the lemma: a literal
  // sequence would let the verifier unfold the recursive size functions
  // on it without bound, while parameters keep each unfolding step explicit.

  /** The optimized layout is not always the smaller one: with a member whose
      size is not a multiple of its alignment, sorting can add padding.
      Declared [(size 1, align 2), (1, 1), (2, 2)] takes 4 bytes; sorted to
      [(1, 2), (2, 2), (1, 1)] it takes 6. */
  lemma OptimizedCanBeLarger(a: Member, b: Member, c: Member)
    requires a == Member(1, 2) && b == Member(1, 1) && c == Member(2, 2)
    ensures Layable([a, b, c])
    ensures UnpackedSize([a, b, c]) == 4 && OptimizedSize([a, b, c]) == 6
  {
    UnpackedOfExampleDeclared(a, b, c);
    UnpackedOfExampleSorted(a, c, b);
    SortedOfThree(a, b, c);
    assert OptimizedSize([a, b, c]) == UnpackedSize([a, c, b]);
  }

  /** Inserting after a member of at least the same alignment appends. */
  lemma InsertDescStays(s: seq<Member>, x: Member)
    requires |s| == 0 || s[|s| - 1].alignment >= x.alignment
    ensures InsertDesc(s, x) == s + [x]
  {
  }

  /** Inserting before a member of smaller alignment passes over it. */
  lemma InsertDescPasses(s: seq<Member>, x: Member)
    requires |s| > 0 && s[|s| - 1].alignment < x.alignment
    ensures InsertDesc(s, x) == InsertDesc(s[..|s| - 1], x) + [s[|s| - 1]]
  {
  }

  lemma SortedOfThree(a: Member, b: Member, c: Member)
    requires a.alignment == 2 && b.alignment == 1 && c.alignment == 2
    ensures SortDesc([a, b, c]) == [a, c, b]
  {
    SortThreeMembers(a, b, c);
    InsertDescStays([a], b);
    InsertDescPasses([a, b], c);
    assert [a, b][..1] == [a];
    InsertDescStays([a], c);
    assert [a] + [c] + [b] == [a, c, b];
  }

  lemma SortAscendingThree(a: Member, b: Member, c: Member)
    requires a.alignment < b.alignment < c.alignment
    ensures SortDesc([a, b, c]) == [c, b, a]
  {
    SortThreeMembers(a, b, c);
    InsertDescPasses([a], b);
    assert [a][..0] == [];
    InsertDescStays([], b);
    InsertDescPasses([b, a], c);
    assert [b, a][..1] == [b];
    InsertDescPasses([b], c);
    assert [b][..0] == [];
    InsertDescStays([], c);
    assert [] + [b] + [a] == [b, a];
    assert [] + [c] + [b] + [a] == [c, b, a];
  }

  /** The walk over one, two and three members, one member at a time. */
  lemma WalkOfThree(a: Member, b: Member, c: Member)
    requires a.alignment > 0 && b.alignment > 0 && c.alignment > 0
    ensures Walk([a]) == a.size
    ensures Walk([a, b]) == PadTo(a.size, b.alignment) + b.size
    ensures Walk([a, b, c]) == PadTo(PadTo(a.size, b.alignment) + b.size, c.alignment) + c.size
  {
    assert [a][..0] == [];
    assert Walk([a]) == PadTo(0, a.alignment) + a.size;
    assert [a, b][..1] == [a];
    assert [a, b, c][..2] == [a, b];
  }

  /** The largest alignment of one, two and three members. */
  lemma MaxAlignmentOfThree(a: Member, b: Member, c: Member)
    ensures MaxAlignment([a, b]) == Max(a.alignment, b.alignment)
    ensures MaxAlignment([a, b, c]) == Max(Max(a.alignment, b.alignment), c.alignment)
  {
    assert [a][..0] == [];
    assert [a, b][..1] == [a];
    assert [a, b, c][..2] == [a, b];
  }

  /** The size sum and the largest size of three members. */
  lemma SizesSumOfThree(a: Member, b: Member, c: Member)
    ensures SumSizes([a, b, c]) == a.size + b.size + c.size
    ensures MaxSize([a, b, c]) == Max(Max(a.size, b.size), c.size)
  {
    assert [a][..0] == [];
    assert SumSizes([a]) == a.size;
    assert [a, b][..1] == [a];
    assert SumSizes([a, b]) == a.size + b.size;
    assert [a, b, c][..2] == [a, b];
  }

  /** The unpacked size of two members, unfolded one member at a time. */
  lemma SizesOfTwo(a: Member, b: Member)
    requires a.alignment > 0 && b.alignment > 0
    ensures Layable([a, b])
    ensures UnpackedSize([a, b]) ==
      PadTo(PadTo(a.size, b.alignment) + b.size, Max(a.alignment, b.alignment))
  {
    WalkOfThree(a, b, b);
    MaxAlignmentOfThree(a, b, b);
  }

  /** The unpacked size of three members, unfolded one member at a time. */
  lemma SizesOfThree(a: Member, b: Member, c: Member)
    requires a.alignment > 0 && b.alignment > 0 && c.alignment > 0
    ensures Layable([a, b, c])
    ensures UnpackedSize([a, b, c]) ==
      PadTo(PadTo(PadTo(a.size, b.alignment) + b.size, c.alignment) + c.size,
            Max(Max(a.alignment, b.alignment), c.alignment))
  {
    WalkOfThree(a, b, c);
    MaxAlignmentOfThree(a, b, c);
  }

  lemma UnpackedOfExampleDeclared(a: Member, b: Member, c: Member)
    requires a == Member(1, 2) && b == Member(1, 1) && c == Member(2, 2)
    ensures UnpackedSize([a, b, c]) == 4
  {
    SizesOfThree(a, b, c);
    assert PadTo(1, 1) == 1;
    assert PadTo(2, 2) == 2;
    assert PadTo(4, 2) == 4;
  }

  lemma UnpackedOfExampleSorted(a: Member, b: Member, c: Member)
    requires a == Member(1, 2) && b == Member(2, 2) && c == Member(1, 1)
    ensures UnpackedSize([a, b, c]) == 6
  {
    SizesOfThree(a, b, c);
    assert PadTo(1, 2) == 2;
    assert PadTo(4, 1) == 4;
    assert PadTo(5, 2) == 6;
  }

  lemma UnpackedOfCharIntDouble(a: Member, b: Member, c: Member)
    requires a == Member(1, 1) && b == Member(4, 4) && c == Member(8, 8)
    ensures UnpackedSize([a, b, c]) == 16
  {
    SizesOfThree(a, b, c);
    assert PadTo(1, 4) == 4;
    assert PadTo(8, 8) == 8;
    assert PadTo(16, 8) == 16;
  }

  lemma UnpackedOfDoubleIntChar(a: Member, b: Member, c: Member)
    requires a == Member(8, 8) && b == Member(4, 4) && c == Member(1, 1)
    ensures UnpackedSize([a, b, c]) == 16
  {
    SizesOfThree(a, b, c);
    assert PadTo(8, 4) == 8;
    assert PadTo(12, 1) == 12;
    assert PadTo(13, 8) == 16;
  }

  /** An aligned member counted as empty, then a byte: 8 bytes in all. */
  lemma UnpackedOfEmptyThenByte(a: Member, b: Member)
    requires a == Member(0, 8) && b == Member(1, 1)
    ensures Layable([a, b])
    ensures UnpackedSize([a, b]) == 8
  {
    SizesOfTwo(a, b);
    assert PadTo(0, 1) == 0;
    assert PadTo(1, 8) == 8;
  }

  /** A 16-byte member aligned to 8, then a byte: 24 bytes in all. */
  lemma UnpackedOfSixteenThenByte(a: Member, b: Member)
    requires a == Member(16, 8) && b == Member(1, 1)
    ensures Layable([a, b])
    ensures UnpackedSize([a, b]) == 24
  {
    SizesOfTwo(a, b);
    assert PadTo(16, 1) == 16;
    assert PadTo(17, 8) == 24;
  }

  /** A union of a member of alignment 0 and an int: only the largest
      alignment is divided by, and the union takes 4 bytes. */
  lemma UnionWithZeroAlignment(a: Member, b: Member)
    requires a == Member(1, 0) && b == Member(4, 4)
    ensures MaxAlignment([a, b]) == 4 && MaxSize([a, b]) == 4
    ensures UnionSize([a, b]) == 4
  {
    MaxAlignmentOfThree(a, b, b);
    assert [a, b][..1] == [a];
    assert MaxSize([a, b]) == Max(a.size, b.size);
    assert PadTo(4, 4) == 4;
  }

  /** Sorting three members, one insertion at a time. */
  lemma SortThreeMembers(a: Member, b: Member, c: Member)
    ensures SortDesc([a, b, c]) == InsertDesc(InsertDesc([a], b), c)
  {
    assert [a, b, c][..2] == [a, b];
    assert [a, b][..1] == [a];
    assert [a][..0] == [];
    assert SortDesc([a]) == [a];
  }

  // ---------------------------------------------------------------------
  // Natural members: sorting never costs space
  // ---------------------------------------------------------------------

  /** 1, 2, 4, 8, ... */
  predicate PowerOfTwo(n: nat)
    decreases n
  {
    n == 1 || (n > 1 && n % 2 == 0 && PowerOfTwo(n / 2))
  }

  /** Members whose alignment is a power of two and whose size is a multiple
      of it, as every type of a real ABI is. */
  predicate Natural(ms: seq<Member>) {
    forall i :: 0 <= i < |ms| ==>
      ms[i].alignment > 0 && PowerOfTwo(ms[i].alignment) && ms[i].size % ms[i].alignment == 0
  }

  /** The smaller of two powers of two divides the larger. */
  lemma {:induction false} PowerOfTwoDivides(a: nat, b: nat)
    requires PowerOfTwo(a) && PowerOfTwo(b) && a <= b
    ensures a > 0 && b % a == 0
    decreases a
  {
    if a == 1 {
    } else {
      PowerOfTwoDivides(a / 2, b / 2);
      var k := (b / 2) / (a / 2);
      assert b / 2 == (a / 2) * k;
      assert b == a * k;
      MultipleMod(a, k);
    }
  }

  /** Divisibility is transitive. */
  lemma DividesTrans(a: nat, b: nat, c: nat)
    requires a > 0 && b > 0 && b % a == 0 && c % b == 0
    ensures c % a == 0
  {
    var j, k := b / a, c / b;
    assert b == a * j;
    assert c == b * k;
    assert c == a * (j * k);
    MultipleMod(a, j * k);
  }

  /** A sum of multiples of `a` is a multiple of `a`. */
  lemma DividesSum(a: nat, x: nat, y: nat)
    requires a > 0 && x % a == 0 && y % a == 0
    ensures (x + y) % a == 0
  {
    var p, q := x / a, y / a;
    assert x == a * p && y == a * q;
    assert x + y == a * (p + q);
    MultipleMod(a, p + q);
  }

  /** When every size is a multiple of `a`, so is their sum. */
  lemma {:induction false} SumSizesMultiple(ms: seq<Member>, a: nat)
    requires a > 0 && forall i :: 0 <= i < |ms| ==> ms[i].size % a == 0
    ensures SumSizes(ms) % a == 0
  {
    if |ms| > 0 {
      SumSizesMultiple(ms[..|ms| - 1], a);
      DividesSum(a, SumSizes(ms[..|ms| - 1]), ms[|ms| - 1].size);
    }
  }

  /** Two distinct multiples of `a` are at least `a` apart. */
  lemma MultiplesApart(a: nat, m: nat, p: nat)
    requires a > 0 && m % a == 0 && p % a == 0 && m < p
    ensures m + a <= p
  {
    var i, j := m / a, p / a;
    assert m == a * i && p == a * j;
    var d: nat := j - i - 1;
    assert p - m == a * (d + 1) by {
      assert p - m == a * j - a * i;
    }
    assert a * (d + 1) == a * d + a;
  }

  /** Padding preserves order. */
  lemma PadToMonotone(x: nat, y: nat, a: nat)
    requires a > 0 && x <= y
    ensures PadTo(x, a) <= PadTo(y, a)
  {
    if PadTo(y, a) < PadTo(x, a) {
      MultiplesApart(a, PadTo(y, a), PadTo(x, a));
    }
  }

  /** Walking natural members in descending alignment order never pads: each
      member's alignment divides every size before it. */
  lemma {:induction false} DescendingWalkIsPacked(ms: seq<Member>)
    requires Descending(ms) && Natural(ms)
    ensures Walk(ms) == SumSizes(ms)
  {
    if |ms| > 0 {
      var init, last := ms[..|ms| - 1], ms[|ms| - 1];
      assert Descending(init) && Natural(init);
      DescendingWalkIsPacked(init);
      forall j | 0 <= j < |init| ensures init[j].size % last.alignment == 0 {
        PowerOfTwoDivides(last.alignment, init[j].alignment);
        DividesTrans(last.alignment, init[j].alignment, init[j].size);
      }
      SumSizesMultiple(init, last.alignment);
      assert PadTo(SumSizes(init), last.alignment) == SumSizes(init);
    }
  }

  /** Sorting keeps members natural. */
  lemma SortDescNatural(ms: seq<Member>)
    requires Natural(ms)
    ensures Natural(SortDesc(ms))
  {
    SortDescPermutation(ms);
    var r := SortDesc(ms);
    forall i | 0 <= i < |r|
      ensures r[i].alignment > 0 && PowerOfTwo(r[i].alignment) && r[i].size % r[i].alignment == 0
    {
      assert r[i] in multiset(ms);
      var k :| 0 <= k < |ms| && ms[k] == r[i];
    }
  }

  /** For natural members the optimized layout is never larger than the
      declared one: the sorted walk is exactly the packed size, which no walk
      undercuts. */
  lemma OptimizedNoLargerForNatural(ms: seq<Member>)
    requires |ms| > 0 && Natural(ms)
    ensures Layable(ms) && OptimizedSize(ms) <= UnpackedSize(ms)
  {
    var sorted := SortDesc(ms);
    SortDescLayable(ms);
    SortDescSorted(ms);
    SortDescNatural(ms);
    SortDescSum(ms);
    DescendingWalkIsPacked(sorted);
    PadToMonotone(SumSizes(ms), Walk(ms), MaxAlignment(ms));
  }

  // ---------------------------------------------------------------------
  // The layout computation as DataTypeManager.py runs it
  // ---------------------------------------------------------------------

  /** The padding loop shared by the unpacked and the optimized layouts:
      a running offset and a running maximum alignment, then tail padding. */
  method PaddingWalk(ms: seq<Member>) returns (offset: nat, maxAlignment: nat)
    requires Layable(ms)
    ensures offset == UnpackedSize(ms)
    ensures maxAlignment == MaxAlignment(ms)
  {
    offset := 0;
    maxAlignment := 0;
    for i := 0 to |ms|
      invariant offset == Walk(ms[..i])
      invariant maxAlignment == MaxAlignment(ms[..i])
    {
      var t := ms[i];
      assert ms[..i + 1][..i] == ms[..i] && ms[..i + 1][i] == t;
      if offset % t.alignment != 0 {
        var padding := t.alignment - offset % t.alignment;
        offset := offset + padding;
      }
      assert offset == PadTo(Walk(ms[..i]), t.alignment);
      maxAlignment := Max(maxAlignment, t.alignment);
      offset := offset + t.size;
    }
    assert ms[..|ms|] == ms;
    MaxAlignmentPositive(ms);
    if offset % maxAlignment != 0 {
      offset := offset + (maxAlignment - offset % maxAlignment);
    }
    assert offset == PadTo(Walk(ms), MaxAlignment(ms));
  }

  /** The declared-order layout: size, struct alignment and wasted bytes. */
  method CalculateUnpacked(ms: seq<Member>) returns (sizeUnpacked: nat, alignment: nat, wastedUnpacked: int)
    requires Layable(ms)
    ensures sizeUnpacked == UnpackedSize(ms) && alignment == MaxAlignment(ms)
    ensures wastedUnpacked == sizeUnpacked - SumSizes(ms) && wastedUnpacked >= 0
    ensures alignment > 0 && sizeUnpacked % alignment == 0
  {
    sizeUnpacked, alignment := PaddingWalk(ms);
    wastedUnpacked := sizeUnpacked - SumSizes(ms);
  }

  /** The reordered layout: the same walk over the stably sorted members. */
  method CalculateOptimized(ms: seq<Member>) returns (sizeOptimized: nat, wastedOptimized: int)
    requires Layable(ms)
    ensures sizeOptimized == OptimizedSize(ms)
    ensures wastedOptimized == sizeOptimized - SumSizes(ms) && wastedOptimized >= 0
    ensures sizeOptimized % MaxAlignment(ms) == 0
  {
    var sorted := SortDesc(ms);
    SortDescLayable(ms);
    var maxAlignment;
    sizeOptimized, maxAlignment := PaddingWalk(sorted);
    wastedOptimized := sizeOptimized - SumSizes(ms);
  }

  /** char(1,1), int(4,4), double(8,8) sorted by descending alignment are
      double, int, char, which also take 16 bytes. */
  lemma CharIntDoubleOptimized(a: Member, b: Member, c: Member)
    requires a == Member(1, 1) && b == Member(4, 4) && c == Member(8, 8)
    ensures Layable([a, b, c]) && OptimizedSize([a, b, c]) == 16
  {
    UnpackedOfDoubleIntChar(c, b, a);
    SortAscendingThree(a, b, c);
    assert OptimizedSize([a, b, c]) == UnpackedSize(SortDesc([a, b, c]));
  }

  /** char(1,1), int(4,4), double(8,8) in that order: 16 bytes with 3 of
      padding, 13 packed, 16 optimized; as a union, 8 bytes. */
  lemma CharIntDoubleExample(a: Member, b: Member, c: Member)
    requires a == Member(1, 1) && b == Member(4, 4) && c == Member(8, 8)
    ensures Layable([a, b, c]) && MaxAlignment([a, b, c]) == 8 && SumSizes([a, b, c]) == 13
    ensures UnpackedSize([a, b, c]) == 16 && OptimizedSize([a, b, c]) == 16 && UnionSize([a, b, c]) == 8
  {
    CharIntDoubleOptimized(a, b, c);
    UnpackedOfCharIntDouble(a, b, c);
    MaxAlignmentOfThree(a, b, c);
    SizesSumOfThree(a, b, c);
    assert UnionSize([a, b, c]) == PadTo(8, 8);
  }
}
