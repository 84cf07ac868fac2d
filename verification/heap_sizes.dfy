/** The size classes of the small-object heap, and how many objects a slab of each class has room for. */
module HeapSizes {
  import opened Bits

  const PAGE: nat := 4096
  const MIN_SIZE_CLASS_VALUE: nat := 16
  const MAX_SIZE_CLASS_NR: nat := 96
  const MAX_SMALL_OBJECT_SIZE: nat := 0x4_0000
  const HEADER: nat := 56 // sizeof(NX_HeapSmallCacheSystem) with 64-bit pointers

  /** From class n to the next: 16 at first, doubled every eight classes. */
  function Step(n: nat): (r: nat)
    ensures r >= 16
  {
    if n < 15 then 16 else 2 * Step(n - 8)
  }

  function ClassSize(n: nat): (r: nat)
    ensures r >= 16 * (n + 1)
  {
    if n == 0 then MIN_SIZE_CLASS_VALUE else ClassSize(n - 1) + Step(n - 1)
  }

  lemma {:induction false} ClassDoubles(n: nat)
    requires n >= 7
    ensures ClassSize(n + 8) == 2 * ClassSize(n)
  {
    if n > 7 {
      ClassDoubles(n - 1);
    } else {
      assert ClassSize(7) == ClassSize(3) + 64 && ClassSize(3) == 64;
      assert ClassSize(11) == ClassSize(7) + 64;
      assert ClassSize(15) == ClassSize(11) + 64;
    }
  }

  lemma {:induction false} ClassesIncrease(a: nat, b: nat)
    requires a < b
    ensures ClassSize(a) < ClassSize(b)
  {
    if a < b - 1 {
      ClassesIncrease(a, b - 1);
    }
  }

  /** From 128 on, the step is between a sixteenth and an eighth of the class. */
  lemma {:induction false} StepBracket(n: nat)
    requires n >= 7
    ensures 8 * Step(n) <= ClassSize(n) < 16 * Step(n)
    ensures exists e: nat :: Step(n) == Pow2(e)
  {
    if n < 15 {
      assert ClassSize(7) == ClassSize(3) + 64 && ClassSize(3) == 64;
      if n <= 10 {
        assert ClassSize(10) == ClassSize(7) + 48;
      } else {
        assert ClassSize(10) == ClassSize(7) + 48;
        assert ClassSize(14) == ClassSize(10) + 64;
      }
      if n < 14 { ClassesIncrease(n, 14); }
      if 7 < n { ClassesIncrease(7, n); }
      assert Pow2(4) == 16;
    } else {
      StepBracket(n - 8);
      ClassDoubles(n - 8);
      var e: nat :| Step(n - 8) == Pow2(e);
      assert Step(n) == Pow2(e + 1);
    }
  }

  lemma LeastSizes()
    ensures ClassSize(7) == 128 && ClassSize(8) == 144 && ClassSize(12) == 208
  {
    assert ClassSize(7) == ClassSize(3) + 64 && ClassSize(3) == 64;
    assert ClassSize(12) == ClassSize(8) + 64;
  }

  /** The classes at which the number of pages of a slab changes, and the last one. */
  lemma ClassLandmarks()
    ensures ClassSize(31) == 1024 && ClassSize(55) == 8192 && ClassSize(72) == 36864
    ensures ClassSize(84) == 106496 && ClassSize(95) == MAX_SMALL_OBJECT_SIZE
  {
    hide ClassSize;
    LeastSizes();
    ClassDoubles(7); ClassDoubles(15); ClassDoubles(23); ClassDoubles(31); ClassDoubles(39); ClassDoubles(47);
    ClassDoubles(55); ClassDoubles(63); ClassDoubles(71); ClassDoubles(79); ClassDoubles(87);
    ClassDoubles(8); ClassDoubles(16); ClassDoubles(24); ClassDoubles(32); ClassDoubles(40); ClassDoubles(48);
    ClassDoubles(56); ClassDoubles(64);
    ClassDoubles(12); ClassDoubles(20); ClassDoubles(28); ClassDoubles(36); ClassDoubles(44); ClassDoubles(52);
    ClassDoubles(60); ClassDoubles(68); ClassDoubles(76);
  }

  lemma OnePower(a: nat, b: nat, size: nat)
    requires Pow2(a) <= size < 2 * Pow2(a) && Pow2(b) <= size < 2 * Pow2(b)
    ensures a == b
  {
    if a < b { Pow2Monotone(a, b); }
    if b < a { Pow2Monotone(b, a); }
  }

  /** AlignDownToPow2: the largest power of two within `size`. */
  method AlignDownToPow2(size: nat) returns (r: nat)
    requires 0 < size < Pow2(20)
    ensures exists e: nat :: r == Pow2(e) && r <= size < 2 * r
  {
    var n: nat := 19;
    while Pow2(n) > size
      invariant size < 2 * Pow2(n)
    {
      n := n - 1;
    }
    return Pow2(n);
  }

  lemma StepIs(n: nat, step: nat)
    requires n >= 8 && exists e: nat :: step == Pow2(e) && step <= ClassSize(n) / 8 < 2 * step
    ensures ClassSize(n + 1) == ClassSize(n) + step
  {
    StepBracket(n);
    var a: nat, b: nat :| step == Pow2(a) && step <= ClassSize(n) / 8 < 2 * step && Step(n) == Pow2(b);
    OnePower(a, b, ClassSize(n) / 8);
  }

  lemma FirstClasses()
    ensures forall k :: 0 <= k < 8 ==> ClassSize(k) == 16 * (k + 1)
    ensures ClassSize(8) == 144 && Pow2(20) == 0x10_0000
  {
    assert ClassSize(3) == 64;
    assert ClassSize(7) == ClassSize(3) + 64;
    PowersOfTwo();
  }

  /** The loops of HeapSizeClassInit: they fill the table to its end and not beyond. */
  method HeapSizeClassInit() returns (sizes: array<nat>)
    ensures fresh(sizes) && sizes.Length == MAX_SIZE_CLASS_NR
    ensures forall k :: 0 <= k < sizes.Length ==> sizes[k] == ClassSize(k)
  {
    hide Pow2, ClassSize, Step;
    FirstClasses();
    ClassLandmarks();
    sizes := new nat[MAX_SIZE_CLASS_NR](_ => 0);
    var n: nat := 0;
    sizes[n] := MIN_SIZE_CLASS_VALUE;
    n := 1;
    var i: nat := 32;
    while i <= 128
      invariant 1 <= n <= 8 && i == 16 * (n + 1)
      invariant forall k :: 0 <= k < n ==> sizes[k] == ClassSize(k)
    {
      sizes[n] := i;
      n := n + 1;
      i := i + 16;
    }
    i := 128 + 128 / 8;
    while i <= MAX_SMALL_OBJECT_SIZE
      invariant 8 <= n <= MAX_SIZE_CLASS_NR && i == ClassSize(n)
      invariant forall k :: 0 <= k < n ==> sizes[k] == ClassSize(k)
      decreases MAX_SIZE_CLASS_NR - n
    {
      if n > 95 { ClassesIncrease(95, n); }
      sizes[n] := i;
      var step := AlignDownToPow2(i / 8);
      StepIs(n, step);
      i := i + step;
      n := n + 1;
    }
    if n < 95 { ClassesIncrease(n, 95); }
  }

  /** SizeToCache: the smallest class that is large enough. */
  method SizeToCache(sizes: array<nat>, size: nat) returns (index: nat)
    requires sizes.Length == MAX_SIZE_CLASS_NR && size <= MAX_SMALL_OBJECT_SIZE
    requires forall k :: 0 <= k < sizes.Length ==> sizes[k] == ClassSize(k)
    ensures IsClassOf(index, size)
  {
    hide ClassSize;
    index := 0;
    ClassLandmarks();
    while sizes[index] < size
      invariant index < MAX_SIZE_CLASS_NR && (index > 0 ==> ClassSize(index - 1) < size)
      decreases MAX_SIZE_CLASS_NR - index
    {
      index := index + 1;
    }
  }

  predicate IsClassOf(index: nat, size: nat) {
    index < MAX_SIZE_CLASS_NR && ClassSize(index) >= size && (index > 0 ==> ClassSize(index - 1) < size)
  }

  lemma BelowClass(index: nat, other: nat, size: nat)
    requires IsClassOf(index, size) && other < index
    ensures ClassSize(other) < size
  {
    hide ClassSize;
    if other < index - 1 { ClassesIncrease(other, index - 1); }
  }

  /** No size has two classes, and a class belongs to itself. */
  lemma ClassUnique(index: nat, other: nat, size: nat)
    requires IsClassOf(index, size) && other < MAX_SIZE_CLASS_NR && ClassSize(other) >= size
    ensures ClassSize(index) <= ClassSize(other)
    ensures ClassSize(other) == size ==> index == other
  {
    hide ClassSize, Step;
    if index < other {
      ClassesIncrease(index, other);
    } else if other < index {
      BelowClass(index, other, size);
    }
  }

  /** The rounding up of a request costs at most 15 bytes, or an eighth of it for the larger ones. */
  lemma WasteBounded(index: nat, size: nat)
    requires size > 0 && IsClassOf(index, size)
    ensures ClassSize(index) < size + 16 || (size > 128 && 8 * (ClassSize(index) - size) < size)
  {
    if index > 7 {
      StepBracket(index - 1);
      FirstClasses();
      if index > 8 { ClassesIncrease(7, index - 1); }
    } else {
      FirstClasses();
    }
  }

  function SizeToPageCount(size: nat): nat {
    if 0 < size <= 1024 then 1
    else if 1024 < size <= 8192 then 4
    else if 8192 < size <= 36864 then 18
    else if 36864 < size <= 104096 then 52
    else if 104096 < size <= 262144 then 256
    else (size + PAGE - 1) / PAGE
  }

  // ----- slabs -----

  /** How many object places the slab's own header takes. */
  function HeaderPlaces(size: nat): nat
    requires size > 0
  {
    (HEADER + size - 1) / size
  }

  function Places(pages: nat, size: nat): nat
    requires size > 0
  {
    pages * PAGE / size
  }

  lemma SmallClassPlaces(index: nat)
    requires index < 3
    ensures HeaderPlaces(ClassSize(index)) < Places(1, ClassSize(index))
  {
    FirstClasses();
  }

  lemma HeaderOfLarge(size: nat)
    requires size >= HEADER
    ensures HeaderPlaces(size) == 1
  {
    assert HEADER + size - 1 < 2 * size;
  }

  lemma TwoPlaces(total: nat, size: nat)
    requires 0 < size && 2 * size <= total
    ensures total / size >= 2
  {
    var q := total / size;
    assert total == size * q + total % size;
    assert q == 0 ==> size * q == 0;
    assert q == 1 ==> size * q == size;
  }

  /** A slab of the chosen number of pages has room for an object of the chosen class beside its header, although
      the pages are chosen from the size requested and not from the class. */
  lemma SlabHoldsOne(index: nat, size: nat)
    requires 0 < size <= MAX_SMALL_OBJECT_SIZE && IsClassOf(index, size)
    ensures HeaderPlaces(ClassSize(index)) < Places(SizeToPageCount(size), ClassSize(index))
  {
    hide ClassSize, Places, HeaderPlaces;
    ClassLandmarks();
    FirstClasses();
    var pages := SizeToPageCount(size);
    var bound := if size <= 1024 then 31 else if size <= 8192 then 55 else if size <= 36864 then 72
                 else if size <= 104096 then 84 else 95;
    ClassUnique(index, bound, size);
    if index < 3 {
      SmallClassPlaces(index);
    } else {
      if index > 3 { ClassesIncrease(3, index); }
      HeaderOfLarge(ClassSize(index));
      TwoPlacesFit(pages, ClassSize(index));
    }
  }

  lemma TwoPlacesFit(pages: nat, size: nat)
    requires 0 < size && 2 * size <= pages * PAGE
    ensures Places(pages, size) >= 2
  {
    TwoPlaces(pages * PAGE, size);
  }

  /** Objects follow each other from the first one on. */
  function ObjectAt(start: nat, size: nat, k: nat): nat {
    if k == 0 then start else ObjectAt(start, size, k - 1) + size
  }

  lemma {:induction false} ObjectPlace(start: nat, size: nat, k: nat)
    ensures ObjectAt(start, size, k) == start + k * size
  {
    if k > 0 {
      ObjectPlace(start, size, k - 1);
      Distribute(k - 1, size);
    }
  }

  lemma Distribute(n: nat, size: nat)
    ensures (n + 1) * size == n * size + size
  {
  }

  lemma {:induction false} ObjectsApart(start: nat, size: nat, j: nat, k: nat)
    requires j < k
    ensures ObjectAt(start, size, j) + size <= ObjectAt(start, size, k)
  {
    if j < k - 1 {
      ObjectsApart(start, size, j, k - 1);
    }
  }

  /** Where the first object of the slab at page `b` is: behind the places that the header takes. */
  function FirstObject(b: nat, size: nat): nat
    requires size > 0
  {
    b * PAGE + HeaderPlaces(size) * size
  }

  /** The objects that a slab of so many pages is laid out with lie behind its header and within its pages. */
  lemma SlabFits(b: nat, pages: nat, size: nat, max: nat)
    requires size > 0 && HeaderPlaces(size) + max == Places(pages, size)
    ensures b * PAGE + HEADER <= FirstObject(b, size)
    ensures ObjectAt(FirstObject(b, size), size, max) <= (b + pages) * PAGE
  {
    CeilCovers(size);
    ObjectPlace(FirstObject(b, size), size, max);
    PlacesWithin(HeaderPlaces(size) + max, pages * PAGE, size);
    DistributeSum(HeaderPlaces(size), max, size);
  }

  lemma DistributeSum(n: nat, m: nat, size: nat)
    ensures (n + m) * size == n * size + m * size
  {
  }

  lemma CeilCovers(size: nat)
    requires size > 0
    ensures HeaderPlaces(size) * size >= HEADER
  {
    var n := HEADER + size - 1;
    assert n == size * (n / size) + n % size;
  }

  lemma PlacesWithin(n: nat, total: nat, size: nat)
    requires size > 0 && n <= total / size
    ensures n * size <= total
  {
    var q := total / size;
    assert total == size * q + total % size;
    assert n * size <= q * size;
  }
}
