/** The layout table of an enclave image: entries, groups that repeat earlier entries, the
    check that accepts a table, and the traversal that builds from it. */
module LayoutTable {
  import opened Basics

  const PAGE: nat := 4096

  /** Offset of the data area in the metadata structure. */
  const DATA_OFFSET: nat := 1888

  type u16 = x: nat | x < 0x1_0000 witness 0
  type u32 = x: nat | x < P32 witness 0
  type u64 = x: nat | x < P64 witness 0

  datatype Layout =
    | Entry(id: u16, attributes: u16, pageCount: u32, rva: u64, contentSize: u32, contentOffset: u32, siFlags: u64)
    | Group(entryCount: u16, loadTimes: u32, loadStep: u64)

  datatype Metadata = Metadata(size: u32, enclaveSize: u64, layouts: seq<Layout>)

  /** A byte range of the enclave, relative to its base. */
  datatype Range = Range(start: nat, size: nat) {
    function End(): nat {
      start + size
    }
  }

  // ----- bounds checks with wrap-around -----

  predicate IsMetadataBuffer(m: Metadata, offset: u32, size: u32) {
    var end := (offset + size) % P32;
    DATA_OFFSET <= offset < m.size && !(end < offset || end < size || end > m.size)
  }

  predicate IsEnclaveBuffer(m: Metadata, offset: u64, size: u64) {
    var end := (offset + size) % P64;
    offset < m.enclaveSize && !(end < offset || end < size || end > m.enclaveSize)
  }

  /** The wrapped comparisons decide the plain ones. */
  lemma BufferChecksAreExact(m: Metadata, o: u32, s: u32, offset: u64, size: u64)
    ensures IsMetadataBuffer(m, o, s) <==> DATA_OFFSET <= o < m.size && o + s <= m.size
    ensures IsEnclaveBuffer(m, offset, size) <==> offset < m.enclaveSize && offset + size <= m.enclaveSize
  {
    assert (o + s) % P32 == if o + s < P32 then o + s else o + s - P32;
    assert (offset + size) % P64 == if offset + size < P64 then offset + size else offset + size - P64;
  }

  // ----- the ranges a table stands for -----

  function Size(e: Layout): nat
    requires e.Entry?
  {
    e.pageCount * PAGE
  }

  /** A 64-bit address computation, or the plain one. */
  function Wrapped(x: nat, wrap: bool): nat {
    if wrap then x % P64 else x
  }

  /** The entries of [lo, hi), moved up by delta. */
  function Shifted(table: seq<Layout>, lo: nat, hi: nat, delta: nat, wrap: bool): seq<Range>
    requires lo <= hi <= |table|
    decreases hi - lo
  {
    if lo == hi then []
    else Shifted(table, lo, hi - 1, delta, wrap)
         + (if table[hi - 1].Entry? then [Range(Wrapped(table[hi - 1].rva + delta, wrap), Size(table[hi - 1]))] else [])
  }

  function Repeated(table: seq<Layout>, lo: nat, hi: nat, step: nat, times: nat, wrap: bool): seq<Range>
    requires lo <= hi <= |table|
    decreases times
  {
    if times == 0 then []
    else Repeated(table, lo, hi, step, times - 1, wrap)
         + Shifted(table, lo, hi, Wrapped(times * step, wrap), wrap)
  }

  /** What the first n items of the table stand for. */
  function Expand(table: seq<Layout>, n: nat, wrap: bool): seq<Range>
    requires n <= |table|
    decreases n
  {
    if n == 0 then []
    else Expand(table, n - 1, wrap) + ItemRanges(table, n - 1, wrap)
  }

  function ItemRanges(table: seq<Layout>, i: nat, wrap: bool): seq<Range>
    requires i < |table|
  {
    match table[i]
    case Entry(_, _, _, rva, _, _, _) => [Range(rva, Size(table[i]))]
    case Group(count, times, step) =>
      if count <= i then Repeated(table, i - count, i, step, times, wrap) else []
  }

  // ----- what a valid table is -----

  ghost predicate ContentOk(m: Metadata, e: Layout) {
    e.Entry? && e.contentOffset != 0 ==>
      DATA_OFFSET <= e.contentOffset < m.size && e.contentOffset + e.contentSize <= m.size
  }

  /** A group repeats entries only, and its last copy starts within the enclave's size. */
  ghost predicate GroupOk(m: Metadata, i: nat)
    requires i < |m.layouts|
  {
    match m.layouts[i]
    case Entry(_, _, _, _, _, _, _) => true
    case Group(count, times, step) =>
      && count <= i
      && times * step <= m.enclaveSize
      && (times > 0 ==> forall k | i - count <= k < i :: m.layouts[k].Entry?)
  }

  ghost predicate RangeOk(m: Metadata, r: Range) {
    r.start % PAGE == 0 && r.start < m.enclaveSize && r.End() <= m.enclaveSize
  }

  /** Ranges that share no byte and no position inside one another. */
  ghost predicate Separate(a: Range, b: Range) {
    a.End() <= b.start || b.End() <= a.start
  }

  ghost predicate PairwiseSeparate(v: seq<Range>) {
    forall i, j | 0 <= i < j < |v| :: Separate(v[i], v[j])
  }

  ghost predicate RangesOk(m: Metadata, v: seq<Range>) {
    (forall r | r in v :: RangeOk(m, r)) && PairwiseSeparate(v)
  }

  ghost predicate ItemsOk(m: Metadata, n: nat)
    requires n <= |m.layouts|
  {
    forall i | 0 <= i < n :: ContentOk(m, m.layouts[i]) && GroupOk(m, i)
  }

  /** All over unbounded integers. */
  ghost predicate ValidTable(m: Metadata) {
    ItemsOk(m, |m.layouts|) && RangesOk(m, Expand(m.layouts, |m.layouts|, false))
  }

  // ----- sorting -----

  predicate Before(a: Range, b: Range) {
    a.start < b.start || (a.start == b.start && a.size <= b.size)
  }

  predicate Sorted(v: seq<Range>) {
    forall i, j | 0 <= i < j < |v| :: Before(v[i], v[j])
  }

  lemma HeadIsFirst(v: seq<Range>)
    requires v != [] && Sorted(v)
    ensures Sorted(v[1..]) && forall y | y in v[1..] :: Before(v[0], y)
  {
    forall y | y in v[1..] ensures Before(v[0], y) {
      var j :| 0 <= j < |v| - 1 && v[1..][j] == y;
      assert v[j + 1] == y;
    }
  }

  lemma ConsSorted(x: Range, v: seq<Range>)
    requires Sorted(v) && forall y | y in v :: Before(x, y)
    ensures Sorted([x] + v)
  {
    forall j | 0 <= j < |v| ensures Before(x, v[j]) {
      assert v[j] in v;
    }
  }

  function Insert(x: Range, v: seq<Range>): (r: seq<Range>)
    requires Sorted(v)
    ensures Sorted(r) && forall y :: y in r <==> y == x || y in v
    decreases |v|
  {
    if v == [] then [x]
    else if Before(x, v[0]) then
      assert v == [v[0]] + v[1..];
      HeadIsFirst(v);
      ConsSorted(x, v);
      [x] + v
    else
      assert v == [v[0]] + v[1..];
      HeadIsFirst(v);
      var rest := Insert(x, v[1..]);
      ConsSorted(v[0], rest);
      [v[0]] + rest
  }

  function Sort(v: seq<Range>): (r: seq<Range>)
    ensures Sorted(r) && forall y :: y in r <==> y in v
    decreases |v|
  {
    if v == [] then [] else
      assert v == [v[0]] + v[1..];
      Insert(v[0], Sort(v[1..]))
  }

  lemma SeparateCons(x: Range, v: seq<Range>)
    ensures PairwiseSeparate([x] + v) <==> PairwiseSeparate(v) && forall y | y in v :: Separate(x, y)
  {
    var w := [x] + v;
    if PairwiseSeparate(w) {
      forall i, j | 0 <= i < j < |v| ensures Separate(v[i], v[j]) {
        assert w[i + 1] == v[i] && w[j + 1] == v[j];
      }
      forall y | y in v ensures Separate(x, y) {
        var j :| 0 <= j < |v| && v[j] == y;
        assert w[0] == x && w[j + 1] == y;
      }
    }
  }

  lemma {:induction false} SeparateInsert(x: Range, v: seq<Range>)
    requires Sorted(v)
    ensures PairwiseSeparate(Insert(x, v)) <==> PairwiseSeparate([x] + v)
    decreases |v|
  {
    if v != [] && !Before(x, v[0]) {
      var rest := v[1..];
      assert v == [v[0]] + rest;
      SeparateInsert(x, rest);
      SeparateCons(x, v);
      SeparateCons(v[0], rest);
      SeparateCons(x, rest);
      SeparateCons(v[0], Insert(x, rest));
      assert Separate(x, v[0]) <==> Separate(v[0], x);
    } else if v == [] {
      assert [x] + v == [x];
    }
  }

  /** Sorting does not change whether ranges are pairwise separate. */
  lemma {:induction false} SeparateSort(v: seq<Range>)
    ensures PairwiseSeparate(Sort(v)) <==> PairwiseSeparate(v)
    decreases |v|
  {
    if v != [] {
      var rest := v[1..];
      assert v == [v[0]] + rest;
      SeparateSort(rest);
      SeparateInsert(v[0], Sort(rest));
      SeparateCons(v[0], Sort(rest));
      SeparateCons(v[0], rest);
    }
  }

  /** In a sorted list, comparing neighbours decides separation of all pairs, empty
      ranges included. */
  lemma NeighboursSuffice(v: seq<Range>)
    requires Sorted(v)
    ensures PairwiseSeparate(v) <==> forall i | 0 <= i < |v| - 1 :: v[i].End() <= v[i + 1].start
  {
    if PairwiseSeparate(v) {
      forall i | 0 <= i < |v| - 1 ensures v[i].End() <= v[i + 1].start {
        assert Separate(v[i], v[i + 1]) && Before(v[i], v[i + 1]);
      }
    }
    if forall i | 0 <= i < |v| - 1 :: v[i].End() <= v[i + 1].start {
      forall i, j | 0 <= i < j < |v| ensures Separate(v[i], v[j]) {
        assert v[i].End() <= v[i + 1].start;
        assert i + 1 < j ==> Before(v[i + 1], v[j]);
      }
    }
  }

  // ----- no wrap-around in an accepted table -----

  lemma {:induction false} ShiftedNoWrap(table: seq<Layout>, lo: nat, hi: nat, delta: nat, bound: nat)
    requires lo <= hi <= |table| && delta + bound <= P64
    requires forall k | lo <= k < hi && table[k].Entry? :: table[k].rva < bound
    ensures Shifted(table, lo, hi, delta, true) == Shifted(table, lo, hi, delta, false)
    decreases hi - lo
  {
    if lo < hi {
      ShiftedNoWrap(table, lo, hi - 1, delta, bound);
    }
  }

  lemma {:induction false} RepeatedNoWrap(table: seq<Layout>, lo: nat, hi: nat, step: nat, times: nat, bound: nat)
    requires lo <= hi <= |table| && times * step <= bound && 2 * bound < P64
    requires forall k | lo <= k < hi && table[k].Entry? :: table[k].rva < bound
    ensures Repeated(table, lo, hi, step, times, true) == Repeated(table, lo, hi, step, times, false)
    decreases times
  {
    if times > 0 {
      MoreCopies(times - 1, times, step);
      RepeatedNoWrap(table, lo, hi, step, times - 1, bound);
      ShiftedNoWrap(table, lo, hi, times * step, bound);
    }
  }

  /** Entries below the enclave size and steps that fit it never wrap. */
  lemma {:induction false} ExpandNoWrap(m: Metadata, n: nat)
    requires n <= |m.layouts| && ItemsOk(m, n) && 2 * m.enclaveSize < P64
    requires forall k | 0 <= k < n && m.layouts[k].Entry? :: m.layouts[k].rva < m.enclaveSize
    ensures Expand(m.layouts, n, true) == Expand(m.layouts, n, false)
    decreases n
  {
    if n > 0 {
      ExpandNoWrap(m, n - 1);
      match m.layouts[n - 1]
      case Entry(_, _, _, _, _, _, _) =>
      case Group(count, times, step) =>
        hide Repeated;
        assert GroupOk(m, n - 1);
        RepeatedNoWrap(m.layouts, n - 1 - count, n - 1, step, times, m.enclaveSize);
    }
  }

  lemma {:induction false} ShiftedHas(table: seq<Layout>, lo: nat, hi: nat, delta: nat, k: nat)
    requires lo <= k < hi <= |table| && table[k].Entry?
    ensures Range(table[k].rva + delta, Size(table[k])) in Shifted(table, lo, hi, delta, false)
    decreases hi
  {
    if k < hi - 1 {
      ShiftedHas(table, lo, hi - 1, delta, k);
    }
  }

  lemma {:induction false} RepeatedHas(table: seq<Layout>, lo: nat, hi: nat, step: nat, times: nat, t: nat, r: Range)
    requires lo <= hi <= |table| && 0 < t <= times && r in Shifted(table, lo, hi, t * step, false)
    ensures r in Repeated(table, lo, hi, step, times, false)
    decreases times
  {
    if t < times {
      RepeatedHas(table, lo, hi, step, times - 1, t, r);
    }
  }

  lemma {:induction false} ExpandHas(table: seq<Layout>, n: nat, i: nat, wrap: bool, r: Range)
    requires i < n <= |table| && r in ItemRanges(table, i, wrap)
    ensures r in Expand(table, n, wrap)
    decreases n
  {
    hide ItemRanges;
    if i < n - 1 {
      ExpandHas(table, n - 1, i, wrap, r);
    }
  }

  /** Every entry is a range of its own, whichever way addresses are computed. */
  lemma EntriesAreRanges(table: seq<Layout>, n: nat, k: nat, wrap: bool)
    requires k < n <= |table| && table[k].Entry?
    ensures Range(table[k].rva, Size(table[k])) in Expand(table, n, wrap)
  {
    ExpandHas(table, n, k, wrap, Range(table[k].rva, Size(table[k])));
  }

  /** Each copy of an entry that a group of a valid table repeats is one of the checked ranges. */
  lemma CopiesAreOk(m: Metadata, i: nat, t: nat, k: nat)
    requires ValidTable(m) && i < |m.layouts| && m.layouts[i].Group? && 0 < t <= m.layouts[i].loadTimes
    requires m.layouts[i].entryCount <= i && i - m.layouts[i].entryCount <= k < i && m.layouts[k].Entry?
    ensures RangeOk(m, Range(m.layouts[k].rva + t * m.layouts[i].loadStep, Size(m.layouts[k])))
  {
    var g := m.layouts[i];
    var r := Range(m.layouts[k].rva + t * g.loadStep, Size(m.layouts[k]));
    ShiftedHas(m.layouts, i - g.entryCount, i, t * g.loadStep, k);
    RepeatedHas(m.layouts, i - g.entryCount, i, g.loadStep, g.loadTimes, t, r);
    ExpandHas(m.layouts, |m.layouts|, i, false, r);
  }

  /** The ranges as computed with wrap-around are acceptable exactly when the true ones are. */
  lemma WrappedRangesDecide(m: Metadata)
    requires ItemsOk(m, |m.layouts|) && 2 * m.enclaveSize < P64
    ensures RangesOk(m, Expand(m.layouts, |m.layouts|, true)) <==> RangesOk(m, Expand(m.layouts, |m.layouts|, false))
    ensures RangesOk(m, Expand(m.layouts, |m.layouts|, true)) ==>
              Expand(m.layouts, |m.layouts|, true) == Expand(m.layouts, |m.layouts|, false)
  {
    var n := |m.layouts|;
    forall wrap | RangesOk(m, Expand(m.layouts, n, wrap))
      ensures Expand(m.layouts, n, true) == Expand(m.layouts, n, false)
    {
      forall k | 0 <= k < n && m.layouts[k].Entry? ensures m.layouts[k].rva < m.enclaveSize {
        EntriesAreRanges(m.layouts, n, k, wrap);
      }
      ExpandNoWrap(m, n);
    }
  }

  // ----- the check -----

  /** The entries a group repeats, appended once: false if one of them is a group. */
  method PushGroup(table: seq<Layout>, lo: nat, hi: nat, loadStep: u64, before: seq<Range>)
      returns (ok: bool, ranges: seq<Range>)
    requires lo <= hi <= |table|
    ensures ok <==> forall k | lo <= k < hi :: table[k].Entry?
    ensures ok ==> ranges == before + Shifted(table, lo, hi, loadStep, true)
  {
    ranges := before;
    for k := lo to hi
      invariant forall j | lo <= j < k :: table[j].Entry?
      invariant ranges == before + Shifted(table, lo, k, loadStep, true)
    {
      if table[k].Group? {
        return false, ranges;
      }
      ranges := ranges + [Range((table[k].rva + loadStep) % P64, Size(table[k]))];
    }
    ok := true;
  }

  lemma NextCopy(done: u64, t: nat, times: nat, step: u64, bound: nat)
    requires done == t * step <= bound && t < times && 2 * bound < P64
    requires t > 0 ==> step <= bound
    ensures (done + step) % P64 == (t + 1) * step <= times * step
  {
    MoreCopies(t + 1, times, step);
    var next := done + step;
    assert next == (t + 1) * step;
    assert next < P64;
  }

  lemma MoreCopies(t: nat, times: nat, step: nat)
    requires t <= times
    ensures t * step <= times * step
  {
    assert (times - t) * step >= 0;
  }

  /** All copies of one group: false if a copy would start past the bound, or if an entry
      to repeat is a group. */
  method PushCopies(table: seq<Layout>, lo: nat, hi: nat, step: u64, times: u32, bound: nat, before: seq<Range>)
      returns (ok: bool, ranges: seq<Range>)
    requires lo <= hi <= |table| && 2 * bound < P64
    ensures ok <==> times * step <= bound && (times > 0 ==> forall k | lo <= k < hi :: table[k].Entry?)
    ensures ok ==> ranges == before + Repeated(table, lo, hi, step, times, true)
  {
    ranges := before;
    var loadStep: u64 := 0;
    for t := 0 to times
      invariant loadStep == t * step <= bound
      invariant t > 0 ==> step <= bound && forall k | lo <= k < hi :: table[k].Entry?
      invariant ranges == before + Repeated(table, lo, hi, step, t, true)
    {
      NextCopy(loadStep, t, times, step, bound);
      loadStep := (loadStep + step) % P64;
      if loadStep > bound {
        return false, ranges;
      }
      assert t == 0 ==> step <= bound;
      ok, ranges := PushGroup(table, lo, hi, loadStep, ranges);
      if !ok {
        return;
      }
    }
    ok := true;
  }

  /** The neighbour check over the sorted ranges. */
  method CheckSorted(m: Metadata, v: seq<Range>) returns (ok: bool)
    requires Sorted(v) && forall r | r in v :: r.start < P64 && r.size < P64
    ensures ok <==> (forall r | r in v :: RangeOk(m, r)) && forall i | 0 <= i < |v| - 1 :: v[i].End() <= v[i + 1].start
  {
    for i := 0 to |v|
      invariant forall j | 0 <= j < i :: RangeOk(m, v[j]) && (j + 1 < |v| ==> v[j].End() <= v[j + 1].start)
    {
      assert v[i] in v;
      BufferChecksAreExact(m, 0, 0, v[i].start, v[i].size);
      if v[i].start % PAGE != 0 || !IsEnclaveBuffer(m, v[i].start, v[i].size) {
        return false;
      }
      if i + 1 < |v| && v[i].start + v[i].size > v[i + 1].start {
        return false;
      }
    }
    return true;
  }

  lemma {:induction false} ShiftedFits(table: seq<Layout>, lo: nat, hi: nat, delta: nat)
    requires lo <= hi <= |table|
    ensures forall r | r in Shifted(table, lo, hi, delta, true) :: r.start < P64 && r.size < P64
    decreases hi - lo
  {
    if lo < hi {
      ShiftedFits(table, lo, hi - 1, delta);
    }
  }

  lemma {:induction false} RepeatedFits(table: seq<Layout>, lo: nat, hi: nat, step: nat, times: nat)
    requires lo <= hi <= |table|
    ensures forall r | r in Repeated(table, lo, hi, step, times, true) :: r.start < P64 && r.size < P64
    decreases times
  {
    if times > 0 {
      RepeatedFits(table, lo, hi, step, times - 1);
      ShiftedFits(table, lo, hi, Wrapped(times * step, true));
    }
  }

  lemma ItemFits(table: seq<Layout>, i: nat)
    requires i < |table|
    ensures forall r | r in ItemRanges(table, i, true) :: r.start < P64 && r.size < P64
  {
    if table[i].Group? && table[i].entryCount <= i {
      RepeatedFits(table, i - table[i].entryCount, i, table[i].loadStep, table[i].loadTimes);
    }
  }

  lemma {:induction false} ExpandFits(table: seq<Layout>, n: nat)
    requires n <= |table|
    ensures forall r | r in Expand(table, n, true) :: r.start < P64 && r.size < P64
    decreases n
  {
    hide ItemRanges;
    if n > 0 {
      ExpandFits(table, n - 1);
      ItemFits(table, n - 1);
    }
  }

  /** The first loop: false as soon as an item is not acceptable, else the ranges of all items
      as 64-bit arithmetic computes them. */
  method CollectRanges(m: Metadata) returns (ok: bool, ranges: seq<Range>)
    requires 2 * m.enclaveSize < P64
    ensures ok <==> ItemsOk(m, |m.layouts|)
    ensures ok ==> ranges == Expand(m.layouts, |m.layouts|, true)
  {
    hide Repeated;
    ranges := [];
    for i := 0 to |m.layouts|
      invariant ItemsOk(m, i)
      invariant ranges == Expand(m.layouts, i, true)
    {
      match m.layouts[i]
      case Entry(_, _, _, rva, contentSize, contentOffset, _) =>
        ranges := ranges + [Range(rva, Size(m.layouts[i]))];
        BufferChecksAreExact(m, contentOffset, contentSize, 0, 0);
        if contentOffset != 0 && !IsMetadataBuffer(m, contentOffset, contentSize) {
          return false, ranges;
        }
      case Group(count, times, step) =>
        assert m.layouts[i].Group?;
        if count > i {
          assert !GroupOk(m, i);
          return false, ranges;
        }
        var good;
        good, ranges := PushCopies(m.layouts, i - count, i, step, times, m.enclaveSize, ranges);
        assert good <==> GroupOk(m, i);
        if !good {
          return false, ranges;
        }
    }
    ok := true;
  }

  /** The check accepts a table if and only if it is valid over unbounded integers: the
      wrapped arithmetic and the sorted neighbour comparison decide alignment, containment
      and pairwise separation of all the ranges the table stands for. */
  method ValidateLayoutTable(m: Metadata) returns (ok: bool)
    requires 2 * m.enclaveSize < P64
    ensures ok <==> ValidTable(m)
  {
    hide ItemsOk, Expand, RangeOk, Separate;
    var ranges;
    ok, ranges := CollectRanges(m);
    if ok {
      ExpandFits(m.layouts, |m.layouts|);
      var sorted := Sort(ranges);
      ok := CheckSorted(m, sorted);
      NeighboursSuffice(sorted);
      SeparateSort(ranges);
      WrappedRangesDecide(m);
    }
  }

  ghost predicate IsPowerOfTwo(x: nat) {
    exists k: nat :: x == Exp2(k)
  }

  lemma HalfOfPower(x: nat)
    requires x > 0 && x % 2 == 0
    ensures IsPowerOfTwo(x) <==> IsPowerOfTwo(x / 2)
  {
    if IsPowerOfTwo(x) {
      var k: nat :| x == Exp2(k);
      assert k > 0 && x / 2 == Exp2(k - 1);
    }
    if IsPowerOfTwo(x / 2) {
      var k: nat :| x / 2 == Exp2(k);
      assert x == Exp2(k + 1);
    }
  }

  lemma OddPower(x: nat)
    requires x % 2 == 1
    ensures IsPowerOfTwo(x) <==> x == 1
  {
    if IsPowerOfTwo(x) {
      var k: nat :| x == Exp2(k);
    }
    assert Exp2(0) == 1;
  }

  /** The size checks of the metadata: a power of two within the parser's limit. */
  method ValidateEnclaveSize(m: Metadata, maxSize: u64) returns (ok: bool)
    ensures ok <==> m.enclaveSize <= maxSize && IsPowerOfTwo(m.enclaveSize)
  {
    if m.enclaveSize > maxSize {
      return false;
    }
    var size := m.enclaveSize;
    while size > 0 && size % 2 == 0
      invariant IsPowerOfTwo(size) <==> IsPowerOfTwo(m.enclaveSize)
    {
      HalfOfPower(size);
      size := size / 2;
    }
    if size == 0 {
      assert !IsPowerOfTwo(size);
      return false;
    }
    OddPower(size);
    return size == 1;
  }

  /** The largest enclave size of a 64-bit image. */
  const ENCLAVE_MAX_SIZE: nat := 0x1f_ffff_ffff

  // ----- the whole check -----

  const MAJOR_VERSION: nat := 2
  const TCS_POLICY_UNBIND: nat := 1
  const SSA_FRAME_SIZE_MIN: nat := 1
  const SSA_FRAME_SIZE_MAX: nat := 2

  datatype Directory = Directory(offset: u32, size: u32)

  /** Bytes of the metadata that replace bytes of the enclave file. */
  datatype Patch = Patch(dst: u64, src: u32, size: u32)

  datatype Header = Header(version: u64, tcsPolicy: u32, ssaFrameSize: u32,
                           dirs: seq<Directory>, patches: seq<Patch>, table: Metadata)

  datatype Verdict = Valid | InvalidVersion | InvalidMetadata

  ghost predicate InMetadata(m: Metadata, offset: nat, size: nat) {
    DATA_OFFSET <= offset < m.size && offset + size <= m.size
  }

  ghost predicate PatchOk(m: Metadata, p: Patch) {
    InMetadata(m, p.src, p.size) && p.dst < m.enclaveSize && p.dst + p.size <= m.enclaveSize
  }

  /** All over unbounded integers. */
  ghost predicate ValidHeader(h: Header, maxSize: nat) {
    && h.tcsPolicy <= TCS_POLICY_UNBIND
    && SSA_FRAME_SIZE_MIN <= h.ssaFrameSize <= SSA_FRAME_SIZE_MAX
    && h.table.enclaveSize <= maxSize && IsPowerOfTwo(h.table.enclaveSize)
    && (forall i | 0 <= i < |h.dirs| :: InMetadata(h.table, h.dirs[i].offset, h.dirs[i].size))
    && ValidTable(h.table)
    && (forall i | 0 <= i < |h.patches| :: PatchOk(h.table, h.patches[i]))
  }

  method ValidateDirectories(m: Metadata, dirs: seq<Directory>) returns (ok: bool)
    ensures ok <==> forall i | 0 <= i < |dirs| :: InMetadata(m, dirs[i].offset, dirs[i].size)
  {
    for i := 0 to |dirs|
      invariant forall j | 0 <= j < i :: InMetadata(m, dirs[j].offset, dirs[j].size)
    {
      BufferChecksAreExact(m, dirs[i].offset, dirs[i].size, 0, 0);
      if !IsMetadataBuffer(m, dirs[i].offset, dirs[i].size) {
        return false;
      }
    }
    return true;
  }

  method ValidatePatchTable(m: Metadata, patches: seq<Patch>) returns (ok: bool)
    ensures ok <==> forall i | 0 <= i < |patches| :: PatchOk(m, patches[i])
  {
    for i := 0 to |patches|
      invariant forall j | 0 <= j < i :: PatchOk(m, patches[j])
    {
      var p := patches[i];
      BufferChecksAreExact(m, p.src, p.size, p.dst, p.size);
      if !IsMetadataBuffer(m, p.src, p.size) || !IsEnclaveBuffer(m, p.dst, p.size) {
        return false;
      }
    }
    return true;
  }

  /** Metadata is accepted exactly when it is valid over unbounded integers: the size checks
      come before the table check and rule its wrap-around out. */
  method ValidateMetadata(h: Header, maxSize: u64) returns (verdict: Verdict)
    requires maxSize <= ENCLAVE_MAX_SIZE
    ensures verdict == InvalidVersion <==> h.version / P32 > MAJOR_VERSION
    ensures verdict == Valid <==> h.version / P32 <= MAJOR_VERSION && ValidHeader(h, maxSize)
  {
    hide IsPowerOfTwo, ValidTable, PatchOk, InMetadata;
    if MAJOR_VERSION < h.version / P32 {
      return InvalidVersion;
    }
    if h.tcsPolicy > TCS_POLICY_UNBIND {
      return InvalidMetadata;
    }
    if h.ssaFrameSize < SSA_FRAME_SIZE_MIN || h.ssaFrameSize > SSA_FRAME_SIZE_MAX {
      return InvalidMetadata;
    }
    var ok := ValidateEnclaveSize(h.table, maxSize);
    if !ok {
      return InvalidMetadata;
    }
    ok := ValidateDirectories(h.table, h.dirs);
    if !ok {
      return InvalidMetadata;
    }
    ok := ValidateLayoutTable(h.table);
    if !ok {
      return InvalidMetadata;
    }
    ok := ValidatePatchTable(h.table, h.patches);
    if !ok {
      return InvalidMetadata;
    }
    return Valid;
  }

  // ----- the traversal -----

  /** The ranges visited from [lo, hi): a group visits the entries before it once per copy,
      and a group inside a repeated part would be visited again. */
  ghost function Visited(table: seq<Layout>, lo: nat, hi: nat, delta: nat): seq<Range>
    requires lo <= hi <= |table|
    decreases hi, hi - lo, 0
  {
    if lo == hi then []
    else Visited(table, lo, hi - 1, delta)
         + match table[hi - 1]
           case Entry(_, _, _, rva, _, _, _) => [Range(rva + delta, Size(table[hi - 1]))]
           case Group(count, times, step) => VisitedCopies(table, hi - 1, times)
  }

  ghost function VisitedCopies(table: seq<Layout>, i: nat, times: nat): seq<Range>
    requires i < |table| && table[i].Group?
    decreases i, i + 1, times
  {
    if times == 0 || table[i].entryCount > i then []
    else VisitedCopies(table, i, times - 1)
         + Visited(table, i - table[i].entryCount, i, times * table[i].loadStep)
  }

  lemma {:induction false} VisitedEntries(table: seq<Layout>, lo: nat, hi: nat, delta: nat)
    requires lo <= hi <= |table| && forall k | lo <= k < hi :: table[k].Entry?
    ensures Visited(table, lo, hi, delta) == Shifted(table, lo, hi, delta, false)
    decreases hi - lo
  {
    if lo < hi {
      VisitedEntries(table, lo, hi - 1, delta);
    }
  }

  lemma {:induction false} VisitedRepeats(table: seq<Layout>, i: nat, times: nat)
    requires i < |table| && table[i].Group? && table[i].entryCount <= i
    requires times > 0 ==> forall k | i - table[i].entryCount <= k < i :: table[k].Entry?
    ensures VisitedCopies(table, i, times)
         == Repeated(table, i - table[i].entryCount, i, table[i].loadStep, times, false)
    decreases times
  {
    if times > 0 {
      VisitedRepeats(table, i, times - 1);
      VisitedEntries(table, i - table[i].entryCount, i, times * table[i].loadStep);
    }
  }

  /** Of a valid table, the traversal visits exactly the ranges that were checked, in the
      order the table lists them. */
  lemma {:induction false} VisitsTheCheckedRanges(m: Metadata, n: nat)
    requires n <= |m.layouts| && ItemsOk(m, n)
    ensures Visited(m.layouts, 0, n, 0) == Expand(m.layouts, n, false)
    decreases n
  {
    if n > 0 {
      VisitsTheCheckedRanges(m, n - 1);
      if m.layouts[n - 1].Group? {
        assert GroupOk(m, n - 1);
        VisitedRepeats(m.layouts, n - 1, m.layouts[n - 1].loadTimes);
      }
    }
  }

  lemma EntriesAreOk(m: Metadata, k: nat)
    requires ValidTable(m) && k < |m.layouts| && m.layouts[k].Entry?
    ensures RangeOk(m, Range(m.layouts[k].rva, Size(m.layouts[k])))
  {
    EntriesAreRanges(m.layouts, |m.layouts|, k, false);
  }

  /** The recursive walk over the table with 64-bit addresses, as building the contexts,
      trimming them and protecting them all do it. */
  method Traverse(m: Metadata, lo: nat, hi: nat, delta: u64) returns (visited: seq<Range>)
    requires ValidTable(m) && 2 * m.enclaveSize < P64
    requires lo <= hi <= |m.layouts| && delta <= m.enclaveSize
    ensures visited == Visited(m.layouts, lo, hi, delta)
    decreases hi, 0
  {
    hide ValidTable;
    visited := [];
    for i := lo to hi
      invariant visited == Visited(m.layouts, lo, i, delta)
    {
      if m.layouts[i].Entry? {
        EntriesAreOk(m, i);
        visited := visited + [Range((m.layouts[i].rva + delta) % P64, Size(m.layouts[i]))];
      } else {
        var copies := TraverseCopies(m, i);
        visited := visited + copies;
      }
    }
  }

  lemma GroupsAreOk(m: Metadata, i: nat)
    requires ValidTable(m) && i < |m.layouts| && m.layouts[i].Group?
    ensures m.layouts[i].entryCount <= i
    ensures m.layouts[i].loadTimes * m.layouts[i].loadStep <= m.enclaveSize
  {
    assert GroupOk(m, i);
  }

  method TraverseCopies(m: Metadata, i: nat) returns (visited: seq<Range>)
    requires ValidTable(m) && 2 * m.enclaveSize < P64
    requires i < |m.layouts| && m.layouts[i].Group?
    ensures visited == VisitedCopies(m.layouts, i, m.layouts[i].loadTimes)
    decreases i, 1
  {
    hide ValidTable;
    GroupsAreOk(m, i);
    visited := [];
    var times, step := m.layouts[i].loadTimes, m.layouts[i].loadStep;
    var delta: u64 := 0;
    for j := 0 to times
      invariant delta == j * step <= m.enclaveSize
      invariant j > 0 ==> step <= m.enclaveSize
      invariant visited == VisitedCopies(m.layouts, i, j)
    {
      NextCopy(delta, j, times, step, m.enclaveSize);
      delta := (delta + step) % P64;
      assert j == 0 ==> step <= m.enclaveSize;
      var part := Traverse(m, i - m.layouts[i].entryCount, i, delta);
      visited := visited + part;
    }
  }

  /** What the whole walk of a valid table visits: exactly the checked ranges, in order,
      each aligned, inside the enclave and separate from every other. */
  method TraverseAll(m: Metadata) returns (visited: seq<Range>)
    requires ValidTable(m) && 2 * m.enclaveSize < P64
    ensures visited == Expand(m.layouts, |m.layouts|, false)
    ensures RangesOk(m, visited)
  {
    VisitsTheCheckedRanges(m, |m.layouts|);
    visited := Traverse(m, 0, |m.layouts|, 0);
  }
}
