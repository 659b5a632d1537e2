/** Adding the pages of an enclave image: sections with their relocation pages, the contexts
    of the layout table, and the MAGE section, which is held back and added last. */
module PageBuilding {
  import opened Basics
  import opened LayoutTable

  type u8 = x: nat | x < 0x100 witness 0

  const SI_FLAGS_TCS: nat := 0x100
  const EADD: nat := 1
  const ADD_EXTEND_PAGE: nat := 3
  const MAGE_FLAGS: nat := 0x201

  /** What is written to a page: its bytes, a thread control structure with its offsets moved
      up by an address, or one 32-bit word repeated. */
  datatype Content = Bytes(data: seq<u8>) | TcsAt(template: seq<u8>, rva: nat) | Fill(word: u32)

  /** One page handed to the driver. */
  datatype Page = Page(rva: nat, content: Content, flags: nat, attr: nat)

  datatype Section = Section(raw: seq<u8>, rva: nat, virtualSize: nat, flags: nat)

  datatype Mage = Mage(rva: nat, size: nat, firstPage: seq<u8>)

  datatype Image = Image(
    sections: seq<Section>, bitmap: seq<u8>, version15: bool,
    metadata: Metadata, blob: seq<u8>,
    mage: Option<Mage>, forSign: bool)

  // ----- single pages -----

  function Trim(x: nat): nat {
    x / PAGE * PAGE
  }

  function RoundUp(x: nat): nat {
    (x + PAGE - 1) / PAGE * PAGE
  }

  /** The page at rva overlaps the MAGE section. */
  predicate Held(mage: Option<Mage>, rva: nat) {
    mage.Some? && rva < mage.value.rva + mage.value.size && mage.value.rva < rva + PAGE
  }

  function Zeros(n: nat): (z: seq<u8>) {
    seq(n, _ => 0)
  }

  function Bit(b: u8, k: nat): bool
    requires k < 8
    decreases k
  {
    if k == 0 then b % 2 == 1 else Bit(b / 2, k - 1)
  }

  predicate IsRelocationPage(bitmap: seq<u8>, rva: nat) {
    var frame := rva / PAGE;
    frame / 8 < |bitmap| && Bit(bitmap[frame / 8], frame % 8)
  }

  predicate Writable(flags: nat) {
    flags / 2 % 2 == 1
  }

  function MakeWritable(flags: nat): nat {
    if Writable(flags) then flags else flags + 2
  }

  // ----- what a region stands for -----

  /** Byte j of frame f: raw data where it is defined, zero elsewhere. */
  function FrameBytes(s: Section, f: nat): (b: seq<u8>)
    ensures |b| == PAGE
  {
    seq(PAGE, j requires 0 <= j < PAGE =>
      if s.rva <= f * PAGE + j < s.rva + |s.raw| then s.raw[f * PAGE + j - s.rva] else 0)
  }

  /** Write permission is added exactly on frames that hold raw data and whose bit is set. */
  function FramePage(s: Section, bitmap: seq<u8>, f: nat): Page {
    var flags := if |s.raw| > 0 && f * PAGE < s.rva + |s.raw| && IsRelocationPage(bitmap, f * PAGE)
                 then MakeWritable(s.flags) else s.flags;
    Page(f * PAGE, Bytes(FrameBytes(s, f)), flags, ADD_EXTEND_PAGE)
  }

  function Extent(s: Section): nat {
    if |s.raw| < s.virtualSize then s.virtualSize else |s.raw|
  }

  /** The frames that meet [rva, rva + extent): from first to before last. */
  function FirstFrame(s: Section): nat {
    s.rva / PAGE
  }

  function LastFrame(s: Section): nat {
    if Extent(s) == 0 then FirstFrame(s) else (s.rva + Extent(s) - 1) / PAGE + 1
  }

  function Frames(s: Section, bitmap: seq<u8>, mage: Option<Mage>, lo: nat, hi: nat): seq<Page>
    decreases hi
  {
    if hi <= lo then []
    else Frames(s, bitmap, mage, lo, hi - 1)
         + if Held(mage, (hi - 1) * PAGE) then [] else [FramePage(s, bitmap, hi - 1)]
  }

  function Region(s: Section, bitmap: seq<u8>, mage: Option<Mage>): seq<Page> {
    Frames(s, bitmap, mage, FirstFrame(s), LastFrame(s))
  }

  /** n pages from an aligned address, all with the same content. */
  function Run(mage: Option<Mage>, start: nat, n: nat, content: Content, flags: nat, attr: nat): seq<Page>
    decreases n
  {
    if n == 0 then []
    else Run(mage, start, n - 1, content, flags, attr)
         + if Held(mage, start + (n - 1) * PAGE) then []
           else [Page(start + (n - 1) * PAGE, content, flags, attr)]
  }

  // ----- the pages of an image -----

  /** The extra zero page that images of metadata version 1.5 carry after a section. */
  function Padding(img: Image, last: Option<Section>): seq<Page> {
    if img.version15 && last.Some? && HasPadding(last.value)
    then Run(img.mage, PaddingAt(last.value), 1, Bytes(Zeros(PAGE)), last.value.flags, ADD_EXTEND_PAGE)
    else []
  }

  predicate HasPadding(s: Section) {
    RoundUp(s.virtualSize + s.rva) < RoundUp(RoundUp(s.virtualSize) + s.rva)
  }

  function PaddingAt(s: Section): nat {
    RoundUp(s.rva + s.virtualSize)
  }

  /** The first of the sections so far with the highest address; one at address zero never is. */
  function Highest(sections: seq<Section>, n: nat): Option<Section>
    requires n <= |sections|
    decreases n
  {
    if n == 0 then None
    else
      var h := Highest(sections, n - 1);
      if sections[n - 1].rva > (if h.None? then 0 else h.value.rva) then Some(sections[n - 1]) else h
  }

  lemma NoHighest(sections: seq<Section>)
    ensures Highest(sections, 0) == None
  {
  }

  lemma HighestStep(sections: seq<Section>, i: nat)
    requires i < |sections|
    ensures var h := Highest(sections, i);
      Highest(sections, i + 1)
      == if sections[i].rva > (if h.None? then 0 else h.value.rva) then Some(sections[i]) else h
  {
  }

  function PaddingBefore(img: Image, i: nat): seq<Page>
    requires i < |img.sections|
  {
    var h := Highest(img.sections, i);
    if h.Some? && PaddingAt(h.value) < Trim(img.sections[i].rva) then Padding(img, h) else []
  }

  function SectionPages(img: Image, n: nat): seq<Page>
    requires n <= |img.sections|
    decreases n
  {
    if n == 0 then []
    else SectionPages(img, n - 1) + PaddingBefore(img, n - 1) + Region(img.sections[n - 1], img.bitmap, img.mage)
  }

  function AllSections(img: Image): seq<Page> {
    SectionPages(img, |img.sections|) + Padding(img, Highest(img.sections, |img.sections|))
  }

  /** The bytes a layout entry points at. Those of a valid table lie inside the metadata. */
  function EntryContent(img: Image, e: Layout): seq<u8>
    requires e.Entry?
  {
    if e.contentOffset + e.contentSize <= |img.blob|
    then img.blob[e.contentOffset..e.contentOffset + e.contentSize] else []
  }

  function ContextPages(img: Image, e: Layout, delta: nat): seq<Page>
    requires e.Entry?
  {
    var rva := e.rva + delta;
    if e.attributes % 2 != EADD then []
    else if e.contentOffset != 0 && e.siFlags == SI_FLAGS_TCS then
      Run(img.mage, rva, e.pageCount, TcsAt(EntryContent(img, e), rva), e.siFlags, e.attributes)
    else if e.contentOffset != 0 then
      Region(Section(EntryContent(img, e), rva, e.pageCount * PAGE, e.siFlags), [], img.mage)
    else if e.siFlags != 0 then
      Run(img.mage, rva, e.pageCount,
          if e.contentSize != 0 then Fill(e.contentSize) else Bytes(Zeros(PAGE)), e.siFlags, e.attributes)
    else []
  }

  function ContextsPages(img: Image, lo: nat, hi: nat, delta: nat): seq<Page>
    requires lo <= hi <= |img.metadata.layouts|
    decreases hi, hi - lo, 0
  {
    if lo == hi then []
    else ContextsPages(img, lo, hi - 1, delta)
         + if img.metadata.layouts[hi - 1].Entry? then ContextPages(img, img.metadata.layouts[hi - 1], delta)
           else CopiesPages(img, hi - 1, img.metadata.layouts[hi - 1].loadTimes)
  }

  function CopiesPages(img: Image, i: nat, times: nat): seq<Page>
    requires i < |img.metadata.layouts| && img.metadata.layouts[i].Group?
    decreases i, i + 1, times
  {
    var g := img.metadata.layouts[i];
    if times == 0 || g.entryCount > i then []
    else CopiesPages(img, i, times - 1) + ContextsPages(img, i - g.entryCount, i, times * g.loadStep)
  }

  /** Everything added before the MAGE section: what the signing tool measures. */
  function Measured(img: Image): seq<Page> {
    AllSections(img) + ContextsPages(img, 0, |img.metadata.layouts|, 0)
  }

  /** The pages of the MAGE section; the source pointer stays at its first page. */
  function MagePages(mage: Mage, n: nat): seq<Page>
    decreases n
  {
    if n == 0 then []
    else MagePages(mage, n - 1) + [Page(mage.rva + (n - 1) * PAGE, Bytes(mage.firstPage), MAGE_FLAGS, ADD_EXTEND_PAGE)]
  }

  function PageCount(size: nat): nat {
    (size + PAGE - 1) / PAGE
  }

  function HeldBack(img: Image): seq<Page> {
    if img.forSign || img.mage.None? then [] else MagePages(img.mage.value, PageCount(img.mage.value.size))
  }

  function AllPages(img: Image): seq<Page> {
    Measured(img) + HeldBack(img)
  }

  // ----- each frame once, in ascending order -----

  ghost predicate Ascending(v: seq<Page>) {
    forall i, j | 0 <= i < j < |v| :: v[i].rva < v[j].rva
  }

  lemma {:induction false} FramesAscend(s: Section, bitmap: seq<u8>, mage: Option<Mage>, lo: nat, hi: nat)
    ensures Ascending(Frames(s, bitmap, mage, lo, hi))
    ensures forall p | p in Frames(s, bitmap, mage, lo, hi) :: p.rva < hi * PAGE
    decreases hi
  {
    hide Held, FrameBytes;
    if lo < hi {
      FramesAscend(s, bitmap, mage, lo, hi - 1);
    }
  }

  ghost predicate IsFrame(p: Page, s: Section, bitmap: seq<u8>, mage: Option<Mage>, f: nat) {
    !Held(mage, f * PAGE) && p == FramePage(s, bitmap, f)
  }

  lemma {:induction false} FramesAre(s: Section, bitmap: seq<u8>, mage: Option<Mage>, lo: nat, hi: nat, p: Page)
    ensures p in Frames(s, bitmap, mage, lo, hi) <==>
              exists f: nat :: lo <= f < hi && IsFrame(p, s, bitmap, mage, f)
    decreases hi
  {
    hide Held, FramePage;
    if lo < hi {
      FramesAre(s, bitmap, mage, lo, hi - 1, p);
      var last := if Held(mage, (hi - 1) * PAGE) then [] else [FramePage(s, bitmap, hi - 1)];
      assert p in last <==> IsFrame(p, s, bitmap, mage, hi - 1);
    }
  }

  /** The frame holds an address of [rva, rva + extent). */
  ghost predicate Meets(s: Section, f: nat) {
    exists x: nat :: s.rva <= x < s.rva + Extent(s) && x / PAGE == f
  }

  lemma MeetsIsBetween(s: Section, f: nat)
    ensures Meets(s, f) <==> FirstFrame(s) <= f < LastFrame(s)
  {
    if Meets(s, f) {
      var x: nat :| s.rva <= x < s.rva + Extent(s) && x / PAGE == f;
      assert s.rva / PAGE <= x / PAGE <= (s.rva + Extent(s) - 1) / PAGE;
    }
    if FirstFrame(s) <= f < LastFrame(s) {
      var x := if f == FirstFrame(s) then s.rva else f * PAGE;
      assert s.rva <= x < s.rva + Extent(s) && x / PAGE == f;
    }
  }

  /** A region adds every frame that meets it, MAGE frames aside, exactly once and in
      ascending order. */
  lemma RegionIsExact(s: Section, bitmap: seq<u8>, mage: Option<Mage>)
    ensures Ascending(Region(s, bitmap, mage))
    ensures forall p :: p in Region(s, bitmap, mage) <==> exists f: nat :: Meets(s, f) && IsFrame(p, s, bitmap, mage, f)
  {
    hide Meets, IsFrame, FirstFrame, LastFrame;
    FramesAscend(s, bitmap, mage, FirstFrame(s), LastFrame(s));
    forall f: nat ensures Meets(s, f) <==> FirstFrame(s) <= f < LastFrame(s) {
      MeetsIsBetween(s, f);
    }
    forall p {
      FramesAre(s, bitmap, mage, FirstFrame(s), LastFrame(s), p);
    }
  }

  lemma {:induction false} RunIs(mage: Option<Mage>, start: nat, n: nat, content: Content, flags: nat, attr: nat)
    ensures Ascending(Run(mage, start, n, content, flags, attr))
    ensures forall p | p in Run(mage, start, n, content, flags, attr) ::
              start <= p.rva < start + n * PAGE && !Held(mage, p.rva)
    decreases n
  {
    hide Held;
    if n > 0 {
      RunIs(mage, start, n - 1, content, flags, attr);
    }
  }

  lemma {:induction false} MagePagesAre(mage: Mage, n: nat)
    ensures |MagePages(mage, n)| == n && Ascending(MagePages(mage, n))
    ensures forall i | 0 <= i < n ::
              MagePages(mage, n)[i] == Page(mage.rva + i * PAGE, Bytes(mage.firstPage), MAGE_FLAGS, ADD_EXTEND_PAGE)
    decreases n
  {
    if n > 0 {
      MagePagesAre(mage, n - 1);
    }
  }

  // ----- the MAGE section is held back -----

  ghost predicate NoneHeld(mage: Option<Mage>, v: seq<Page>) {
    forall p | p in v :: !Held(mage, p.rva)
  }

  lemma RegionHoldsBack(s: Section, bitmap: seq<u8>, mage: Option<Mage>)
    ensures NoneHeld(mage, Region(s, bitmap, mage))
  {
    RegionIsExact(s, bitmap, mage);
  }

  lemma PaddingHoldsBack(img: Image, last: Option<Section>)
    ensures NoneHeld(img.mage, Padding(img, last))
  {
    hide Held, HasPadding;
    if img.version15 && last.Some? && HasPadding(last.value) {
      RunIs(img.mage, PaddingAt(last.value), 1, Bytes(Zeros(PAGE)), last.value.flags, ADD_EXTEND_PAGE);
    }
  }

  lemma {:induction false} SectionsHoldBack(img: Image, n: nat)
    requires n <= |img.sections|
    ensures NoneHeld(img.mage, SectionPages(img, n))
    decreases n
  {
    hide Held, Padding, Region, Highest;
    if n > 0 {
      SectionsHoldBack(img, n - 1);
      PaddingHoldsBack(img, Highest(img.sections, n - 1));
      RegionHoldsBack(img.sections[n - 1], img.bitmap, img.mage);
    }
  }

  lemma ContextHoldsBack(img: Image, e: Layout, delta: nat)
    requires e.Entry?
    ensures NoneHeld(img.mage, ContextPages(img, e, delta))
  {
    hide Held, Run, Region, EntryContent;
    var rva := e.rva + delta;
    RunIs(img.mage, rva, e.pageCount, TcsAt(EntryContent(img, e), rva), e.siFlags, e.attributes);
    RegionHoldsBack(Section(EntryContent(img, e), rva, e.pageCount * PAGE, e.siFlags), [], img.mage);
    RunIs(img.mage, rva, e.pageCount,
      if e.contentSize != 0 then Fill(e.contentSize) else Bytes(Zeros(PAGE)), e.siFlags, e.attributes);
  }

  lemma {:induction false} ContextsHoldBack(img: Image, lo: nat, hi: nat, delta: nat)
    requires lo <= hi <= |img.metadata.layouts|
    ensures NoneHeld(img.mage, ContextsPages(img, lo, hi, delta))
    decreases hi, hi - lo, 0
  {
    hide Held, ContextPages;
    if lo < hi {
      ContextsHoldBack(img, lo, hi - 1, delta);
      if img.metadata.layouts[hi - 1].Entry? {
        ContextHoldsBack(img, img.metadata.layouts[hi - 1], delta);
      } else {
        CopiesHoldBack(img, hi - 1, img.metadata.layouts[hi - 1].loadTimes);
      }
    }
  }

  lemma {:induction false} CopiesHoldBack(img: Image, i: nat, times: nat)
    requires i < |img.metadata.layouts| && img.metadata.layouts[i].Group?
    ensures NoneHeld(img.mage, CopiesPages(img, i, times))
    decreases i, i + 1, times
  {
    hide Held;
    var g := img.metadata.layouts[i];
    if times > 0 && g.entryCount <= i {
      CopiesHoldBack(img, i, times - 1);
      ContextsHoldBack(img, i - g.entryCount, i, times * g.loadStep);
    }
  }

  /** No page of the MAGE section is added before the MAGE step. */
  lemma MeasuredHoldsBack(img: Image)
    ensures NoneHeld(img.mage, Measured(img))
  {
    hide Held, SectionPages, Padding, ContextsPages;
    SectionsHoldBack(img, |img.sections|);
    PaddingHoldsBack(img, Highest(img.sections, |img.sections|));
    ContextsHoldBack(img, 0, |img.metadata.layouts|, 0);
  }

  /** An aligned MAGE section is added after everything else, each of its pages once and in
      ascending order, and none of them was added before. */
  lemma MageComesLast(img: Image)
    requires img.mage.Some? && !img.forSign
    requires img.mage.value.rva % PAGE == 0 && img.mage.value.size % PAGE == 0
    ensures |AllPages(img)| == |Measured(img)| + img.mage.value.size / PAGE
    ensures forall i | 0 <= i < img.mage.value.size / PAGE ::
              AllPages(img)[|Measured(img)| + i]
              == Page(img.mage.value.rva + i * PAGE, Bytes(img.mage.value.firstPage), MAGE_FLAGS, ADD_EXTEND_PAGE)
    ensures forall p | p in Measured(img) ::
              p.rva + PAGE <= img.mage.value.rva || img.mage.value.rva + img.mage.value.size <= p.rva
  {
    hide Measured, MagePages;
    MeasuredHoldsBack(img);
    MagePagesAre(img.mage.value, PageCount(img.mage.value.size));
  }

  // ----- what is measured does not depend on MAGE bytes -----

  ghost predicate SameShape(a: Section, b: Section) {
    a.rva == b.rva && |a.raw| == |b.raw| && a.virtualSize == b.virtualSize && a.flags == b.flags
  }

  ghost predicate SameOutside(mage: Option<Mage>, a: Section, b: Section) {
    && SameShape(a, b)
    && forall k | 0 <= k < |a.raw| && a.raw[k] != b.raw[k] ::
         mage.Some? && mage.value.rva <= a.rva + k < mage.value.rva + mage.value.size
  }

  /** Two images whose section bytes differ at MAGE addresses only, and whose MAGE section may
      hold anything. */
  ghost predicate DifferInMageOnly(a: Image, b: Image) {
    && |a.sections| == |b.sections|
    && (forall i | 0 <= i < |a.sections| :: SameOutside(a.mage, a.sections[i], b.sections[i]))
    && a.bitmap == b.bitmap && a.version15 == b.version15 && a.metadata == b.metadata && a.blob == b.blob
    && SamePlace(a.mage, b.mage)
  }

  ghost predicate SamePlace(a: Option<Mage>, b: Option<Mage>) {
    a.Some? == b.Some? && (a.Some? ==> a.value.rva == b.value.rva && a.value.size == b.value.size)
  }

  lemma HeldAlike(a: Option<Mage>, b: Option<Mage>, rva: nat)
    requires SamePlace(a, b)
    ensures Held(a, rva) == Held(b, rva)
  {
  }

  lemma FrameIgnoresMage(mage: Option<Mage>, a: Section, b: Section, bitmap: seq<u8>, f: nat)
    requires SameOutside(mage, a, b) && !Held(mage, f * PAGE)
    ensures FramePage(a, bitmap, f) == FramePage(b, bitmap, f)
  {
    hide IsRelocationPage, MakeWritable;
    var start := f * PAGE;
    forall j | 0 <= j < PAGE ensures FrameBytes(a, f)[j] == FrameBytes(b, f)[j] {
      if a.rva <= start + j < a.rva + |a.raw| {
        var k := start + j - a.rva;
        assert a.raw[k] == b.raw[k];
      }
    }
    assert FrameBytes(a, f) == FrameBytes(b, f);
  }

  lemma {:induction false} FramesIgnoreMage(
      m: Option<Mage>, n: Option<Mage>, a: Section, b: Section, bitmap: seq<u8>, lo: nat, hi: nat)
    requires SameOutside(m, a, b) && SamePlace(m, n)
    ensures Frames(a, bitmap, m, lo, hi) == Frames(b, bitmap, n, lo, hi)
    decreases hi
  {
    hide SameOutside, FramePage, Held;
    if lo < hi {
      FramesIgnoreMage(m, n, a, b, bitmap, lo, hi - 1);
      HeldAlike(m, n, (hi - 1) * PAGE);
      if !Held(m, (hi - 1) * PAGE) {
        FrameIgnoresMage(m, a, b, bitmap, hi - 1);
      }
    }
  }

  lemma {:induction false} RunIgnoresMage(
      m: Option<Mage>, n: Option<Mage>, start: nat, count: nat, content: Content, flags: nat, attr: nat)
    requires SamePlace(m, n)
    ensures Run(m, start, count, content, flags, attr) == Run(n, start, count, content, flags, attr)
    decreases count
  {
    hide Held;
    if count > 0 {
      RunIgnoresMage(m, n, start, count - 1, content, flags, attr);
      HeldAlike(m, n, start + (count - 1) * PAGE);
    }
  }

  lemma {:induction false} HighestAlike(a: Image, b: Image, n: nat)
    requires DifferInMageOnly(a, b) && n <= |a.sections|
    ensures Highest(a.sections, n).Some? == Highest(b.sections, n).Some?
    ensures Highest(a.sections, n).Some? ==> SameShape(Highest(a.sections, n).value, Highest(b.sections, n).value)
    decreases n
  {
    if n > 0 {
      HighestAlike(a, b, n - 1);
      assert SameOutside(a.mage, a.sections[n - 1], b.sections[n - 1]);
    }
  }

  lemma PaddingIgnoresMage(a: Image, b: Image, n: nat)
    requires DifferInMageOnly(a, b) && n <= |a.sections|
    ensures Padding(a, Highest(a.sections, n)) == Padding(b, Highest(b.sections, n))
    ensures n < |a.sections| ==> PaddingBefore(a, n) == PaddingBefore(b, n)
  {
    hide Highest, Run, RoundUp, Zeros;
    HighestAlike(a, b, n);
    var h := Highest(a.sections, n);
    if h.Some? {
      RunIgnoresMage(a.mage, b.mage, PaddingAt(h.value), 1, Bytes(Zeros(PAGE)), h.value.flags, ADD_EXTEND_PAGE);
    }
    if n < |a.sections| {
      assert SameOutside(a.mage, a.sections[n], b.sections[n]);
    }
  }

  lemma NoSections(img: Image)
    ensures SectionPages(img, 0) == []
  {
  }

  lemma SectionStep(img: Image, i: nat)
    requires i < |img.sections|
    ensures SectionPages(img, i + 1)
         == SectionPages(img, i) + PaddingBefore(img, i) + Region(img.sections[i], img.bitmap, img.mage)
  {
    hide PaddingBefore, Region;
  }

  lemma {:induction false} SectionsIgnoreMage(a: Image, b: Image, n: nat)
    requires DifferInMageOnly(a, b) && n <= |a.sections|
    ensures SectionPages(a, n) == SectionPages(b, n)
    decreases n
  {
    hide PaddingBefore, Region, SameOutside, SectionPages;
    if n == 0 {
      NoSections(a);
      NoSections(b);
    }
    if n > 0 {
      SectionsIgnoreMage(a, b, n - 1);
      PaddingIgnoresMage(a, b, n - 1);
      RegionIgnoresMage(a, b, n - 1);
      SectionStep(a, n - 1);
      SectionStep(b, n - 1);
    }
  }

  lemma RegionIgnoresMage(a: Image, b: Image, i: nat)
    requires DifferInMageOnly(a, b) && i < |a.sections|
    ensures Region(a.sections[i], a.bitmap, a.mage) == Region(b.sections[i], b.bitmap, b.mage)
  {
    hide Frames;
    var s, t := a.sections[i], b.sections[i];
    assert SameOutside(a.mage, s, t);
    FramesIgnoreMage(a.mage, b.mage, s, t, a.bitmap, FirstFrame(s), LastFrame(s));
  }

  lemma ContextIgnoresMage(a: Image, b: Image, e: Layout, delta: nat)
    requires DifferInMageOnly(a, b) && e.Entry?
    ensures ContextPages(a, e, delta) == ContextPages(b, e, delta)
  {
    hide Run, Frames, FirstFrame, LastFrame;
    var rva := e.rva + delta;
    var content := EntryContent(a, e);
    RunIgnoresMage(a.mage, b.mage, rva, e.pageCount, TcsAt(content, rva), e.siFlags, e.attributes);
    var s := Section(content, rva, e.pageCount * PAGE, e.siFlags);
    FramesIgnoreMage(a.mage, b.mage, s, s, [], FirstFrame(s), LastFrame(s));
    RunIgnoresMage(a.mage, b.mage, rva, e.pageCount,
      if e.contentSize != 0 then Fill(e.contentSize) else Bytes(Zeros(PAGE)), e.siFlags, e.attributes);
  }

  lemma {:induction false} ContextsIgnoreMage(a: Image, b: Image, lo: nat, hi: nat, delta: nat)
    requires DifferInMageOnly(a, b) && lo <= hi <= |a.metadata.layouts|
    ensures ContextsPages(a, lo, hi, delta) == ContextsPages(b, lo, hi, delta)
    decreases hi, hi - lo, 0
  {
    hide ContextPages, CopiesPages, SameOutside;
    if lo < hi {
      ContextsIgnoreMage(a, b, lo, hi - 1, delta);
      if a.metadata.layouts[hi - 1].Entry? {
        ContextIgnoresMage(a, b, a.metadata.layouts[hi - 1], delta);
      } else {
        CopiesIgnoreMage(a, b, hi - 1, a.metadata.layouts[hi - 1].loadTimes);
      }
    }
  }

  lemma {:induction false} CopiesIgnoreMage(a: Image, b: Image, i: nat, times: nat)
    requires DifferInMageOnly(a, b) && i < |a.metadata.layouts| && a.metadata.layouts[i].Group?
    ensures CopiesPages(a, i, times) == CopiesPages(b, i, times)
    decreases i, i + 1, times
  {
    hide ContextsPages, SameOutside;
    var g := a.metadata.layouts[i];
    if times > 0 && g.entryCount <= i {
      CopiesIgnoreMage(a, b, i, times - 1);
      ContextsIgnoreMage(a, b, i - g.entryCount, i, times * g.loadStep);
    }
  }

  /** All page additions before the MAGE step are the same for two images that differ in MAGE
      bytes only, so an image is signed with the measurement it has before its MAGE contents
      are known. */
  lemma MeasuredIgnoresMage(a: Image, b: Image)
    requires DifferInMageOnly(a, b)
    ensures Measured(a) == Measured(b)
    ensures a.forSign ==> AllPages(a) == AllPages(b)[..|AllPages(a)|]
  {
    hide SectionPages, Padding, ContextsPages, Highest;
    SectionsIgnoreMage(a, b, |a.sections|);
    PaddingIgnoresMage(a, b, |a.sections|);
    ContextsIgnoreMage(a, b, 0, |a.metadata.layouts|, 0);
  }

  // ----- contexts of a valid table -----

  ghost predicate Distinct(v: seq<Page>) {
    forall i, j | 0 <= i < j < |v| :: v[i].rva != v[j].rva
  }

  ghost predicate Within(p: Page, r: Range) {
    r.start <= p.rva < r.End()
  }

  ghost predicate Covered(v: seq<Page>, ranges: seq<Range>) {
    forall p | p in v :: exists r :: r in ranges && Within(p, r)
  }

  /** The entry copies more content than it has pages for, which the table check lets pass. */
  ghost predicate Overruns(img: Image, e: Layout) {
    && e.Entry? && e.attributes % 2 == EADD
    && e.contentOffset != 0 && e.siFlags != SI_FLAGS_TCS && |EntryContent(img, e)| > Size(e)
  }

  ghost predicate NoneOverruns(img: Image) {
    forall k | 0 <= k < |img.metadata.layouts| :: !Overruns(img, img.metadata.layouts[k])
  }

  ghost predicate AllWithin(v: seq<Page>, r: Range) {
    forall p | p in v :: Within(p, r)
  }

  ghost predicate Aligned(ranges: seq<Range>) {
    forall r | r in ranges :: r.start % PAGE == 0
  }

  lemma SeparateParts(a: seq<Range>, b: seq<Range>)
    requires PairwiseSeparate(a + b)
    ensures PairwiseSeparate(a) && PairwiseSeparate(b)
    ensures forall r, t | r in a && t in b :: Separate(r, t)
  {
    var w := a + b;
    forall i, j | 0 <= i < j < |a| ensures Separate(a[i], a[j]) {
      assert w[i] == a[i] && w[j] == a[j];
    }
    forall i, j | 0 <= i < j < |b| ensures Separate(b[i], b[j]) {
      assert w[|a| + i] == b[i] && w[|a| + j] == b[j];
    }
    forall r, t | r in a && t in b ensures Separate(r, t) {
      var i :| 0 <= i < |a| && a[i] == r;
      var j :| 0 <= j < |b| && b[j] == t;
      assert w[i] == r && w[|a| + j] == t;
    }
  }

  /** Pages covered by separate ranges do not meet. */
  lemma JoinOnce(a: seq<Page>, b: seq<Page>, ra: seq<Range>, rb: seq<Range>)
    requires Distinct(a) && Distinct(b) && Covered(a, ra) && Covered(b, rb) && PairwiseSeparate(ra + rb)
    ensures Distinct(a + b) && Covered(a + b, ra + rb)
  {
    SeparateParts(ra, rb);
    forall i, j | 0 <= i < |a| && 0 <= j < |b| ensures a[i].rva != b[j].rva {
      assert a[i] in a && b[j] in b;
      var r :| r in ra && Within(a[i], r);
      var t :| t in rb && Within(b[j], t);
      assert Separate(r, t);
    }
    forall p | p in a + b ensures exists r :: r in ra + rb && Within(p, r) {
      if p in a {
        var r :| r in ra && Within(p, r);
        assert r in ra + rb;
      } else {
        var r :| r in rb && Within(p, r);
        assert r in ra + rb;
      }
    }
  }

  lemma RegionInside(s: Section, mage: Option<Mage>, p: Page)
    requires s.rva % PAGE == 0 && |s.raw| <= s.virtualSize && p in Region(s, [], mage)
    ensures s.rva <= p.rva < s.rva + s.virtualSize
  {
    hide Held;
    RegionIsExact(s, [], mage);
    var f: nat :| Meets(s, f) && IsFrame(p, s, [], mage, f);
    var x: nat :| s.rva <= x < s.rva + Extent(s) && x / PAGE == f;
  }

  lemma ContextInside(img: Image, e: Layout, delta: nat)
    requires e.Entry? && (e.rva + delta) % PAGE == 0 && !Overruns(img, e)
    ensures AllWithin(ContextPages(img, e, delta), Range(e.rva + delta, Size(e)))
  {
    hide Held, Run, Region;
    var rva := e.rva + delta;
    var content := EntryContent(img, e);
    var s := Section(content, rva, e.pageCount * PAGE, e.siFlags);
    RunIs(img.mage, rva, e.pageCount, TcsAt(content, rva), e.siFlags, e.attributes);
    RunIs(img.mage, rva, e.pageCount,
      if e.contentSize != 0 then Fill(e.contentSize) else Bytes(Zeros(PAGE)), e.siFlags, e.attributes);
    if |content| <= Size(e) {
      forall p | p in Region(s, [], img.mage) ensures Within(p, Range(rva, Size(e))) {
        RegionInside(s, img.mage, p);
      }
    }
  }

  lemma ContextDistinct(img: Image, e: Layout, delta: nat)
    requires e.Entry?
    ensures Distinct(ContextPages(img, e, delta))
  {
    hide Held, Run, Region;
    var rva := e.rva + delta;
    var content := EntryContent(img, e);
    RunIs(img.mage, rva, e.pageCount, TcsAt(content, rva), e.siFlags, e.attributes);
    RegionIsExact(Section(content, rva, e.pageCount * PAGE, e.siFlags), [], img.mage);
    RunIs(img.mage, rva, e.pageCount,
      if e.contentSize != 0 then Fill(e.contentSize) else Bytes(Zeros(PAGE)), e.siFlags, e.attributes);
  }

  lemma RegionGoesOn(s: Section, mage: Option<Mage>, f: nat)
    requires s.rva <= f * PAGE < s.rva + |s.raw| && !Held(mage, f * PAGE)
    ensures exists p :: p in Region(s, [], mage) && p.rva == f * PAGE
  {
    hide Held;
    RegionIsExact(s, [], mage);
    assert f * PAGE / PAGE == f;
    assert Meets(s, f);
    var p := FramePage(s, [], f);
    assert IsFrame(p, s, [], mage, f);
    assert p in Region(s, [], mage) && p.rva == f * PAGE;
  }

  /** The page behind the entry's range is added too. */
  lemma OverrunLeavesTheRange(img: Image, e: Layout, delta: nat)
    requires Overruns(img, e) && (e.rva + delta) % PAGE == 0 && !Held(img.mage, e.rva + delta + Size(e))
    ensures exists p :: p in ContextPages(img, e, delta) && p.rva == e.rva + delta + Size(e)
  {
    hide Held, Region, EntryContent;
    var rva := e.rva + delta;
    var s := Section(EntryContent(img, e), rva, e.pageCount * PAGE, e.siFlags);
    var f := rva / PAGE + e.pageCount;
    assert f * PAGE == rva + Size(e);
    RegionGoesOn(s, img.mage, f);
  }

  /** Where the MAGE section does not take the page behind it, an entry keeps to its range
      exactly when its content does not overrun. */
  lemma EntryKeepsToItsRange(img: Image, e: Layout, delta: nat)
    requires e.Entry? && (e.rva + delta) % PAGE == 0
    ensures !Overruns(img, e) ==> AllWithin(ContextPages(img, e, delta), Range(e.rva + delta, Size(e)))
    ensures !Held(img.mage, e.rva + delta + Size(e)) ==>
              (AllWithin(ContextPages(img, e, delta), Range(e.rva + delta, Size(e))) <==> !Overruns(img, e))
  {
    hide Held, ContextPages, Overruns;
    if !Overruns(img, e) {
      ContextInside(img, e, delta);
    } else if !Held(img.mage, e.rva + delta + Size(e)) {
      OverrunLeavesTheRange(img, e, delta);
    }
  }

  lemma CoveredByOne(v: seq<Page>, r: Range)
    requires AllWithin(v, r)
    ensures Covered(v, [r])
  {
    assert r in [r];
  }

  lemma {:induction false} ContextsOnce(img: Image, lo: nat, hi: nat, delta: nat)
    requires NoneOverruns(img) && lo <= hi <= |img.metadata.layouts|
    requires PairwiseSeparate(Visited(img.metadata.layouts, lo, hi, delta))
    requires Aligned(Visited(img.metadata.layouts, lo, hi, delta))
    ensures Distinct(ContextsPages(img, lo, hi, delta))
    ensures Covered(ContextsPages(img, lo, hi, delta), Visited(img.metadata.layouts, lo, hi, delta))
    decreases hi, hi - lo, 0
  {
    hide Distinct, Covered, PairwiseSeparate, ContextPages, Overruns, AllWithin;
    var table := img.metadata.layouts;
    if lo == hi {
      NothingTwice();
    } else {
      var e := table[hi - 1];
      var before := Visited(table, lo, hi - 1, delta);
      var here := if e.Entry? then [Range(e.rva + delta, Size(e))] else VisitedCopies(table, hi - 1, e.loadTimes);
      assert Visited(table, lo, hi, delta) == before + here;
      SeparateParts(before, here);
      ContextsOnce(img, lo, hi - 1, delta);
      if e.Entry? {
        assert here[0] in before + here;
        ContextDistinct(img, e, delta);
        ContextInside(img, e, delta);
        CoveredByOne(ContextPages(img, e, delta), Range(e.rva + delta, Size(e)));
        JoinOnce(ContextsPages(img, lo, hi - 1, delta), ContextPages(img, e, delta), before, here);
      } else {
        CopiesOnce(img, hi - 1, e.loadTimes);
        JoinOnce(ContextsPages(img, lo, hi - 1, delta), CopiesPages(img, hi - 1, e.loadTimes), before, here);
      }
    }
  }

  lemma NothingTwice()
    ensures Distinct([]) && Covered([], [])
  {
  }

  lemma {:induction false} CopiesOnce(img: Image, i: nat, times: nat)
    requires NoneOverruns(img) && i < |img.metadata.layouts| && img.metadata.layouts[i].Group?
    requires PairwiseSeparate(VisitedCopies(img.metadata.layouts, i, times))
    requires Aligned(VisitedCopies(img.metadata.layouts, i, times))
    ensures Distinct(CopiesPages(img, i, times))
    ensures Covered(CopiesPages(img, i, times), VisitedCopies(img.metadata.layouts, i, times))
    decreases i, i + 1, times
  {
    hide Distinct, Covered, PairwiseSeparate;
    var table := img.metadata.layouts;
    var g := table[i];
    if times == 0 || g.entryCount > i {
      NothingTwice();
    } else {
      var before := VisitedCopies(table, i, times - 1);
      var here := Visited(table, i - g.entryCount, i, times * g.loadStep);
      assert VisitedCopies(table, i, times) == before + here;
      SeparateParts(before, here);
      CopiesOnce(img, i, times - 1);
      ContextsOnce(img, i - g.entryCount, i, times * g.loadStep);
      JoinOnce(CopiesPages(img, i, times - 1),
               ContextsPages(img, i - g.entryCount, i, times * g.loadStep), before, here);
    }
  }

  /** Building the contexts of a valid table none of whose entries overruns adds no page twice,
      and every page it adds lies in a range that was checked. */
  lemma ContextPagesAreAddedOnce(img: Image)
    requires ValidTable(img.metadata) && NoneOverruns(img)
    ensures Distinct(ContextsPages(img, 0, |img.metadata.layouts|, 0))
    ensures Covered(ContextsPages(img, 0, |img.metadata.layouts|, 0),
                    Expand(img.metadata.layouts, |img.metadata.layouts|, false))
  {
    hide Distinct, Covered;
    VisitsTheCheckedRanges(img.metadata, |img.metadata.layouts|);
    ContextsOnce(img, 0, |img.metadata.layouts|, 0);
  }

  // ----- exactly when no page is added twice -----

  /** How far the pages of an entry reach: its content where that is longer than its pages. */
  function Footprint(img: Image, e: Layout): nat
    requires e.Entry?
  {
    if e.attributes % 2 != EADD || (e.contentOffset == 0 && e.siFlags == 0) then 0
    else if e.contentOffset != 0 && e.siFlags != SI_FLAGS_TCS && |EntryContent(img, e)| > Size(e)
    then |EntryContent(img, e)| else Size(e)
  }

  /** What the walk over the table adds pages for, entry by entry and copy by copy. */
  ghost function Footprints(img: Image, lo: nat, hi: nat, delta: nat): seq<Range>
    requires lo <= hi <= |img.metadata.layouts|
    decreases hi, hi - lo, 0
  {
    if lo == hi then []
    else
      var e := img.metadata.layouts[hi - 1];
      Footprints(img, lo, hi - 1, delta)
      + if e.Entry? then [Range(e.rva + delta, Footprint(img, e))] else CopiesFootprints(img, hi - 1, e.loadTimes)
  }

  ghost function CopiesFootprints(img: Image, i: nat, times: nat): seq<Range>
    requires i < |img.metadata.layouts| && img.metadata.layouts[i].Group?
    decreases i, i + 1, times
  {
    var g := img.metadata.layouts[i];
    if times == 0 || g.entryCount > i then []
    else CopiesFootprints(img, i, times - 1) + Footprints(img, i - g.entryCount, i, times * g.loadStep)
  }

  /** The page at x belongs to the range and not to MAGE. */
  ghost predicate AddedAt(mage: Option<Mage>, r: Range, x: nat) {
    x % PAGE == 0 && r.start <= x < r.End() && !Held(mage, x)
  }

  ghost predicate HasAt(v: seq<Page>, x: nat) {
    exists i :: 0 <= i < |v| && v[i].rva == x
  }

  ghost predicate AnyAddedAt(mage: Option<Mage>, ranges: seq<Range>, x: nat) {
    exists k :: 0 <= k < |ranges| && AddedAt(mage, ranges[k], x)
  }

  /** The pages are at the addresses the ranges stand for. */
  ghost predicate Spans(mage: Option<Mage>, v: seq<Page>, ranges: seq<Range>) {
    forall x: nat :: HasAt(v, x) <==> AnyAddedAt(mage, ranges, x)
  }

  /** Two ranges share a page outside MAGE. */
  ghost predicate Clash(mage: Option<Mage>, a: Range, b: Range) {
    exists x: nat :: AddedAt(mage, a, x) && AddedAt(mage, b, x)
  }

  ghost predicate NoClash(mage: Option<Mage>, ranges: seq<Range>) {
    forall i, j | 0 <= i < j < |ranges| :: !Clash(mage, ranges[i], ranges[j])
  }

  /** Without MAGE, aligned ranges clash exactly when both are there and they overlap. */
  lemma ClashIsOverlap(a: Range, b: Range)
    requires a.start % PAGE == 0 && b.start % PAGE == 0
    ensures Clash(None, a, b) <==> a.size > 0 && b.size > 0 && a.start < b.End() && b.start < a.End()
  {
    if a.size > 0 && b.size > 0 && a.start < b.End() && b.start < a.End() {
      var x := if a.start < b.start then b.start else a.start;
      assert AddedAt(None, a, x) && AddedAt(None, b, x);
    }
  }

  lemma HasAtJoin(a: seq<Page>, b: seq<Page>, x: nat)
    ensures HasAt(a + b, x) <==> HasAt(a, x) || HasAt(b, x)
  {
    if HasAt(a, x) {
      var i :| 0 <= i < |a| && a[i].rva == x;
      assert (a + b)[i].rva == x;
    }
    if HasAt(b, x) {
      var i :| 0 <= i < |b| && b[i].rva == x;
      assert (a + b)[|a| + i].rva == x;
    }
  }

  lemma AnyAddedJoin(mage: Option<Mage>, a: seq<Range>, b: seq<Range>, x: nat)
    ensures AnyAddedAt(mage, a + b, x) <==> AnyAddedAt(mage, a, x) || AnyAddedAt(mage, b, x)
  {
    hide AddedAt;
    if AnyAddedAt(mage, a, x) {
      var i :| 0 <= i < |a| && AddedAt(mage, a[i], x);
      assert AddedAt(mage, (a + b)[i], x);
    }
    if AnyAddedAt(mage, b, x) {
      var i :| 0 <= i < |b| && AddedAt(mage, b[i], x);
      assert AddedAt(mage, (a + b)[|a| + i], x);
    }
  }

  lemma SpansJoin(mage: Option<Mage>, a: seq<Page>, b: seq<Page>, ra: seq<Range>, rb: seq<Range>)
    requires Spans(mage, a, ra) && Spans(mage, b, rb)
    ensures Spans(mage, a + b, ra + rb)
  {
    hide HasAt, AnyAddedAt;
    forall x: nat ensures HasAt(a + b, x) <==> AnyAddedAt(mage, ra + rb, x) {
      HasAtJoin(a, b, x);
      AnyAddedJoin(mage, ra, rb, x);
    }
  }

  lemma DistinctJoin(a: seq<Page>, b: seq<Page>)
    ensures Distinct(a + b) <==> Distinct(a) && Distinct(b) && forall x: nat :: !(HasAt(a, x) && HasAt(b, x))
  {
    var w := a + b;
    if Distinct(w) {
      forall i, j | 0 <= i < j < |a| ensures a[i].rva != a[j].rva {
        assert w[i] == a[i] && w[j] == a[j];
      }
      forall i, j | 0 <= i < j < |b| ensures b[i].rva != b[j].rva {
        assert w[|a| + i] == b[i] && w[|a| + j] == b[j];
      }
      forall x: nat ensures !(HasAt(a, x) && HasAt(b, x)) {
        if HasAt(a, x) {
          var i :| 0 <= i < |a| && a[i].rva == x;
          forall j | 0 <= j < |b| ensures b[j].rva != x {
            assert w[i] == a[i] && w[|a| + j] == b[j];
          }
        }
      }
    }
    if Distinct(a) && Distinct(b) && forall x: nat :: !(HasAt(a, x) && HasAt(b, x)) {
      forall i, j | 0 <= i < |a| && 0 <= j < |b| ensures a[i].rva != b[j].rva {
        assert HasAt(a, a[i].rva);
      }
    }
  }

  lemma NoClashJoin(mage: Option<Mage>, a: seq<Range>, b: seq<Range>)
    ensures NoClash(mage, a + b) <==>
              && NoClash(mage, a) && NoClash(mage, b)
              && forall x: nat :: !(AnyAddedAt(mage, a, x) && AnyAddedAt(mage, b, x))
  {
    hide AddedAt;
    var w := a + b;
    if NoClash(mage, w) {
      forall i, j | 0 <= i < j < |a| ensures !Clash(mage, a[i], a[j]) {
        assert w[i] == a[i] && w[j] == a[j];
      }
      forall i, j | 0 <= i < j < |b| ensures !Clash(mage, b[i], b[j]) {
        assert w[|a| + i] == b[i] && w[|a| + j] == b[j];
      }
      forall x: nat ensures !(AnyAddedAt(mage, a, x) && AnyAddedAt(mage, b, x)) {
        if AnyAddedAt(mage, a, x) {
          var i :| 0 <= i < |a| && AddedAt(mage, a[i], x);
          forall j | 0 <= j < |b| ensures !AddedAt(mage, b[j], x) {
            assert w[i] == a[i] && w[|a| + j] == b[j];
            assert !Clash(mage, w[i], w[|a| + j]);
          }
        }
      }
    }
    if NoClash(mage, a) && NoClash(mage, b) && forall x: nat :: !(AnyAddedAt(mage, a, x) && AnyAddedAt(mage, b, x)) {
      forall i, j | 0 <= i < |a| && 0 <= j < |b| ensures !Clash(mage, a[i], b[j]) {
        forall x: nat ensures !(AddedAt(mage, a[i], x) && AddedAt(mage, b[j], x)) {
          assert AddedAt(mage, a[i], x) ==> AnyAddedAt(mage, a, x);
        }
      }
    }
  }

  /** Pages that are distinct exactly when their ranges do not clash, joined. */
  lemma JoinExactly(mage: Option<Mage>, a: seq<Page>, b: seq<Page>, ra: seq<Range>, rb: seq<Range>)
    requires Spans(mage, a, ra) && Spans(mage, b, rb)
    requires (Distinct(a) <==> NoClash(mage, ra)) && (Distinct(b) <==> NoClash(mage, rb))
    ensures Spans(mage, a + b, ra + rb) && (Distinct(a + b) <==> NoClash(mage, ra + rb))
  {
    hide HasAt, AnyAddedAt, Distinct, NoClash;
    SpansJoin(mage, a, b, ra, rb);
    DistinctJoin(a, b);
    NoClashJoin(mage, ra, rb);
  }

  lemma {:induction false} RunSpans(
      mage: Option<Mage>, start: nat, n: nat, content: Content, flags: nat, attr: nat, x: nat)
    requires start % PAGE == 0
    ensures HasAt(Run(mage, start, n, content, flags, attr), x) <==> AddedAt(mage, Range(start, n * PAGE), x)
    decreases n
  {
    hide Held;
    if n > 0 {
      RunSpans(mage, start, n - 1, content, flags, attr, x);
      var last := if Held(mage, start + (n - 1) * PAGE) then []
                  else [Page(start + (n - 1) * PAGE, content, flags, attr)];
      HasAtJoin(Run(mage, start, n - 1, content, flags, attr), last, x);
      LastPage(start, n, x);
      assert last != [] ==> last[0].rva == start + (n - 1) * PAGE;
    }
  }

  lemma LastPage(start: nat, n: nat, x: nat)
    requires start % PAGE == 0 && n > 0
    ensures x % PAGE == 0 && start <= x < start + n * PAGE <==>
              (x % PAGE == 0 && start <= x < start + (n - 1) * PAGE) || x == start + (n - 1) * PAGE
  {
  }

  lemma RegionSpans(s: Section, mage: Option<Mage>, x: nat)
    requires s.rva % PAGE == 0
    ensures HasAt(Region(s, [], mage), x) <==> AddedAt(mage, Range(s.rva, Extent(s)), x)
  {
    hide Held, Region;
    RegionIsExact(s, [], mage);
    var v := Region(s, [], mage);
    if HasAt(v, x) {
      var i :| 0 <= i < |v| && v[i].rva == x;
      assert v[i] in v;
      var f: nat :| Meets(s, f) && IsFrame(v[i], s, [], mage, f);
      var y: nat :| s.rva <= y < s.rva + Extent(s) && y / PAGE == f;
    }
    if AddedAt(mage, Range(s.rva, Extent(s)), x) {
      var f := x / PAGE;
      assert f * PAGE == x && Meets(s, f);
      var p := FramePage(s, [], f);
      assert IsFrame(p, s, [], mage, f);
      assert p in v;
    }
  }

  lemma EntrySpans(img: Image, e: Layout, delta: nat)
    requires e.Entry? && (e.rva + delta) % PAGE == 0
    ensures Spans(img.mage, ContextPages(img, e, delta), [Range(e.rva + delta, Footprint(img, e))])
  {
    var r := Range(e.rva + delta, Footprint(img, e));
    forall x: nat
      ensures HasAt(ContextPages(img, e, delta), x) <==> AnyAddedAt(img.mage, [r], x)
    {
      EntryHas(img, e, delta, x);
      assert [r][0] == r;
    }
  }

  lemma EntryHas(img: Image, e: Layout, delta: nat, x: nat)
    requires e.Entry? && (e.rva + delta) % PAGE == 0
    ensures HasAt(ContextPages(img, e, delta), x)
       <==> AddedAt(img.mage, Range(e.rva + delta, Footprint(img, e)), x)
  {
    hide Held, Run, Region, HasAt;
    var rva, content := e.rva + delta, EntryContent(img, e);
    RunSpans(img.mage, rva, e.pageCount, TcsAt(content, rva), e.siFlags, e.attributes, x);
    RegionSpans(Section(content, rva, e.pageCount * PAGE, e.siFlags), img.mage, x);
    RunSpans(img.mage, rva, e.pageCount,
      if e.contentSize != 0 then Fill(e.contentSize) else Bytes(Zeros(PAGE)), e.siFlags, e.attributes, x);
    NothingAt(x);
  }

  lemma NothingAt(x: nat)
    ensures !HasAt([], x)
  {
  }

  lemma NothingSpans(mage: Option<Mage>)
    ensures Spans(mage, [], []) && Distinct([]) && NoClash(mage, [])
  {
  }

  lemma EntryExactly(img: Image, e: Layout, delta: nat)
    requires e.Entry? && (e.rva + delta) % PAGE == 0
    ensures var pages, r := ContextPages(img, e, delta), Range(e.rva + delta, Footprint(img, e));
      Spans(img.mage, pages, [r]) && Distinct(pages) && NoClash(img.mage, [r])
  {
    hide Spans, Distinct, ContextPages;
    EntrySpans(img, e, delta);
    ContextDistinct(img, e, delta);
  }

  lemma {:induction false} ContextsExactly(img: Image, lo: nat, hi: nat, delta: nat)
    requires lo <= hi <= |img.metadata.layouts| && Aligned(Visited(img.metadata.layouts, lo, hi, delta))
    ensures Spans(img.mage, ContextsPages(img, lo, hi, delta), Footprints(img, lo, hi, delta))
    ensures Distinct(ContextsPages(img, lo, hi, delta)) <==> NoClash(img.mage, Footprints(img, lo, hi, delta))
    decreases hi, hi - lo, 0
  {
    hide Distinct, NoClash, Spans, ContextPages, Footprint, CopiesPages, CopiesFootprints, VisitedCopies;
    var table := img.metadata.layouts;
    if lo == hi {
      NothingSpans(img.mage);
    } else {
      var e := table[hi - 1];
      var before := Visited(table, lo, hi - 1, delta);
      var here := if e.Entry? then [Range(e.rva + delta, Size(e))] else VisitedCopies(table, hi - 1, e.loadTimes);
      assert Visited(table, lo, hi, delta) == before + here;
      ContextsExactly(img, lo, hi - 1, delta);
      if e.Entry? {
        assert here[0] in before + here;
        EntryExactly(img, e, delta);
        JoinExactly(img.mage, ContextsPages(img, lo, hi - 1, delta), ContextPages(img, e, delta),
                    Footprints(img, lo, hi - 1, delta), [Range(e.rva + delta, Footprint(img, e))]);
      } else {
        CopiesExactly(img, hi - 1, e.loadTimes);
        JoinExactly(img.mage, ContextsPages(img, lo, hi - 1, delta), CopiesPages(img, hi - 1, e.loadTimes),
                    Footprints(img, lo, hi - 1, delta), CopiesFootprints(img, hi - 1, e.loadTimes));
      }
    }
  }

  lemma {:induction false} CopiesExactly(img: Image, i: nat, times: nat)
    requires i < |img.metadata.layouts| && img.metadata.layouts[i].Group?
    requires Aligned(VisitedCopies(img.metadata.layouts, i, times))
    ensures Spans(img.mage, CopiesPages(img, i, times), CopiesFootprints(img, i, times))
    ensures Distinct(CopiesPages(img, i, times)) <==> NoClash(img.mage, CopiesFootprints(img, i, times))
    decreases i, i + 1, times
  {
    hide Distinct, NoClash, Spans, ContextsPages, Footprints, Visited;
    var table := img.metadata.layouts;
    var g := table[i];
    if times == 0 || g.entryCount > i {
      NothingSpans(img.mage);
    } else {
      var before := VisitedCopies(table, i, times - 1);
      var here := Visited(table, i - g.entryCount, i, times * g.loadStep);
      assert VisitedCopies(table, i, times) == before + here;
      CopiesExactly(img, i, times - 1);
      ContextsExactly(img, i - g.entryCount, i, times * g.loadStep);
      JoinExactly(img.mage, CopiesPages(img, i, times - 1),
                  ContextsPages(img, i - g.entryCount, i, times * g.loadStep),
                  CopiesFootprints(img, i, times - 1), Footprints(img, i - g.entryCount, i, times * g.loadStep));
    }
  }

  /** For every valid table: the contexts add no page twice, if and only if no two of the ranges
      it lists, each extended to its content, share a page outside MAGE. */
  lemma AddedOnceIffNoClash(img: Image)
    requires ValidTable(img.metadata)
    ensures Distinct(ContextsPages(img, 0, |img.metadata.layouts|, 0))
       <==> NoClash(img.mage, Footprints(img, 0, |img.metadata.layouts|, 0))
  {
    hide Distinct, NoClash;
    VisitsTheCheckedRanges(img.metadata, |img.metadata.layouts|);
    ContextsExactly(img, 0, |img.metadata.layouts|, 0);
  }

  // ----- what a context page holds -----

  /** An entry where the walk puts it: at its own address, or at that of one of its copies. */
  datatype Placement = Placement(entry: Layout, start: nat)

  ghost function Placements(table: seq<Layout>, lo: nat, hi: nat, delta: nat): seq<Placement>
    requires lo <= hi <= |table|
    decreases hi, hi - lo, 0
  {
    if lo == hi then []
    else Placements(table, lo, hi - 1, delta)
         + if table[hi - 1].Entry? then [Placement(table[hi - 1], table[hi - 1].rva + delta)]
           else CopiesPlacements(table, hi - 1, table[hi - 1].loadTimes)
  }

  ghost function CopiesPlacements(table: seq<Layout>, i: nat, times: nat): seq<Placement>
    requires i < |table| && table[i].Group?
    decreases i, i + 1, times
  {
    if times == 0 || table[i].entryCount > i then []
    else CopiesPlacements(table, i, times - 1)
         + Placements(table, i - table[i].entryCount, i, times * table[i].loadStep)
  }

  /** The placements are entries at the starts of these ranges. */
  ghost predicate PlacedAt(v: seq<Placement>, ranges: seq<Range>) {
    |v| == |ranges| && forall k | 0 <= k < |v| :: v[k].entry.Entry? && ranges[k] == Range(v[k].start, Size(v[k].entry))
  }

  lemma {:induction false} PlacementsAreVisited(table: seq<Layout>, lo: nat, hi: nat, delta: nat)
    requires lo <= hi <= |table|
    ensures PlacedAt(Placements(table, lo, hi, delta), Visited(table, lo, hi, delta))
    decreases hi, hi - lo, 0
  {
    if lo < hi {
      PlacementsAreVisited(table, lo, hi - 1, delta);
      if table[hi - 1].Group? {
        CopiesAreVisited(table, hi - 1, table[hi - 1].loadTimes);
      }
    }
  }

  lemma {:induction false} CopiesAreVisited(table: seq<Layout>, i: nat, times: nat)
    requires i < |table| && table[i].Group?
    ensures PlacedAt(CopiesPlacements(table, i, times), VisitedCopies(table, i, times))
    decreases i, i + 1, times
  {
    if times > 0 && table[i].entryCount <= i {
      CopiesAreVisited(table, i, times - 1);
      PlacementsAreVisited(table, i - table[i].entryCount, i, times * table[i].loadStep);
    }
  }

  /** Byte x of a text that goes on with zeros. */
  function ByteAt(v: seq<u8>, x: nat): u8 {
    if x < |v| then v[x] else 0
  }

  /** Thread control structures are moved by where the entry is put. Other content is at its
      place in the entry and followed by zeros. Without content there is the fill word or zero. */
  ghost predicate ContentOf(img: Image, at: Placement, p: Page)
    requires at.entry.Entry? && at.start <= p.rva
  {
    var e := at.entry;
    if e.contentOffset != 0 && e.siFlags == SI_FLAGS_TCS then p.content == TcsAt(EntryContent(img, e), at.start)
    else if e.contentOffset == 0 && e.contentSize != 0 then p.content == Fill(e.contentSize)
    else
      && p.content.Bytes? && |p.content.data| == PAGE
      && forall j | 0 <= j < PAGE ::
           p.content.data[j]
           == if e.contentOffset == 0 then 0 else ByteAt(EntryContent(img, e), p.rva - at.start + j)
  }

  /** The page is one of those the entry stands for where it is put. */
  ghost predicate PageOf(img: Image, at: Placement, p: Page) {
    && at.entry.Entry?
    && AddedAt(img.mage, Range(at.start, Footprint(img, at.entry)), p.rva)
    && p.flags == at.entry.siFlags
    && p.attr == (if at.entry.contentOffset != 0 && at.entry.siFlags != SI_FLAGS_TCS then ADD_EXTEND_PAGE
                  else at.entry.attributes)
    && ContentOf(img, at, p)
  }

  lemma {:induction false} RunHas(
      mage: Option<Mage>, start: nat, n: nat, content: Content, flags: nat, attr: nat, p: Page)
    requires start % PAGE == 0
    ensures p in Run(mage, start, n, content, flags, attr)
       <==> AddedAt(mage, Range(start, n * PAGE), p.rva) && p == Page(p.rva, content, flags, attr)
    decreases n
  {
    hide Held;
    if n > 0 {
      RunHas(mage, start, n - 1, content, flags, attr, p);
      LastPage(start, n, p.rva);
    }
  }

  lemma RegionHas(s: Section, mage: Option<Mage>, p: Page)
    requires s.rva % PAGE == 0
    ensures p in Region(s, [], mage)
       <==> AddedAt(mage, Range(s.rva, Extent(s)), p.rva) && p == FramePage(s, [], p.rva / PAGE)
  {
    hide Held, Region, FrameBytes;
    RegionIsExact(s, [], mage);
    if p in Region(s, [], mage) {
      var f: nat :| Meets(s, f) && IsFrame(p, s, [], mage, f);
      var y: nat :| s.rva <= y < s.rva + Extent(s) && y / PAGE == f;
    }
    if AddedAt(mage, Range(s.rva, Extent(s)), p.rva) && p == FramePage(s, [], p.rva / PAGE) {
      var f := p.rva / PAGE;
      assert f * PAGE == p.rva && Meets(s, f);
      assert IsFrame(p, s, [], mage, f);
    }
  }

  /** A frame of an aligned region holds the bytes at their place, and zeros behind them. */
  lemma FrameHolds(s: Section, p: Page)
    requires s.rva % PAGE == 0 && s.rva <= p.rva && p.rva % PAGE == 0
    ensures p == FramePage(s, [], p.rva / PAGE) <==>
              && p.flags == s.flags && p.attr == ADD_EXTEND_PAGE && p.content.Bytes? && |p.content.data| == PAGE
              && forall j | 0 <= j < PAGE :: p.content.data[j] == ByteAt(s.raw, p.rva - s.rva + j)
  {
    var f := p.rva / PAGE;
    var frame := FramePage(s, [], f);
    assert f * PAGE == p.rva && frame.flags == s.flags;
    forall j | 0 <= j < PAGE ensures frame.content.data[j] == ByteAt(s.raw, p.rva - s.rva + j) {
    }
    if p.content.Bytes? && |p.content.data| == PAGE
       && forall j | 0 <= j < PAGE :: p.content.data[j] == ByteAt(s.raw, p.rva - s.rva + j) {
      assert p.content.data == frame.content.data;
    }
  }

  lemma ZerosAre(p: Page)
    ensures p.content == Bytes(Zeros(PAGE)) <==>
              p.content.Bytes? && |p.content.data| == PAGE && forall j | 0 <= j < PAGE :: p.content.data[j] == 0
  {
    if p.content.Bytes? && |p.content.data| == PAGE && forall j | 0 <= j < PAGE :: p.content.data[j] == 0 {
      assert p.content.data == Zeros(PAGE);
    }
  }

  /** The pages an entry adds are exactly those it stands for where it is put. */
  lemma EntryPagesAre(img: Image, e: Layout, delta: nat, p: Page)
    requires e.Entry? && (e.rva + delta) % PAGE == 0
    ensures p in ContextPages(img, e, delta) <==> PageOf(img, Placement(e, e.rva + delta), p)
  {
    hide Held, Run, Region, FramePage, Zeros, ByteAt, EntryContent;
    var rva, content := e.rva + delta, EntryContent(img, e);
    var s := Section(content, rva, e.pageCount * PAGE, e.siFlags);
    if e.attributes % 2 == EADD {
      if e.contentOffset != 0 && e.siFlags == SI_FLAGS_TCS {
        RunHas(img.mage, rva, e.pageCount, TcsAt(content, rva), e.siFlags, e.attributes, p);
      } else if e.contentOffset != 0 {
        RegionHas(s, img.mage, p);
        if AddedAt(img.mage, Range(rva, Extent(s)), p.rva) {
          FrameHolds(s, p);
        }
      } else {
        var fill := if e.contentSize != 0 then Fill(e.contentSize) else Bytes(Zeros(PAGE));
        RunHas(img.mage, rva, e.pageCount, fill, e.siFlags, e.attributes, p);
        ZerosAre(p);
      }
    }
  }

  ghost predicate PageOfAny(img: Image, v: seq<Placement>, p: Page) {
    exists k :: 0 <= k < |v| && PageOf(img, v[k], p)
  }

  lemma PageOfJoin(img: Image, a: seq<Placement>, b: seq<Placement>, p: Page)
    ensures PageOfAny(img, a + b, p) <==> PageOfAny(img, a, p) || PageOfAny(img, b, p)
  {
    hide PageOf;
    if PageOfAny(img, a, p) {
      var k :| 0 <= k < |a| && PageOf(img, a[k], p);
      assert PageOf(img, (a + b)[k], p);
    }
    if PageOfAny(img, b, p) {
      var k :| 0 <= k < |b| && PageOf(img, b[k], p);
      assert PageOf(img, (a + b)[|a| + k], p);
    }
  }

  lemma PageOfOne(img: Image, at: Placement, p: Page)
    ensures PageOfAny(img, [at], p) <==> PageOf(img, at, p)
  {
    hide PageOf;
    assert [at][0] == at;
  }

  lemma {:induction false} ContextsHold(img: Image, lo: nat, hi: nat, delta: nat, p: Page)
    requires lo <= hi <= |img.metadata.layouts| && Aligned(Visited(img.metadata.layouts, lo, hi, delta))
    ensures p in ContextsPages(img, lo, hi, delta)
       <==> PageOfAny(img, Placements(img.metadata.layouts, lo, hi, delta), p)
    decreases hi, hi - lo, 0
  {
    hide PageOfAny, PageOf, ContextPages, CopiesPages, CopiesPlacements, VisitedCopies;
    var table := img.metadata.layouts;
    if lo == hi {
      NoPlacements(img, p);
    } else {
      var e := table[hi - 1];
      var before := Visited(table, lo, hi - 1, delta);
      var here := if e.Entry? then [Range(e.rva + delta, Size(e))] else VisitedCopies(table, hi - 1, e.loadTimes);
      assert Visited(table, lo, hi, delta) == before + here;
      ContextsHold(img, lo, hi - 1, delta, p);
      if e.Entry? {
        assert here[0] in before + here;
        var at := Placement(e, e.rva + delta);
        EntryPagesAre(img, e, delta, p);
        PageOfOne(img, at, p);
        PageOfJoin(img, Placements(table, lo, hi - 1, delta), [at], p);
      } else {
        CopiesHold(img, hi - 1, e.loadTimes, p);
        PageOfJoin(img, Placements(table, lo, hi - 1, delta), CopiesPlacements(table, hi - 1, e.loadTimes), p);
      }
    }
  }

  lemma NoPlacements(img: Image, p: Page)
    ensures !PageOfAny(img, [], p)
  {
  }

  lemma {:induction false} CopiesHold(img: Image, i: nat, times: nat, p: Page)
    requires i < |img.metadata.layouts| && img.metadata.layouts[i].Group?
    requires Aligned(VisitedCopies(img.metadata.layouts, i, times))
    ensures p in CopiesPages(img, i, times) <==> PageOfAny(img, CopiesPlacements(img.metadata.layouts, i, times), p)
    decreases i, i + 1, times
  {
    hide PageOfAny, ContextsPages, Placements, Visited;
    var table := img.metadata.layouts;
    var g := table[i];
    if times == 0 || g.entryCount > i {
      NoPlacements(img, p);
    } else {
      var before := VisitedCopies(table, i, times - 1);
      var here := Visited(table, i - g.entryCount, i, times * g.loadStep);
      assert VisitedCopies(table, i, times) == before + here;
      CopiesHold(img, i, times - 1, p);
      ContextsHold(img, i - g.entryCount, i, times * g.loadStep, p);
      PageOfJoin(img, CopiesPlacements(table, i, times - 1),
                 Placements(table, i - g.entryCount, i, times * g.loadStep), p);
    }
  }

  /** For every valid table: the ranges that were checked are those of entries at their own
      addresses and at those of their copies, and the pages added for the contexts are exactly
      the ones these entries stand for there, with their flags, their bytes at their places and
      thread control structures moved by the address of the copy. */
  lemma ContextPagesAreExact(img: Image)
    requires ValidTable(img.metadata)
    ensures var table := img.metadata.layouts; var placed := Placements(table, 0, |table|, 0);
      && PlacedAt(placed, Expand(table, |table|, false))
      && forall p :: p in ContextsPages(img, 0, |table|, 0) <==> PageOfAny(img, placed, p)
  {
    hide PageOfAny, PlacedAt, ContextsPages, Placements;
    var table := img.metadata.layouts;
    VisitsTheCheckedRanges(img.metadata, |table|);
    PlacementsAreVisited(table, 0, |table|, 0);
    forall p ensures p in ContextsPages(img, 0, |table|, 0) <==> PageOfAny(img, Placements(table, 0, |table|, 0), p) {
      ContextsHold(img, 0, |table|, 0, p);
    }
  }

  // ----- an accepted table that adds a page twice -----

  /** One page with content that is a byte longer, and a zeroed page right behind it. */
  const OVERRUNNING: Layout := Entry(0, EADD, 1, 0, PAGE + 1, DATA_OFFSET, 3)
  const BEHIND: Layout := Entry(1, EADD, 1, PAGE, 0, 0, 3)

  function OverrunImage(): Image {
    Image([], [], false, Metadata(2 * PAGE, 2 * PAGE, [OVERRUNNING, BEHIND]), Zeros(2 * PAGE), None, false)
  }

  lemma OverrunTableIsValid()
    ensures ValidTable(OverrunImage().metadata) && IsPowerOfTwo(OverrunImage().metadata.enclaveSize)
  {
    var m := OverrunImage().metadata;
    assert Expand(m.layouts, 0, false) == [];
    assert Expand(m.layouts, 1, false) == [Range(0, PAGE)];
    assert Expand(m.layouts, 2, false) == [Range(0, PAGE), Range(PAGE, PAGE)];
    PowerOfTwo13();
  }

  lemma PowerOfTwo13()
    ensures IsPowerOfTwo(2 * PAGE)
  {
    assert Exp2(4) == 16;
    assert Exp2(8) == 256;
    assert Exp2(12) == 4096;
    assert Exp2(13) == 2 * PAGE;
  }

  /** The table check accepts content longer than its entry's pages, and the page behind
      them is then added twice. */
  lemma AcceptedContentCanOverrun()
    ensures ValidTable(OverrunImage().metadata) && IsPowerOfTwo(OverrunImage().metadata.enclaveSize)
    ensures !NoneOverruns(OverrunImage())
    ensures !Distinct(ContextsPages(OverrunImage(), 0, 2, 0))
  {
    hide Region, Run, ValidTable;
    OverrunTableIsValid();
    var img := OverrunImage();
    var first, second := ContextPages(img, OVERRUNNING, 0), ContextPages(img, BEHIND, 0);
    assert ContextsPages(img, 0, 0, 0) == [];
    assert ContextsPages(img, 0, 1, 0) == first;
    assert ContextsPages(img, 0, 2, 0) == first + second;
    assert Overruns(img, img.metadata.layouts[0]);
    OverrunLeavesTheRange(img, OVERRUNNING, 0);
    BehindIsAdded(img);
    var p :| p in first && p.rva == PAGE;
    var i :| 0 <= i < |first| && first[i] == p;
    assert (first + second)[i] == p && (first + second)[|first|].rva == PAGE;
  }

  lemma BehindIsAdded(img: Image)
    requires img.mage.None?
    ensures |ContextPages(img, BEHIND, 0)| == 1 && ContextPages(img, BEHIND, 0)[0].rva == PAGE
  {
    hide Zeros;
    assert Run(img.mage, PAGE, 0, Bytes(Zeros(PAGE)), 3, EADD) == [];
  }
}
