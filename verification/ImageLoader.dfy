/** The loader's page-adding loops against the pages an image stands for. The driver is a
    log of accepted pages that refuses from some point on. */
module ImageLoader {
  import opened Basics
  import opened LayoutTable
  import opened PageBuilding

  /** A log cut off where the driver starts to refuse. */
  function Cut(pages: seq<Page>, limit: nat): (r: seq<Page>)
    ensures |r| <= limit && r <= pages && (|pages| <= limit ==> r == pages)
  {
    if |pages| <= limit then pages else pages[..limit]
  }

  /** The pages were offered to the driver in order, until it refused one. */
  ghost predicate Adds(before: seq<Page>, after: seq<Page>, ok: bool, pages: seq<Page>, limit: nat) {
    && |before| <= limit
    && (ok <==> |before| + |pages| <= limit)
    && after == Cut(before + pages, limit)
  }

  lemma AddsNothing(log: seq<Page>, limit: nat)
    requires |log| <= limit
    ensures Adds(log, log, true, [], limit)
  {
    assert log + [] == log;
  }

  lemma AddsThen(a: seq<Page>, b: seq<Page>, c: seq<Page>, ok: bool, first: seq<Page>, next: seq<Page>, limit: nat)
    requires Adds(a, b, true, first, limit) && Adds(b, c, ok, next, limit)
    ensures Adds(a, c, ok, first + next, limit)
  {
    assert (a + first) + next == a + (first + next);
  }

  /** A refusal inside a prefix of the pages is the outcome for all of them. */
  lemma AddsStop(a: seq<Page>, b: seq<Page>, part: seq<Page>, all: seq<Page>, limit: nat)
    requires Adds(a, b, false, part, limit) && part <= all
    ensures Adds(a, b, false, all, limit)
  {
    var rest := all[|part|..];
    assert all == part + rest;
    assert a + all == (a + part) + rest;
  }

  lemma PartialPageIsFrame(s: Section, offset: nat, size: nat)
    requires offset + size <= |s.raw| && size > 0
    requires offset == 0 || (s.rva + offset) % PAGE == 0
    requires size == PAGE - (s.rva + offset) % PAGE ||
             (size < PAGE - (s.rva + offset) % PAGE && offset + size == |s.raw|)
    ensures Zeros((s.rva + offset) % PAGE) + s.raw[offset..offset + size]
              + Zeros(PAGE - (s.rva + offset) % PAGE - size)
         == FrameBytes(s, (s.rva + offset) / PAGE)
  {
    var at := (s.rva + offset) % PAGE;
    var start := (s.rva + offset) / PAGE * PAGE;
    var page := Zeros(at) + s.raw[offset..offset + size] + Zeros(PAGE - at - size);
    var frame := FrameBytes(s, (s.rva + offset) / PAGE);
    assert start + at == s.rva + offset;
    forall j | 0 <= j < PAGE ensures page[j] == frame[j] {
      if at <= j < at + size {
        assert page[j] == s.raw[offset + (j - at)];
      }
    }
  }

  lemma ZeroPageIsFrame(s: Section, f: nat)
    requires s.rva + |s.raw| <= f * PAGE || |s.raw| == 0
    ensures Zeros(PAGE) == FrameBytes(s, f)
  {
  }

  /** Frames past the raw data are a run of zero pages. */
  lemma {:induction false} ZeroRun(s: Section, bitmap: seq<u8>, mage: Option<Mage>, lo: nat, n: nat)
    requires s.rva + |s.raw| <= lo * PAGE || |s.raw| == 0
    ensures Run(mage, lo * PAGE, n, Bytes(Zeros(PAGE)), s.flags, ADD_EXTEND_PAGE)
         == Frames(s, bitmap, mage, lo, lo + n)
    decreases n
  {
    hide Held, IsRelocationPage, FrameBytes;
    if n > 0 {
      ZeroRun(s, bitmap, mage, lo, n - 1);
      ZeroPageIsFrame(s, lo + n - 1);
    }
  }

  lemma {:induction false} FramesSplit(s: Section, bitmap: seq<u8>, mage: Option<Mage>, lo: nat, mid: nat, hi: nat)
    requires lo <= mid <= hi
    ensures Frames(s, bitmap, mage, lo, hi) == Frames(s, bitmap, mage, lo, mid) + Frames(s, bitmap, mage, mid, hi)
    decreases hi
  {
    hide Held, FramePage;
    if mid < hi {
      FramesSplit(s, bitmap, mage, lo, mid, hi - 1);
    }
  }

  /** One page with the bytes and flags of a frame is that frame. */
  lemma OneFrame(s: Section, bitmap: seq<u8>, mage: Option<Mage>, f: nat)
    ensures Run(mage, f * PAGE, 1, FramePage(s, bitmap, f).content, FramePage(s, bitmap, f).flags, ADD_EXTEND_PAGE)
         == Frames(s, bitmap, mage, f, f + 1)
  {
    hide Held, FrameBytes;
    assert f * PAGE + 0 * PAGE == f * PAGE;
  }

  lemma {:induction false} RunPrefix(
      mage: Option<Mage>, start: nat, n: nat, m: nat, content: Content, flags: nat, attr: nat)
    requires n <= m
    ensures Run(mage, start, n, content, flags, attr) <= Run(mage, start, m, content, flags, attr)
    decreases m
  {
    hide Held;
    if n < m {
      RunPrefix(mage, start, n, m - 1, content, flags, attr);
    }
  }

  lemma RunStep(mage: Option<Mage>, start: nat, n: nat, content: Content, flags: nat, attr: nat)
    ensures Run(mage, start, n + 1, content, flags, attr)
         == Run(mage, start, n, content, flags, attr)
            + if Held(mage, start + n * PAGE) then [] else [Page(start + n * PAGE, content, flags, attr)]
    ensures Held(mage, start + n * PAGE) ==>
              Run(mage, start, n + 1, content, flags, attr) == Run(mage, start, n, content, flags, attr)
  {
    hide Held;
  }

  class Loader {
    const image: Image
    /** How many pages the driver accepts. */
    const limit: nat
    var log: seq<Page>

    constructor (image: Image, limit: nat)
      ensures this.image == image && this.limit == limit && log == []
    {
      this.image := image;
      this.limit := limit;
      log := [];
    }

    method AddPage(p: Page) returns (ok: bool)
      requires |log| <= limit
      modifies this
      ensures Adds(old(log), log, ok, [p], limit)
    {
      ok := |log| < limit;
      if ok {
        log := log + [p];
      }
    }

    method BuildPages(start: nat, size: nat, content: Content, flags: nat, attr: nat) returns (ok: bool)
      requires |log| <= limit && start % PAGE == 0 && size % PAGE == 0
      modifies this
      ensures Adds(old(log), log, ok, Run(image.mage, start, size / PAGE, content, flags, attr), limit)
    {
      hide Held, Adds, Cut;
      var skipRva, skipSize := 0, 0;
      if image.mage.Some? {
        skipRva, skipSize := image.mage.value.rva, image.mage.value.size;
      }
      var offset, rva := 0, start;
      ghost var n := 0;
      AddsNothing(log, limit);
      while offset < size
        invariant offset == n * PAGE <= size && rva == start + n * PAGE
        invariant Adds(old(log), log, true, Run(image.mage, start, n, content, flags, attr), limit)
      {
        assert n + 1 <= size / PAGE;
        RunPrefix(image.mage, start, n + 1, size / PAGE, content, flags, attr);
        SkipIsHeld(image.mage, skipRva, skipSize, rva);
        RunStep(image.mage, start, n, content, flags, attr);
        if rva >= skipRva + skipSize || rva + PAGE <= skipRva {
          ghost var done, mid := Run(image.mage, start, n, content, flags, attr), log;
          ghost var page := [Page(rva, content, flags, attr)];
          Accepted(old(log), log, done, limit);
          ok := AddPage(Page(rva, content, flags, attr));
          AddsThen(old(log), mid, log, ok, done, page, limit);
          if !ok {
            AddsStop(old(log), log, done + page, Run(image.mage, start, size / PAGE, content, flags, attr), limit);
            return;
          }
        }
        offset := offset + PAGE;
        rva := rva + PAGE;
        n := n + 1;
      }
      ok := true;
    }

    /** A page that is not filled by raw data, padded with zeros on both sides. */
    method BuildPartialPage(rva: nat, source: seq<u8>, flags: nat, attr: nat) returns (ok: bool)
      requires |log| <= limit && rva % PAGE + |source| <= PAGE
      modifies this
      ensures Adds(old(log), log, ok,
                   Run(image.mage, Trim(rva), 1,
                       Bytes(Zeros(rva % PAGE) + source + Zeros(PAGE - rva % PAGE - |source|)), flags, attr), limit)
    {
      hide Adds;
      var offset := rva % PAGE;
      ok := BuildPages(Trim(rva), PAGE, Bytes(Zeros(offset) + source + Zeros(PAGE - offset - |source|)), flags, attr);
    }

    /** One page of a section that holds raw data. */
    method BuildRawPage(s: Section, bitmap: seq<u8>, offset: nat) returns (ok: bool)
      requires |log| <= limit && offset < |s.raw| && (offset == 0 || (s.rva + offset) % PAGE == 0)
      modifies this
      ensures Adds(old(log), log, ok,
                   Frames(s, bitmap, image.mage, (s.rva + offset) / PAGE, (s.rva + offset) / PAGE + 1), limit)
    {
      hide Adds, Held, IsRelocationPage, Run;
      var rva := s.rva + offset;
      var size := if PAGE - rva % PAGE <= |s.raw| - offset then PAGE - rva % PAGE else |s.raw| - offset;
      var flags := s.flags;
      SameFrame(bitmap, rva);
      if IsRelocationPage(bitmap, rva) && !Writable(s.flags) {
        flags := MakeWritable(s.flags);
      }
      ghost var f := rva / PAGE;
      PartialPageIsFrame(s, offset, size);
      OneFrame(s, bitmap, image.mage, f);
      if size == PAGE {
        WholePage(rva, s.raw[offset..offset + size]);
        ok := BuildPages(rva, size, Bytes(s.raw[offset..offset + size]), flags, ADD_EXTEND_PAGE);
      } else {
        ok := BuildPartialPage(rva, s.raw[offset..offset + size], flags, ADD_EXTEND_PAGE);
      }
    }

    /** A section's frames in order: raw data first, then zero pages up to its virtual size. */
    method BuildMemRegion(s: Section, bitmap: seq<u8>) returns (ok: bool)
      requires |log| <= limit
      modifies this
      ensures Adds(old(log), log, ok, Region(s, bitmap, image.mage), limit)
    {
      hide Adds, Frames;
      var offset := 0;
      ghost var lo, hi, cur := FirstFrame(s), LastFrame(s), FirstFrame(s);
      AddsNothing(log, limit);
      NoFrames(s, bitmap, image.mage, lo);
      while offset < |s.raw|
        invariant if offset == 0 then cur == lo else s.rva + offset == cur * PAGE && lo < cur <= hi
        invariant Adds(old(log), log, true, Frames(s, bitmap, image.mage, lo, cur), limit)
      {
        NextFrame(s, offset);
        assert (s.rva + offset) / PAGE == cur;
        ghost var done, mid := Frames(s, bitmap, image.mage, lo, cur), log;
        ghost var page := Frames(s, bitmap, image.mage, cur, cur + 1);
        Accepted(old(log), log, done, limit);
        ok := BuildRawPage(s, bitmap, offset);
        AddsThen(old(log), mid, log, ok, done, page, limit);
        FramesSplit(s, bitmap, image.mage, lo, cur, cur + 1);
        FramesSplit(s, bitmap, image.mage, lo, cur + 1, hi);
        if !ok {
          AddsStop(old(log), log, done + page, Region(s, bitmap, image.mage), limit);
          return;
        }
        offset := offset + PAGE - (s.rva + offset) % PAGE;
        cur := cur + 1;
      }
      if s.virtualSize > offset {
        var rva := s.rva + offset;
        var size := RoundUp(s.virtualSize - offset + rva % PAGE);
        RestIsFrames(s, offset, cur);
        ghost var done, mid := Frames(s, bitmap, image.mage, lo, cur), log;
        ZeroRun(s, bitmap, image.mage, cur, hi - cur);
        FramesSplit(s, bitmap, image.mage, lo, cur, hi);
        Accepted(old(log), log, done, limit);
        ok := BuildPages(Trim(rva), size, Bytes(Zeros(PAGE)), s.flags, ADD_EXTEND_PAGE);
        AddsThen(old(log), mid, log, ok, done, Frames(s, bitmap, image.mage, cur, hi), limit);
      } else {
        NoRest(s, offset, cur);
        ok := true;
      }
    }

    method BuildPadding(last: Option<Section>) returns (ok: bool)
      requires |log| <= limit
      modifies this
      ensures Adds(old(log), log, ok, Padding(image, last), limit)
    {
      hide Adds, Run;
      if image.version15 && last.Some? && HasPadding(last.value) {
        ok := BuildPages(PaddingAt(last.value), PAGE, Bytes(Zeros(PAGE)), last.value.flags, ADD_EXTEND_PAGE);
      } else {
        AddsNothing(log, limit);
        ok := true;
      }
    }

    /** One section, after the padding page of the highest section before it. */
    method BuildSection(i: nat, last: Option<Section>) returns (ok: bool)
      requires |log| <= limit && i < |image.sections| && last == Highest(image.sections, i)
      modifies this
      ensures Adds(old(log), log, ok,
                   PaddingBefore(image, i) + Region(image.sections[i], image.bitmap, image.mage), limit)
    {
      hide Adds, Region, Padding, Highest, RoundUp, Trim;
      ghost var padding := PaddingBefore(image, i);
      ghost var region := Region(image.sections[i], image.bitmap, image.mage);
      if last.Some? && PaddingAt(last.value) < Trim(image.sections[i].rva) {
        ok := BuildPadding(last);
      } else {
        AddsNothing(log, limit);
        ok := true;
      }
      if !ok {
        AddsStop(old(log), log, padding, padding + region, limit);
        return;
      }
      ghost var mid := log;
      Accepted(old(log), log, padding, limit);
      ok := BuildMemRegion(image.sections[i], image.bitmap);
      AddsThen(old(log), mid, log, ok, padding, region, limit);
    }

    method BuildSections() returns (ok: bool)
      requires |log| <= limit
      modifies this
      ensures Adds(old(log), log, ok, AllSections(image), limit)
    {
      hide Adds, Region, Padding, Highest, PaddingBefore, SectionPages;
      var maxRva := 0;
      var last: Option<Section> := None;
      AddsNothing(log, limit);
      NoSections(image);
      NoHighest(image.sections);
      for i := 0 to |image.sections|
        invariant last == Highest(image.sections, i) && maxRva == if last.None? then 0 else last.value.rva
        invariant Adds(old(log), log, true, SectionPages(image, i), limit)
      {
        ghost var done, mid := SectionPages(image, i), log;
        ghost var pages := PaddingBefore(image, i) + Region(image.sections[i], image.bitmap, image.mage);
        SectionStep(image, i);
        SectionsPrefix(image, i + 1, |image.sections|);
        HighestStep(image.sections, i);
        assert SectionPages(image, i + 1) == done + pages;
        Accepted(old(log), log, done, limit);
        ok := BuildSection(i, last);
        AddsThen(old(log), mid, log, ok, done, pages, limit);
        if !ok {
          AddsStop(old(log), log, done + pages, AllSections(image), limit);
          return;
        }
        if image.sections[i].rva > maxRva {
          maxRva := image.sections[i].rva;
          last := Some(image.sections[i]);
        }
      }
      ghost var mid := log;
      Accepted(old(log), log, SectionPages(image, |image.sections|), limit);
      ok := BuildPadding(last);
      AddsThen(old(log), mid, log, ok, SectionPages(image, |image.sections|), Padding(image, last), limit);
    }

    /** The pages of one layout entry, moved up by delta with 64-bit wrap-around. */
    method BuildContext(e: Layout, delta: u64) returns (ok: bool)
      requires |log| <= limit && e.Entry? && e.rva + delta < P64 && (e.rva + delta) % PAGE == 0
      modifies this
      ensures Adds(old(log), log, ok, ContextPages(image, e, delta), limit)
    {
      hide Adds, Run, Region;
      var rva := (delta + e.rva) % P64;
      var content := EntryContent(image, e);
      AddsNothing(log, limit);
      ok := true;
      if e.attributes % 2 == EADD {
        if e.contentOffset != 0 {
          if e.siFlags == SI_FLAGS_TCS {
            ok := BuildPages(rva, e.pageCount * PAGE, TcsAt(content, rva), e.siFlags, e.attributes);
          } else {
            ok := BuildMemRegion(Section(content, rva, e.pageCount * PAGE, e.siFlags), []);
          }
        } else if e.siFlags != 0 {
          var source := if e.contentSize != 0 then Fill(e.contentSize) else Bytes(Zeros(PAGE));
          ok := BuildPages(rva, e.pageCount * PAGE, source, e.siFlags, e.attributes);
        }
      }
    }

    /** The recursive walk of the layout table. */
    method BuildContexts(lo: nat, hi: nat, delta: u64) returns (ok: bool)
      requires |log| <= limit && ValidTable(image.metadata) && 2 * image.metadata.enclaveSize < P64
      requires lo <= hi <= |image.metadata.layouts| && delta <= image.metadata.enclaveSize
      requires forall k | lo <= k < hi && image.metadata.layouts[k].Entry? ::
                 (image.metadata.layouts[k].rva + delta) % PAGE == 0
      modifies this
      ensures Adds(old(log), log, ok, ContextsPages(image, lo, hi, delta), limit)
      decreases hi, 0
    {
      hide Adds, ContextPages, ValidTable;
      AddsNothing(log, limit);
      for i := lo to hi
        invariant Adds(old(log), log, true, ContextsPages(image, lo, i, delta), limit)
      {
        ghost var done, mid := ContextsPages(image, lo, i, delta), log;
        ghost var pages;
        ContextsPrefix(image, lo, i + 1, hi, delta);
        Accepted(old(log), log, done, limit);
        if image.metadata.layouts[i].Entry? {
          EntriesAreOk(image.metadata, i);
          pages := ContextPages(image, image.metadata.layouts[i], delta);
          ok := BuildContext(image.metadata.layouts[i], delta);
        } else {
          pages := CopiesPages(image, i, image.metadata.layouts[i].loadTimes);
          ok := BuildCopies(i);
        }
        AddsThen(old(log), mid, log, ok, done, pages, limit);
        if !ok {
          AddsStop(old(log), log, done + pages, ContextsPages(image, lo, hi, delta), limit);
          return;
        }
      }
      ok := true;
    }

    method BuildCopies(i: nat) returns (ok: bool)
      requires |log| <= limit && ValidTable(image.metadata) && 2 * image.metadata.enclaveSize < P64
      requires i < |image.metadata.layouts| && image.metadata.layouts[i].Group?
      modifies this
      ensures Adds(old(log), log, ok, CopiesPages(image, i, image.metadata.layouts[i].loadTimes), limit)
      decreases i, 1
    {
      hide Adds, ValidTable, ContextsPages;
      var g := image.metadata.layouts[i];
      GroupsAreOk(image.metadata, i);
      AddsNothing(log, limit);
      var step: u64 := 0;
      for j := 0 to g.loadTimes
        invariant step == j * g.loadStep <= image.metadata.enclaveSize
        invariant j > 0 ==> g.loadStep <= image.metadata.enclaveSize
        invariant Adds(old(log), log, true, CopiesPages(image, i, j), limit)
      {
        ghost var done, mid := CopiesPages(image, i, j), log;
        NextCopy(step, j, g.loadTimes, g.loadStep, image.metadata.enclaveSize);
        step := (step + g.loadStep) % P64;
        assert j == 0 ==> g.loadStep <= image.metadata.enclaveSize;
        ghost var pages := ContextsPages(image, i - g.entryCount, i, step);
        CopiesPrefix(image, i, j + 1, g.loadTimes);
        Accepted(old(log), log, done, limit);
        forall k | i - g.entryCount <= k < i && image.metadata.layouts[k].Entry?
          ensures (image.metadata.layouts[k].rva + step) % PAGE == 0
        {
          CopiesAreOk(image.metadata, i, j + 1, k);
        }
        ok := BuildContexts(i - g.entryCount, i, step);
        AddsThen(old(log), mid, log, ok, done, pages, limit);
        if !ok {
          AddsStop(old(log), log, done + pages, CopiesPages(image, i, g.loadTimes), limit);
          return;
        }
      }
      ok := true;
    }

    /** The MAGE section, which the signing tool does not see. */
    method BuildMagePages() returns (ok: bool)
      requires |log| <= limit
      modifies this
      ensures Adds(old(log), log, ok, HeldBack(image), limit)
    {
      hide Adds;
      AddsNothing(log, limit);
      if image.forSign || image.mage.None? {
        return true;
      }
      var mage := image.mage.value;
      var offset, rva := 0, mage.rva;
      ghost var n := 0;
      while offset < mage.size
        invariant offset == n * PAGE && n <= PageCount(mage.size) && rva == mage.rva + n * PAGE
        invariant Adds(old(log), log, true, MagePages(mage, n), limit)
      {
        assert n < PageCount(mage.size);
        ghost var done, mid := MagePages(mage, n), log;
        var p := Page(rva, Bytes(mage.firstPage), MAGE_FLAGS, ADD_EXTEND_PAGE);
        MagePrefix(mage, n + 1, PageCount(mage.size));
        Accepted(old(log), log, done, limit);
        ok := AddPage(p);
        AddsThen(old(log), mid, log, ok, done, [p], limit);
        if !ok {
          AddsStop(old(log), log, done + [p], HeldBack(image), limit);
          return;
        }
        offset := offset + PAGE;
        rva := rva + PAGE;
        n := n + 1;
      }
      assert n == PageCount(mage.size);
      ok := true;
    }

    /** The whole image: sections, contexts, and the MAGE section last. */
    method BuildImage() returns (ok: bool)
      requires |log| <= limit && ValidTable(image.metadata) && 2 * image.metadata.enclaveSize < P64
      modifies this
      ensures Adds(old(log), log, ok, AllPages(image), limit)
    {
      hide Adds, AllSections, ContextsPages, HeldBack;
      ghost var sections := AllSections(image);
      ghost var contexts := ContextsPages(image, 0, |image.metadata.layouts|, 0);
      ok := BuildSections();
      if !ok {
        AddsStop(old(log), log, sections, AllPages(image), limit);
        return;
      }
      forall k | 0 <= k < |image.metadata.layouts| && image.metadata.layouts[k].Entry?
        ensures image.metadata.layouts[k].rva % PAGE == 0
      {
        EntriesAreOk(image.metadata, k);
      }
      ghost var mid := log;
      Accepted(old(log), log, sections, limit);
      ok := BuildContexts(0, |image.metadata.layouts|, 0);
      AddsThen(old(log), mid, log, ok, sections, contexts, limit);
      if !ok {
        AddsStop(old(log), log, sections + contexts, AllPages(image), limit);
        return;
      }
      mid := log;
      Accepted(old(log), log, sections + contexts, limit);
      ok := BuildMagePages();
      AddsThen(old(log), mid, log, ok, sections + contexts, HeldBack(image), limit);
    }
  }

  lemma {:induction false} MagePrefix(mage: Mage, n: nat, m: nat)
    requires n <= m
    ensures MagePages(mage, n) <= MagePages(mage, m)
    decreases m
  {
    if n < m {
      MagePrefix(mage, n, m - 1);
    }
  }

  lemma {:induction false} SectionsPrefix(img: Image, n: nat, m: nat)
    requires n <= m <= |img.sections|
    ensures SectionPages(img, n) <= SectionPages(img, m)
    decreases m
  {
    hide PaddingBefore, Region;
    if n < m {
      SectionsPrefix(img, n, m - 1);
    }
  }

  lemma {:induction false} ContextsPrefix(img: Image, lo: nat, mid: nat, hi: nat, delta: nat)
    requires lo <= mid <= hi <= |img.metadata.layouts|
    ensures ContextsPages(img, lo, mid, delta) <= ContextsPages(img, lo, hi, delta)
    decreases hi
  {
    hide ContextPages, CopiesPages;
    if mid < hi {
      ContextsPrefix(img, lo, mid, hi - 1, delta);
    }
  }

  lemma {:induction false} CopiesPrefix(img: Image, i: nat, n: nat, m: nat)
    requires i < |img.metadata.layouts| && img.metadata.layouts[i].Group? && n <= m
    ensures CopiesPages(img, i, n) <= CopiesPages(img, i, m)
    decreases m
  {
    if n < m {
      CopiesPrefix(img, i, n, m - 1);
    }
  }

  lemma Accepted(a: seq<Page>, b: seq<Page>, pages: seq<Page>, limit: nat)
    requires Adds(a, b, true, pages, limit)
    ensures |b| <= limit
  {
  }

  lemma NoFrames(s: Section, bitmap: seq<u8>, mage: Option<Mage>, lo: nat)
    ensures Frames(s, bitmap, mage, lo, lo) == []
  {
  }

  /** The frame is marked by its page address as by any address in it. */
  lemma SameFrame(bitmap: seq<u8>, rva: nat)
    ensures IsRelocationPage(bitmap, rva / PAGE * PAGE) == IsRelocationPage(bitmap, rva)
  {
  }

  lemma WholePage(rva: nat, data: seq<u8>)
    requires rva % PAGE == 0 && |data| == PAGE
    ensures Zeros(rva % PAGE) + data + Zeros(PAGE - rva % PAGE - |data|) == data
  {
  }

  /** The frame of the next raw byte is one of the region's. */
  lemma NextFrame(s: Section, offset: nat)
    requires offset < |s.raw|
    ensures (s.rva + offset) / PAGE + 1 <= LastFrame(s)
    ensures (s.rva + offset + PAGE - (s.rva + offset) % PAGE) == ((s.rva + offset) / PAGE + 1) * PAGE
  {
    assert (s.rva + offset) / PAGE <= (s.rva + Extent(s) - 1) / PAGE;
  }

  /** The zero pages are the frames from the first one without raw data. */
  lemma RestIsFrames(s: Section, offset: nat, cur: nat)
    requires |s.raw| <= offset < s.virtualSize
    requires if offset == 0 then cur == FirstFrame(s) else s.rva + offset == cur * PAGE
    ensures Trim(s.rva + offset) == cur * PAGE
    ensures cur <= LastFrame(s)
    ensures RoundUp(s.virtualSize - offset + (s.rva + offset) % PAGE) % PAGE == 0
    ensures RoundUp(s.virtualSize - offset + (s.rva + offset) % PAGE) / PAGE == LastFrame(s) - cur
  {
    var rva := s.rva + offset;
    assert rva / PAGE == cur;
    assert s.rva + s.virtualSize == cur * PAGE + (s.virtualSize - offset + rva % PAGE);
  }

  lemma NoRest(s: Section, offset: nat, cur: nat)
    requires |s.raw| <= offset && s.virtualSize <= offset
    requires if offset == 0 then cur == FirstFrame(s) else s.rva + offset == cur * PAGE && cur <= LastFrame(s)
    ensures cur == LastFrame(s)
  {
  }

  lemma SkipIsHeld(mage: Option<Mage>, skipRva: nat, skipSize: nat, rva: nat)
    requires if mage.Some? then skipRva == mage.value.rva && skipSize == mage.value.size else skipRva == skipSize == 0
    ensures Held(mage, rva) <==> !(rva >= skipRva + skipSize || rva + PAGE <= skipRva)
  {
  }
}
