/** What the pages of an image hold, byte by byte, which pages its sections add, and in which
    order pages are added. */
module PageContents {
  import opened Basics
  import opened LayoutTable
  import opened PageBuilding

  // ----- little-endian numbers -----

  /** The n bytes of a number, lowest first. */
  function Encode(x: nat, n: nat): (v: seq<u8>)
    ensures |v| == n
    decreases n
  {
    if n == 0 then [] else [x % 0x100] + Encode(x / 0x100, n - 1)
  }

  function Decode(v: seq<u8>): nat {
    if v == [] then 0 else v[0] + 0x100 * Decode(v[1..])
  }

  lemma {:induction false} DecodeUndoesEncode(x: nat, n: nat)
    ensures Decode(Encode(x, n)) == x % Exp256(n)
    decreases n
  {
    if n > 0 {
      DecodeUndoesEncode(x / 0x100, n - 1);
      assert Encode(x, n)[1..] == Encode(x / 0x100, n - 1);
      SplitMod(x, Exp256(n - 1));
    }
  }

  ghost function Exp256(n: nat): (r: nat)
    ensures r > 0
  {
    if n == 0 then 1 else 0x100 * Exp256(n - 1)
  }

  lemma SplitMod(x: nat, m: nat)
    requires m > 0
    ensures x % (0x100 * m) == x % 0x100 + 0x100 * (x / 0x100 % m)
  {
    var q, r := x / 0x100, x % 0x100;
    var a, b := q / m, q % m;
    assert x == 0x100 * q + r && q == m * a + b;
    assert x == (0x100 * m) * a + (0x100 * b + r) by {
      assert 0x100 * (m * a) == (0x100 * m) * a;
    }
    DivisionIs(x, 0x100 * m, a, 0x100 * b + r);
  }

  lemma SmallMultiple(m: int, d: int)
    requires m > 0 && -m < m * d < m
    ensures d == 0
  {
    assert d >= 1 ==> m * d >= m;
    assert d <= -1 ==> m * d <= -m;
  }

  /** Quotient and remainder are the only numbers that make up x. */
  lemma DivisionIs(x: nat, m: nat, q: nat, r: nat)
    requires m > 0 && r < m && x == m * q + r
    ensures x / m == q && x % m == r
  {
    var q', r' := x / m, x % m;
    assert x == m * q' + r' && 0 <= r' < m;
    assert m * (q - q') == m * q - m * q' == r' - r;
    SmallMultiple(m, q - q');
  }

  // ----- the bytes of a page -----

  /** Where the three addresses of a thread control structure stand. */
  const OSSA: nat := 16
  const OFS_BASE: nat := 48
  const OGS_BASE: nat := 56

  /** The template, cut or filled up with zeros to a page. */
  function Padded(v: seq<u8>): (r: seq<u8>)
    ensures |r| == PAGE
  {
    seq(PAGE, j => if 0 <= j < |v| then v[j] else 0)
  }

  function U64(v: seq<u8>, at: nat): nat
    requires at + 8 <= |v|
  {
    Decode(v[at..at + 8])
  }

  function PutU64(v: seq<u8>, at: nat, x: nat): (r: seq<u8>)
    requires at + 8 <= |v|
    ensures |r| == |v|
  {
    v[..at] + Encode(x, 8) + v[at + 8..]
  }

  /** The 64-bit field moves up by rva. */
  function MoveUp(v: seq<u8>, at: nat, rva: nat): (r: seq<u8>)
    requires at + 8 <= |v|
    ensures |r| == |v|
  {
    PutU64(v, at, (U64(v, at) + rva) % P64)
  }

  function PageBytes(c: Content): (r: seq<u8>) {
    match c
    case Bytes(data) => data
    case TcsAt(template, rva) => MoveUp(MoveUp(MoveUp(Padded(template), OSSA, rva), OFS_BASE, rva), OGS_BASE, rva)
    case Fill(word) => seq(PAGE, j => Encode(word, 4)[j % 4])
  }

  lemma EightBytes()
    ensures Exp256(4) == P32 && Exp256(8) == P64
  {
    assert Exp256(2) == 0x1_0000;
    assert Exp256(4) == P32;
    assert Exp256(6) == 0x1_0000_0000_0000;
  }

  lemma PutIsRead(v: seq<u8>, at: nat, x: nat, other: nat)
    requires at + 8 <= |v| && other + 8 <= |v|
    ensures U64(PutU64(v, at, x), at) == x % P64
    ensures other + 8 <= at || at + 8 <= other ==> U64(PutU64(v, at, x), other) == U64(v, other)
    ensures forall j | 0 <= j < |v| && !(at <= j < at + 8) :: PutU64(v, at, x)[j] == v[j]
  {
    var r := PutU64(v, at, x);
    assert r[at..at + 8] == Encode(x, 8);
    DecodeUndoesEncode(x, 8);
    EightBytes();
    if other + 8 <= at || at + 8 <= other {
      assert r[other..other + 8] == v[other..other + 8];
    }
  }

  lemma MoveIsRead(v: seq<u8>, at: nat, rva: nat, other: nat)
    requires at + 8 <= |v| && other + 8 <= |v|
    ensures U64(MoveUp(v, at, rva), at) == (U64(v, at) + rva) % P64
    ensures other + 8 <= at || at + 8 <= other ==> U64(MoveUp(v, at, rva), other) == U64(v, other)
    ensures forall j | 0 <= j < |v| && !(at <= j < at + 8) :: MoveUp(v, at, rva)[j] == v[j]
  {
    hide U64, PutU64;
    PutIsRead(v, at, (U64(v, at) + rva) % P64, other);
  }

  /** A thread control page: the save area and the two segment bases are moved up by the page's
      placement modulo 2^64, and every other byte is the template's. */
  lemma TcsFields(template: seq<u8>, rva: nat)
    ensures var before, page := Padded(template), PageBytes(TcsAt(template, rva));
      && |page| == PAGE
      && U64(page, OSSA) == (U64(before, OSSA) + rva) % P64
      && U64(page, OFS_BASE) == (U64(before, OFS_BASE) + rva) % P64
      && U64(page, OGS_BASE) == (U64(before, OGS_BASE) + rva) % P64
      && forall j | 0 <= j < PAGE && !(OSSA <= j < OSSA + 8) && !(OFS_BASE <= j < OGS_BASE + 8) :: page[j] == before[j]
  {
    hide U64, MoveUp, Padded;
    var before := Padded(template);
    var one := MoveUp(before, OSSA, rva);
    var two := MoveUp(one, OFS_BASE, rva);
    MoveIsRead(before, OSSA, rva, OFS_BASE);
    MoveIsRead(before, OSSA, rva, OGS_BASE);
    MoveIsRead(one, OFS_BASE, rva, OSSA);
    MoveIsRead(one, OFS_BASE, rva, OGS_BASE);
    MoveIsRead(two, OGS_BASE, rva, OSSA);
    MoveIsRead(two, OGS_BASE, rva, OFS_BASE);
  }

  lemma FillByte(word: u32, j: nat)
    requires j < PAGE
    ensures |PageBytes(Fill(word))| == PAGE && PageBytes(Fill(word))[j] == Encode(word, 4)[j % 4]
  {
    hide Encode;
  }

  /** A filled page reads as the word at every aligned place. */
  lemma FillReads(word: u32, at: nat)
    requires at % 4 == 0 && at + 4 <= PAGE
    ensures var page := PageBytes(Fill(word)); |page| == PAGE && Decode(page[at..at + 4]) == word
  {
    hide PageBytes, Encode, Decode, Exp256;
    DecodeUndoesEncode(word, 4);
    EightBytes();
    var page := PageBytes(Fill(word));
    FillByte(word, at);
    forall j | 0 <= j < 4 ensures page[at + j] == Encode(word, 4)[j] {
      FillByte(word, at + j);
    }
    assert page[at..at + 4] == Encode(word, 4);
  }

  // ----- relocation bits -----

  function Weight(b: u8, k: nat): nat
    requires k < 8
  {
    if Bit(b, k) then Exp2(k) else 0
  }

  ghost function BitSum(b: u8, n: nat): nat
    requires n <= 8
  {
    if n == 0 then 0 else BitSum(b, n - 1) + Weight(b, n - 1)
  }

  lemma BitSumStep(b: u8, n: nat)
    requires n < 8
    ensures BitSum(b, n + 1) == BitSum(b, n) + Weight(b, n) && BitSum(b, 0) == 0
  {
    hide Weight;
  }

  lemma EightBits()
    ensures Exp2(8) == 0x100
  {
    assert Exp2(2) == 4;
    assert Exp2(4) == 16;
    assert Exp2(6) == 64;
  }

  /** Bit k has weight 2^k: the bits make up the byte. */
  lemma BitsMakeByte(b: u8)
    ensures b == Weight(b, 0) + Weight(b, 1) + Weight(b, 2) + Weight(b, 3)
                 + Weight(b, 4) + Weight(b, 5) + Weight(b, 6) + Weight(b, 7)
  {
    hide Weight, Exp2, BitSum;
    BitsBelow(b, 8);
    EightBits();
    BitSumStep(b, 0);
    BitSumStep(b, 1);
    BitSumStep(b, 2);
    BitSumStep(b, 3);
    BitSumStep(b, 4);
    BitSumStep(b, 5);
    BitSumStep(b, 6);
    BitSumStep(b, 7);
  }

  lemma {:induction false} BitsBelow(b: u8, n: nat)
    requires n <= 8
    ensures Exp2(n) > 0 && BitSum(b, n) == b % Exp2(n)
    decreases n
  {
    if n > 0 {
      hide Weight, BitSum;
      BitsBelow(b, n - 1);
      WeightIs(b, n - 1);
      NextBit(b, Exp2(n - 1));
      BitSumStep(b, n - 1);
    }
  }

  lemma WeightIs(b: u8, k: nat)
    requires k < 8
    ensures Exp2(k) > 0 && Weight(b, k) == Exp2(k) * (b / Exp2(k) % 2)
  {
    hide Bit, Exp2;
    BitIs(b, k);
    TimesBit(Exp2(k), b / Exp2(k) % 2);
  }

  lemma TimesBit(m: nat, bit: nat)
    requires bit < 2
    ensures m * bit == if bit == 1 then m else 0
  {
  }

  lemma {:induction false} BitIs(b: u8, k: nat)
    requires k < 8
    ensures Exp2(k) > 0 && (Bit(b, k) <==> b / Exp2(k) % 2 == 1)
    decreases k
  {
    if k > 0 {
      BitIs(b / 2, k - 1);
      HalfFirst(b, Exp2(k - 1));
    }
  }

  lemma HalfFirst(b: nat, m: nat)
    requires m > 0
    ensures b / 2 / m == b / (2 * m)
  {
    var h, r := b / 2, b % 2;
    var q, t := h / m, h % m;
    assert b == (2 * m) * q + (2 * t + r) by {
      assert 2 * (m * q) == (2 * m) * q;
    }
    DivisionIs(b, 2 * m, q, 2 * t + r);
  }

  lemma ProductSplits(m: nat, q: nat, h: nat, r: nat)
    requires q == 2 * h + r
    ensures m * q == (2 * m) * h + m * r
  {
    assert m * q == m * (2 * h) + m * r;
  }

  lemma SmallRest(m: nat, r: nat, t: nat)
    requires r < 2 && t < m
    ensures 0 <= m * r + t < 2 * m
  {
    assert r == 0 || r == 1;
  }

  lemma NextBit(b: nat, m: nat)
    requires m > 0
    ensures b % (2 * m) == b % m + m * (b / m % 2)
  {
    var q, t := b / m, b % m;
    var h, r := q / 2, q % 2;
    ProductSplits(m, q, h, r);
    SmallRest(m, r, t);
    DivisionIs(b, 2 * m, h, m * r + t);
  }

  /** A frame gets write permission exactly if its section has it or it holds raw data and its
      bit is set: frame f has bit f % 8 of byte f / 8. No other permission changes. */
  lemma FrameFlags(s: Section, bitmap: seq<u8>, f: nat)
    ensures var flags := FramePage(s, bitmap, f).flags;
      && (Writable(flags) <==>
            || Writable(s.flags)
            || (|s.raw| > 0 && f * PAGE < s.rva + |s.raw| && f / 8 < |bitmap| && Bit(bitmap[f / 8], f % 8)))
      && flags == s.flags + if Writable(flags) && !Writable(s.flags) then 2 else 0
  {
    hide Bit, FrameBytes;
    assert f * PAGE / PAGE == f;
  }

  // ----- a region laid out -----

  function LaidOut(v: seq<Page>): seq<u8> {
    if v == [] then [] else LaidOut(v[..|v| - 1]) + PageBytes(v[|v| - 1].content)
  }

  /** The byte of the section at an address of the enclave. */
  function SectionByte(s: Section, x: nat): u8 {
    if s.rva <= x < s.rva + |s.raw| then s.raw[x - s.rva] else 0
  }

  /** The bytes are those of the section in frames lo to before hi. */
  ghost predicate Shows(bytes: seq<u8>, s: Section, lo: nat, hi: nat) {
    && lo <= hi && |bytes| == (hi - lo) * PAGE
    && forall k | 0 <= k < |bytes| :: bytes[k] == SectionByte(s, lo * PAGE + k)
  }

  lemma ShowsMore(bytes: seq<u8>, page: seq<u8>, s: Section, lo: nat, hi: nat)
    requires Shows(bytes, s, lo, hi) && |page| == PAGE
    requires forall j | 0 <= j < PAGE :: page[j] == SectionByte(s, hi * PAGE + j)
    ensures Shows(bytes + page, s, lo, hi + 1)
  {
    hide SectionByte;
    var all := bytes + page;
    forall k | 0 <= k < |all| ensures all[k] == SectionByte(s, lo * PAGE + k) {
      if k >= |bytes| {
        assert lo * PAGE + k == hi * PAGE + (k - |bytes|);
      }
    }
  }

  lemma {:induction false} FramesLaidOut(s: Section, bitmap: seq<u8>, lo: nat, hi: nat)
    requires lo <= hi
    ensures Shows(LaidOut(Frames(s, bitmap, None, lo, hi)), s, lo, hi)
    decreases hi
  {
    hide Shows, LaidOut, FramePage, PageBytes, SectionByte;
    if lo == hi {
      NothingShows(s, lo);
    } else {
      FramesLaidOut(s, bitmap, lo, hi - 1);
      var front, last := Frames(s, bitmap, None, lo, hi - 1), FramePage(s, bitmap, hi - 1);
      LastLaidOut(s, bitmap, front, hi - 1);
      assert Frames(s, bitmap, None, lo, hi) == front + [last];
      ShowsMore(LaidOut(front), PageBytes(last.content), s, lo, hi - 1);
    }
  }

  lemma NothingShows(s: Section, lo: nat)
    ensures Shows(LaidOut([]), s, lo, lo)
  {
  }

  lemma LastLaidOut(s: Section, bitmap: seq<u8>, front: seq<Page>, f: nat)
    ensures var page := PageBytes(FramePage(s, bitmap, f).content);
      && LaidOut(front + [FramePage(s, bitmap, f)]) == LaidOut(front) + page
      && |page| == PAGE && forall j | 0 <= j < PAGE :: page[j] == SectionByte(s, f * PAGE + j)
  {
    var v := front + [FramePage(s, bitmap, f)];
    assert v[..|v| - 1] == front;
  }

  /** Bytes that show the section are its raw data between zeros. */
  lemma ShownAre(bytes: seq<u8>, s: Section, lo: nat, hi: nat, before: nat, behind: nat)
    requires Shows(bytes, s, lo, hi)
    requires lo * PAGE + before == s.rva && s.rva + |s.raw| + behind == hi * PAGE
    ensures bytes == Zeros(before) + s.raw + Zeros(behind)
  {
    var whole := Zeros(before) + s.raw + Zeros(behind);
    assert |whole| == |bytes|;
    forall k | 0 <= k < |bytes| ensures whole[k] == bytes[k] {
      assert bytes[k] == SectionByte(s, lo * PAGE + k);
    }
  }

  /** Without MAGE, the pages of a region laid end to end are zeros up to its address, its raw
      data, and zeros to the end of its last page. */
  lemma RegionIsItsBytes(s: Section, bitmap: seq<u8>)
    requires Extent(s) > 0
    ensures var behind := LastFrame(s) * PAGE - s.rva - |s.raw|;
      behind >= 0 && LaidOut(Region(s, bitmap, None)) == Zeros(s.rva % PAGE) + s.raw + Zeros(behind)
  {
    hide Shows, LaidOut, Frames, Zeros, LastFrame, Extent;
    var lo, hi := FirstFrame(s), LastFrame(s);
    LastIsBehind(s);
    FramesLaidOut(s, bitmap, lo, hi);
    ShownAre(LaidOut(Region(s, bitmap, None)), s, lo, hi, s.rva % PAGE, hi * PAGE - s.rva - |s.raw|);
  }

  lemma LastIsBehind(s: Section)
    requires Extent(s) > 0
    ensures FirstFrame(s) <= LastFrame(s) && s.rva + |s.raw| <= s.rva + Extent(s) <= LastFrame(s) * PAGE
  {
  }

  // ----- sections -----

  /** The padding page is there exactly when the section starts and ends inside pages and its
      two broken pages would fit one, and is the page that rounding the size first adds. */
  lemma PaddingIsExact(s: Section)
    ensures HasPadding(s) <==>
              s.rva % PAGE > 0 && s.virtualSize % PAGE > 0 && s.rva % PAGE + s.virtualSize % PAGE <= PAGE
    ensures HasPadding(s) ==> PaddingAt(s) + PAGE == RoundUp(RoundUp(s.virtualSize) + s.rva)
    ensures PaddingAt(s) % PAGE == 0 && s.rva + s.virtualSize <= PaddingAt(s) < s.rva + s.virtualSize + PAGE
  {
    var a, d, c, b := s.rva / PAGE, s.rva % PAGE, s.virtualSize / PAGE, s.virtualSize % PAGE;
    RoundUpIs(c, b);
    RoundUpIs(a + c, d + b);
    RoundUpIs(a + c + (if b == 0 then 0 else 1), d);
    hide RoundUp;
    assert s.virtualSize + s.rva == (a + c) * PAGE + (d + b);
    assert RoundUp(s.virtualSize) + s.rva == (a + c + (if b == 0 then 0 else 1)) * PAGE + d;
  }

  lemma RoundUpIs(q: nat, r: nat)
    requires r < 2 * PAGE
    ensures RoundUp(q * PAGE + r) == q * PAGE + if r == 0 then 0 else if r <= PAGE then PAGE else 2 * PAGE
  {
    var n := if r == 0 then 0 else if r <= PAGE then 1 else 2;
    DivisionIs(q * PAGE + r + PAGE - 1, PAGE, q + n, r + PAGE - 1 - n * PAGE);
  }

  ghost predicate IsHighest(sections: seq<Section>, n: nat, j: nat)
    requires j < n <= |sections|
  {
    && sections[j].rva > 0
    && (forall k | 0 <= k < n :: sections[k].rva <= sections[j].rva)
    && (forall k | 0 <= k < j :: sections[k].rva < sections[j].rva)
  }

  ghost predicate AllAtZero(sections: seq<Section>, n: nat)
    requires n <= |sections|
  {
    forall k | 0 <= k < n :: sections[k].rva == 0
  }

  lemma NextIsHighest(sections: seq<Section>, n: nat, j: nat)
    requires j < n < |sections| && IsHighest(sections, n, j)
    ensures sections[j].rva > 0 && !AllAtZero(sections, n + 1)
    ensures IsHighest(sections, n + 1, if sections[n].rva > sections[j].rva then n else j)
  {
  }

  lemma FirstIsHighest(sections: seq<Section>, n: nat)
    requires n < |sections| && AllAtZero(sections, n)
    ensures AllAtZero(sections, n + 1) <==> sections[n].rva == 0
    ensures sections[n].rva > 0 ==> IsHighest(sections, n + 1, n)
  {
  }

  /** The first of the sections with the highest address, or none if all are at zero. */
  ghost predicate IsDue(sections: seq<Section>, n: nat, h: Option<Section>)
    requires n <= |sections|
  {
    if h.None? then AllAtZero(sections, n)
    else exists j :: 0 <= j < n && IsHighest(sections, n, j) && h.value == sections[j]
  }

  lemma DueStep(sections: seq<Section>, n: nat, h: Option<Section>)
    requires n < |sections| && IsDue(sections, n, h)
    ensures IsDue(sections, n + 1,
                  if sections[n].rva > (if h.None? then 0 else h.value.rva) then Some(sections[n]) else h)
  {
    hide IsHighest, AllAtZero;
    if h.None? {
      FirstIsHighest(sections, n);
    } else {
      var j :| 0 <= j < n && IsHighest(sections, n, j) && h.value == sections[j];
      NextIsHighest(sections, n, j);
    }
  }

  /** The section whose padding is due is the first of those with the highest address so far, and
      there is none while all are at address zero. */
  lemma {:induction false} HighestIsFirst(sections: seq<Section>, n: nat)
    requires n <= |sections|
    ensures IsDue(sections, n, Highest(sections, n))
    decreases n
  {
    hide IsDue, Highest;
    if n == 0 {
      NoHighest(sections);
      NothingDue(sections);
    } else {
      HighestIsFirst(sections, n - 1);
      HighestStep(sections, n - 1);
      DueStep(sections, n - 1, Highest(sections, n - 1));
    }
  }

  lemma NothingDue(sections: seq<Section>)
    ensures IsDue(sections, 0, None)
  {
  }

  /** A page of section i, or of padding that is due before it. */
  ghost predicate SectionPage(img: Image, i: nat, p: Page)
    requires i < |img.sections|
  {
    p in Region(img.sections[i], img.bitmap, img.mage) || p in PaddingBefore(img, i)
  }

  lemma {:induction false} SectionPagesAre(img: Image, n: nat, p: Page)
    requires n <= |img.sections|
    ensures p in SectionPages(img, n) <==> exists i :: 0 <= i < n && SectionPage(img, i, p)
    decreases n
  {
    if n > 0 {
      SectionPagesAre(img, n - 1, p);
      hide Region, PaddingBefore;
      assert p in SectionPages(img, n) <==> p in SectionPages(img, n - 1) || SectionPage(img, n - 1, p);
    }
  }

  /** The padding of section j: one zero page behind it, with its flags, outside MAGE. */
  ghost predicate Pads(img: Image, s: Section, p: Page) {
    && HasPadding(s) && !Held(img.mage, PaddingAt(s))
    && p == Page(PaddingAt(s), Bytes(Zeros(PAGE)), s.flags, ADD_EXTEND_PAGE)
  }

  /** Padding is due before section i, or at the end: that of the first of the sections so far
      with the highest address, where it ends before the page of the next section. */
  ghost predicate PadsBefore(img: Image, i: nat, p: Page)
    requires i <= |img.sections|
  {
    exists j :: 0 <= j < i && IsHighest(img.sections, i, j) && Pads(img, img.sections[j], p)
                && (i < |img.sections| ==> PaddingAt(img.sections[j]) < Trim(img.sections[i].rva))
  }

  lemma PaddingHas(img: Image, s: Section, p: Page)
    ensures p in Padding(img, Some(s)) <==> img.version15 && Pads(img, s, p)
  {
    hide RoundUp, Held;
    var at := PaddingAt(s);
    assert Run(img.mage, at, 0, Bytes(Zeros(PAGE)), s.flags, ADD_EXTEND_PAGE) == [];
    assert Run(img.mage, at, 1, Bytes(Zeros(PAGE)), s.flags, ADD_EXTEND_PAGE)
        == if Held(img.mage, at) then [] else [Page(at, Bytes(Zeros(PAGE)), s.flags, ADD_EXTEND_PAGE)];
  }

  lemma OneIsHighest(sections: seq<Section>, n: nat, j: nat, k: nat)
    requires j < n <= |sections| && k < n && IsHighest(sections, n, j) && IsHighest(sections, n, k)
    ensures j == k
  {
  }

  lemma NoneIsHighest(sections: seq<Section>, n: nat, j: nat)
    requires j < n <= |sections| && AllAtZero(sections, n)
    ensures !IsHighest(sections, n, j)
  {
  }

  /** What is added between sections: the padding of the highest one so far if it is due. */
  lemma PaddingIsDue(img: Image, i: nat, p: Page)
    requires i <= |img.sections|
    ensures var added := if i < |img.sections| then PaddingBefore(img, i) else Padding(img, Highest(img.sections, i));
      p in added <==> img.version15 && PadsBefore(img, i, p)
  {
    var sections := img.sections;
    HighestIsFirst(sections, i);
    hide Highest, IsHighest, AllAtZero, PaddingAt, HasPadding;
    var h := Highest(sections, i);
    if h.None? {
      forall j | 0 <= j < i ensures !IsHighest(sections, i, j) {
        NoneIsHighest(sections, i, j);
      }
    } else {
      var j :| 0 <= j < i && IsHighest(sections, i, j) && h.value == sections[j];
      forall k | 0 <= k < i && IsHighest(sections, i, k) ensures k == j {
        OneIsHighest(sections, i, j, k);
      }
      PaddingHas(img, sections[j], p);
      hide Padding, Pads;
      assert h == Some(sections[j]);
    }
  }

  /** The page is a frame that meets section i, outside MAGE. */
  ghost predicate InSection(img: Image, i: nat, p: Page)
    requires i < |img.sections|
  {
    exists f: nat :: Meets(img.sections[i], f) && IsFrame(p, img.sections[i], img.bitmap, img.mage, f)
  }

  /** The pages added for the sections are exactly the frames that meet a section and the padding
      pages that are due. */
  lemma SectionPagesAreExact(img: Image, p: Page)
    ensures p in AllSections(img)
       <==> || (exists i :: 0 <= i < |img.sections| && InSection(img, i, p))
            || (img.version15 && exists i :: 0 <= i <= |img.sections| && PadsBefore(img, i, p))
  {
    var n := |img.sections|;
    SectionPagesAre(img, n, p);
    hide PaddingBefore, Padding, PadsBefore, Region, InSection;
    forall i | 0 <= i < n
      ensures SectionPage(img, i, p) <==> InSection(img, i, p) || (img.version15 && PadsBefore(img, i, p))
    {
      PaddingIsDue(img, i, p);
      RegionHasFrames(img, i, p);
    }
    PaddingIsDue(img, n, p);
    assert p in AllSections(img) <==> p in SectionPages(img, n) || p in Padding(img, Highest(img.sections, n));
  }

  lemma RegionHasFrames(img: Image, i: nat, p: Page)
    requires i < |img.sections|
    ensures p in Region(img.sections[i], img.bitmap, img.mage) <==> InSection(img, i, p)
  {
    hide IsFrame, Meets, LastFrame, FirstFrame;
    var s := img.sections[i];
    FramesAre(s, img.bitmap, img.mage, FirstFrame(s), LastFrame(s), p);
    forall f: nat {
      MeetsIsBetween(s, f);
    }
  }

  // ----- the order of the pages -----

  /** The pages of an entry where it is put. */
  ghost function PagesAt(img: Image, at: Placement): seq<Page> {
    if at.entry.Entry? && at.entry.rva <= at.start then ContextPages(img, at.entry, at.start - at.entry.rva) else []
  }

  ghost function Piled(img: Image, placed: seq<Placement>): seq<Page> {
    if placed == [] then [] else Piled(img, placed[..|placed| - 1]) + PagesAt(img, placed[|placed| - 1])
  }

  lemma {:induction false} PiledJoin(img: Image, a: seq<Placement>, b: seq<Placement>)
    ensures Piled(img, a + b) == Piled(img, a) + Piled(img, b)
    decreases |b|
  {
    hide PagesAt;
    if b == [] {
      assert a + b == a;
    } else {
      PiledJoin(img, a, b[..|b| - 1]);
      assert (a + b)[..|a + b| - 1] == a + b[..|b| - 1];
    }
  }

  lemma PiledOne(img: Image, at: Placement)
    ensures Piled(img, [at]) == PagesAt(img, at)
  {
    assert [at][..0] == [];
  }

  lemma {:induction false} ContextsArePiled(img: Image, lo: nat, hi: nat, delta: nat)
    requires lo <= hi <= |img.metadata.layouts|
    ensures ContextsPages(img, lo, hi, delta) == Piled(img, Placements(img.metadata.layouts, lo, hi, delta))
    decreases hi, hi - lo, 0
  {
    hide ContextPages, Piled;
    var table := img.metadata.layouts;
    if lo == hi {
      NothingPiled(img);
    } else {
      ContextsArePiled(img, lo, hi - 1, delta);
      var e, front := table[hi - 1], Placements(table, lo, hi - 1, delta);
      if e.Entry? {
        PiledOne(img, Placement(e, e.rva + delta));
        PiledJoin(img, front, [Placement(e, e.rva + delta)]);
      } else {
        CopiesArePiled(img, hi - 1, e.loadTimes);
        PiledJoin(img, front, CopiesPlacements(table, hi - 1, e.loadTimes));
      }
    }
  }

  lemma NothingPiled(img: Image)
    ensures Piled(img, []) == []
  {
  }

  lemma {:induction false} CopiesArePiled(img: Image, i: nat, times: nat)
    requires i < |img.metadata.layouts| && img.metadata.layouts[i].Group?
    ensures CopiesPages(img, i, times) == Piled(img, CopiesPlacements(img.metadata.layouts, i, times))
    decreases i, i + 1, times
  {
    hide ContextsPages, Placements, Piled;
    var table := img.metadata.layouts;
    var g := table[i];
    if times == 0 || g.entryCount > i {
      NothingPiled(img);
    } else {
      CopiesArePiled(img, i, times - 1);
      ContextsArePiled(img, i - g.entryCount, i, times * g.loadStep);
      PiledJoin(img, CopiesPlacements(table, i, times - 1),
        Placements(table, i - g.entryCount, i, times * g.loadStep));
    }
  }

  /** For every image, what is added before MAGE is all pages of sections, and then the pages
      of the entries one after the other in the order in which the walk over the table comes to
      their ranges. */
  lemma PagesComeInOrder(img: Image)
    ensures var table := img.metadata.layouts; var placed := Placements(table, 0, |table|, 0);
      && Measured(img) == AllSections(img) + Piled(img, placed)
      && PlacedAt(placed, Visited(table, 0, |table|, 0))
  {
    hide AllSections, Piled, ContextsPages;
    var table := img.metadata.layouts;
    ContextsArePiled(img, 0, |table|, 0);
    PlacementsAreVisited(table, 0, |table|, 0);
  }
}
