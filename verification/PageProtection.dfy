/** Page protections while an enclave is loaded: the loader keeps one pending region and
    calls mprotect only when a load does not continue it, instead of once per load. */
module PageProtection {

  const PAGE: nat := 4096

  type Protections = map<nat, int>

  /** The effect of mprotect on the pages of [addr, addr + len). */
  ghost function Protect(pages: Protections, addr: nat, len: nat, prot: int): (r: Protections)
    ensures forall p :: p in r <==> p in pages || addr / PAGE <= p < (addr + len) / PAGE
    ensures forall p | p in r ::
              r[p] == if addr / PAGE <= p < (addr + len) / PAGE then prot else pages[p]
  {
    map p | p in pages.Keys + PageRange(addr / PAGE, (addr + len) / PAGE) ::
      if addr / PAGE <= p < (addr + len) / PAGE then prot else pages[p]
  }

  ghost function PageRange(lo: nat, hi: nat): (s: set<nat>)
    ensures forall p: nat :: p in s <==> lo <= p < hi
  {
    if lo >= hi then {} else PageRange(lo, hi - 1) + {hi - 1}
  }

  datatype Load = Load(addr: nat, len: nat, prot: int) {
    predicate WellFormed() {
      addr > 0 && addr % PAGE == 0 && len >= PAGE && len % PAGE == 0
    }
  }

  /** The pending region of one enclave and the protections in force. */
  datatype Region = Region(addr: nat, len: nat, prot: int, pages: Protections)

  ghost function Flush(r: Region): Protections {
    if r.addr != 0 then Protect(r.pages, r.addr, r.len, r.prot) else r.pages
  }

  /** Record one load: flush and restart the region, or extend it. */
  ghost function Record(r: Region, load: Load): Region {
    if r.prot != load.prot || load.addr != r.addr + r.len then
      Region(load.addr, load.len, load.prot, Flush(r))
    else
      r.(len := r.len + load.len)
  }

  /** Initialisation flushes the region and empties it, but keeps its length and protection. */
  ghost function Initialise(r: Region): Region {
    Region(0, r.len, r.prot, Flush(r))
  }

  datatype Event = Loading(load: Load) | Initialising

  ghost function Apply(r: Region, e: Event): Region {
    match e
    case Loading(load) => Record(r, load)
    case Initialising => Initialise(r)
  }

  ghost function Lazily(r: Region, events: seq<Event>): Region
    decreases |events|
  {
    if events == [] then r else Lazily(Apply(r, events[0]), events[1..])
  }

  /** The reference: mprotect once per load, in order. */
  ghost function Eagerly(pages: Protections, events: seq<Event>): Protections
    decreases |events|
  {
    if events == [] then pages
    else if events[0].Loading? then
      Eagerly(Protect(pages, events[0].load.addr, events[0].load.len, events[0].load.prot), events[1..])
    else Eagerly(pages, events[1..])
  }

  /** A load that extends the emptied region: it never reaches mprotect. */
  ghost predicate IsLost(r: Region, load: Load) {
    r.addr == 0 && r.prot == load.prot && r.len == load.addr
  }

  ghost predicate NoneLost(r: Region, events: seq<Event>)
    decreases |events|
  {
    events == [] ||
    (&& (events[0].Loading? ==> events[0].load.WellFormed() && !IsLost(r, events[0].load))
     && NoneLost(Apply(r, events[0]), events[1..]))
  }

  ghost predicate Aligned(r: Region) {
    r.addr % PAGE == 0 && r.len % PAGE == 0
  }

  /** Two adjacent ranges with one protection are one range. */
  lemma ProtectExtends(pages: Protections, addr: nat, len: nat, more: nat, prot: int)
    requires addr % PAGE == 0 && len % PAGE == 0 && more % PAGE == 0
    ensures Protect(Protect(pages, addr, len, prot), addr + len, more, prot)
         == Protect(pages, addr, len + more, prot)
  {
  }

  /** A load that is not lost leaves, once flushed, what mprotect of that load would have. */
  lemma RecordIsExact(r: Region, load: Load)
    requires Aligned(r) && load.WellFormed()
    ensures Aligned(Record(r, load))
    ensures !IsLost(r, load) ==> Flush(Record(r, load)) == Protect(Flush(r), load.addr, load.len, load.prot)
    ensures IsLost(r, load) ==> Flush(Record(r, load)) == Flush(r)
  {
    if r.prot == load.prot && load.addr == r.addr + r.len {
      hide Protect;
      ProtectExtends(r.pages, r.addr, r.len, load.len, r.prot);
    } else {
      hide Protect;
    }
  }

  lemma {:induction false} LazyIsEager(r: Region, events: seq<Event>)
    requires Aligned(r) && NoneLost(r, events)
    ensures Flush(Lazily(r, events)) == Eagerly(Flush(r), events)
    decreases |events|
  {
    if events != [] {
      if events[0].Loading? {
        RecordIsExact(r, events[0].load);
      }
      LazyIsEager(Apply(r, events[0]), events[1..]);
    }
  }

  /** A region as enclave_create leaves it. */
  ghost function Created(pages: Protections): Region {
    Region(0, 0, 0, pages)
  }

  ghost function Loadings(loads: seq<Load>): seq<Event> {
    seq(|loads|, i requires 0 <= i < |loads| => Loading(loads[i]))
  }

  /** A region that has been started is never empty again, so no later load is lost. */
  lemma {:induction false} LoadsAreNotLost(r: Region, loads: seq<Load>)
    requires r.addr != 0 || r.len == 0
    requires forall load | load in loads :: load.WellFormed()
    ensures NoneLost(r, Loadings(loads))
    decreases |loads|
  {
    if loads != [] {
      assert loads[0] in loads;
      LoadsAreNotLost(Record(r, loads[0]), loads[1..]);
      assert Loadings(loads)[1..] == Loadings(loads[1..]);
    }
  }

  /** For every sequence of loads after creation, followed by initialisation, the
      protections left by the coalesced calls are those of one call per load in order. */
  lemma CoalescingIsExact(pages: Protections, loads: seq<Load>)
    requires forall load | load in loads :: load.WellFormed()
    ensures Initialise(Lazily(Created(pages), Loadings(loads))).pages == Eagerly(pages, Loadings(loads))
  {
    LoadsAreNotLost(Created(pages), loads);
    LazyIsEager(Created(pages), Loadings(loads));
  }

  /** Each load starts where the one before it ends and has its protection. */
  ghost predicate Continue(first: Load, loads: seq<Load>)
    decreases |loads|
  {
    loads == [] || (&& loads[0].addr == first.addr + first.len && loads[0].prot == first.prot
                    && Continue(Load(first.addr, first.len + loads[0].len, first.prot), loads[1..]))
  }

  ghost function TotalLength(loads: seq<Load>): nat {
    if loads == [] then 0 else loads[0].len + TotalLength(loads[1..])
  }

  lemma {:induction false} ExtendsOneRegion(r: Region, loads: seq<Load>)
    requires Continue(Load(r.addr, r.len, r.prot), loads)
    ensures Lazily(r, Loadings(loads)) == r.(len := r.len + TotalLength(loads))
    decreases |loads|
  {
    if loads != [] {
      var load := loads[0];
      assert Loadings(loads)[1..] == Loadings(loads[1..]);
      ExtendsOneRegion(r.(len := r.len + load.len), loads[1..]);
    }
  }

  /** Loads that continue one another cost one mprotect together: after the first of them, which
      flushes what was pending, none reaches the pages, and the pending region spans them all. */
  lemma ContiguousIsOneCall(r: Region, first: Load, loads: seq<Load>)
    requires Continue(first, loads) && (r.prot != first.prot || first.addr != r.addr + r.len)
    ensures Lazily(r, Loadings([first] + loads))
         == Region(first.addr, first.len + TotalLength(loads), first.prot, Flush(r))
  {
    var events := Loadings([first] + loads);
    assert ([first] + loads)[1..] == loads;
    assert events[1..] == Loadings(loads);
    ExtendsOneRegion(Record(r, first), loads);
  }

  /** One more load and initialisation, from any state: the pages get the load's protection
      if and only if the load is not lost or they had it already. */
  lemma LoadTakesEffect(r: Region, load: Load)
    requires Aligned(r) && load.WellFormed()
    ensures Initialise(Record(r, load)).pages == Protect(Flush(r), load.addr, load.len, load.prot)
       <==> !IsLost(r, load) || Protect(Flush(r), load.addr, load.len, load.prot) == Flush(r)
  {
    RecordIsExact(r, load);
  }

  // ----- loads of one enclave, before and after initialisation -----

  ghost predicate Inside(base: nat, size: nat, load: Load) {
    load.WellFormed() && base <= load.addr && load.addr + load.len <= base + size
  }

  ghost predicate AllInside(base: nat, size: nat, events: seq<Event>) {
    forall e | e in events && e.Loading? :: Inside(base, size, e.load)
  }

  /** Every page of the enclave has the protection. */
  ghost predicate Uniform(base: nat, size: nat, pages: Protections, prot: int) {
    forall p | base / PAGE <= p < (base + size) / PAGE :: p in pages && pages[p] == prot
  }

  /** The pending region lies in the enclave; an emptied one is too short for a load to extend
      it, or was the whole enclave. */
  ghost predicate Confined(base: nat, size: nat, r: Region) {
    && Aligned(r)
    && (r.addr != 0 ==> base <= r.addr && r.addr + r.len <= base + size)
    && (r.addr == 0 ==> r.len < base || Uniform(base, size, r.pages, r.prot))
  }

  lemma RecordStaysConfined(base: nat, size: nat, r: Region, load: Load)
    requires 0 < size <= base && Confined(base, size, r) && Inside(base, size, load)
    ensures Confined(base, size, Record(r, load))
    ensures Flush(Record(r, load)) == Protect(Flush(r), load.addr, load.len, load.prot)
  {
    RecordIsExact(r, load);
    if IsLost(r, load) {
      assert Uniform(base, size, r.pages, load.prot);
      AlreadyProtected(base, size, r.pages, load);
    }
  }

  lemma AlreadyProtected(base: nat, size: nat, pages: Protections, load: Load)
    requires Uniform(base, size, pages, load.prot) && Inside(base, size, load)
    ensures Protect(pages, load.addr, load.len, load.prot) == pages
  {
    var after := Protect(pages, load.addr, load.len, load.prot);
    forall p: nat ensures p in after <==> p in pages {
      PageInside(base, size, load, p);
    }
    forall p | p in pages ensures after[p] == pages[p] {
      PageInside(base, size, load, p);
    }
  }

  lemma PageInside(base: nat, size: nat, load: Load, p: nat)
    requires Inside(base, size, load)
    ensures load.addr / PAGE <= p < (load.addr + load.len) / PAGE ==> base / PAGE <= p < (base + size) / PAGE
  {
    assert base / PAGE <= load.addr / PAGE && (load.addr + load.len) / PAGE <= (base + size) / PAGE;
  }

  lemma InitialiseStaysConfined(base: nat, size: nat, r: Region)
    requires 0 < size <= base && Confined(base, size, r)
    ensures Confined(base, size, Initialise(r))
  {
    if r.addr != 0 && r.len >= base {
      assert r.addr == base && r.len == size;
    }
  }

  lemma {:induction false} ConfinedIsExact(base: nat, size: nat, r: Region, events: seq<Event>)
    requires 0 < size <= base && Confined(base, size, r) && AllInside(base, size, events)
    ensures Flush(Lazily(r, events)) == Eagerly(Flush(r), events)
    decreases |events|
  {
    hide Confined, Inside, Protect, Record;
    if events != [] {
      var e, rest := events[0], events[1..];
      assert forall x | x in rest :: x in events;
      if e.Loading? {
        assert e in events;
        RecordStaysConfined(base, size, r, e.load);
      } else {
        InitialiseStaysConfined(base, size, r);
      }
      ConfinedIsExact(base, size, Apply(r, e), rest);
    }
  }

  /** Coalescing has the effect of one mprotect call per load on every sequence of loads into
      the enclave and initialisations, in any order. */
  ghost predicate AlwaysExact(base: nat, size: nat) {
    forall pages, events | AllInside(base, size, events) ::
      Flush(Lazily(Created(pages), events)) == Eagerly(pages, events)
  }

  ghost function LosingEvents(base: nat): seq<Event> {
    [Loading(Load(base + PAGE, base, 1)), Initialising, Loading(Load(base, PAGE, 1))]
  }

  lemma LosingEventsRun(base: nat)
    ensures var first, second := Load(base + PAGE, base, 1), Load(base, PAGE, 1);
      && Lazily(Created(map[]), LosingEvents(base)) == Record(Initialise(Record(Created(map[]), first)), second)
      && Eagerly(map[], LosingEvents(base)) == Protect(Protect(map[], base + PAGE, base, 1), base, PAGE, 1)
  {
    hide Protect, Record, Initialise;
    var first, second := Load(base + PAGE, base, 1), Load(base, PAGE, 1);
    var events := LosingEvents(base);
    var after1, after2 := events[1..], events[2..];
    assert after1[1..] == after2 && after2[1..] == [];
    var r1 := Record(Created(map[]), first);
    assert Lazily(Initialise(r1), after2) == Record(Initialise(r1), second);
    assert Lazily(r1, after1) == Lazily(Initialise(r1), after2);
    var p1 := Protect(map[], base + PAGE, base, 1);
    assert Eagerly(p1, after2) == Protect(p1, base, PAGE, 1);
    assert Eagerly(p1, after1) == Eagerly(p1, after2);
  }

  /** An enclave whose base is below its size can lose a load: one that starts at the length of
      the region that initialisation emptied. */
  lemma LowEnclaveLosesALoad(base: nat, size: nat)
    requires base > 0 && base % PAGE == 0 && size % PAGE == 0 && base < size
    ensures AllInside(base, size, LosingEvents(base))
    ensures base / PAGE in Eagerly(map[], LosingEvents(base))
    ensures base / PAGE !in Flush(Lazily(Created(map[]), LosingEvents(base)))
  {
    hide Lazily, Eagerly;
    var first, second := Load(base + PAGE, base, 1), Load(base, PAGE, 1);
    LosingEventsRun(base);
    var r := Initialise(Record(Created(map[]), first));
    assert IsLost(r, second);
    assert r.pages == Protect(map[], base + PAGE, base, 1);
    assert base / PAGE < (base + PAGE) / PAGE;
  }

  /** Coalescing is exact for an enclave if and only if its base is not below its size. */
  lemma ExactIffNotLow(base: nat, size: nat)
    requires base > 0 && size > 0 && base % PAGE == 0 && size % PAGE == 0
    ensures AlwaysExact(base, size) <==> base >= size
  {
    if base >= size {
      forall pages, events | AllInside(base, size, events)
        ensures Flush(Lazily(Created(pages), events)) == Eagerly(pages, events)
      {
        ConfinedIsExact(base, size, Created(pages), events);
      }
    } else {
      LowEnclaveLosesALoad(base, size);
    }
  }

  ghost predicate IsMultiple(x: nat, size: nat) {
    exists k: nat :: x == k * size
  }

  /** The base that creation picks in a mapping of twice the size. */
  function ChosenBase(mapped: nat, size: nat): (base: nat)
    requires size > 0
    ensures IsMultiple(base, size) && mapped <= base && base + size <= mapped + 2 * size
  {
    var top := mapped + size - 1;
    var base := top - top % size;
    assert base == (top / size) * size;
    base
  }

  /** The base that creation picks, and that the hardware demands, is a multiple of the size,
      so for every enclave that exists coalescing is exact, before and after initialisation. */
  lemma EveryEnclaveIsExact(base: nat, size: nat)
    requires base > 0 && size > 0 && base % PAGE == 0 && size % PAGE == 0 && IsMultiple(base, size)
    ensures AlwaysExact(base, size)
  {
    var k: nat :| base == k * size;
    assert base >= size by {
      assert k >= 1 && (k - 1) * size >= 0;
    }
    ExactIffNotLow(base, size);
  }

  /** The loader's record for one enclave. */
  class Enclave {
    const base: nat
    const size: nat
    var addr: nat
    var len: nat
    var prot: int
    ghost var pages: Protections

    ghost function State(): Region
      reads this
    {
      Region(addr, len, prot, pages)
    }

    constructor (base: nat, size: nat, ghost initial: Protections)
      ensures State() == Created(initial) && this.base == base && this.size == size
    {
      this.base, this.size := base, size;
      addr, len, prot := 0, 0, 0;
      pages := initial;
    }

    /** The mprotect system call; when it succeeds the pages of the range change. */
    method Mprotect(ok: bool) returns (failed: bool)
      modifies this`pages
      ensures failed == !ok
      ensures pages == if ok then Protect(old(pages), addr, len, prot) else old(pages)
    {
      if ok {
        pages := Protect(pages, addr, len, prot);
      }
      failed := !ok;
    }

    /** The load lies in the enclave and is made of whole pages. */
    ghost predicate InEnclave(load: Load) {
      load.WellFormed() && base <= load.addr < base + size
    }

    /** The pending region has to be flushed before the load is recorded. */
    ghost predicate MustFlush(load: Load)
      reads this
    {
      addr != 0 && (prot != load.prot || load.addr != addr + len)
    }

    /** Load pages.  `accepted` is how many of them the driver takes before it fails and
        `flushes` is whether an mprotect call would succeed.  The load is recorded exactly when
        nothing fails, and the value returned tells each failure. */
    method LoadData(target: nat, bytes: nat, newProt: int, accepted: nat, flushes: bool) returns (loaded: nat)
      modifies this
      ensures var load := Load(target, bytes, newProt);
        && (!InEnclave(load) ==> loaded == 0 && State() == old(State()))
        && (InEnclave(load) && accepted < bytes / PAGE ==> loaded == PAGE * accepted && State() == old(State()))
        && (InEnclave(load) && bytes / PAGE <= accepted && old(MustFlush(load)) && !flushes ==>
              loaded == 0 && State() == old(State()))
        && (InEnclave(load) && bytes / PAGE <= accepted && (old(MustFlush(load)) ==> flushes) ==>
              loaded == bytes && State() == Record(old(State()), load))
      ensures bytes > 0 ==>
                var load := Load(target, bytes, newProt);
                loaded == bytes <==>
                  InEnclave(load) && bytes / PAGE <= accepted && (old(MustFlush(load)) ==> flushes)
    {
      if target == 0 || target % PAGE != 0 || bytes < PAGE || bytes % PAGE != 0 {
        return 0;
      }
      if target < base || target >= base + size {
        return 0;
      }
      var pageCount := bytes / PAGE;
      for i := 0 to pageCount
        invariant State() == old(State()) && i <= accepted
      {
        if i == accepted {
          return PAGE * i;
        }
      }
      if prot != newProt || target != addr + len {
        if addr != 0 {
          var failed := Mprotect(flushes);
          if failed {
            return 0;
          }
        }
        addr, len, prot := target, bytes, newProt;
      } else {
        len := len + bytes;
      }
      loaded := bytes;
    }

    /** The flush in enclave_initialize. */
    method FlushRegion(flushes: bool) returns (ok: bool)
      modifies this
      ensures ok <==> old(addr) == 0 || flushes
      ensures State() == if ok then Initialise(old(State())) else old(State())
    {
      if addr != 0 {
        var failed := Mprotect(flushes);
        if failed {
          return false;
        }
        addr := 0;
      }
      return true;
    }
  }
}
