/** Signal lines: two bitmaps of 64-bit words, one for pending events and one for free lines. */
module SignalLines {

  const BITS: nat := 64

  /** A 64-bit word, bit 0 first. */
  type Word = w: seq<bool> | |w| == BITS witness seq(BITS, i => false)

  const ZERO: Word := seq(BITS, i => false)
  const ONES: Word := seq(BITS, i => true)

  predicate IsZero(w: Word) {
    forall i | 0 <= i < BITS :: !w[i]
  }

  /** Index of the lowest set bit. */
  function TrailingZeros(w: Word, from: nat := 0): (n: nat)
    requires from < BITS && (forall i | 0 <= i < from :: !w[i]) && !IsZero(w)
    ensures n < BITS && w[n] && forall i | 0 <= i < n :: !w[i]
    decreases BITS - from
  {
    if w[from] then from else TrailingZeros(w, from + 1)
  }

  /** Number of zero bits above the highest set bit. */
  function LeadingZeros(w: Word, count: nat := 0): (n: nat)
    requires count < BITS && (forall i | BITS - count <= i < BITS :: !w[i]) && !IsZero(w)
    ensures n < BITS && w[BITS - 1 - n] && forall i | BITS - n <= i < BITS :: !w[i]
    decreases BITS - count
  {
    if w[BITS - 1 - count] then count else LeadingZeros(w, count + 1)
  }

  /** The lines whose bit is set in a bitmap. */
  ghost function LinesOf(words: seq<Word>): (s: set<nat>)
    ensures forall l: nat :: l in s <==> l / BITS < |words| && words[l / BITS][l % BITS]
  {
    set l: nat | l < BITS * |words| && words[l / BITS][l % BITS]
  }

  predicate Ascending(s: seq<nat>) {
    forall i, j | 0 <= i < j < |s| :: s[i] < s[j]
  }

  lemma AscendingAppend(s: seq<nat>, x: nat)
    requires Ascending(s) && forall y | y in s :: y < x
    ensures Ascending(s + [x])
  {
    assert forall i | 0 <= i < |s| :: s[i] in s;
  }

  lemma LineSplits(i: nat, b: nat)
    requires b < BITS
    ensures (BITS * i + b) / BITS == i && (BITS * i + b) % BITS == b
  {
  }

  /** Replacing one bit adds or removes one line. */
  lemma OneBitChanges(words: seq<Word>, words': seq<Word>, i: nat, b: nat, value: bool)
    requires i < |words| && b < BITS && words' == words[i := words[i][b := value]]
    ensures LinesOf(words') == if value then LinesOf(words) + {BITS * i + b} else LinesOf(words) - {BITS * i + b}
  {
    LineSplits(i, b);
    forall l: nat
      ensures l in LinesOf(words')
         <==> if l == BITS * i + b then value else l in LinesOf(words)
    {
      assert l == BITS * (l / BITS) + l % BITS;
    }
  }

  class SigLines {
    var numLines: nat
    const event: array<Word>
    const free: array<Word>

    ghost predicate Valid()
      reads this, event, free
    {
      event != free && event.Length == free.Length && numLines == BITS * event.Length
    }

    ghost function Events(): set<nat>
      reads this, event
    {
      LinesOf(event[..])
    }

    ghost function FreeLines(): set<nat>
      reads this, free
    {
      LinesOf(free[..])
    }

    /** All lines free, no events; the line count is rounded up to whole words. */
    constructor (n: nat)
      requires 0 < n
      ensures Valid() && n <= numLines < n + BITS && numLines % BITS == 0
      ensures Events() == {} && forall l: nat :: l in FreeLines() <==> l < numLines
      ensures fresh(event) && fresh(free)
    {
      var words := (n + BITS - 1) / BITS;
      numLines := BITS * words;
      var zeros, ones := new Word[words], new Word[words];
      for i := 0 to words
        invariant forall k | 0 <= k < i :: zeros[k] == ZERO && ones[k] == ONES
      {
        zeros[i], ones[i] := ZERO, ONES;
      }
      event, free := zeros, ones;
      new;
      assert Events() == {};
    }

    /** Take the lowest free line; -1 stands for the invalid line. */
    method AllocLine() returns (line: int)
      requires Valid()
      modifies free
      ensures Valid() && Events() == old(Events())
      ensures line == -1 ==> old(FreeLines()) == {} && FreeLines() == {}
      ensures line != -1 ==> 0 <= line < numLines && line in old(FreeLines())
      ensures line != -1 ==> FreeLines() == old(FreeLines()) - {line}
      ensures line != -1 ==> forall l | l in old(FreeLines()) :: line <= l
    {
      for i := 0 to free.Length
        invariant unchanged(free)
        invariant forall l | l in FreeLines() :: l >= BITS * i
      {
        if !IsZero(free[i]) {
          var j := TrailingZeros(free[i]);
          LineSplits(i, j);
          OneBitChanges(free[..], free[..][i := free[i][j := false]], i, j, false);
          assert forall l | l in FreeLines() :: l / BITS > i || (l / BITS == i && l % BITS >= j);
          free[i] := free[i][j := false];
          return BITS * i + j;
        }
      }
      return -1;
    }

    method FreeLine(line: nat)
      requires Valid() && line < numLines
      modifies free
      ensures Valid() && Events() == old(Events())
      ensures FreeLines() == old(FreeLines()) + {line}
    {
      var i, j := line / BITS, line % BITS;
      OneBitChanges(free[..], free[..][i := free[i][j := true]], i, j, true);
      free[i] := free[i][j := true];
    }

    method TriggerSignal(line: nat)
      requires Valid() && line < numLines
      modifies event
      ensures Valid() && FreeLines() == old(FreeLines())
      ensures Events() == old(Events()) + {line}
    {
      var i, j := line / BITS, line % BITS;
      OneBitChanges(event[..], event[..][i := event[i][j := true]], i, j, true);
      event[i] := event[i][j := true];
    }

    /** Test and clear one event bit. */
    method TestAndClear(i: nat, j: nat) returns (was: bool)
      requires Valid() && i < event.Length && j < BITS
      modifies event
      ensures Valid() && FreeLines() == old(FreeLines())
      ensures was == (BITS * i + j in old(Events())) && Events() == old(Events()) - {BITS * i + j}
      ensures event[..] == old(event[..])[i := old(event[i])[j := false]]
    {
      LineSplits(i, j);
      was := event[i][j];
      OneBitChanges(event[..], event[..][i := event[i][j := false]], i, j, false);
      event[i] := event[i][j := false];
    }

    /** 0 when the signal was still pending and is now withdrawn, 1 when it was not. */
    method RevokeSignal(line: nat) returns (ret: int)
      requires Valid() && line < numLines
      modifies event
      ensures Valid() && FreeLines() == old(FreeLines())
      ensures ret == if line in old(Events()) then 0 else 1
      ensures Events() == old(Events()) - {line}
    {
      var was := TestAndClear(line / BITS, line % BITS);
      ret := if was then 0 else 1;
    }

    /** Handle the signalled lines of word i between its lowest and highest set bit; no
        set bit lies outside that window. */
    method ProcessWord(i: nat, before: seq<nat>) returns (handled: seq<nat>)
      requires Valid() && i < event.Length
      requires Ascending(before) && (forall l | l in before :: l < BITS * i)
      requires forall l | l in Events() :: l >= BITS * i
      modifies event
      ensures Valid() && FreeLines() == old(FreeLines())
      ensures Ascending(handled) && (forall l | l in handled :: l < BITS * i + BITS)
      ensures forall l | l in Events() :: l >= BITS * i + BITS
      ensures forall l: nat :: l in handled || l in Events() <==> l in before || l in old(Events())
    {
      handled := before;
      var bits := event[i];
      if !IsZero(bits) {
        var start, end := TrailingZeros(bits), BITS - LeadingZeros(bits);
        for b := start to end
          invariant FreeLines() == old(FreeLines())
          invariant Ascending(handled) && forall l | l in handled :: l < BITS * i + b
          invariant forall l: nat :: l in handled || l in Events() <==> l in before || l in old(Events())
          invariant forall l | l in Events() :: l >= BITS * i + b
          invariant forall k | end <= k < BITS :: !event[i][k]
        {
          var was := TestAndClear(i, b);
          if was {
            AscendingAppend(handled, BITS * i + b);
            handled := handled + [BITS * i + b];
          }
        }
      }
      forall l | l in Events() ensures l >= BITS * i + BITS {
        assert l / BITS != i;
      }
    }

    /** Call the handler on every signalled line, in ascending order, and clear them all;
        the count returned is the number of lines that were signalled. */
    method ProcessSignals() returns (handled: seq<nat>, n: nat)
      requires Valid()
      modifies event
      ensures Valid() && FreeLines() == old(FreeLines())
      ensures Events() == {}
      ensures Ascending(handled) && forall l: nat :: l in handled <==> l in old(Events())
      ensures n == |handled| == |old(Events())|
    {
      handled := [];
      for i := 0 to event.Length
        invariant FreeLines() == old(FreeLines())
        invariant Ascending(handled) && forall l | l in handled :: l < BITS * i
        invariant forall l: nat :: l in handled || l in Events() <==> l in old(Events())
        invariant forall l | l in Events() :: l >= BITS * i
      {
        handled := ProcessWord(i, handled);
      }
      n := |handled|;
      AscendingCounts(handled, old(Events()));
    }
  }

  /** An ascending sequence lists a set without repetition. */
  lemma {:induction false} AscendingCounts(s: seq<nat>, lines: set<nat>)
    requires Ascending(s) && forall l :: l in lines <==> l in s
    ensures |s| == |lines|
    decreases |s|
  {
    if s == [] {
      assert lines == {};
    } else {
      var last, rest := s[|s| - 1], s[..|s| - 1];
      assert s == rest + [last];
      AscendingCounts(rest, lines - {last});
    }
  }
}
