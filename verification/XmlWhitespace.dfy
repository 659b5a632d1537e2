/** Collapsing the white space of a text in place, and what is left of it: the words. */
module XmlWhitespace {
  import opened XmlStrings
  import opened XmlBuffers
  import opened XmlParser
  import opened XmlReader

  // ----- words -----

  function WordEnd(s: string, p: nat): (e: nat)
    requires p <= |s|
    ensures p <= e <= |s| && (e < |s| ==> IsWhite(s[e])) && forall i | p <= i < e :: !IsWhite(s[i])
    decreases |s| - p
  {
    if p < |s| && !IsWhite(s[p]) then WordEnd(s, p + 1) else p
  }

  /** The longest runs without white space, in order. */
  function Words(s: string, p: nat): seq<string>
    requires p <= |s|
    decreases |s| - p
  {
    var b := SkipWhite(s, p);
    if b == |s| then [] else [s[b..WordEnd(s, b)]] + Words(s, WordEnd(s, b))
  }

  function Joined(words: seq<string>): string {
    if words == [] then []
    else if |words| == 1 then words[0]
    else words[0] + " " + Joined(words[1..])
  }

  ghost predicate IsWord(w: string) {
    w != [] && forall i | 0 <= i < |w| :: !IsWhite(w[i])
  }

  ghost predicate AreWords(words: seq<string>) {
    forall k | 0 <= k < |words| :: IsWord(words[k])
  }

  lemma {:induction false} WordsAreWords(s: string, p: nat)
    requires p <= |s|
    ensures AreWords(Words(s, p))
    decreases |s| - p
  {
    var b := SkipWhite(s, p);
    if b < |s| {
      WordsAreWords(s, WordEnd(s, b));
      assert IsWord(s[b..WordEnd(s, b)]);
    }
  }

  // ----- the collapsed text -----

  /** What the loop writes when it reads from p. */
  function CollapseFrom(s: string, p: nat): string
    requires p <= |s|
    decreases |s| - p
  {
    if p == |s| then []
    else if IsWhite(s[p]) then
      var n := SkipWhite(s, p);
      if n == |s| then [] else [' ', s[n]] + CollapseFrom(s, n + 1)
    else [s[p]] + CollapseFrom(s, p + 1)
  }

  function Collapse(s: string): string {
    CollapseFrom(s, SkipWhite(s, 0))
  }

  /** A separator before the words that follow, if any do. */
  function Following(words: seq<string>): string {
    if words == [] then [] else " " + Joined(words)
  }

  lemma WordsSkip(s: string, p: nat)
    requires p <= |s|
    ensures Words(s, SkipWhite(s, p)) == Words(s, p)
  {
  }

  lemma CollapseChar(s: string, p: nat)
    requires p < |s| && !IsWhite(s[p])
    ensures CollapseFrom(s, p) == [s[p]] + CollapseFrom(s, p + 1)
    ensures WordEnd(s, p) == WordEnd(s, p + 1) && s[p..WordEnd(s, p)] == [s[p]] + s[p + 1..WordEnd(s, p)]
  {
  }

  lemma CollapseGapChar(s: string, p: nat)
    requires p < |s| && IsWhite(s[p]) && SkipWhite(s, p) < |s|
    ensures var n := SkipWhite(s, p); p < n && CollapseFrom(s, p) == [' ', s[n]] + CollapseFrom(s, n + 1)
  {
  }

  lemma CollapseTrail(s: string, p: nat)
    requires p <= |s| && SkipWhite(s, p) == |s|
    ensures CollapseFrom(s, p) == []
  {
  }

  lemma WordEndHere(s: string, p: nat)
    requires p <= |s| && (p < |s| ==> IsWhite(s[p]))
    ensures WordEnd(s, p) == p && s[p..p] == []
  {
  }

  lemma {:induction false} CollapseInWord(s: string, p: nat)
    requires p <= |s|
    ensures CollapseFrom(s, p) == s[p..WordEnd(s, p)] + Following(Words(s, WordEnd(s, p)))
    decreases |s| - p
  {
    hide Words, Following, CollapseFrom, SkipWhite, WordEnd, IsWhite;
    if p < |s| && !IsWhite(s[p]) {
      CollapseInWord(s, p + 1);
      CollapseChar(s, p);
    } else {
      WordEndHere(s, p);
      if SkipWhite(s, p) < |s| {
        var n := SkipWhite(s, p);
        CollapseGapChar(s, p);
        CollapseInWord(s, n + 1);
        WordsAfterGap(s, p, n);
      } else {
        CollapseTrail(s, p);
        NoMoreWords(s, p);
      }
    }
  }

  lemma NoMoreWords(s: string, p: nat)
    requires p <= |s| && SkipWhite(s, p) == |s|
    ensures Words(s, p) == [] && Following([]) == []
  {
  }

  lemma WordsAfterGap(s: string, p: nat, n: nat)
    requires p < |s| && p < n == SkipWhite(s, p) < |s|
    ensures Following(Words(s, p)) == [' ', s[n]] + s[n + 1..WordEnd(s, n + 1)] + Following(Words(s, WordEnd(s, n + 1)))
  {
    var e := WordEnd(s, n);
    var w, rest := s[n..e], Words(s, e);
    assert e == WordEnd(s, n + 1) && w == [s[n]] + s[n + 1..e];
    assert Words(s, p) == [w] + rest;
    JoinedStep(w, rest);
    hide Words, Joined;
    assert Following([w] + rest) == " " + (w + Following(rest));
  }

  lemma JoinedStep(w: string, rest: seq<string>)
    ensures Joined([w] + rest) == w + Following(rest)
  {
    assert ([w] + rest)[1..] == rest;
  }

  /** Collapsing leaves the words of the text, joined by single spaces. */
  lemma CollapseJoinsWords(s: string)
    ensures Collapse(s) == Joined(Words(s, 0))
  {
    var b := SkipWhite(s, 0);
    CollapseInWord(s, b);
    if b < |s| {
      JoinedStep(s[b..WordEnd(s, b)], Words(s, WordEnd(s, b)));
    }
  }

  lemma {:induction false} WordEndsAt(s: string, p: nat, e: nat)
    requires p <= e <= |s| && (e < |s| ==> IsWhite(s[e])) && forall i | p <= i < e :: !IsWhite(s[i])
    ensures WordEnd(s, p) == e
    decreases e - p
  {
    if p < e {
      WordEndsAt(s, p + 1, e);
    }
  }

  lemma WordsUnfold(s: string, p: nat, b: nat, e: nat)
    requires p <= |s| && b == SkipWhite(s, p)
    requires b < |s| ==> e == WordEnd(s, b)
    ensures Words(s, p) == if b == |s| then [] else [s[b..e]] + Words(s, e)
  {
  }

  /** The text c goes on with s from n. */
  ghost predicate Continues(c: string, n: nat, s: string) {
    |c| == n + |s| && forall i | 0 <= i < |s| :: c[n + i] == s[i]
  }

  lemma {:induction false} SkipShift(c: string, n: nat, s: string, p: nat)
    requires Continues(c, n, s) && p <= |s|
    ensures n + p <= |c| && SkipWhite(c, n + p) == n + SkipWhite(s, p)
    decreases |s| - p
  {
    if p < |s| {
      assert c[n + p] == s[p];
      if IsWhite(s[p]) {
        SkipShift(c, n, s, p + 1);
      }
    }
  }

  lemma {:induction false} WordEndShift(c: string, n: nat, s: string, p: nat)
    requires Continues(c, n, s) && p <= |s|
    ensures n + p <= |c| && WordEnd(c, n + p) == n + WordEnd(s, p)
    decreases |s| - p
  {
    if p < |s| {
      assert c[n + p] == s[p];
      if !IsWhite(s[p]) {
        WordEndShift(c, n, s, p + 1);
      }
    }
  }

  lemma SliceShift(c: string, n: nat, s: string, b: nat, e: nat)
    requires Continues(c, n, s) && b <= e <= |s|
    ensures n + e <= |c| && c[n + b..n + e] == s[b..e]
  {
  }

  /** The first word, and where the next one is looked for, move along. */
  lemma FirstShift(c: string, n: nat, s: string, p: nat, b: nat, e: nat)
    requires Continues(c, n, s) && p <= |s| && b == SkipWhite(s, p) < |s| && e == WordEnd(s, b)
    ensures p < e && n + p <= |c| && n + e <= |c|
    ensures Words(s, p) == [s[b..e]] + Words(s, e)
    ensures Words(c, n + p) == [s[b..e]] + Words(c, n + e)
  {
    hide Words, SkipWhite, WordEnd, Continues;
    SkipShift(c, n, s, p);
    WordEndShift(c, n, s, b);
    WordIsLong(s, b);
    SliceShift(c, n, s, b, e);
    WordsUnfold(s, p, b, e);
    WordsUnfold(c, n + p, n + b, n + e);
  }

  lemma {:induction false} WordsShift(c: string, n: nat, s: string, p: nat)
    requires Continues(c, n, s) && p <= |s|
    ensures n + p <= |c| && Words(c, n + p) == Words(s, p)
    decreases |s| - p
  {
    hide Words, SkipWhite, WordEnd, IsWhite, Continues;
    var b := SkipWhite(s, p);
    if b == |s| {
      WordsUnfold(s, p, b, b);
      WordsEnd(c, n, s, p);
    } else {
      var e := WordEnd(s, b);
      FirstShift(c, n, s, p, b, e);
      WordsShift(c, n, s, e);
    }
  }

  lemma WordsEnd(c: string, n: nat, s: string, p: nat)
    requires Continues(c, n, s) && p <= |s| && SkipWhite(s, p) == |s|
    ensures n + p <= |c| && Words(c, n + p) == []
  {
    SkipShift(c, n, s, p);
  }

  lemma WordIsLong(s: string, b: nat)
    requires b < |s| && !IsWhite(s[b])
    ensures WordEnd(s, b) > b
  {
  }

  /** A word at the front is the first of the words. */
  lemma WordsStep(w: string, rest: string)
    requires IsWord(w) && (rest != [] ==> IsWhite(rest[0]))
    ensures Words(w + rest, 0) == [w] + Words(rest, 0)
  {
    var s := w + rest;
    assert s[0] == w[0];
    WordEndsAt(s, 0, |w|);
    assert s[0..|w|] == w;
    WordsShift(s, |w|, rest, 0);
  }

  lemma WordsAfterSpace(s: string)
    ensures Words(" " + s, 0) == Words(s, 0)
  {
    WordsShift(" " + s, 1, s, 0);
    assert SkipWhite(" " + s, 0) == SkipWhite(" " + s, 1);
  }

  lemma {:induction false} WordsOfJoined(words: seq<string>)
    requires AreWords(words)
    ensures Words(Joined(words), 0) == words
    decreases |words|
  {
    hide Words, Joined, IsWhite;
    NoWords();
    if words != [] {
      var w, rest := words[0], words[1..];
      assert words == [w] + rest;
      JoinedStep(w, rest);
      forall k | 0 <= k < |rest| ensures IsWord(rest[k]) {
        assert rest[k] == words[k + 1];
      }
      WordsOfJoined(rest);
      SpaceIsWhite();
      WordsStep(w, Following(rest));
      WordsAfterSpace(Joined(rest));
    }
  }

  lemma SpaceIsWhite()
    ensures IsWhite(' ')
  {
  }

  lemma NoWords()
    ensures Words([], 0) == [] && Joined([]) == []
  {
  }

  /** Collapsing keeps the words and does nothing the second time. */
  lemma CollapseKeepsWords(s: string)
    ensures Words(Collapse(s), 0) == Words(s, 0)
    ensures Collapse(Collapse(s)) == Collapse(s)
  {
    hide Words, Joined, Collapse;
    CollapseJoinsWords(s);
    WordsAreWords(s, 0);
    WordsOfJoined(Words(s, 0));
    CollapseJoinsWords(Collapse(s));
  }

  // ----- the loop -----

  /** The first place from p on that is not white; the terminator ends the search. */
  method SkipInBuffer(buf: array<char>, start: nat, ghost end: nat, p: nat) returns (q: nat)
    requires start <= p <= end < buf.Length && buf[end] == NUL
    ensures q == start + SkipWhite(buf[start..end], p - start)
  {
    q := p;
    while IsWhite(buf[q])
      invariant p <= q <= end
      invariant SkipWhite(buf[start..end], q - start) == SkipWhite(buf[start..end], p - start)
      decreases end - q
    {
      q := q + 1;
    }
  }

  /** In a buffer that was w, out is written over the text s, which is as it was from p on. */
  ghost predicate Holds(buf: string, w: string, begin: nat, s: string, out: string, p: nat) {
    && |out| <= p <= |s| && begin + |s| < |buf| == |w|
    && (forall i | 0 <= i < |out| :: buf[begin + i] == out[i])
    && (forall i | p <= i < |s| :: buf[begin + i] == s[i])
    && buf[begin + |s|] == NUL
    && (forall i | 0 <= i < |w| && !(begin <= i <= begin + |s|) :: buf[i] == w[i])
  }

  lemma HoldsPut(buf: string, w: string, begin: nat, s: string, out: string, p: nat, c: char, next: nat)
    requires Holds(buf, w, begin, s, out, p) && p < next <= |s|
    ensures Holds(buf[begin + |out| := c], w, begin, s, out + [c], next)
  {
  }

  lemma HoldsReads(buf: string, w: string, begin: nat, s: string, out: string, p: nat, i: nat)
    requires Holds(buf, w, begin, s, out, p) && p <= i <= |s|
    ensures begin + |s| < |buf| && buf[begin + i] == if i < |s| then s[i] else NUL
  {
  }

  lemma HoldsSkips(buf: string, w: string, begin: nat, s: string, out: string, p: nat)
    requires Holds(buf, w, begin, s, out, p)
    ensures begin + |s| < |buf| && buf[begin + |s|] == NUL
    ensures SkipWhite(buf[begin..begin + |s|], p) == SkipWhite(s, p)
  {
    SameSkip(buf[begin..begin + |s|], s, p);
  }

  lemma HoldsEnd(buf: string, w: string, begin: nat, s: string, out: string, p: nat)
    requires Holds(buf, w, begin, s, out, p)
    ensures |out| <= |s| && begin + |s| < |buf| == |w|
    ensures var b := buf[begin + |out| := NUL];
      b[begin..begin + |out|] == out && b[begin + |out|] == NUL
      && b[..begin] == w[..begin] && b[begin + |s| + 1..] == w[begin + |s| + 1..]
  {
  }

  lemma {:induction false} SameSkip(a: string, b: string, p: nat)
    requires p <= |a| == |b| && forall i | p <= i < |a| :: a[i] == b[i]
    ensures SkipWhite(a, p) == SkipWhite(b, p)
    decreases |a| - p
  {
    if p < |a| {
      SameSkip(a, b, p + 1);
    }
  }

  lemma CharStep(s: string, out: string, p: nat)
    requires p < |s| && !IsWhite(s[p])
    ensures out + CollapseFrom(s, p) == (out + [s[p]]) + CollapseFrom(s, p + 1)
  {
    hide CollapseFrom;
    CollapseChar(s, p);
  }

  lemma FirstOfTwo(c: char, d: char, rest: string)
    ensures [c, d] + rest == [c] + ([d] + rest)
  {
  }

  lemma GapStep(s: string, p: nat)
    requires p < |s| && IsWhite(s[p]) && SkipWhite(s, p) < |s|
    ensures CollapseFrom(s, p) == [' '] + CollapseFrom(s, SkipWhite(s, p))
  {
    hide CollapseFrom;
    var n := SkipWhite(s, p);
    CollapseGapChar(s, p);
    FirstOfTwo(' ', s[n], CollapseFrom(s, n + 1));
    CollapseChar(s, n);
  }

  lemma SpaceStep(s: string, out: string, p: nat)
    requires p < |s| && IsWhite(s[p]) && SkipWhite(s, p) < |s|
    ensures out + CollapseFrom(s, p) == (out + [' ']) + CollapseFrom(s, SkipWhite(s, p))
  {
    hide CollapseFrom, SkipWhite;
    GapStep(s, p);
  }

  /** White space up to the end is not written. */
  lemma TrailStep(s: string, out: string, p: nat)
    requires p <= |s| && SkipWhite(s, p) == |s|
    ensures out + CollapseFrom(s, p) == out
  {
    CollapseTrail(s, p);
  }

  lemma HoldsStart(w: string, begin: nat, s: string)
    requires begin + |s| < |w| && w[begin..begin + |s|] == s && w[begin + |s|] == NUL
    ensures Holds(w, w, begin, s, [], 0)
  {
  }

  method PutChar(buf: array<char>, begin: nat, q: nat, c: char,
                 ghost w: string, ghost s: string, ghost out: string, ghost p: nat, ghost next: nat)
    requires Holds(buf[..], w, begin, s, out, p) && p < next <= |s| && q == begin + |out|
    modifies buf
    ensures Holds(buf[..], w, begin, s, out + [c], next)
  {
    HoldsPut(buf[..], w, begin, s, out, p, c, next);
    buf[q] := c;
  }

  lemma NotAt(s: string, p: nat)
    requires p < |s| && IsWhite(s[p])
    ensures SkipWhite(s, p) > p
  {
  }

  /** Skips the white space at p and writes one space for it, unless the text ends there. */
  method CollapseGap(buf: array<char>, begin: nat, ghost end: nat, p: nat, q: nat,
                     ghost w: string, ghost s: string, ghost out: string)
      returns (to: nat)
    requires begin <= q <= p < end == begin + |s| && |out| == q - begin && NUL !in s
    requires Holds(buf[..], w, begin, s, out, p - begin) && IsWhite(s[p - begin])
    modifies buf
    ensures to == begin + SkipWhite(s, p - begin) > p
    ensures to < end ==> Holds(buf[..], w, begin, s, out + [' '], to - begin)
    ensures to == end ==> Holds(buf[..], w, begin, s, out, p - begin)
    ensures to < buf.Length && (buf[to] == NUL <==> to == end)
  {
    hide SkipWhite, IsWhite, Holds;
    HoldsSkips(buf[..], w, begin, s, out, p - begin);
    NotAt(s, p - begin);
    to := SkipInBuffer(buf, begin, end, p);
    HoldsReads(buf[..], w, begin, s, out, p - begin, to - begin);
    if buf[to] != NUL {
      PutChar(buf, begin, q, ' ', w, s, out, p - begin, to - begin);
      HoldsReads(buf[..], w, begin, s, out + [' '], to - begin, to - begin);
    }
  }

  /** Collapses a terminated text. The write position stays behind the read position. */
  method CollapseLoop(buf: array<char>, begin: nat, ghost end: nat, ghost w: string, ghost s: string)
      returns (q: nat, ghost p: nat)
    requires Holds(buf[..], w, begin, s, [], 0) && end == begin + |s| && NUL !in s
    modifies buf
    ensures q == begin + |CollapseFrom(s, 0)|
    ensures Holds(buf[..], w, begin, s, CollapseFrom(s, 0), p)
  {
    hide CollapseFrom, SkipWhite, IsWhite, Holds;
    ghost var out := [];
    var at := begin;
    q := begin;
    HoldsReads(buf[..], w, begin, s, out, 0, 0);
    while buf[at] != NUL
      invariant begin <= q <= at <= end < buf.Length && |out| == q - begin
      invariant Holds(buf[..], w, begin, s, out, at - begin)
      invariant out + CollapseFrom(s, at - begin) == CollapseFrom(s, 0)
      invariant buf[at] == if at < end then s[at - begin] else NUL
      decreases end - at
    {
      if IsWhite(buf[at]) {
        var to := CollapseGap(buf, begin, end, at, q, w, s, out);
        if buf[to] == NUL {
          TrailStep(s, out, at - begin);
          p := at - begin;
          return;
        }
        SpaceStep(s, out, at - begin);
        at, q, out := to, q + 1, out + [' '];
        HoldsReads(buf[..], w, begin, s, out, at - begin, at - begin);
      }
      CharStep(s, out, at - begin);
      PutChar(buf, begin, q, buf[at], w, s, out, at - begin, at + 1 - begin);
      at, q, out := at + 1, q + 1, out + [s[at - begin]];
      HoldsReads(buf[..], w, begin, s, out, at - begin, at - begin);
    }
    TrailStep(s, out, |s|);
    p := |s|;
  }

  /** The text from its first word on collapses to the same. */
  lemma CollapseFromFirstWord(s: string)
    ensures var b := SkipWhite(s, 0); CollapseFrom(s[b..], 0) == Collapse(s)
  {
    hide CollapseFrom, SkipWhite, Words;
    var b := SkipWhite(s, 0);
    var t := s[b..];
    assert Continues(s, b, t);
    SkipTwice(s, 0);
    SkipShift(s, b, t, 0);
    WordsShift(s, b, t, 0);
    WordsSkip(s, 0);
    CollapseJoinsWords(s);
    CollapseJoinsWords(t);
  }

  lemma SkipTwice(s: string, p: nat)
    requires p <= |s|
    ensures SkipWhite(s, SkipWhite(s, p)) == SkipWhite(s, p)
  {
  }

  /** Collapses the terminated text at start in place: its words with single spaces between
      them, from where its first word begins. Nothing outside the text changes. */
  method CollapseWhitespace(buf: array<char>, start: nat, ghost end: nat) returns (begin: nat, ghost n: nat)
    requires start <= end < buf.Length && buf[end] == NUL && NUL !in buf[start..end]
    modifies buf
    ensures start <= begin && begin + n <= end && n == |Collapse(old(buf[start..end]))|
    ensures buf[begin..begin + n] == Collapse(old(buf[start..end])) && buf[begin + n] == NUL
    ensures buf[..start] == old(buf[..start]) && buf[end + 1..] == old(buf[end + 1..])
  {
    hide CollapseFrom, SkipWhite, Holds;
    ghost var s, w := buf[start..end], buf[..];
    begin := SkipInBuffer(buf, start, end, start);
    ghost var t := s[begin - start..];
    CollapseFromFirstWord(s);
    HoldsStart(w, begin, t);
    HoldsReads(w, w, begin, t, [], 0, 0);
    if buf[begin] == NUL {
      TrailStep(s, [], |s|);
      n := 0;
    } else {
      var q;
      ghost var p;
      q, p := CollapseLoop(buf, begin, end, w, t);
      HoldsEnd(buf[..], w, begin, t, CollapseFrom(t, 0), p);
      buf[q] := NUL;
      n := q - begin;
      assert buf[..][begin..begin + n] == buf[begin..begin + n];
      assert buf[..start] == buf[..][..begin][..start] && w[..start] == w[..begin][..start];
      assert buf[..][end + 1..] == buf[end + 1..];
    }
  }

  /** The text up to a terminator that decoding may have put inside it. */
  function UpToNul(s: string): (t: string)
    ensures NUL !in t && t <= s && (t != s ==> s[|t|] == NUL)
  {
    if s == [] || s[0] == NUL then [] else [s[0]] + UpToNul(s[1..])
  }

  lemma TextIsTerminated(b: string, start: nat, d: string)
    requires start + |d| < |b| && b[start..start + |d|] == d && b[start + |d|] == NUL
    ensures var t := UpToNul(d); b[start..start + |t|] == t && b[start + |t|] == NUL
  {
    var t := UpToNul(d);
    assert b[start..start + |t|] == b[start..start + |d|][..|t|];
    assert |t| < |d| ==> b[start + |t|] == b[start..start + |d|][|t|];
  }

  lemma SameTail(a: string, b: string, i: nat, j: nat)
    requires i <= j <= |a| == |b| && a[i..] == b[i..]
    ensures a[j..] == b[j..]
  {
    assert a[j..] == a[i..][j - i..];
  }

  /** Decodes buf[start..end) where it stands and collapses its white space. */
  method GetCollapsedStr(buf: array<char>, start: nat, end: nat, f: Flags) returns (begin: nat, ghost n: nat)
    requires start <= end < buf.Length
    modifies buf
    ensures start <= begin && begin + n <= end
    ensures n == |Collapse(UpToNul(Decode(old(buf[start..end]), f)))|
    ensures buf[begin..begin + n] == Collapse(UpToNul(Decode(old(buf[start..end]), f))) && buf[begin + n] == NUL
    ensures buf[..start] == old(buf[..start]) && buf[end + 1..] == old(buf[end + 1..])
  {
    hide Decode, Collapse, UpToNul;
    ghost var d := Decode(buf[start..end], f);
    var m := GetStr(buf, start, end, f);
    ghost var w, text := buf[..], UpToNul(d);
    assert w[start..start + |d|] == buf[start..start + m];
    TextIsTerminated(w, start, d);
    assert buf[start..start + |text|] == w[start..start + |text|];
    begin, n := CollapseWhitespace(buf, start, start + |text|);
    assert w[start + |text| + 1..] == buf[..][start + |text| + 1..];
    SameTail(buf[..], w, start + |text| + 1, end + 1);
    assert buf[..][end + 1..] == buf[end + 1..];
  }
}
