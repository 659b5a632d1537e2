/** Decoding beyond printed text: line ends of any of the four kinds are read as line feeds, one
    for one, and what becomes of entities that are not known. */
module XmlDecoding {
  import opened Basics
  import opened XmlStrings

  const LINE_ENDS: set<string> := {[CR], [LF], [CR, LF], [LF, CR]}

  /** No line end, and no start of an entity where those are read. */
  ghost predicate IsPlain(v: string, f: Flags) {
    CR !in v && LF !in v && (f.entities ==> '&' !in v)
  }

  /** The lines, each with its end, and what follows the last. */
  function Text(lines: seq<string>, eol: string, tail: string): string {
    if lines == [] then tail else lines[0] + eol + Text(lines[1..], eol, tail)
  }

  lemma CharIsKept(s: string, f: Flags, p: nat, out: string)
    requires |out| <= p < |s| && IsPlain([s[p]], f)
    ensures DecodeFrom(s, f, p, out) == DecodeFrom(s, f, p + 1, out + [s[p]])
  {
    assert s[p] in [s[p]];
    assert Piece(s, f, p, |out|) == ([s[p]], p + 1);
  }

  lemma FirstIsPlain(v: string, c: char, rest: string, f: Flags)
    requires v == [c] + rest && IsPlain(v, f)
    ensures IsPlain([c], f) && IsPlain(rest, f)
  {
    assert forall x: char :: x in [c] ==> x in v;
    assert forall x: char :: x in rest ==> x in v;
  }

  lemma {:induction false} RunIsKept(s: string, f: Flags, p: nat, out: string, k: nat)
    requires |out| <= p && p + k <= |s| && IsPlain(s[p..p + k], f)
    ensures DecodeFrom(s, f, p, out) == DecodeFrom(s, f, p + k, out + s[p..p + k])
    decreases k
  {
    hide DecodeFrom, IsPlain;
    if k == 0 {
      assert out + s[p..p] == out;
    } else {
      FirstIsPlain(s[p..p + k], s[p], s[p + 1..p + k], f);
      CharIsKept(s, f, p, out);
      RunIsKept(s, f, p + 1, out + [s[p]], k - 1);
      assert out + [s[p]] + s[p + 1..p + k] == out + s[p..p + k];
    }
  }

  /** One line end is one line feed, unless what follows makes it a longer one. */
  lemma EndIsFeed(s: string, f: Flags, p: nat, out: string, eol: string)
    requires f.newlines && eol in LINE_ENDS && |out| <= p && StartsWith(s, p, eol)
    requires eol == [CR] ==> At(s, p + 1) != LF
    requires eol == [LF] ==> At(s, p + 1) != CR
    ensures p + |eol| <= |s| && DecodeFrom(s, f, p, out) == DecodeFrom(s, f, p + |eol|, out + [LF])
  {
    StartsAt(s, p, eol, 0);
    if |eol| == 2 {
      StartsAt(s, p, eol, 1);
    }
    assert Piece(s, f, p, |out|) == ([LF], p + |eol|);
  }

  lemma FirstOfText(lines: seq<string>, eol: string, tail: string, f: Flags)
    requires eol in LINE_ENDS && IsPlain(tail, f) && forall i | 0 <= i < |lines| :: IsPlain(lines[i], f)
    ensures var t := Text(lines, eol, tail);
      t != [] ==> (eol == [CR] ==> t[0] != LF) && (eol == [LF] ==> t[0] != CR)
  {
    if lines == [] {
      assert tail != [] ==> tail[0] in tail;
    } else {
      assert lines[0] != [] ==> lines[0][0] in lines[0];
    }
  }

  /** One line with its end. */
  lemma LineIsRead(s: string, f: Flags, p: nat, out: string, line: string, eol: string, rest: string)
    requires f.newlines && eol in LINE_ENDS && |out| <= p <= |s| && s[p..] == line + (eol + rest) && IsPlain(line, f)
    requires rest != [] ==> (eol == [CR] ==> rest[0] != LF) && (eol == [LF] ==> rest[0] != CR)
    ensures p + |line| + |eol| <= |s| && s[p + |line| + |eol|..] == rest
    ensures DecodeFrom(s, f, p, out) == DecodeFrom(s, f, p + |line| + |eol|, (out + line) + [LF])
  {
    hide DecodeFrom, IsPlain;
    Slices(s, p, line, eol, rest);
    RunIsKept(s, f, p, out, |line|);
    EndIsFeed(s, f, p + |line|, out + line, eol);
  }

  lemma TextIs(lines: seq<string>, eol: string, tail: string)
    requires lines != []
    ensures Text(lines, eol, tail) == lines[0] + (eol + Text(lines[1..], eol, tail))
  {
  }

  lemma {:induction false} LinesAreRead(
      s: string, f: Flags, p: nat, out: string, lines: seq<string>, eol: string, tail: string)
    requires f.newlines && eol in LINE_ENDS && |out| <= p <= |s| && s[p..] == Text(lines, eol, tail)
    requires IsPlain(tail, f) && forall i | 0 <= i < |lines| :: IsPlain(lines[i], f)
    ensures DecodeFrom(s, f, p, out) == out + Text(lines, [LF], tail)
    decreases |lines|
  {
    hide DecodeFrom, IsPlain;
    if lines == [] {
      assert s[p..p + |tail|] == tail;
      RunIsKept(s, f, p, out, |tail|);
      TextIsOver(s, f, out + tail);
    } else {
      hide Text;
      var line, rest := lines[0], Text(lines[1..], eol, tail);
      TextIs(lines, eol, tail);
      TextIs(lines, [LF], tail);
      FirstOfText(lines[1..], eol, tail, f);
      LineIsRead(s, f, p, out, line, eol, rest);
      LinesAreRead(s, f, p + |line| + |eol|, (out + line) + [LF], lines[1..], eol, tail);
      Regroup(out, line, Text(lines[1..], [LF], tail));
    }
  }

  lemma Regroup(out: string, line: string, rest: string)
    ensures (out + line) + [LF] + rest == out + (line + ([LF] + rest))
  {
  }

  lemma TextIsOver(s: string, f: Flags, out: string)
    requires |out| <= |s|
    ensures DecodeFrom(s, f, |s|, out) == out
  {
  }

  lemma Slices(s: string, p: nat, line: string, eol: string, rest: string)
    requires p <= |s| && s[p..] == line + (eol + rest)
    ensures var q := p + |line|;
      && q + |eol| <= |s| && s[p..q] == line && StartsWith(s, q, eol) && s[q + |eol|..] == rest
      && (|eol| == 1 ==> At(s, q + 1) == if rest == [] then NUL else rest[0])
  {
    var q := p + |line|;
    assert s[p..q] == s[p..][..|line|];
    assert s[q..q + |eol|] == s[p..][|line|..|line| + |eol|];
    assert s[q + |eol|..] == s[p..][|line| + |eol|..];
    if |eol| == 1 && rest != [] {
      assert s[q + 1] == s[q + 1..][0];
    }
  }

  /** For every text whose lines end alike, in a carriage return, a line feed or the pair of them
      in either order: decoding gives its lines, each ended by one line feed. */
  lemma LineEndsAreFeeds(lines: seq<string>, eol: string, tail: string, f: Flags)
    requires f.newlines && eol in LINE_ENDS && IsPlain(tail, f) && forall i | 0 <= i < |lines| :: IsPlain(lines[i], f)
    ensures Decode(Text(lines, eol, tail), f) == Text(lines, [LF], tail)
  {
    var s := Text(lines, eol, tail);
    assert s[0..] == s;
    hide Text, DecodeFrom, IsPlain;
    LinesAreRead(s, f, 0, [], lines, eol, tail);
    assert [] + Text(lines, [LF], tail) == Text(lines, [LF], tail);
  }

  // ----- unknown entities -----

  /** An ampersand that starts neither a numeric reference nor a known entity. */
  ghost predicate IsUnknown(s: string, p: nat) {
    p < |s| && s[p] == '&' && At(s, p + 1) != '#' && FindEntity(s, p, 0).None?
  }

  /** Decoding on from q with w written comes to a turn at p with out written. */
  ghost predicate Reaches(s: string, f: Flags, q: nat, w: string, p: nat, out: string)
    requires |w| <= q <= |s|
    decreases |s| - q
  {
    || (q == p && w == out)
    || (q < |s| && Reaches(s, f, Piece(s, f, q, |w|).1, w + Piece(s, f, q, |w|).0, p, out))
  }

  lemma {:induction false} ReachedIsDecoded(s: string, f: Flags, q: nat, w: string, p: nat, out: string)
    requires |w| <= q <= |s| && Reaches(s, f, q, w, p, out)
    ensures |out| <= p <= |s| && DecodeFrom(s, f, q, w) == DecodeFrom(s, f, p, out)
    decreases |s| - q
  {
    hide Piece;
    if !(q == p && w == out) {
      ReachedIsDecoded(s, f, Piece(s, f, q, |w|).1, w + Piece(s, f, q, |w|).0, p, out);
    }
  }

  lemma {:induction false} WrittenStays(s: string, f: Flags, p: nat, out: string)
    requires |out| <= p <= |s|
    ensures out <= DecodeFrom(s, f, p, out)
    decreases |s| - p
  {
    hide Piece;
    if p < |s| {
      WrittenStays(s, f, Piece(s, f, p, |out|).1, out + Piece(s, f, p, |out|).0);
    }
  }

  lemma PieceOfUnknown(s: string, f: Flags, p: nat, n: nat)
    requires IsUnknown(s, p) && f.entities && n <= p
    ensures Piece(s, f, p, n) == ([s[n]], p + 1)
  {
    hide FindEntity;
  }

  /** For every text and every unknown entity that decoding comes to, at p with out written: in
      the decoded text its ampersand is kept exactly if the text has one at the write position,
      as it does while nothing before p was shortened. */
  lemma UnknownIsKeptIff(s: string, f: Flags, p: nat, out: string)
    requires f.entities && Reaches(s, f, 0, [], p, out) && IsUnknown(s, p)
    ensures |out| <= p && |out| < |Decode(s, f)| && out == Decode(s, f)[..|out|]
    ensures Decode(s, f)[|out|] == '&' <==> s[|out|] == '&'
    ensures |out| == p ==> Decode(s, f)[|out|] == '&'
  {
    hide Piece, FindEntity;
    ReachedIsDecoded(s, f, 0, [], p, out);
    PieceOfUnknown(s, f, p, |out|);
    WrittenStays(s, f, p + 1, out + [s[|out|]]);
    assert (out + [s[|out|]])[|out|] == s[|out|];
  }

  /** After a known entity the ampersand of an unknown one is lost: a stale character is read. */
  lemma UnknownIsLost()
    ensures IsUnknown("&amp;&b;", 5) && Decode("&amp;&b;", BOTH) == "&ab;"
  {
    var s := "&amp;&b;";
    AmpIsFound(s);
    NoEntityB(s);
    assert Piece(s, BOTH, 0, 0) == ("&", 5);
    assert Piece(s, BOTH, 5, 1) == ("a", 6);
    assert Piece(s, BOTH, 6, 2) == ("b", 7) && Piece(s, BOTH, 7, 3) == (";", 8);
    hide Piece;
    assert DecodeFrom(s, BOTH, 8, "&ab;") == "&ab;";
    assert "&ab" + ";" == "&ab;" && "&a" + "b" == "&ab" && "&" + "a" == "&a" && "" + "&" == "&";
    assert DecodeFrom(s, BOTH, 7, "&ab") == "&ab;";
    assert DecodeFrom(s, BOTH, 6, "&a") == "&ab;";
    assert DecodeFrom(s, BOTH, 5, "&") == "&ab;";
  }

  lemma AmpIsFound(s: string)
    requires s == "&amp;&b;"
    ensures FindEntity(s, 0, 0) == Some(Entity("amp", '&'))
  {
    EntityFound(s, 0, '&') by {
      assert s[0..5] == "&amp;";
    }
  }

  lemma NoEntityB(s: string)
    requires s == "&amp;&b;"
    ensures FindEntity(s, 5, 0).None?
  {
    assert !Matches(s, 5, ENTITIES[0]) && !Matches(s, 5, ENTITIES[1]) && !Matches(s, 5, ENTITIES[2]);
    assert !Matches(s, 5, ENTITIES[3]) && !Matches(s, 5, ENTITIES[4]);
  }
}
