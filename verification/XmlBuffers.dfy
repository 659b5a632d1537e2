/** The in-place decoding of character data, and its loops, against XmlStrings. */
module XmlBuffers {
  import opened Basics
  import opened XmlStrings

  // ----- decoding looks only at what is not overwritten -----

  ghost predicate SameFrom(a: string, b: string, n: nat) {
    |a| == |b| && n <= |a| && a[n..] == b[n..]
  }

  lemma SameAt(a: string, b: string, n: nat, i: nat)
    requires SameFrom(a, b, n) && n <= i
    ensures At(a, i) == At(b, i)
  {
    if i < |a| {
      assert a[i] == a[n..][i - n] && b[i] == b[n..][i - n];
    }
  }

  lemma SameSlice(a: string, b: string, n: nat, i: nat, t: string)
    requires SameFrom(a, b, n) && n <= i
    ensures StartsWith(a, i, t) == StartsWith(b, i, t)
  {
    if i + |t| <= |a| {
      forall k | i <= k < i + |t| ensures a[k] == b[k] {
        SameAt(a, b, n, k);
      }
      assert a[i..i + |t|] == b[i..i + |t|];
    }
  }

  lemma {:induction false} SameSemicolon(a: string, b: string, n: nat, i: nat)
    requires SameFrom(a, b, n) && n <= i
    ensures FindSemicolon(a, i) == FindSemicolon(b, i)
    decreases |a| - i
  {
    SameAt(a, b, n, i);
    if i < |a| {
      SameSemicolon(a, b, n, i + 1);
    }
  }

  lemma {:induction false} SameDigits(
      a: string, b: string, n: nat, k: nat, i: nat, mark: char, base: nat, mult: nat, sum: nat)
    requires SameFrom(a, b, n) && n <= k < i <= |a| && a[k] == mark
    ensures DigitsBack(a, i, mark, base, mult, sum) == DigitsBack(b, i, mark, base, mult, sum)
    decreases i
  {
    hide Digit;
    SameAt(a, b, n, i - 1);
    if a[i - 1] != mark && Digit(a[i - 1], base).Some? {
      SameDigits(a, b, n, k, i - 1, mark, base, mult * base % P32, sum + mult * Digit(a[i - 1], base).value % P32);
    }
  }

  lemma SameNumeric(a: string, b: string, n: nat, from: nat, mark: char, base: nat)
    requires SameFrom(a, b, n) && n < from <= |a| && a[from - 1] == mark && b[from - 1] == mark
    ensures NumericRef(a, from, mark, base) == NumericRef(b, from, mark, base)
  {
    hide DigitsBack, FindSemicolon, Utf8;
    SameAt(a, b, n, from);
    SameSemicolon(a, b, n, from);
    var end := FindSemicolon(a, from);
    if end.Some? {
      SameDigits(a, b, n, from - 1, end.value, mark, base, 1, 0);
    }
  }

  lemma SameRef(a: string, b: string, n: nat, p: nat)
    requires SameFrom(a, b, n) && n <= p < |a| && a[p] == '&' && b[p] == '&'
    ensures CharacterRef(a, p) == CharacterRef(b, p)
  {
    hide NumericRef;
    SameAt(a, b, n, p + 1);
    SameAt(a, b, n, p + 2);
    if At(a, p + 1) == '#' && At(a, p + 2) != NUL {
      if a[p + 2] == 'x' {
        SameNumeric(a, b, n, p + 3, 'x', 16);
      } else {
        SameNumeric(a, b, n, p + 2, '#', 10);
      }
    }
  }

  lemma {:induction false} SameEntity(a: string, b: string, n: nat, p: nat, i: nat)
    requires SameFrom(a, b, n) && n <= p && i <= |ENTITIES|
    ensures FindEntity(a, p, i) == FindEntity(b, p, i)
    decreases |ENTITIES| - i
  {
    hide StartsWith, At;
    if i < |ENTITIES| {
      SameSlice(a, b, n, p + 1, ENTITIES[i].pattern);
      SameAt(a, b, n, p + |ENTITIES[i].pattern| + 1);
      SameEntity(a, b, n, p, i + 1);
    }
  }

  lemma SamePiece(a: string, b: string, f: Flags, p: nat, n: nat)
    requires SameFrom(a, b, n) && n <= p < |a|
    ensures Piece(a, f, p, n) == Piece(b, f, p, n)
  {
    hide CharacterRef, FindEntity;
    SameAt(a, b, n, p);
    SameAt(a, b, n, p + 1);
    SameAt(a, b, n, n);
    SameEntity(a, b, n, p, 0);
    if a[p] == '&' {
      SameRef(a, b, n, p);
    }
  }

  // ----- the loops -----

  method SearchSemicolon(s: string, from: nat) returns (r: Option<nat>)
    ensures r == FindSemicolon(s, from)
  {
    var q := from;
    while q < |s| && s[q] != NUL
      invariant FindSemicolon(s, q) == FindSemicolon(s, from)
      decreases |s| - q
    {
      if s[q] == ';' {
        return Some(q);
      }
      q := q + 1;
    }
    return None;
  }

  method ReadDigits(s: string, end: nat, mark: char, base: nat) returns (r: Option<nat>)
    requires end <= |s|
    ensures r == DigitsBack(s, end, mark, base, 1, 0)
  {
    var q: nat, mult: nat, ucs: nat := end, 1, 0;
    while q > 0 && s[q - 1] != mark
      invariant q <= end <= |s|
      invariant DigitsBack(s, q, mark, base, mult, ucs) == DigitsBack(s, end, mark, base, 1, 0)
    {
      var d := Digit(s[q - 1], base);
      if d.None? {
        return None;
      }
      ucs := ucs + mult * d.value % P32;
      mult := mult * base % P32;
      q := q - 1;
    }
    return Some(ucs);
  }

  method GetCharacterRef(s: string, p: nat) returns (r: Reference)
    requires p < |s| && s[p] == '&'
    ensures r == CharacterRef(s, p)
  {
    hide DigitsBack, FindSemicolon, Utf8;
    if At(s, p + 1) == '#' && At(s, p + 2) != NUL {
      var hex := s[p + 2] == 'x';
      var from := if hex then p + 3 else p + 2;
      if At(s, from) == NUL {
        return NoReference;
      }
      var end := SearchSemicolon(s, from);
      if end.None? {
        return NoReference;
      }
      var ucs := ReadDigits(s, end.value, if hex then 'x' else '#', if hex then 16 else 10);
      if ucs.None? {
        return NoReference;
      }
      return Reference(Utf8(ucs.value), end.value + 1);
    }
    return Reference("", p + 1);
  }

  method SearchEntity(s: string, p: nat) returns (r: Option<Entity>)
    ensures r == FindEntity(s, p, 0)
  {
    for i := 0 to |ENTITIES|
      invariant FindEntity(s, p, i) == FindEntity(s, p, 0)
    {
      if Matches(s, p, ENTITIES[i]) {
        return Some(ENTITIES[i]);
      }
    }
    return None;
  }

  method ReadPiece(s: string, f: Flags, p: nat, n: nat) returns (text: string, next: nat)
    requires n <= p < |s|
    ensures (text, next) == Piece(s, f, p, n)
  {
    hide CharacterRef, FindEntity;
    if f.newlines && s[p] == CR {
      return [LF], if At(s, p + 1) == LF then p + 2 else p + 1;
    } else if f.newlines && s[p] == LF {
      return [LF], if At(s, p + 1) == CR then p + 2 else p + 1;
    } else if f.entities && s[p] == '&' {
      if At(s, p + 1) == '#' {
        var r := GetCharacterRef(s, p);
        if r.NoReference? {
          return [s[p]], p + 1;
        }
        return r.text, r.next;
      }
      var e := SearchEntity(s, p);
      if e.Some? {
        return [e.value.value], p + |e.value.pattern| + 2;
      }
      return [s[n]], p + 1;
    }
    return [s[p]], p + 1;
  }

  /** Copies a short text over the buffer at q. */
  method Put(buf: array<char>, q: nat, text: string)
    requires q + |text| <= buf.Length
    modifies buf
    ensures forall i | 0 <= i < buf.Length :: buf[i] == if q <= i < q + |text| then text[i - q] else old(buf[i])
  {
    for k := 0 to |text|
      invariant forall i | 0 <= i < buf.Length :: buf[i] == if q <= i < q + k then text[i - q] else old(buf[i])
    {
      buf[q + k] := text[k];
    }
  }

  lemma Patched(after: string, w: string, q: nat, text: string)
    requires |after| == |w| && q + |text| <= |w|
    requires forall i | 0 <= i < |w| :: after[i] == if q <= i < q + |text| then text[i - q] else w[i]
    ensures after == w[..q] + text + w[q + |text|..]
  {
  }

  /** A buffer in which out is written over the beginning of s. */
  ghost function Written(before: string, out: string, s: string, tail: string): string
    requires |out| <= |s|
  {
    before + out + s[|out|..] + tail
  }

  /** One turn of the reader: takes a piece at p and writes it at q. */
  method Turn(buf: array<char>, start: nat, end: nat, p: nat, q: nat, f: Flags,
              ghost before: string, ghost out: string, ghost s: string, ghost tail: string)
      returns (next: nat, n: nat)
    requires |before| == start <= q <= p < end <= buf.Length && |s| == end - start && |out| == q - start
    requires buf[..] == Written(before, out, s, tail)
    modifies buf
    ensures start + Piece(s, f, p - start, |out|).1 == next && n == |Piece(s, f, p - start, |out|).0|
    ensures buf[..] == Written(before, out + Piece(s, f, p - start, |out|).0, s, tail)
  {
    hide Piece;
    var cur := buf[start..end];
    assert cur == buf[..][start..end];
    Middle(before, out, s, tail);
    hide Written;
    SamePiece(cur, s, f, p - start, |out|);
    var text, to := ReadPiece(cur, f, p - start, q - start);
    Overwrite(before, out, s, text, tail);
    ghost var w := buf[..];
    Put(buf, q, text);
    Patched(buf[..], w, q, text);
    next, n := start + to, |text|;
  }

  lemma Middle(before: string, out: string, s: string, tail: string)
    requires |out| <= |s|
    ensures |Written(before, out, s, tail)| == |before| + |s| + |tail|
    ensures SameFrom(Written(before, out, s, tail)[|before|..|before| + |s|], s, |out|)
  {
    assert Written(before, out, s, tail)[|before|..|before| + |s|] == out + s[|out|..];
  }

  lemma Overwrite(before: string, out: string, s: string, text: string, tail: string)
    requires |out| + |text| <= |s|
    ensures var w := Written(before, out, s, tail); var q := |before| + |out|;
      w[..q] + text + w[q + |text|..] == Written(before, out + text, s, tail)
  {
    var w := Written(before, out, s, tail);
    var q := |before| + |out|;
    assert w[..q] == before + out;
    assert w[q + |text|..] == s[|out| + |text|..] + tail;
  }

  /** The whole text, turn by turn. The write position never passes the read position, which
      never passes the end, so everything still to be read is as it was. */
  method DecodeInPlace(buf: array<char>, start: nat, end: nat, f: Flags,
                       ghost before: string, ghost s: string, ghost tail: string)
      returns (q: nat)
    requires |before| == start <= end <= buf.Length && |s| == end - start
    requires buf[..] == Written(before, [], s, tail)
    modifies buf
    ensures |Decode(s, f)| <= |s| && q == start + |Decode(s, f)|
    ensures buf[..] == Written(before, Decode(s, f), s, tail)
  {
    hide Piece, Written;
    var p := start;
    q := start;
    ghost var out := [];
    while p < end
      invariant start <= q <= p <= end && |out| == q - start
      invariant buf[..] == Written(before, out, s, tail)
      invariant DecodeFrom(s, f, p - start, out) == Decode(s, f)
    {
      var n;
      ghost var text := Piece(s, f, p - start, |out|).0;
      p, n := Turn(buf, start, end, p, q, f, before, out, s, tail);
      out := out + text;
      q := q + n;
    }
  }

  /** Decodes buf[start..end) where it stands and terminates it; nothing outside changes. */
  method GetStr(buf: array<char>, start: nat, end: nat, f: Flags) returns (n: nat)
    requires start <= end < buf.Length
    modifies buf
    ensures start + n <= end && n == |Decode(old(buf[start..end]), f)|
    ensures buf[start..start + n] == Decode(old(buf[start..end]), f)
    ensures buf[start + n] == NUL
    ensures buf[..start] == old(buf[..start]) && buf[end + 1..] == old(buf[end + 1..])
  {
    hide DecodeFrom;
    ghost var s, before, tail := buf[start..end], buf[..start], [NUL] + buf[end + 1..];
    buf[end] := NUL;
    assert buf[..] == Written(before, [], s, tail);
    var q := DecodeInPlace(buf, start, end, f, before, s, tail);
    buf[q] := NUL;
    n := q - start;
    Finished(buf[..], before, Decode(s, f), s, tail);
    assert buf[..][..start] == buf[..start] && buf[..][end + 1..] == buf[end + 1..];
    assert buf[..][start..start + n] == buf[start..start + n];
  }

  lemma Finished(buf: string, before: string, out: string, s: string, tail: string)
    requires |out| <= |s| && tail != [] && buf == Written(before, out, s, tail)[|before| + |out| := NUL]
    ensures |buf| == |before| + |s| + |tail|
    ensures buf[..|before|] == before && buf[|before|..|before| + |out|] == out
    ensures buf[|before| + |s| + 1..] == tail[1..]
  {
  }
}
