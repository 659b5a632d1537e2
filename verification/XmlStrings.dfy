/** Character data of XML: entities written by the printer, and the reader's decoding of
    entities, numeric references and line ends. */
module XmlStrings {
  import opened Basics

  const NUL: char := '\0'
  const LF: char := '\n'
  const CR: char := '\r'

  /** The character at a position; the text is followed by a terminator. */
  function At(s: string, i: nat): char {
    if i < |s| then s[i] else NUL
  }

  predicate StartsWith(s: string, p: nat, t: string) {
    p + |t| <= |s| && s[p..p + |t|] == t
  }

  lemma StartsAt(s: string, p: nat, t: string, i: nat)
    requires StartsWith(s, p, t) && i < |t|
    ensures p + i < |s| && s[p + i] == t[i]
  {
    assert s[p..p + |t|][i] == s[p + i];
  }

  lemma StartsSlice(s: string, p: nat, t: string)
    requires StartsWith(s, p, t)
    ensures p + |t| <= |s| && s[p..p + |t|] == t
  {
  }

  lemma StartsSplit(s: string, p: nat, a: string, b: string)
    ensures StartsWith(s, p, a + b) <==> StartsWith(s, p, a) && StartsWith(s, p + |a|, b)
  {
    if p + |a| + |b| <= |s| {
      var w := s[p..p + |a| + |b|];
      assert w == s[p..p + |a|] + s[p + |a|..p + |a| + |b|];
      assert w[..|a|] == s[p..p + |a|] && w[|a|..] == s[p + |a|..p + |a| + |b|];
      assert (a + b)[..|a|] == a && (a + b)[|a|..] == b;
    }
  }

  // ----- entities -----

  datatype Entity = Entity(pattern: string, value: char)

  const ENTITIES: seq<Entity> :=
    [Entity("quot", '\"'), Entity("amp", '&'), Entity("apos", '\''), Entity("lt", '<'), Entity("gt", '>')]

  /** Which characters the printer replaces: all five, or in text only three. */
  predicate IsFlagged(c: char, restricted: bool) {
    c == '&' || c == '<' || c == '>' || (!restricted && (c == '\"' || c == '\''))
  }

  function PatternOf(c: char): string {
    if c == '\"' then "quot" else if c == '&' then "amp" else if c == '\'' then "apos"
    else if c == '<' then "lt" else "gt"
  }

  function EscapeChar(c: char, restricted: bool): string {
    if IsFlagged(c, restricted) then "&" + PatternOf(c) + ";" else [c]
  }

  function Escape(v: string, restricted: bool): string {
    if v == [] then [] else Escape(v[..|v| - 1], restricted) + EscapeChar(v[|v| - 1], restricted)
  }

  /** The first entity of the table whose name and semicolon follow position p. */
  predicate Matches(s: string, p: nat, e: Entity) {
    StartsWith(s, p + 1, e.pattern) && At(s, p + |e.pattern| + 1) == ';'
  }

  function FindEntity(s: string, p: nat, i: nat): (r: Option<Entity>)
    requires i <= |ENTITIES|
    ensures r.Some? ==> r.value in ENTITIES && Matches(s, p, r.value)
    decreases |ENTITIES| - i
  {
    if i == |ENTITIES| then None
    else if Matches(s, p, ENTITIES[i]) then Some(ENTITIES[i])
    else FindEntity(s, p, i + 1)
  }

  // ----- numeric references -----

  /** The first semicolon from i on, before any terminator. */
  function FindSemicolon(s: string, i: nat): (r: Option<nat>)
    ensures r.Some? ==> i <= r.value < |s| && s[r.value] == ';'
    decreases |s| - i
  {
    if i >= |s| || s[i] == NUL then None
    else if s[i] == ';' then Some(i)
    else FindSemicolon(s, i + 1)
  }

  function Digit(c: char, base: nat): (d: Option<nat>)
    ensures d.Some? ==> d.value < 16
  {
    if '0' <= c <= '9' then Some(c as int - '0' as int)
    else if base == 16 && 'a' <= c <= 'f' then Some(c as int - 'a' as int + 10)
    else if base == 16 && 'A' <= c <= 'F' then Some(c as int - 'A' as int + 10)
    else None
  }

  /** The digits before position i, read backwards to the mark; the weight wraps at 32 bits. */
  function DigitsBack(s: string, i: nat, mark: char, base: nat, mult: nat, sum: nat): (r: Option<nat>)
    requires i <= |s|
    decreases i
  {
    if i == 0 || s[i - 1] == mark then Some(sum)
    else
      var d := Digit(s[i - 1], base);
      if d.None? then None
      else DigitsBack(s, i - 1, mark, base, mult * base % P32, sum + mult * d.value % P32)
  }

  /** UTF-8 of a code point; what needs more than four bytes gives nothing. */
  function Utf8(u: nat): (r: string)
    ensures |r| <= 4
  {
    if u < 0x80 then [u as char]
    else if u < 0x800 then [(0xC0 + u / 0x40) as char, Continuation(u)]
    else if u < 0x1_0000 then [(0xE0 + u / 0x1000) as char, Continuation(u / 0x40), Continuation(u)]
    else if u < 0x20_0000 then
      [(0xF0 + u / 0x4_0000) as char, Continuation(u / 0x1000), Continuation(u / 0x40), Continuation(u)]
    else []
  }

  function Continuation(u: nat): char {
    (0x80 + u % 0x40) as char
  }

  /** A numeric reference at p: what it stands for and where it ends, or nothing. */
  datatype Reference = NoReference | Reference(text: string, next: nat)

  /** The digits from a position to the next semicolon, after the mark. */
  function NumericRef(s: string, from: nat, mark: char, base: nat): (r: Reference)
    requires 0 < from <= |s| && s[from - 1] == mark
    ensures r.Reference? ==> from < r.next <= |s| && |r.text| <= 4 && (r.next == from + 1 ==> |r.text| == 1)
  {
    var end := if At(s, from) == NUL then None else FindSemicolon(s, from);
    if end.None? then NoReference
    else
      var u := DigitsBack(s, end.value, mark, base, 1, 0);
      if u.None? then NoReference else Reference(Utf8(u.value), end.value + 1)
  }

  function CharacterRef(s: string, p: nat): (r: Reference)
    requires p < |s| && s[p] == '&'
    ensures r.Reference? ==> p < r.next <= |s| && |r.text| <= r.next - p
  {
    if At(s, p + 1) != '#' || At(s, p + 2) == NUL then Reference("", p + 1)
    else if s[p + 2] == 'x' then NumericRef(s, p + 3, 'x', 16)
    else NumericRef(s, p + 2, '#', 10)
  }

  // ----- decoding -----

  datatype Flags = Flags(newlines: bool, entities: bool)

  /** What the reader takes in one turn at p, with n characters written so far, and where it
      goes on. An unknown entity leaves the character that stands at the write position. */
  function Piece(s: string, f: Flags, p: nat, n: nat): (r: (string, nat))
    requires n <= p < |s|
    ensures p < r.1 <= |s| && n + |r.0| <= r.1
  {
    if f.newlines && s[p] == CR then ([LF], if At(s, p + 1) == LF then p + 2 else p + 1)
    else if f.newlines && s[p] == LF then ([LF], if At(s, p + 1) == CR then p + 2 else p + 1)
    else if f.entities && s[p] == '&' then
      if At(s, p + 1) == '#' then
        match CharacterRef(s, p)
        case NoReference => ([s[p]], p + 1)
        case Reference(text, next) => (text, next)
      else
        match FindEntity(s, p, 0)
        case Some(e) => ([e.value], p + |e.pattern| + 2)
        case None => ([s[n]], p + 1)
    else ([s[p]], p + 1)
  }

  function DecodeFrom(s: string, f: Flags, p: nat, out: string): (r: string)
    requires |out| <= p <= |s|
    ensures |r| <= |s|
    decreases |s| - p
  {
    if p == |s| then out
    else DecodeFrom(s, f, Piece(s, f, p, |out|).1, out + Piece(s, f, p, |out|).0)
  }

  function Decode(s: string, f: Flags): string {
    DecodeFrom(s, f, 0, [])
  }

  const BOTH: Flags := Flags(true, true)

  // ----- decoding undoes escaping -----

  lemma {:induction false} EscapeCons(v: string, restricted: bool)
    requires v != []
    ensures Escape(v, restricted) == EscapeChar(v[0], restricted) + Escape(v[1..], restricted)
    decreases |v|
  {
    if |v| > 1 {
      var front := v[..|v| - 1];
      EscapeCons(front, restricted);
      assert front[1..] == v[1..][..|v| - 2];
    } else {
      assert v[..0] == [] && v[1..] == [];
    }
  }

  lemma EntityFound(s: string, p: nat, c: char)
    requires IsFlagged(c, false) && StartsWith(s, p, EscapeChar(c, false))
    ensures s[p] == '&' && At(s, p + 1) != '#'
    ensures FindEntity(s, p, 0) == Some(Entity(PatternOf(c), c))
  {
    hide FindEntity;
    var name := PatternOf(c);
    assert EscapeChar(c, false) == "&" + (name + ";");
    StartsSplit(s, p, "&", name + ";");
    StartsSplit(s, p + 1, name, ";");
    StartsAt(s, p, "&", 0);
    StartsAt(s, p + 1, name, 0);
    StartsAt(s, p + 1 + |name|, ";", 0);
    FindsTheMatch(s, p, Entity(name, c));
  }

  /** The first two letters of a name in the table tell it from the others. */
  lemma MatchIsUnique(s: string, p: nat, d: Entity, e: Entity)
    requires d in ENTITIES && e in ENTITIES && Matches(s, p, d) && Matches(s, p, e)
    ensures d == e
  {
    StartsAt(s, p + 1, d.pattern, 0);
    StartsAt(s, p + 1, d.pattern, 1);
    StartsAt(s, p + 1, e.pattern, 0);
    StartsAt(s, p + 1, e.pattern, 1);
  }

  lemma {:induction false} FindsSome(s: string, p: nat, i: nat, j: nat)
    requires i <= j < |ENTITIES| && Matches(s, p, ENTITIES[j])
    ensures FindEntity(s, p, i).Some?
    decreases j - i
  {
    if !Matches(s, p, ENTITIES[i]) {
      FindsSome(s, p, i + 1, j);
    }
  }

  lemma FindsTheMatch(s: string, p: nat, e: Entity)
    requires e in ENTITIES && Matches(s, p, e)
    ensures FindEntity(s, p, 0) == Some(e)
  {
    var j :| 0 <= j < |ENTITIES| && ENTITIES[j] == e;
    FindsSome(s, p, 0, j);
    MatchIsUnique(s, p, FindEntity(s, p, 0).value, e);
  }

  /** One escaped character, not a line end, is one turn of the reader. */
  lemma PieceOfOther(s: string, p: nat, n: nat, c: char, restricted: bool)
    requires n <= p && StartsWith(s, p, EscapeChar(c, restricted)) && c != CR && c != LF
    ensures Piece(s, BOTH, p, n) == ([c], p + |EscapeChar(c, restricted)|)
  {
    StartsAt(s, p, EscapeChar(c, restricted), 0);
    if IsFlagged(c, restricted) {
      EntityFound(s, p, c);
    }
  }

  lemma PieceOfEscape(s: string, p: nat, n: nat, c: char, restricted: bool)
    requires n <= p && StartsWith(s, p, EscapeChar(c, restricted)) && c != CR
    requires p + |EscapeChar(c, restricted)| < |s| ==> s[p + |EscapeChar(c, restricted)|] != CR
    ensures Piece(s, BOTH, p, n) == ([c], p + |EscapeChar(c, restricted)|)
  {
    if c == LF {
      StartsAt(s, p, EscapeChar(c, restricted), 0);
    } else {
      PieceOfOther(s, p, n, c, restricted);
    }
  }

  /** A character the printer replaces, or one the text does not have, is not in the output;
      the letters of entities aside. */
  lemma {:induction false} EscapeAvoids(v: string, restricted: bool, c: char)
    requires c != '&' && c != ';' && !('a' <= c <= 'z') && (c !in v || IsFlagged(c, restricted))
    ensures c !in Escape(v, restricted)
    decreases |v|
  {
    hide EscapeChar;
    if v != [] {
      var n := |v| - 1;
      assert v == v[..n] + [v[n]];
      EscapeAvoids(v[..n], restricted, c);
      EscapedAvoids(v[n], restricted, c);
    }
  }

  lemma EscapedAvoids(x: char, restricted: bool, c: char)
    requires c != '&' && c != ';' && !('a' <= c <= 'z') && (c != x || IsFlagged(c, restricted))
    ensures c !in EscapeChar(x, restricted)
  {
    var name := PatternOf(x);
    assert forall i | 0 <= i < |name| :: 'a' <= name[i] <= 'z';
  }

  lemma SuffixSplits(s: string, p: nat, head: string, rest: string)
    requires p <= |s| && s[p..] == head + rest
    ensures p + |head| <= |s| && StartsWith(s, p, head) && s[p + |head|..] == rest
    ensures p + |head| < |s| ==> s[p + |head|] in rest
  {
    assert s[p..p + |head|] == s[p..][..|head|] == head;
    assert s[p + |head|..] == s[p..][|head|..] == rest;
    assert p + |head| < |s| ==> s[p + |head|] == rest[0];
  }

  lemma OneTurn(s: string, f: Flags, p: nat, out: string, piece: string, next: nat)
    requires |out| <= p < |s| && Piece(s, f, p, |out|) == (piece, next)
    ensures |out| + |piece| <= next <= |s| && DecodeFrom(s, f, p, out) == DecodeFrom(s, f, next, out + piece)
  {
    hide Piece;
  }

  lemma {:induction false} DecodesEscape(s: string, p: nat, out: string, v: string, restricted: bool)
    requires |out| <= p <= |s| && s[p..] == Escape(v, restricted) && CR !in v
    ensures DecodeFrom(s, BOTH, p, out) == out + v
    decreases |v|
  {
    hide Piece, EscapeChar, StartsWith;
    if v == [] {
      assert p == |s| && out + v == out;
    } else {
      var head, rest := EscapeChar(v[0], restricted), Escape(v[1..], restricted);
      EscapeCons(v, restricted);
      EscapeIsLong(v[0], restricted);
      EscapeAvoids(v[1..], restricted, CR);
      hide DecodeFrom, Escape;
      SuffixSplits(s, p, head, rest);
      PieceOfEscape(s, p, |out|, v[0], restricted);
      OneTurn(s, BOTH, p, out, [v[0]], p + |head|);
      DecodesEscape(s, p + |head|, out + [v[0]], v[1..], restricted);
      assert (out + [v[0]]) + v[1..] == out + v;
    }
  }

  lemma EscapeIsLong(c: char, restricted: bool)
    ensures |EscapeChar(c, restricted)| >= 1
  {
  }

  ghost predicate NoneFlagged(v: string, restricted: bool) {
    forall i | 0 <= i < |v| :: !IsFlagged(v[i], restricted)
  }

  lemma CharGrows(c: char, restricted: bool)
    ensures if IsFlagged(c, restricted) then |EscapeChar(c, restricted)| > 1 else EscapeChar(c, restricted) == [c]
  {
  }

  lemma {:induction false} EscapeOnlyGrows(v: string, restricted: bool)
    ensures if NoneFlagged(v, restricted) then Escape(v, restricted) == v else |Escape(v, restricted)| > |v|
    decreases |v|
  {
    hide IsFlagged, EscapeChar;
    if v != [] {
      var n := |v| - 1;
      EscapeOnlyGrows(v[..n], restricted);
      EscapeLast(v, restricted);
      CharGrows(v[n], restricted);
      assert NoneFlagged(v, restricted) <==> NoneFlagged(v[..n], restricted) && !IsFlagged(v[n], restricted);
      assert v == v[..n] + [v[n]];
    }
  }

  lemma EscapeLast(v: string, restricted: bool)
    requires v != []
    ensures Escape(v, restricted) == Escape(v[..|v| - 1], restricted) + EscapeChar(v[|v| - 1], restricted)
  {
  }

  /** A text is printed as it is exactly if it has none of the three characters, nor a quote of
      either kind where it is an attribute value. */
  lemma PlainIffNothingEscaped(v: string, restricted: bool)
    ensures Escape(v, restricted) == v
       <==> '&' !in v && '<' !in v && '>' !in v && (!restricted ==> '\"' !in v && '\'' !in v)
  {
    hide Escape;
    EscapeOnlyGrows(v, restricted);
    if c: nat :| c < |v| && IsFlagged(v[c], restricted) {
      assert v[c] in v;
    }
  }

  /** The turn at a line end takes one or two of them. */
  lemma PieceOfLineEnd(s: string, p: nat, n: nat, v: string, restricted: bool)
    requires n <= p <= |s| && s[p..] == Escape(v, restricted) && v != [] && (v[0] == CR || v[0] == LF)
    ensures p < |s| && Piece(s, BOTH, p, n).0 == [LF]
    ensures Piece(s, BOTH, p, n).1 == p + 1 || (|v| > 1 && Piece(s, BOTH, p, n).1 == p + 2)
    ensures s[p + 1..] == Escape(v[1..], restricted)
    ensures Piece(s, BOTH, p, n).1 == p + 2 ==> s[p + 2..] == Escape(v[2..], restricted)
  {
    EscapeCons(v, restricted);
    assert EscapeChar(v[0], restricted) == [v[0]];
    assert s[p] == s[p..][0] == v[0];
    assert s[p + 1..] == s[p..][1..];
    if |v| > 1 {
      var w := v[1..];
      EscapeCons(w, restricted);
      assert w[0] == v[1] && w[1..] == v[2..];
      if p + 1 < |s| && (s[p + 1] == CR || s[p + 1] == LF) {
        assert s[p + 1] == s[p + 1..][0];
        assert EscapeChar(v[1], restricted) == [v[1]];
        assert s[p + 2..] == s[p + 1..][1..];
      }
    }
  }

  lemma {:induction false} NoReturnIsRead(s: string, p: nat, out: string, v: string, restricted: bool)
    requires |out| <= p <= |s| && s[p..] == Escape(v, restricted) && CR !in out
    ensures CR !in DecodeFrom(s, BOTH, p, out)
    decreases |v|
  {
    hide Piece, EscapeChar;
    if v == [] {
      assert p == |s|;
    } else if v[0] == CR || v[0] == LF {
      PieceOfLineEnd(s, p, |out|, v, restricted);
      if Piece(s, BOTH, p, |out|).1 == p + 1 {
        NoReturnIsRead(s, p + 1, out + [LF], v[1..], restricted);
      } else {
        NoReturnIsRead(s, p + 2, out + [LF], v[2..], restricted);
      }
    } else {
      var head := EscapeChar(v[0], restricted);
      EscapeCons(v, restricted);
      EscapeIsLong(v[0], restricted);
      assert s[p..p + |head|] == s[p..][..|head|] == head;
      assert s[p + |head|..] == s[p..][|head|..];
      PieceOfOther(s, p, |out|, v[0], restricted);
      NoReturnIsRead(s, p + |head|, out + [v[0]], v[1..], restricted);
    }
  }

  /** Reading back what was printed gives the text again, as attribute value and as element
      text, exactly for the texts without carriage returns. */
  lemma DecodeUndoesEscape(v: string, restricted: bool)
    ensures Decode(Escape(v, restricted), BOTH) == v <==> CR !in v
  {
    var s := Escape(v, restricted);
    assert s[0..] == s;
    if CR !in v {
      DecodesEscape(s, 0, [], v, restricted);
      assert [] + v == v;
    } else {
      NoReturnIsRead(s, 0, [], v, restricted);
    }
  }

  // ----- what a numeric reference stands for -----

  /** The number that UTF-8 bytes of one to four write. */
  ghost function Utf8Value(r: string): nat {
    if |r| == 1 then r[0] as int
    else if |r| == 2 then Low(r[0], 0xC0) * 0x40 + Low(r[1], 0x80)
    else if |r| == 3 then Low(r[0], 0xE0) * 0x1000 + Low(r[1], 0x80) * 0x40 + Low(r[2], 0x80)
    else if |r| == 4 then
      Low(r[0], 0xF0) * 0x4_0000 + Low(r[1], 0x80) * 0x1000 + Low(r[2], 0x80) * 0x40 + Low(r[3], 0x80)
    else 0
  }

  ghost function Low(c: char, mark: nat): nat {
    if c as int < mark then 0 else c as int - mark
  }

  lemma SixBits(u: nat)
    ensures u == u / 0x40 * 0x40 + u % 0x40 && u % 0x40 < 0x40
    ensures u / 0x40 / 0x40 == u / 0x1000 && u / 0x1000 / 0x40 == u / 0x4_0000
  {
  }

  lemma MarkAndBits(mark: nat, bits: nat)
    requires mark + bits < 0x100
    ensures Low((mark + bits) as char, mark) == bits
  {
  }

  lemma FourBytes(u: nat)
    requires 0x1_0000 <= u < 0x20_0000
    ensures Utf8Value(Utf8(u)) == u && |Utf8(u)| == 4
  {
    hide Low;
    SixBits(u);
    SixBits(u / 0x40);
    SixBits(u / 0x1000);
    MarkAndBits(0xF0, u / 0x4_0000);
    MarkAndBits(0x80, u / 0x1000 % 0x40);
    MarkAndBits(0x80, u / 0x40 % 0x40);
    MarkAndBits(0x80, u % 0x40);
  }

  /** The bytes determine the code point, and there are as many as its size needs. */
  lemma Utf8RoundTrip(u: nat)
    requires u < 0x20_0000
    ensures Utf8Value(Utf8(u)) == u
    ensures |Utf8(u)| == if u < 0x80 then 1 else if u < 0x800 then 2 else if u < 0x1_0000 then 3 else 4
  {
    if u >= 0x1_0000 {
      FourBytes(u);
    } else {
      hide Low;
      SixBits(u);
      SixBits(u / 0x40);
      MarkAndBits(0x80, u % 0x40);
      MarkAndBits(0x80, u / 0x40 % 0x40);
      if u >= 0x800 {
        MarkAndBits(0xE0, u / 0x1000);
      } else if u >= 0x80 {
        MarkAndBits(0xC0, u / 0x40);
      }
    }
  }

  ghost predicate AreDigits(d: string, base: nat) {
    forall i | 0 <= i < |d| :: Digit(d[i], base).Some?
  }

  ghost function Number(d: string, base: nat): nat
    requires AreDigits(d, base)
  {
    if d == [] then 0 else Number(d[..|d| - 1], base) * base + Digit(d[|d| - 1], base).value
  }

  lemma WrappedWeight(weight: nat, mult: nat, base: nat)
    requires mult == weight % P32
    ensures mult * base % P32 == weight * base % P32
  {
    var q := weight / P32;
    assert weight * base == mult * base + P32 * (q * base);
    ModPlus(mult * base, q * base);
  }

  lemma {:induction false} ModPlus(a: nat, k: nat)
    ensures (a + P32 * k) % P32 == a % P32
    decreases k
  {
    if k > 0 {
      ModPlus(a, k - 1);
      assert a + P32 * k == a + P32 * (k - 1) + P32;
    }
  }

  /** The sum the reader makes: each digit times its weight, wrapped at 32 bits by itself. */
  ghost function WrappedNumber(d: string, base: nat, weight: nat): nat
    requires AreDigits(d, base)
  {
    if d == [] then 0
    else WrappedNumber(d[..|d| - 1], base, weight * base) + weight * Digit(d[|d| - 1], base).value % P32
  }

  /** No digit times its weight leaves 32 bits. */
  ghost predicate DigitsFit(d: string, base: nat, weight: nat)
    requires AreDigits(d, base)
  {
    d == [] || (weight * Digit(d[|d| - 1], base).value < P32 && DigitsFit(d[..|d| - 1], base, weight * base))
  }

  lemma Distribute(n: nat, base: nat, digit: nat, weight: nat)
    ensures (n * base + digit) * weight == n * (weight * base) + weight * digit
    ensures weight * digit % P32 <= weight * digit
    ensures weight * digit % P32 == weight * digit <==> weight * digit < P32
  {
    var x := weight * digit;
    assert x >= 0;
    WrapsOrNot(x);
  }

  lemma WrapsOrNot(x: nat)
    ensures x % P32 <= x && (x % P32 == x <==> x < P32)
  {
  }

  /** The sum is at most the number, and is the number exactly if no digit wraps. */
  lemma {:induction false} WrappedIsExactIff(d: string, base: nat, weight: nat)
    requires AreDigits(d, base)
    ensures WrappedNumber(d, base, weight) <= Number(d, base) * weight
    ensures WrappedNumber(d, base, weight) == Number(d, base) * weight <==> DigitsFit(d, base, weight)
    decreases |d|
  {
    hide Digit;
    if d != [] {
      var n := |d| - 1;
      WrappedIsExactIff(d[..n], base, weight * base);
      Distribute(Number(d[..n], base), base, Digit(d[n], base).value, weight);
    }
  }

  /** Numbers below 2^32 never wrap, whatever leading zeros they have. */
  lemma {:induction false} SmallNumbersFit(d: string, base: nat, weight: nat, v: nat)
    requires AreDigits(d, base) && v == Number(d, base) * weight && v < P32
    ensures DigitsFit(d, base, weight)
    decreases |d|
  {
    hide Digit;
    if d != [] {
      var n := |d| - 1;
      var rest, digit := Number(d[..n], base), Digit(d[n], base).value;
      var higher := rest * (weight * base);
      SplitBelow(v, rest, base, digit, weight, higher);
      hide Number;
      SmallNumbersFit(d[..n], base, weight * base, higher);
    }
  }

  lemma SplitBelow(v: nat, rest: nat, base: nat, digit: nat, weight: nat, higher: nat)
    requires v == (rest * base + digit) * weight && v < P32 && higher == rest * (weight * base)
    ensures higher < P32 && weight * digit < P32
  {
    Distribute(rest, base, digit, weight);
    assert weight * digit >= 0;
  }

  lemma OneBack(s: string, i: nat, mark: char, base: nat, mult: nat, sum: nat, digit: nat)
    requires 0 < i <= |s| && s[i - 1] != mark && Digit(s[i - 1], base) == Some(digit)
    ensures DigitsBack(s, i, mark, base, mult, sum)
         == DigitsBack(s, i - 1, mark, base, mult * base % P32, sum + mult * digit % P32)
  {
  }

  lemma LastDigit(d: string, base: nat, weight: nat, digit: nat)
    requires d != [] && AreDigits(d, base) && Digit(d[|d| - 1], base) == Some(digit)
    ensures AreDigits(d[..|d| - 1], base)
    ensures WrappedNumber(d, base, weight) == WrappedNumber(d[..|d| - 1], base, weight * base) + weight * digit % P32
  {
  }

  /** The digits up to the mark add up to the wrapped sum. */
  lemma {:induction false} DigitsAddUp(
      s: string, i: nat, d: string, mark: char, base: nat, weight: nat, mult: nat, sum: nat)
    requires |d| < i <= |s| && s[i - |d|..i] == d && s[i - |d| - 1] == mark
    requires AreDigits(d, base) && Digit(mark, base).None? && mult == weight % P32
    ensures DigitsBack(s, i, mark, base, mult, sum) == Some(sum + WrappedNumber(d, base, weight))
    decreases |d|
  {
    hide Digit;
    if d != [] {
      var n := |d| - 1;
      var front, digit := d[..n], Digit(d[n], base).value;
      assert s[i - 1] == s[i - |d|..i][n] == d[n];
      assert s[i - 1 - n..i - 1] == s[i - |d|..i][..n] == front;
      hide DigitsBack, WrappedNumber, AreDigits;
      OneBack(s, i, mark, base, mult, sum, digit);
      LastDigit(d, base, weight, digit);
      WrappedWeight(weight, mult, base);
      WrappedWeight(weight, mult, digit);
      DigitsAddUp(s, i - 1, front, mark, base, weight * base, mult * base % P32, sum + mult * digit % P32);
    }
  }

  lemma NumberIsRead(s: string, from: nat, d: string, mark: char, base: nat)
    requires 0 < from <= |s| && s[from - 1] == mark && (mark == 'x' || mark == '#')
    requires d != [] && AreDigits(d, base) && StartsWith(s, from, d + ";")
    ensures NumericRef(s, from, mark, base) == Reference(Utf8(WrappedNumber(d, base, 1)), from + |d| + 1)
    ensures s[from] != NUL && s[from] != 'x'
  {
    hide WrappedNumber, Utf8, DigitsBack, Digit, AreDigits, FindSemicolon;
    DigitsAreOther(d, base);
    StartsSplit(s, from, d, ";");
    StartsAt(s, from, d, 0);
    SemicolonAfter(s, from, d);
    assert s[from..from + |d|] == d;
    DigitsAddUp(s, from + |d|, d, mark, base, 1, 1, 0);
  }

  /** A numeric reference of any length is read as the character of its wrapped sum, which is
      its number exactly if no digit wraps, and so for every number below 2^32. */
  lemma ReferenceIsRead(s: string, p: nat, d: string, hex: bool)
    requires d != [] && AreDigits(d, if hex then 16 else 10)
    requires StartsWith(s, p, (if hex then "&#x" else "&#") + (d + ";"))
    ensures var base := if hex then 16 else 10;
      && CharacterRef(s, p) == Reference(Utf8(WrappedNumber(d, base, 1)), p + |d| + if hex then 4 else 3)
      && (WrappedNumber(d, base, 1) == Number(d, base) <==> DigitsFit(d, base, 1))
      && (Number(d, base) < P32 ==> DigitsFit(d, base, 1))
  {
    hide Number, WrappedNumber, DigitsFit, Utf8, AreDigits, NumericRef, StartsWith;
    var head, base := if hex then "&#x" else "&#", if hex then 16 else 10;
    StartsSplit(s, p, head, d + ";");
    StartsAt(s, p, head, 0);
    StartsAt(s, p, head, 1);
    WrappedIsExactIff(d, base, 1);
    if Number(d, base) < P32 {
      SmallNumbersFit(d, base, 1, Number(d, base));
    }
    if hex {
      StartsAt(s, p, head, 2);
      NumberIsRead(s, p + 3, d, 'x', 16);
    } else {
      NumberIsRead(s, p + 2, d, '#', 10);
    }
  }

  lemma HexPush(front: string, c: char, weight: nat, number: nat, wrapped: nat)
    requires AreDigits(front, 16) && Digit(c, 16).Some?
    requires Number(front, 16) == number && WrappedNumber(front, 16, weight * 16) == wrapped
    ensures AreDigits(front + [c], 16)
    ensures Number(front + [c], 16) == number * 16 + Digit(c, 16).value
    ensures WrappedNumber(front + [c], 16, weight) == wrapped + weight * Digit(c, 16).value % P32
  {
    assert (front + [c])[..|front|] == front;
  }

  lemma HexZero(front: string, weight: nat, number: nat, wrapped: nat)
    requires AreDigits(front, 16) && Number(front, 16) == number && WrappedNumber(front, 16, weight * 16) == wrapped
    ensures AreDigits(front + "0", 16)
    ensures Number(front + "0", 16) == number * 16 && WrappedNumber(front + "0", 16, weight) == wrapped
  {
    HexPush(front, '0', weight, number, wrapped);
    assert weight * 0 == 0;
  }

  lemma LongNumberSum()
    ensures var d := "1" + "0" + "0" + "0" + "0" + "0" + "0" + "4" + "1";
      AreDigits(d, 16) && Number(d, 16) == P32 + 0x41 && WrappedNumber(d, 16, 1) == 0x41
  {
    hide Number, WrappedNumber, AreDigits;
    NoDigits(0x10_0000_0000);
    HexPush("", '1', 0x1_0000_0000, 0, 0);
    assert "" + "1" == "1";
    HexZero("1", 0x1000_0000, 1, 0);
    HexZero("1" + "0", 0x100_0000, 0x10, 0);
    HexZero("1" + "0" + "0", 0x10_0000, 0x100, 0);
    HexZero("1" + "0" + "0" + "0", 0x1_0000, 0x1000, 0);
    HexZero("1" + "0" + "0" + "0" + "0", 0x1000, 0x1_0000, 0);
    HexZero("1" + "0" + "0" + "0" + "0" + "0", 0x100, 0x10_0000, 0);
    HexPush("1" + "0" + "0" + "0" + "0" + "0" + "0", '4', 0x10, 0x100_0000, 0);
    HexPush("1" + "0" + "0" + "0" + "0" + "0" + "0" + "4", '1', 1, 0x1000_0004, 0x40);
  }

  /** A reference to a number beyond 32 bits can read as a letter: the weight of its first
      digit is 2^32. */
  lemma LongNumberWraps()
    ensures CharacterRef("&#x100000041;", 0) == Reference("A", 13)
    ensures AreDigits("100000041", 16) && Number("100000041", 16) == P32 + 0x41
  {
    hide Number, WrappedNumber, AreDigits, CharacterRef;
    LongNumberSum();
    var d, s := "100000041", "&#x100000041;";
    assert d == "1" + "0" + "0" + "0" + "0" + "0" + "0" + "4" + "1";
    assert s == "&#x" + (d + ";");
    assert s[0..|s|] == s;
    ReferenceIsRead(s, 0, d, true);
  }

  lemma NoDigits(weight: nat)
    ensures AreDigits("", 16) && Number("", 16) == 0 && WrappedNumber("", 16, weight) == 0
  {
  }

  lemma DigitsAreOther(d: string, base: nat)
    requires AreDigits(d, base)
    ensures forall i | 0 <= i < |d| :: d[i] != ';' && d[i] != NUL && d[i] != 'x' && d[i] != '#'
    ensures Digit('x', base).None? && Digit('#', base).None?
  {
    forall i | 0 <= i < |d| ensures d[i] != ';' && d[i] != NUL && d[i] != 'x' && d[i] != '#' {
      assert Digit(d[i], base).Some?;
    }
  }

  lemma {:induction false} SemicolonAfter(s: string, i: nat, d: string)
    requires StartsWith(s, i, d + ";") && forall k | 0 <= k < |d| :: d[k] != ';' && d[k] != NUL
    ensures FindSemicolon(s, i) == Some(i + |d|)
    decreases |d|
  {
    StartsAt(s, i, d + ";", 0);
    if d != [] {
      assert d + ";" == [d[0]] + (d[1..] + ";");
      StartsSplit(s, i, [d[0]], d[1..] + ";");
      SemicolonAfter(s, i + 1, d[1..]);
    }
  }
}
