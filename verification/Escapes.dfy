/** Percent escapes as a client writes them, and what uri.c makes of them. */
module Escapes {
  import opened Bytes
  import opened UriPath
  import opened UriOptions
  import Seqs

  const QUERY: Syntax := Syntax(0x26, {0x23})

  /** `c` is the hexadecimal digit with value `v`, in upper or lower case. */
  predicate DigitFor(c: Byte, v: nat) {
    v < 16 && (c == "0123456789ABCDEF"[v] as int || c == "0123456789abcdef"[v] as int)
  }

  /**
   * `e` is a way to write the bytes `s`: each of them as a percent sign with the digits of
   * its two halves or, unless it is the percent sign, as itself.
   */
  ghost predicate Spells(e: seq<Byte>, s: seq<Byte>) {
    if s == [] then e == []
    else
      || (e != [] && e[0] == s[0] != PERCENT && Spells(e[1..], s[1..]))
      || (|e| >= 3 && e[0] == PERCENT && DigitFor(e[1], s[0] / 16) && DigitFor(e[2], s[0] % 16)
          && Spells(e[3..], s[1..]))
  }

  /** Both rows of digits, by arithmetic. */
  lemma Rows(v: nat)
    requires v < 16
    ensures "0123456789ABCDEF"[v] as int == if v < 10 then 0x30 + v else 0x37 + v
    ensures "0123456789abcdef"[v] as int == if v < 10 then 0x30 + v else 0x57 + v
  {
  }

  lemma DigitValue(c: Byte, v: nat)
    ensures DigitFor(c, v) <==> IsHex(c) && HexValue(c) == v
  {
    HexRows(c);
    if v < 16 {
      Rows(v);
    }
  }

  lemma HexRows(c: Byte)
    ensures IsHex(c) ==> HexValue(c) == c as int - (if c < 0x40 then 0x30 else if c < 0x60 then 0x37 else 0x57)
  {
  }

  lemma Halves(b: Byte, c: Byte, d: Byte)
    requires IsHex(c) && IsHex(d)
    ensures DigitFor(c, b / 16) && DigitFor(d, b % 16) <==> HexValue(c) * 16 + HexValue(d) == b
  {
    DigitValue(c, b / 16);
    DigitValue(d, b % 16);
  }

  lemma DigitsAreHex(b: Byte, c: Byte, d: Byte)
    requires DigitFor(c, b / 16) && DigitFor(d, b % 16)
    ensures IsHex(c) && IsHex(d)
  {
    DigitValue(c, b / 16);
    DigitValue(d, b % 16);
  }

  lemma Peel(s: seq<Byte>, b: Byte, rest: seq<Byte>)
    ensures s == [b] + rest <==> s != [] && s[0] == b && s[1..] == rest
  {
  }

  /** A well-escaped string is decoded to exactly those bytes that it spells; any other string spells nothing. */
  lemma {:induction false} DecodedSpelt(e: seq<Byte>, s: seq<Byte>)
    ensures Spells(e, s) <==> WellEscaped(e) && Decoded(e) == s
    decreases |e|
  {
    if e != [] && s != [] {
      if e[0] != PERCENT {
        DecodedSpelt(e[1..], s[1..]);
        if WellEscaped(e) {
          Peel(s, e[0], Decoded(e[1..]));
        }
      } else if |e| >= 3 {
        DecodedSpelt(e[3..], s[1..]);
        if IsHex(e[1]) && IsHex(e[2]) {
          Halves(s[0], e[1], e[2]);
          if WellEscaped(e) {
            Peel(s, HexValue(e[1]) * 16 + HexValue(e[2]), Decoded(e[3..]));
          }
        } else if DigitFor(e[1], s[0] / 16) && DigitFor(e[2], s[0] % 16) {
          DigitsAreHex(s[0], e[1], e[2]);
        }
      }
    }
  }

  // ----- Every list of values can be written -----

  function Digit(v: nat, upper: bool): Byte
    requires v < 16
  {
    (if upper then "0123456789ABCDEF" else "0123456789abcdef")[v] as int
  }

  /** Bytes that may stand for themselves in a segment. */
  predicate Harmless(y: Syntax, b: Byte) { b != PERCENT && b != DOT && !Breaks(y, b) }

  /** `s` with everything escaped that is in `also` or may not stand for itself. */
  function Escape(y: Syntax, s: seq<Byte>, also: set<Byte>, upper: bool): seq<Byte> {
    if s == [] then []
    else
      (if Harmless(y, s[0]) && s[0] !in also then [s[0]]
       else [PERCENT, Digit(s[0] / 16, upper), Digit(s[0] % 16, upper)])
      + Escape(y, s[1..], also, upper)
  }

  /** Neither the percent sign nor a digit separates segments or ends the string. */
  predicate Usual(y: Syntax) {
    && y.separator !in y.delim && !Breaks(y, PERCENT)
    && forall v, upper | 0 <= v < 16 :: !Breaks(y, Digit(v, upper))
  }

  lemma {:induction false} EscapeSpells(y: Syntax, s: seq<Byte>, also: set<Byte>, upper: bool)
    ensures Spells(Escape(y, s, also, upper), s)
  {
    if s != [] {
      EscapeSpells(y, s[1..], also, upper);
      var e, rest := Escape(y, s, also, upper), Escape(y, s[1..], also, upper);
      assert e[if e[0] == PERCENT then 3 else 1..] == rest;
    }
  }

  /** Nothing in an escaped string breaks it, and no byte of it is a dot. */
  lemma {:induction false} EscapeWhole(y: Syntax, s: seq<Byte>, also: set<Byte>, upper: bool)
    requires Usual(y)
    ensures forall i | 0 <= i < |Escape(y, s, also, upper)| ::
      !Breaks(y, Escape(y, s, also, upper)[i]) && Escape(y, s, also, upper)[i] != DOT
    ensures s != [] ==> Escape(y, s, also, upper) != []
  {
    if s != [] {
      EscapeWhole(y, s[1..], also, upper);
    }
  }

  // ----- From a list of segments to a string and back -----

  /** The segments, each behind a separator. */
  function Delimited(y: Syntax, segs: seq<seq<Byte>>): seq<Byte> {
    if segs == [] then [] else [y.separator] + segs[0] + Delimited(y, segs[1..])
  }

  /** No segment contains a separator or delimiter, and the last one is not empty. */
  ghost predicate Separable(y: Syntax, segs: seq<seq<Byte>>) {
    && (forall i, j | 0 <= i < |segs| && 0 <= j < |segs[i]| :: !Breaks(y, segs[i][j]))
    && (segs != [] ==> segs[|segs| - 1] != [])
  }

  lemma {:induction false} LengthIs(y: Syntax, seg: seq<Byte>, rest: seq<Byte>)
    requires forall j | 0 <= j < |seg| :: !Breaks(y, seg[j])
    requires rest != [] ==> Breaks(y, rest[0])
    ensures SegmentLength(y, seg + rest) == |seg|
  {
    if seg != [] {
      LengthIs(y, seg[1..], rest);
      assert (seg + rest)[1..] == seg[1..] + rest;
    } else {
      assert seg + rest == rest;
    }
  }

  /** The iterator on a string that begins with a segment. */
  lemma FirstPlain(y: Syntax, seg: seq<Byte>, more: seq<Byte>)
    requires seg != [] && forall j | 0 <= j < |seg| :: !Breaks(y, seg[j])
    requires more != [] ==> Breaks(y, more[0])
    ensures Segments(y, seg + more) == [seg] + Segments(y, more)
  {
    LengthIs(y, seg, more);
    Parts(0, seg, more);
    assert !Breaks(y, seg[0]);
    Unfold(y, seg + more, seg, more);
  }

  /** The iterator on a separator and a segment, which may be empty unless it is the last one. */
  lemma FirstDelimited(y: Syntax, seg: seq<Byte>, more: seq<Byte>)
    requires y.separator !in y.delim && forall j | 0 <= j < |seg| :: !Breaks(y, seg[j])
    requires more != [] ==> Breaks(y, more[0])
    requires seg == [] ==> more != []
    ensures Segments(y, [y.separator] + seg + more) == [seg] + Segments(y, more)
  {
    LengthIs(y, seg, more);
    Parts(y.separator, seg, more);
    Unfold(y, [y.separator] + seg + more, seg, more);
  }

  lemma Parts(b: Byte, seg: seq<Byte>, more: seq<Byte>)
    ensures ([b] + seg + more)[0] == b && ([b] + seg + more)[1..] == seg + more
    ensures seg != [] ==> (seg + more)[0] == seg[0]
    ensures (seg + more)[..|seg|] == seg && (seg + more)[|seg|..] == more
  {
  }

  lemma Unfold(y: Syntax, s: seq<Byte>, seg: seq<Byte>, more: seq<Byte>)
    requires s != [] && s[0] !in y.delim && seg + more != []
    requires Behind(y, s) == seg + more && SegmentLength(y, seg + more) == |seg|
    ensures Segments(y, s) == [seg] + Segments(y, more)
  {
    Parts(0, seg, more);
  }

  /** What follows the first segment of a list. */
  lemma BehindFirst(y: Syntax, segs: seq<seq<Byte>>, rest: seq<Byte>)
    requires segs != [] && Separable(y, segs) && (rest != [] ==> rest[0] in y.delim)
    ensures var more := Delimited(y, segs[1..]) + rest;
      && Delimited(y, segs) + rest == [y.separator] + segs[0] + more
      && (more != [] ==> Breaks(y, more[0])) && (segs[0] == [] ==> more != [])
      && Separable(y, segs[1..]) && forall j | 0 <= j < |segs[0]| :: !Breaks(y, segs[0][j])
  {
    Seqs.Assoc([y.separator] + segs[0], Delimited(y, segs[1..]), rest);
  }

  /** A delimited list followed by nothing or by a delimiter. */
  lemma {:induction false} SegmentsDelimited(y: Syntax, segs: seq<seq<Byte>>, rest: seq<Byte>)
    requires y.separator !in y.delim && Separable(y, segs) && (rest != [] ==> rest[0] in y.delim)
    ensures Segments(y, Delimited(y, segs) + rest) == segs
  {
    if segs != [] {
      BehindFirst(y, segs, rest);
      SegmentsDelimited(y, segs[1..], rest);
      FirstDelimited(y, segs[0], Delimited(y, segs[1..]) + rest);
    } else {
      assert Delimited(y, segs) + rest == rest;
    }
  }

  /** The same without the separator in front. */
  lemma SegmentsPlain(y: Syntax, segs: seq<seq<Byte>>, rest: seq<Byte>)
    requires y.separator !in y.delim && Separable(y, segs) && (rest != [] ==> rest[0] in y.delim)
    requires segs != [] && segs[0] != []
    ensures Segments(y, (Delimited(y, segs) + rest)[1..]) == segs
  {
    BehindFirst(y, segs, rest);
    SegmentsDelimited(y, segs[1..], rest);
    PlainFrom(y, Delimited(y, segs) + rest, segs[0], Delimited(y, segs[1..]) + rest);
  }

  lemma PlainFrom(y: Syntax, s: seq<Byte>, seg: seq<Byte>, more: seq<Byte>)
    requires s == [y.separator] + seg + more && seg != [] && forall j | 0 <= j < |seg| :: !Breaks(y, seg[j])
    requires more != [] ==> Breaks(y, more[0])
    ensures Segments(y, s[1..]) == [seg] + Segments(y, more)
  {
    Parts(y.separator, seg, more);
    FirstPlain(y, seg, more);
  }

  /** The segments say the values: each one is well-escaped, not skipped, and spells its value. */
  ghost predicate Says(segs: seq<seq<Byte>>, vals: seq<seq<Byte>>) {
    |segs| == |vals| && forall i | 0 <= i < |segs| :: Telling(segs[i]) && Spells(segs[i], vals[i])
  }

  lemma {:induction false} ValuesSaid(segs: seq<seq<Byte>>, vals: seq<seq<Byte>>)
    requires Says(segs, vals)
    ensures Values(segs) == vals
  {
    if segs != [] {
      var n := |segs| - 1;
      ValuesSaid(segs[..n], vals[..n]);
      SkippedExact(segs[n]);
      DecodedSpelt(segs[n], vals[n]);
      assert vals == vals[..n] + [vals[n]];
    }
  }

  /**
   * Whatever values a string spells between its separators, they are what the options carry:
   * with room for them all, coap_split_path and coap_split_query write exactly those.
   */
  lemma SplitSays(y: Syntax, segs: seq<seq<Byte>>, vals: seq<seq<Byte>>, rest: seq<Byte>, room: nat)
    requires y.separator !in y.delim && Separable(y, segs) && (rest != [] ==> rest[0] in y.delim)
    requires Says(segs, vals) && Size(vals) <= room && forall i | 0 <= i < |vals| :: |vals[i]| <= 255
    ensures var s := Delimited(y, segs) + rest;
      && Segments(y, s) == segs && Values(segs) == vals
      && Safe(Segments(y, s), room) && Taken(Segments(y, s), room) == vals
  {
    SegmentsDelimited(y, segs, rest);
    ValuesSaid(segs, vals);
    forall i | 0 <= i < |segs|
      ensures Written(segs[i]) && Decoded(segs[i]) == vals[i]
    {
      SkippedExact(segs[i]);
      DecodedSpelt(segs[i], vals[i]);
    }
    SafeWithRoom(segs, room);
  }

  lemma UsualBoth(y: Syntax)
    requires y == PATH || y == QUERY
    ensures Usual(y)
  {
    forall v, upper | 0 <= v < 16
      ensures !Breaks(y, Digit(v, upper))
    {
      Rows(v);
    }
  }

  lemma EscapeTells(y: Syntax, s: seq<Byte>, also: set<Byte>, upper: bool)
    requires Usual(y) && s != []
    ensures Telling(Escape(y, s, also, upper)) && Spells(Escape(y, s, also, upper), s)
    ensures forall j | 0 <= j < |Escape(y, s, also, upper)| :: !Breaks(y, Escape(y, s, also, upper)[j])
  {
    EscapeSpells(y, s, also, upper);
    EscapeWhole(y, s, also, upper);
  }

  /** The escaped values. */
  function Escaped(y: Syntax, vals: seq<seq<Byte>>, also: set<Byte>, upper: bool): (segs: seq<seq<Byte>>)
    ensures |segs| == |vals|
    ensures forall i | 0 <= i < |vals| :: segs[i] == Escape(y, vals[i], also, upper)
  {
    if vals == [] then []
    else Escaped(y, vals[..|vals| - 1], also, upper) + [Escape(y, vals[|vals| - 1], also, upper)]
  }

  /**
   * Any list of non-empty byte strings can be written as a path or a query, and the client's
   * options then carry it, whichever bytes are escaped without need and in which case.
   */
  lemma EscapedSurvives(y: Syntax, vals: seq<seq<Byte>>, also: set<Byte>, upper: bool, room: nat)
    requires y == PATH || y == QUERY
    requires Size(vals) <= room && forall i | 0 <= i < |vals| :: 1 <= |vals[i]| <= 255
    ensures var s := Delimited(y, Escaped(y, vals, also, upper));
      Safe(Segments(y, s), room) && Taken(Segments(y, s), room) == vals
  {
    var segs := Escaped(y, vals, also, upper);
    UsualBoth(y);
    forall i | 0 <= i < |segs|
      ensures Telling(segs[i]) && Spells(segs[i], vals[i])
      ensures forall j | 0 <= j < |segs[i]| :: !Breaks(y, segs[i][j])
    {
      EscapeTells(y, vals[i], also, upper);
    }
    SplitSays(y, segs, vals, [], room);
    assert Delimited(y, segs) + [] == Delimited(y, segs);
  }
}
