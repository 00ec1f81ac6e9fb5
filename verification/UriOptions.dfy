/** Turning URI segments into options: percent decoding and the option writer of uri.c. */
module UriOptions {
  import opened Bytes
  import opened Options
  import opened UriPath
  import Seqs

  predicate IsHex(b: Byte) { 0x30 <= b <= 0x39 || 0x41 <= b <= 0x46 || 0x61 <= b <= 0x66 }

  /** hexchar_to_dec: letters have bit 6 set. */
  function HexValue(b: Byte): (v: nat)
    requires IsHex(b)
    ensures v < 16
  {
    if b / 64 % 2 == 1 then b % 16 + 9 else b % 16
  }

  /** Every percent sign is followed by two hexadecimal digits. */
  predicate WellEscaped(s: seq<Byte>) {
    if s == [] then true
    else if s[0] == PERCENT then |s| >= 3 && IsHex(s[1]) && IsHex(s[2]) && WellEscaped(s[3..])
    else WellEscaped(s[1..])
  }

  function Decoded(s: seq<Byte>): seq<Byte>
    requires WellEscaped(s)
  {
    if s == [] then []
    else if s[0] == PERCENT then [HexValue(s[1]) * 16 + HexValue(s[2])] + Decoded(s[3..])
    else [s[0]] + Decoded(s[1..])
  }

  /** Decoding never lengthens, and leaves a string as long as it was only without escapes. */
  lemma {:induction false} DecodedLength(s: seq<Byte>)
    requires WellEscaped(s)
    ensures |Decoded(s)| <= |s|
    ensures PERCENT !in s ==> Decoded(s) == s
    ensures PERCENT in s ==> |Decoded(s)| < |s|
  {
    if s != [] {
      DecodedLength(if s[0] == PERCENT then s[3..] else s[1..]);
      assert s == [s[0]] + s[1..];
    }
  }

  /**
   * The check looks at two bytes behind a percent sign if at least one is left, so that a
   * segment that ends in an incomplete escape may be completed by the byte `behind` it. The
   * unsigned length then runs below zero, and the loop off the end of the segment.
   */
  predicate RunsOff(s: seq<Byte>, behind: Byte) {
    if s == [] then false
    else if s[0] != PERCENT then RunsOff(s[1..], behind)
    else if |s| <= 2 then |s| == 2 && IsHex(s[1]) && IsHex(behind)
    else IsHex(s[1]) && IsHex(s[2]) && RunsOff(s[3..], behind)
  }

  /** It does not happen in front of a separator, a delimiter or the end of a C string. */
  lemma {:induction false} StaysOn(s: seq<Byte>, behind: Byte)
    requires !IsHex(behind)
    ensures !RunsOff(s, behind)
  {
    if s != [] {
      if s[0] != PERCENT {
        StaysOn(s[1..], behind);
      } else if |s| > 2 {
        StaysOn(s[3..], behind);
      }
    }
  }

  /** check_segment; the loop of the model stops where the original runs off. */
  method CheckSegment(s: seq<Byte>, behind: Byte) returns (r: int, off: bool)
    ensures off <==> RunsOff(s, behind)
    ensures !off ==> r == if WellEscaped(s) then |Decoded(s)| else -1
  {
    var i, n := 0, 0;
    off := false;
    assert s[0..] == s;
    while i < |s|
      invariant i <= |s|
      invariant WellEscaped(s) <==> WellEscaped(s[i..])
      invariant WellEscaped(s) ==> |Decoded(s)| == n + |Decoded(s[i..])|
      invariant RunsOff(s, behind) <==> RunsOff(s[i..], behind)
    {
      var j := i;
      if s[i] == PERCENT {
        var second := if |s| - i > 2 then s[i + 2] else behind;
        if |s| - i < 2 || !IsHex(s[i + 1]) || !IsHex(second) {
          return -1, false;
        }
        if |s| - i == 2 {
          return -1, true;
        }
        i := i + 2;
      }
      i, n := i + 1, n + 1;
      assert s[j..][i - j..] == s[i..];
    }
    r := n;
  }

  /** The bytes of `s` that the first decoded byte is made of. */
  function Unit(s: seq<Byte>): nat
    requires s != []
  {
    if s[0] == PERCENT then 3 else 1
  }

  lemma DecodedStep(s: seq<Byte>, i: nat)
    requires i < |s| && WellEscaped(s[i..])
    ensures var j := i + Unit(s[i..]);
      && j <= |s| && WellEscaped(s[j..])
      && Decoded(s[i..]) == [Decoded(s[i..])[0]] + Decoded(s[j..])
  {
    var j := i + Unit(s[i..]);
    assert s[i..][j - i..] == s[j..];
  }

  /** One round of decode_segment. */
  method DecodeByte(s: seq<Byte>, i: nat) returns (b: Byte, j: nat)
    requires i < |s| && WellEscaped(s[i..])
    ensures j == i + Unit(s[i..]) && b == Decoded(s[i..])[0]
  {
    b, j := s[i], i;
    if s[i] == PERCENT {
      b := HexValue(s[i + 1]) * 16 + HexValue(s[i + 2]);
      j := j + 2;
    }
    j := j + 1;
  }

  lemma NextByte(d: seq<Byte>, k: nat, b: Byte, rest: seq<Byte>)
    requires k <= |d| && d[k..] == [b] + rest
    ensures k < |d| && d[..k + 1] == d[..k] + [b] && d[k + 1..] == rest
  {
    assert d[k] == d[k..][0] && d[k + 1..] == d[k..][1..];
  }

  /** How far the decoding has come: `i` bytes are read, and what they stand for is written up to `p`. */
  ghost predicate Decoding(s: seq<Byte>, i: nat, written: seq<Byte>, d: seq<Byte>) {
    && i <= |s| && |written| <= |d| && written == d[..|written|]
    && WellEscaped(s[i..]) && Decoded(s[i..]) == d[|written|..]
  }

  lemma DecodingStep(s: seq<Byte>, i: nat, written: seq<Byte>, d: seq<Byte>)
    requires Decoding(s, i, written, d) && i < |s|
    ensures |written| < |d| && Decoding(s, i + Unit(s[i..]), written + [Decoded(s[i..])[0]], d)
  {
    DecodedStep(s, i);
    NextByte(d, |written|, Decoded(s[i..])[0], Decoded(s[i + Unit(s[i..])..]));
  }

  /** decode_segment: decode into the buffer at position `at`, and touch nothing before it. */
  method DecodeSegment(s: seq<Byte>, buf: array<Byte>, at: nat)
    requires WellEscaped(s) && at + |Decoded(s)| <= buf.Length
    modifies buf
    ensures buf[at..at + |Decoded(s)|] == Decoded(s)
    ensures buf[..at] == old(buf[..at])
  {
    ghost var d := Decoded(s);
    var i, p := 0, at;
    assert s[0..] == s && d[0..] == d;
    while i < |s|
      invariant at <= p <= buf.Length && Decoding(s, i, buf[at..p], d)
      invariant buf[..at] == old(buf[..at])
      decreases |s| - i
    {
      DecodingStep(s, i, buf[at..p], d);
      var b, j := DecodeByte(s, i);
      PutByte(buf, at, p, b);
      i, p := j, p + 1;
    }
    assert s[i..] == [];
  }

  // ----- The option writer -----

  /** Empty segments, "." and everything that begins with ".." is skipped. */
  predicate Skipped(seg: seq<Byte>) {
    if |seg| < 2 then seg == [DOT][..|seg|] else seg[0] == DOT && seg[1] == DOT
  }

  /** A segment with something in it that is neither "." nor begins with "..". */
  predicate Telling(seg: seq<Byte>) { seg != [] && seg != [DOT] && !([DOT, DOT] <= seg) }

  /** Those are the segments that are not skipped. */
  lemma SkippedExact(seg: seq<Byte>)
    ensures Skipped(seg) <==> !Telling(seg)
  {
    if |seg| == 1 {
      assert seg == [seg[0]] && [DOT][..1] == [DOT];
    }
  }

  /** A segment that is written as an option when there is room. */
  predicate Written(seg: seq<Byte>) { !Skipped(seg) && WellEscaped(seg) }

  /** Size of the option that carries `len` bytes. */
  function SizeFor(len: nat): nat { len + if len < 15 then 1 else 2 }

  function Size(vals: seq<seq<Byte>>): nat {
    if vals == [] then 0 else Size(vals[..|vals| - 1]) + SizeFor(|vals[|vals| - 1]|)
  }

  /** The writer has room for `val`: it counts a one-byte header. */
  predicate Room(val: seq<Byte>, room: int) { 1 + |val| <= room }

  /** The values written for the segments into a buffer of `room` bytes. */
  function Taken(segs: seq<seq<Byte>>, room: nat): seq<seq<Byte>> {
    if segs == [] then []
    else
      var front := Taken(segs[..|segs| - 1], room);
      var seg := segs[|segs| - 1];
      if Written(seg) && Room(Decoded(seg), room - Size(front)) then front + [Decoded(seg)] else front
  }

  /** If the writer writes `seg` into `room` bytes, an option header can announce it and it fits. */
  predicate Fits(seg: seq<Byte>, room: int) {
    Written(seg) && Room(Decoded(seg), room) ==> |Decoded(seg)| <= 255 && SizeFor(|Decoded(seg)|) <= room
  }

  /**
   * The writer goes wrong exactly if it accepts a value that needs a two-byte header and finds
   * room for one byte only, or one that no header can announce.
   */
  lemma FitsExact(seg: seq<Byte>, room: int)
    requires Written(seg)
    ensures var n := |Decoded(seg)|;
      Fits(seg, room) <==> !(n >= 15 && room == n + 1) && !(n > 255 && room >= n + 1)
  {
  }

  /** Space left when the segments before `i` have been handled. */
  function Left(segs: seq<seq<Byte>>, room: nat, i: nat): int
    requires i <= |segs|
  {
    room - Size(Taken(segs[..i], room))
  }

  ghost predicate Safe(segs: seq<seq<Byte>>, room: nat) {
    forall i | 0 <= i < |segs| :: Fits(segs[i], Left(segs, room, i))
  }

  /** The wire options with these values, all with delta zero. */
  ghost function Plain(vals: seq<seq<Byte>>): seq<Wire> {
    if vals == [] then [] else Plain(vals[..|vals| - 1]) + [Wire(0, vals[|vals| - 1])]
  }

  /** COAP_OPT_SETDELTA and COAP_OPT_SETLENGTH at position `at`. */
  method WriteHead(buf: array<Byte>, at: nat, len: nat)
    requires len <= 255 && at + SizeFor(len) <= buf.Length
    modifies buf
    ensures buf[at..at + |SetHead(0, len)|] == SetHead(0, len) && buf[..at] == old(buf[..at])
  {
    buf[at] := buf[at] % 16;
    if len % 256 < 15 {
      buf[at] := len;
    } else {
      buf[at] := 15;
      buf[at + 1] := len - 15;
    }
  }

  /** What stands behind a segment: a separator, a delimiter or the end of the string, none of them a digit. */
  const BEHIND: Byte := 0

  /** make_decoded_option: write the decoded segment as an option of delta zero at position `at`. */
  method MakeDecodedOption(s: seq<Byte>, buf: array<Byte>, at: nat) returns (res: int)
    requires at <= buf.Length
    requires WellEscaped(s) && Room(Decoded(s), buf.Length - at) ==>
      |Decoded(s)| <= 255 && SizeFor(|Decoded(s)|) <= buf.Length - at
    modifies buf
    ensures buf[..at] == old(buf[..at])
    ensures if WellEscaped(s) && Room(Decoded(s), buf.Length - at)
      then res == SizeFor(|Decoded(s)|) && buf[at..at + res] == WireBytes(Wire(0, Decoded(s)))
      else res == -1
  {
    StaysOn(s, BEHIND);
    var len, _ := CheckSegment(s, BEHIND);
    if len < 0 || buf.Length - at < 1 + len {
      return -1;
    }
    ghost var w := Wire(0, Decoded(s));
    SetHeadExact(0, w.val);
    WriteHead(buf, at, len);
    var value := at + if len < 15 then 1 else 2;
    ghost var mid := buf[..];
    assert buf[at..value] == Head(w);
    DecodeSegment(s, buf, value);
    res := SizeFor(len);
    Seqs.PrefixSlice(buf[..], mid, value, 0, at);
    Seqs.PrefixSlice(buf[..], mid, value, at, value);
    Seqs.SliceConcat(buf[..], at, value, at + res);
  }

  lemma PlainStep(vals: seq<seq<Byte>>, v: seq<Byte>)
    requires AllValid(Plain(vals)) && |v| <= 255
    ensures AllValid(Plain(vals + [v])) && |WireBytes(Wire(0, v))| == SizeFor(|v|)
    ensures Flat(Plain(vals + [v])) == Flat(Plain(vals)) + WireBytes(Wire(0, v))
    ensures Size(vals + [v]) == Size(vals) + SizeFor(|v|)
  {
    assert (vals + [v])[..|vals|] == vals;
    FlatSnoc(Plain(vals), Wire(0, v));
  }

  /** The buffer begins with the options that carry `vals`. */
  ghost predicate Carries(s: seq<Byte>, vals: seq<seq<Byte>>) {
    && AllValid(Plain(vals)) && |Flat(Plain(vals))| == Size(vals) <= |s|
    && s[..Size(vals)] == Flat(Plain(vals))
  }

  /** One more option behind those in the buffer. */
  lemma CarriesMore(s: seq<Byte>, vals: seq<seq<Byte>>, v: seq<Byte>)
    requires Carries(s, vals) && |v| <= 255 && Size(vals) + SizeFor(|v|) <= |s|
    requires s[Size(vals)..Size(vals) + SizeFor(|v|)] == WireBytes(Wire(0, v))
    ensures Carries(s, vals + [v]) && Size(vals + [v]) == Size(vals) + SizeFor(|v|)
  {
    PlainStep(vals, v);
    CarriesJoined(s, vals + [v], Flat(Plain(vals)), WireBytes(Wire(0, v)));
  }

  lemma CarriesJoined(s: seq<Byte>, vals: seq<seq<Byte>>, f: seq<Byte>, w: seq<Byte>)
    requires AllValid(Plain(vals)) && Flat(Plain(vals)) == f + w && Size(vals) == |f| + |w| <= |s|
    requires s[..|f|] == f && s[|f|..|f| + |w|] == w
    ensures Carries(s, vals)
  {
    Seqs.PrefixConcat(s, f, w);
    CarriesIs(s, vals, f + w);
  }

  lemma CarriesIs(s: seq<Byte>, vals: seq<seq<Byte>>, f: seq<Byte>)
    requires AllValid(Plain(vals)) && Flat(Plain(vals)) == f && Size(vals) == |f| <= |s| && s[..|f|] == f
    ensures Carries(s, vals)
  {
  }

  /** One call of write_option. */
  method WriteOption(seg: seq<Byte>, buf: array<Byte>, at: nat, ghost vals: seq<seq<Byte>>) returns (res: int)
    requires Carries(buf[..], vals) && at == Size(vals) && Fits(seg, buf.Length - at)
    modifies buf
    ensures res > 0 <==> Written(seg) && Room(Decoded(seg), buf.Length - at)
    ensures res > 0 ==> Carries(buf[..], vals + [Decoded(seg)]) && Size(vals + [Decoded(seg)]) == at + res
    ensures res <= 0 ==> Carries(buf[..], vals)
  {
    if Skipped(seg) {
      return 0;
    }
    assert buf[..][..at] == buf[..at];
    res := MakeDecodedOption(seg, buf, at);
    assert buf[..][..at] == buf[..at];
    if res > 0 {
      assert buf[..][at..at + res] == buf[at..at + res];
      CarriesMore(buf[..], vals, Decoded(seg));
    }
  }

  lemma TakenStep(segs: seq<seq<Byte>>, room: nat, i: nat)
    requires i < |segs|
    ensures Taken(segs[..i + 1], room) == Taken(segs[..i], room) +
      if Written(segs[i]) && Room(Decoded(segs[i]), Left(segs, room, i)) then [Decoded(segs[i])] else []
  {
    assert segs[..i + 1][..i] == segs[..i];
    assert Taken(segs[..i], room) + [] == Taken(segs[..i], room);
  }

  /** coap_split_path and coap_split_query: the options in the buffer carry the decoded segments. */
  method SplitToOptions(s: seq<Byte>, y: Syntax, buf: array<Byte>) returns (n: nat, left: nat)
    requires Safe(Segments(y, s), buf.Length)
    modifies buf
    ensures var vals := Taken(Segments(y, s), buf.Length);
      n == |vals| && left == buf.Length - Size(vals) && Carries(buf[..], vals)
  {
    var segs := Split(s, y);
    var at := 0;
    n := 0;
    ghost var vals := [];
    for i := 0 to |segs|
      invariant vals == Taken(segs[..i], buf.Length)
      invariant n == |vals| && at == Size(vals) && Carries(buf[..], vals)
    {
      TakenStep(segs, buf.Length, i);
      var res := WriteOption(segs[i], buf, at, vals);
      if res > 0 {
        at, n := at + res, n + 1;
        vals := vals + [Decoded(segs[i])];
      }
    }
    assert segs[..|segs|] == segs;
    left := buf.Length - at;
  }

  // ----- With enough room every written segment is there -----

  /** The values of all segments that are neither skipped nor badly escaped. */
  function Values(segs: seq<seq<Byte>>): seq<seq<Byte>> {
    if segs == [] then []
    else
      var seg := segs[|segs| - 1];
      Values(segs[..|segs| - 1]) + if Written(seg) then [Decoded(seg)] else []
  }

  lemma ValuesSize(segs: seq<seq<Byte>>)
    requires segs != []
    ensures Size(Values(segs)) == Size(Values(segs[..|segs| - 1])) +
      if Written(segs[|segs| - 1]) then SizeFor(|Decoded(segs[|segs| - 1])|) else 0
  {
    var v, seg := Values(segs[..|segs| - 1]), segs[|segs| - 1];
    if Written(seg) {
      assert (v + [Decoded(seg)])[..|v|] == v;
    } else {
      assert v + [] == v;
    }
  }

  lemma {:induction false} EnoughRoom(segs: seq<seq<Byte>>, room: nat)
    requires Size(Values(segs)) <= room
    ensures Taken(segs, room) == Values(segs)
  {
    if segs != [] {
      ValuesSize(segs);
      EnoughRoom(segs[..|segs| - 1], room);
      assert Values(segs[..|segs| - 1]) + [] == Values(segs[..|segs| - 1]);
    }
  }

  lemma {:induction false} ValuesGrow(segs: seq<seq<Byte>>, i: nat)
    requires i < |segs|
    ensures var more := if Written(segs[i]) then SizeFor(|Decoded(segs[i])|) else 0;
      Size(Values(segs[..i])) + more <= Size(Values(segs))
  {
    ValuesSize(segs);
    var front := segs[..|segs| - 1];
    if i < |front| {
      ValuesGrow(front, i);
      assert front[..i] == segs[..i];
    }
  }

  /** No written segment stands for more than 255 bytes. */
  ghost predicate Announceable(segs: seq<seq<Byte>>) {
    forall i | 0 <= i < |segs| && Written(segs[i]) :: |Decoded(segs[i])| <= 255
  }

  /** With room for all its options, such a list of segments is written safely and completely. */
  lemma SafeWithRoom(segs: seq<seq<Byte>>, room: nat)
    requires Size(Values(segs)) <= room && Announceable(segs)
    ensures Safe(segs, room) && Taken(segs, room) == Values(segs)
  {
    EnoughRoom(segs, room);
    forall i | 0 <= i < |segs|
      ensures Fits(segs[i], Left(segs, room, i))
    {
      ValuesGrow(segs, i);
      EnoughRoom(segs[..i], room);
    }
  }

  // ----- When do the options carry the same bytes as the path? -----

  /** A segment whose option carries its bytes unchanged, or that has none. */
  predicate Verbatim(seg: seq<Byte>) { seg == [] || (Telling(seg) && PERCENT !in seg) }

  lemma JoinedLast(segs: seq<seq<Byte>>)
    requires segs != []
    ensures Joined(segs) == Joined(segs[..|segs| - 1]) + segs[|segs| - 1]
  {
    JoinedSnoc(segs[..|segs| - 1], segs[|segs| - 1]);
    assert segs[..|segs| - 1] + [segs[|segs| - 1]] == segs;
  }

  lemma {:induction false} NoPercent(s: seq<Byte>)
    requires PERCENT !in s
    ensures WellEscaped(s)
  {
    if s != [] {
      NoPercent(s[1..]);
    }
  }

  /** What one segment contributes to the options: its own bytes, or fewer. */
  lemma Contribution(seg: seq<Byte>)
    ensures var c := if Written(seg) then Decoded(seg) else [];
      if Verbatim(seg) then c == seg else |c| < |seg|
  {
    SkippedExact(seg);
    if PERCENT !in seg {
      NoPercent(seg);
    }
    if WellEscaped(seg) {
      DecodedLength(seg);
    }
  }

  lemma {:induction false} ValuesJoined(segs: seq<seq<Byte>>)
    ensures |Joined(Values(segs))| <= |Joined(segs)|
    ensures if forall i | 0 <= i < |segs| :: Verbatim(segs[i]) then Joined(Values(segs)) == Joined(segs)
      else |Joined(Values(segs))| < |Joined(segs)|
  {
    if segs != [] {
      var front, seg := segs[..|segs| - 1], segs[|segs| - 1];
      ValuesJoined(front);
      Contribution(seg);
      JoinedLast(segs);
      if Written(seg) {
        JoinedSnoc(Values(front), Decoded(seg));
      } else {
        assert Values(front) + [] == Values(front);
      }
      assert (forall i | 0 <= i < |segs| :: Verbatim(segs[i])) <==>
        (forall i | 0 <= i < |front| :: Verbatim(front[i])) && Verbatim(seg);
    }
  }

  /** No percent escape, no "." segment and no segment that begins with "..". */
  ghost predicate Clean(path: seq<Byte>) {
    forall i | 0 <= i < |Segments(PATH, path)| :: Verbatim(Segments(PATH, path)[i])
  }

  /** The options of a path carry the bytes its key is computed from, if and only if the path is clean. */
  lemma StreamsAgree(path: seq<Byte>)
    ensures Joined(Values(Segments(PATH, path))) == Stream(path) <==> Clean(path)
  {
    SegmentsJoined(PATH, path);
    ValuesJoined(Segments(PATH, path));
  }
}
