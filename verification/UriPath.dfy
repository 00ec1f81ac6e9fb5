/** Splitting and hashing URI paths: the segment iterator and the option writer of uri.c. */
module UriPath {
  import opened Bytes
  import opened HashKey
  import Seqs

  const DOT: Byte := 0x2E
  const PERCENT: Byte := 0x25

  /** What separates segments and what ends the string: '/' and "?#" for a path, '&' and "#" for a query. */
  datatype Syntax = Syntax(separator: Byte, delim: set<Byte>)

  const PATH: Syntax := Syntax(SLASH, {0x3F, 0x23})

  predicate Breaks(y: Syntax, b: Byte) { b == y.separator || b in y.delim }

  /** Length of the segment at the beginning of `s`. */
  function SegmentLength(y: Syntax, s: seq<Byte>): (n: nat)
    ensures n <= |s| && (n < |s| ==> Breaks(y, s[n]))
    ensures forall i | 0 <= i < n :: !Breaks(y, s[i])
  {
    if s == [] || Breaks(y, s[0]) then 0 else 1 + SegmentLength(y, s[1..])
  }

  /** The string behind the separator that may precede a segment. */
  function Behind(y: Syntax, s: seq<Byte>): seq<Byte> {
    if s != [] && s[0] == y.separator then s[1..] else s
  }

  predicate Ended(y: Syntax, s: seq<Byte>) { s == [] || s[0] in y.delim || Behind(y, s) == [] }

  /** The segments that the iterator delivers for the rest `s` of its string. */
  function Segments(y: Syntax, s: seq<Byte>): seq<seq<Byte>>
    decreases |s|
  {
    if Ended(y, s) then []
    else
      var t := Behind(y, s);
      var n := SegmentLength(y, t);
      [t[..n]] + Segments(y, t[n..])
  }

  // ----- What the segments are, without the iterator -----

  /** The part of the string before the first delimiter. */
  function Before(y: Syntax, s: seq<Byte>): seq<Byte> {
    if s == [] || s[0] in y.delim then [] else [s[0]] + Before(y, s[1..])
  }

  /** The string without its separators. */
  function Bare(y: Syntax, s: seq<Byte>): seq<Byte> {
    if s == [] then [] else (if s[0] == y.separator then [] else [s[0]]) + Bare(y, s[1..])
  }

  function Joined(segs: seq<seq<Byte>>): seq<Byte> {
    if segs == [] then [] else segs[0] + Joined(segs[1..])
  }

  lemma {:induction false} BareSegment(y: Syntax, s: seq<Byte>, n: nat)
    requires n <= |s| && forall i | 0 <= i < n :: !Breaks(y, s[i])
    ensures Bare(y, Before(y, s)) == s[..n] + Bare(y, Before(y, s[n..]))
  {
    if n > 0 {
      BareSegment(y, s[1..], n - 1);
      assert s[1..][n - 1..] == s[n..];
      assert Before(y, s) == [s[0]] + Before(y, s[1..]);
      assert Before(y, s)[1..] == Before(y, s[1..]);
      assert s[..n] == [s[0]] + s[1..][..n - 1];
    } else {
      assert s[n..] == s;
    }
  }

  /** All segments together are the string before the first delimiter, without separators. */
  lemma {:induction false} SegmentsJoined(y: Syntax, s: seq<Byte>)
    requires y.separator !in y.delim
    ensures Joined(Segments(y, s)) == Bare(y, Before(y, s))
    decreases |s|
  {
    var t := Behind(y, s);
    assert Bare(y, Before(y, s)) == Bare(y, Before(y, t)) by {
      if t != s {
        assert Before(y, s) == [s[0]] + Before(y, t);
        assert Before(y, s)[1..] == Before(y, t);
      }
    }
    if !Ended(y, s) {
      var n := SegmentLength(y, t);
      SegmentsJoined(y, t[n..]);
      BareSegment(y, t, n);
      assert Segments(y, s)[1..] == Segments(y, t[n..]);
    }
  }

  // ----- The iterator -----

  /** One step of the iterator from position `p`; its segment begins at `q`. */
  lemma SegmentsAt(y: Syntax, s: seq<Byte>, p: nat, q: nat)
    requires p < |s| && q <= |s| && s[p] !in y.delim && s[q..] == Behind(y, s[p..])
    ensures q == |s| ==> Segments(y, s[p..]) == []
    ensures q < |s| ==>
      var n := q + SegmentLength(y, s[q..]);
      n <= |s| && Segments(y, s[p..]) == [s[q..n]] + Segments(y, s[n..])
  {
    if q < |s| {
      var n := SegmentLength(y, s[q..]);
      assert s[q..][..n] == s[q..q + n] && s[q..][n..] == s[q + n..];
    }
  }

  /** What a step delivers: nothing at the end, or the segment at `q` and what follows it. */
  lemma StepFrom(y: Syntax, s: seq<Byte>, p: nat, q: nat, len: nat, found: bool)
    requires p <= |s| && q <= |s| && (p < |s| && s[p] !in y.delim ==> s[q..] == Behind(y, s[p..]))
    requires found <==> p < |s| && s[p] !in y.delim && q < |s|
    requires found ==> len == SegmentLength(y, s[q..])
    ensures !found ==> Segments(y, s[p..]) == []
    ensures found ==> q + len <= |s| && Segments(y, s[p..]) == [s[q..q + len]] + Segments(y, s[q + len..])
  {
    if p < |s| && s[p] !in y.delim {
      SegmentsAt(y, s, p, q);
    }
  }

  /** coap_parse_iterator_t over the string `s`; `n` bytes are left at position `pos`. */
  class ParseIterator {
    const s: seq<Byte>
    const y: Syntax
    var pos: nat
    var n: nat
    var segmentLength: nat

    ghost predicate Valid()
      reads this
    {
      pos + n == |s| && segmentLength <= n
    }

    /** The segments still to come. */
    ghost function Rest(): seq<seq<Byte>>
      requires Valid()
      reads this
    {
      Segments(y, s[pos + segmentLength..])
    }

    /** coap_parse_iterator_init */
    constructor (s: seq<Byte>, y: Syntax)
      ensures Valid() && this.s == s && this.y == y && Rest() == Segments(y, s)
    {
      this.s, this.y, pos, n, segmentLength := s, y, 0, |s|, 0;
      new;
      assert s[0..] == s;
    }

    /** The loop of coap_parse_next. */
    method Measure()
      requires pos + n == |s| && segmentLength == 0
      modifies this`segmentLength
      ensures segmentLength == SegmentLength(y, s[pos..])
    {
      ghost var t := s[pos..];
      while segmentLength < n && s[pos + segmentLength] != y.separator && s[pos + segmentLength] !in y.delim
        invariant segmentLength <= n
        invariant forall i | 0 <= i < segmentLength :: !Breaks(y, t[i])
      {
        segmentLength := segmentLength + 1;
      }
    }

    /** The current segment. */
    function Segment(): seq<Byte>
      requires Valid()
      reads this
    {
      s[pos..pos + segmentLength]
    }

    /** The first part of coap_parse_next: go behind the current segment and the separator. */
    method Proceed() returns (more: bool)
      requires Valid()
      modifies this
      ensures pos + n == |s| && segmentLength == 0
      ensures var p := old(pos + segmentLength);
        && (more <==> p < |s| && s[p] !in y.delim)
        && (more ==> s[pos..] == Behind(y, s[p..]) && (pos == p ==> s[p] != y.separator))
    {
      n := n - segmentLength;
      pos := pos + segmentLength;
      segmentLength := 0;
      more := n != 0 && s[pos] !in y.delim;
      if more && s[pos] == y.separator {
        pos := pos + 1;
        n := n - 1;
      }
    }

    /** coap_parse_next: what is left behind the current segment strictly falls. */
    method Next() returns (found: bool)
      requires Valid()
      modifies this
      ensures Valid()
      ensures !found ==> old(Rest()) == []
      ensures found ==> old(Rest()) == [Segment()] + Rest()
      ensures found ==> n - segmentLength < old(n - segmentLength)
    {
      ghost var p := pos + segmentLength;
      found := Proceed();
      if found {
        Measure();
        found := n != 0;
      }
      Landed(p, found);
    }

    /** The iterator has gone from position `p` to its current segment. */
    lemma Landed(p: nat, found: bool)
      requires Valid() && p <= |s| && (p < |s| && s[p] !in y.delim ==> s[pos..] == Behind(y, s[p..]))
      requires found <==> p < |s| && s[p] !in y.delim && pos < |s|
      requires found ==> segmentLength == SegmentLength(y, s[pos..])
      ensures !found ==> Segments(y, s[p..]) == []
      ensures found ==> Segments(y, s[p..]) == [Segment()] + Rest()
    {
      StepFrom(y, s, p, pos, segmentLength, found);
      assert found ==> Segment() == s[pos..pos + segmentLength] && Rest() == Segments(y, s[pos + segmentLength..]);
    }
  }

  lemma {:induction false} JoinedSnoc(segs: seq<seq<Byte>>, seg: seq<Byte>)
    ensures Joined(segs + [seg]) == Joined(segs) + seg
  {
    if segs == [] {
      assert ([seg])[1..] == [] && segs + [seg] == [seg];
    } else {
      JoinedSnoc(segs[1..], seg);
      assert (segs + [seg])[1..] == segs[1..] + [seg];
    }
  }

  /** coap_split_path_impl: the arguments its handler is called with, in order. */
  method Split(s: seq<Byte>, y: Syntax) returns (segs: seq<seq<Byte>>)
    ensures segs == Segments(y, s)
  {
    var pi := new ParseIterator(s, y);
    segs := [];
    var found := pi.Next();
    while found
      invariant pi.Valid() && fresh(pi)
      invariant Segments(y, s) == segs + if found then [pi.Segment()] + pi.Rest() else []
      decreases found, pi.n - pi.segmentLength
    {
      Seqs.Assoc(segs, [pi.Segment()], pi.Rest());
      segs := segs + [pi.Segment()];
      found := pi.Next();
    }
  }

  /** What the key of a path is computed from. */
  function Stream(path: seq<Byte>): seq<Byte> { Bare(PATH, Before(PATH, path)) }

  method Clear(key: array<Byte>)
    requires key.Length == 4
    modifies key
    ensures key[..] == ZERO
  {
    for i := 0 to 4
      invariant forall j | 0 <= j < i :: key[j] == 0
    {
      key[i] := 0;
    }
  }

  /** Hash the strings one after the other. */
  method HashAll(segs: seq<seq<Byte>>, key: array<Byte>)
    requires key.Length == 4
    modifies key
    ensures key[..] == Fold(ZERO, Joined(segs))
  {
    Clear(key);
    for i := 0 to |segs|
      invariant key[..] == Fold(ZERO, Joined(segs[..i]))
    {
      Hash(segs[i], key);
      FoldConcat(ZERO, Joined(segs[..i]), segs[i]);
      JoinedSnoc(segs[..i], segs[i]);
      assert segs[..i] + [segs[i]] == segs[..i + 1];
    }
    assert segs[..|segs|] == segs;
  }

  /** coap_hash_path: the key of the path without its slashes, up to a query or fragment. */
  method HashPath(path: seq<Byte>, key: array<Byte>)
    requires key.Length == 4
    modifies key
    ensures key[..] == Fold(ZERO, Stream(path))
  {
    var segs := Split(path, PATH);
    HashAll(segs, key);
    SegmentsJoined(PATH, path);
  }
}
