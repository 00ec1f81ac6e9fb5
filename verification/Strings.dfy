/** Text in fixed buffers: protected_strcat of dIa.c, with the place where it writes the terminating zero. */
module Strings {
  import opened Bytes

  /** strlen: the bytes before the first zero. */
  function StrLen(b: seq<Byte>): (n: nat)
    ensures n <= |b| && (n < |b| ==> b[n] == 0)
    ensures forall i | 0 <= i < n :: b[i] != 0
  {
    if b == [] || b[0] == 0 then 0 else 1 + StrLen(b[1..])
  }

  lemma {:induction false} StrLenIs(b: seq<Byte>, n: nat)
    requires n < |b| && b[n] == 0 && forall i | 0 <= i < n :: b[i] != 0
    ensures StrLen(b) == n
  {
    if n > 0 {
      StrLenIs(b[1..], n - 1);
    }
  }

  predicate ZeroFree(s: seq<Byte>) { forall i | 0 <= i < |s| :: s[i] != 0 }

  predicate AllZeroFree(ss: seq<seq<Byte>>) { forall i | 0 <= i < |ss| :: ZeroFree(ss[i]) }

  function Concat(ps: seq<seq<Byte>>): seq<Byte> {
    if ps == [] then [] else Concat(ps[..|ps| - 1]) + ps[|ps| - 1]
  }

  lemma ConcatSnoc(ps: seq<seq<Byte>>, p: seq<Byte>)
    ensures Concat(ps + [p]) == Concat(ps) + p
  {
    assert (ps + [p])[..|ps|] == ps;
  }

  /** What a buffer for `max` characters keeps of a string. */
  function Cap(s: seq<Byte>, max: nat): seq<Byte> { if |s| <= max then s else s[..max] }

  /** What is appended to a text of `n` characters. */
  function Taken(from: seq<Byte>, n: nat, max: nat): seq<Byte>
    requires n <= max
  {
    Cap(from, max - n)
  }

  /** A buffer that was filled step by step keeps what it would keep of the whole string. */
  lemma CapAppend(x: seq<Byte>, y: seq<Byte>, max: nat)
    ensures Cap(x, max) + Taken(y, |Cap(x, max)|, max) == Cap(x + y, max)
  {
  }

  // ----- One call -----

  /** The bytes of a buffer behind a call, and the position at which the call has written a zero. */
  datatype Written = Written(bytes: seq<Byte>, at: nat)

  /**
   * protected_strcat: the length is taken again after the copy, so that the zero is not
   * written behind the text, but as many bytes further on as were copied.
   */
  function StrCat(b: seq<Byte>, from: seq<Byte>, max: nat): (w: Written)
    requires |b| == max + 1 && b[max] == 0
    ensures |w.bytes| == |b| && w.bytes[max] == 0
  {
    var n := Length(b, max);
    var piece := Taken(from, n, max);
    var c := b[..n] + piece + b[n + |piece|..];
    assert c[max] == 0;
    var at := Length(c, max) + |piece|;
    Written(if at <= max then c[at := 0] else c, at)
  }

  /** The length of the text in a buffer whose last byte is zero. */
  function Length(b: seq<Byte>, max: nat): (n: nat)
    requires |b| == max + 1 && b[max] == 0
    ensures n <= max && n == StrLen(b)
  {
    StrLen(b)
  }

  /** The buffer holds `text`, and nothing but zeros behind it. */
  ghost predicate Holds(b: seq<Byte>, text: seq<Byte>) {
    && |text| < |b| && b[..|text|] == text && ZeroFree(text)
    && forall i | |text| <= i < |b| :: b[i] == 0
  }

  lemma HoldsLength(b: seq<Byte>, text: seq<Byte>)
    requires Holds(b, text)
    ensures StrLen(b) == |text|
  {
    forall i | 0 <= i < |text|
      ensures b[i] != 0
    {
      assert b[i] == b[..|text|][i];
    }
    StrLenIs(b, |text|);
  }

  lemma HoldsMore(b: seq<Byte>, text: seq<Byte>, piece: seq<Byte>)
    requires Holds(b, text) && ZeroFree(piece) && |text| + |piece| < |b|
    ensures Holds(b[..|text|] + piece + b[|text| + |piece|..], text + piece)
  {
    var c := b[..|text|] + piece + b[|text| + |piece|..];
    assert c[..|text + piece|] == text + piece;
  }

  /** On text without zeros: the text is extended as far as there is room, and the zero lands behind it twice as far. */
  lemma StrCatHolds(b: seq<Byte>, text: seq<Byte>, from: seq<Byte>, max: nat)
    requires |b| == max + 1 && Holds(b, text) && ZeroFree(from)
    ensures b[max] == 0
    ensures var piece, w := Taken(from, |text|, max), StrCat(b, from, max);
      Holds(w.bytes, text + piece) && w.at == |text| + 2 * |piece|
  {
    var piece := Taken(from, |text|, max);
    HoldsLength(b, text);
    HoldsMore(b, text, piece);
    HoldsLength(b[..|text|] + piece + b[|text| + |piece|..], text + piece);
    ZeroBehind(b[..|text|] + piece + b[|text| + |piece|..], text + piece, |text| + 2 * |piece|);
  }

  /** A zero behind the text changes nothing. */
  lemma ZeroBehind(c: seq<Byte>, text: seq<Byte>, at: nat)
    requires Holds(c, text) && |text| <= at
    ensures at < |c| ==> Holds(c[at := 0], text)
  {
    if at < |c| {
      assert c[at := 0][..|text|] == c[..|text|];
    }
  }

  // ----- Many calls -----

  /** Appending these pieces to an empty buffer one after the other, every zero is written inside it. */
  ghost predicate Inside(ps: seq<seq<Byte>>, max: nat) {
    forall i | 0 <= i < |ps| :: |Concat(ps[..i])| + 2 * |ps[i]| <= max
  }

  lemma InsideSnoc(ps: seq<seq<Byte>>, p: seq<Byte>, max: nat)
    ensures Inside(ps + [p], max) <==> Inside(ps, max) && |Concat(ps)| + 2 * |p| <= max
  {
    var qs := ps + [p];
    assert qs[..|ps|] == ps;
    forall i | 0 <= i < |ps|
      ensures qs[i] == ps[i] && qs[..i] == ps[..i]
    {
    }
    if Inside(qs, max) {
      assert |Concat(qs[..|ps|])| + 2 * |qs[|ps|]| <= max;
      forall i | 0 <= i < |ps|
        ensures |Concat(ps[..i])| + 2 * |ps[i]| <= max
      {
        assert |Concat(qs[..i])| + 2 * |qs[i]| <= max;
      }
    }
  }

  /** Then the text is shorter than the buffer, and nothing was cut off. */
  lemma InsideShort(ps: seq<seq<Byte>>, max: nat)
    requires Inside(ps, max) && max > 0
    ensures |Concat(ps)| < max
  {
    if ps != [] {
      var n := |ps| - 1;
      InsideSnoc(ps[..n], ps[n], max);
      assert ps[..n] + [ps[n]] == ps;
      InsideShort(ps[..n], max);
    }
  }

  /** Half a buffer is always enough. */
  lemma {:induction false} HalfInside(ps: seq<seq<Byte>>, max: nat)
    requires 2 * |Concat(ps)| <= max
    ensures Inside(ps, max)
  {
    if ps != [] {
      var n := |ps| - 1;
      HalfInside(ps[..n], max);
      assert ps[..n] + [ps[n]] == ps;
      InsideSnoc(ps[..n], ps[n], max);
    }
  }

  /** Where the zero lands, compared with the exact condition. */
  lemma LandsInside(ps: seq<seq<Byte>>, p: seq<Byte>, max: nat, at: nat)
    requires max > 0 && Inside(ps, max) && at == |Cap(Concat(ps), max)| + 2 * |Taken(p, |Cap(Concat(ps), max)|, max)|
    ensures at <= max <==> Inside(ps + [p], max)
  {
    InsideShort(ps, max);
    InsideSnoc(ps, p, max);
  }

  /** A buffer on the stack of hnd_request, zeroed at first. `inside` tells whether no write has missed it so far. */
  class Buffer {
    const max: nat
    const bytes: array<Byte>
    var inside: bool
    ghost var pieces: seq<seq<Byte>>

    ghost predicate Valid()
      reads this, bytes
    {
      && Terminated()
      && (AllZeroFree(pieces) ==>
        Holds(bytes[..], Cap(Concat(pieces), max)) && (inside <==> Inside(pieces, max)))
    }

    constructor (max: nat)
      requires max > 0
      ensures Valid() && this.max == max && pieces == [] && inside && fresh(bytes)
    {
      this.max, inside, pieces := max, true, [];
      bytes := new Byte[max + 1](i => 0);
    }

    ghost predicate Terminated()
      reads this, bytes
    {
      max > 0 && bytes.Length == max + 1 && bytes[max] == 0
    }

    /** strlen of the buffer. */
    method Len() returns (n: nat)
      requires Terminated()
      ensures n == Length(bytes[..], max)
    {
      n := 0;
      while bytes[n] != 0
        invariant n <= max && forall i | 0 <= i < n :: bytes[i] != 0
        decreases max - n
      {
        n := n + 1;
      }
      StrLenIs(bytes[..], n);
    }

    /** memcpy into the buffer, in front of its last byte. */
    method Copy(n: nat, piece: seq<Byte>)
      requires Terminated() && n + |piece| <= max
      modifies bytes
      ensures Terminated() && bytes[..] == old(bytes[..])[..n] + piece + old(bytes[..])[n + |piece|..]
    {
      forall i | 0 <= i < |piece| {
        bytes[n + i] := piece[i];
      }
    }

    /** The zero of protected_strcat; one that does not land in the buffer is not written by the model. */
    method Terminate(at: nat)
      requires Terminated()
      modifies bytes
      ensures Terminated()
      ensures bytes[..] == if at <= max then old(bytes[..])[at := 0] else old(bytes[..])
    {
      if at <= max {
        bytes[at] := 0;
      }
    }

    /** protected_strcat */
    method Append(from: seq<Byte>) returns (at: nat)
      requires Terminated()
      modifies bytes
      ensures Terminated() && StrCat(old(bytes[..]), from, max) == Written(bytes[..], at)
    {
      var n := Len();
      var piece := Taken(from, n, max);
      Copy(n, piece);
      at := Len();
      at := at + |piece|;
      Terminate(at);
    }

    /** protected_strcat, with a note whether its zero has landed in the buffer. */
    method Cat(from: seq<Byte>)
      requires Valid()
      modifies this`inside, this`pieces, bytes
      ensures Valid() && pieces == old(pieces) + [from]
      ensures bytes[..] == StrCat(old(bytes[..]), from, max).bytes
      ensures inside <==> old(inside) && StrCat(old(bytes[..]), from, max).at <= max
    {
      CatKeeps(from);
      var at := Append(from);
      inside := inside && at <= max;
      pieces := pieces + [from];
    }

    /** The text in the buffer. */
    method Text() returns (s: seq<Byte>)
      requires Valid()
      ensures s == bytes[..][..Length(bytes[..], max)]
      ensures AllZeroFree(pieces) ==> s == Cap(Concat(pieces), max) && ZeroFree(s)
    {
      var n := Len();
      s := bytes[..n];
      if AllZeroFree(pieces) { HoldsLength(bytes[..], Cap(Concat(pieces), max)); }
    }

    /** The look at the first byte. */
    predicate Empty()
      requires bytes.Length > 0
      reads this, bytes
    {
      bytes[0] == 0
    }

    lemma EmptyIff()
      requires Valid() && AllZeroFree(pieces)
      ensures Empty() <==> Concat(pieces) == []
    {
      var text := Cap(Concat(pieces), max);
      if text != [] {
        assert bytes[..][0] == bytes[..][..|text|][0] == text[0];
      }
    }

    lemma CatKeeps(from: seq<Byte>)
      requires Valid()
      ensures AllZeroFree(pieces + [from]) ==>
        var w := StrCat(bytes[..], from, max);
        && Holds(w.bytes, Cap(Concat(pieces + [from]), max))
        && (inside && w.at <= max <==> Inside(pieces + [from], max))
    {
      if AllZeroFree(pieces + [from]) {
        assert AllZeroFree(pieces) && ZeroFree(from) by {
          assert forall i | 0 <= i < |pieces| :: (pieces + [from])[i] == pieces[i];
          assert (pieces + [from])[|pieces|] == from;
        }
        StrCatHolds(bytes[..], Cap(Concat(pieces), max), from, max);
        ConcatSnoc(pieces, from);
        CapAppend(Concat(pieces), from, max);
        if inside {
          LandsInside(pieces, from, max, StrCat(bytes[..], from, max).at);
        } else {
          InsideSnoc(pieces, from, max);
        }
      }
    }
  }
}
