/** The four-byte resource key of hashkey.c. */
module HashKey {
  import opened Bytes

  type Key = k: seq<Byte> | |k| == 4 witness [0, 0, 0, 0]

  const ZERO: Key := [0, 0, 0, 0]

  /**
   * New value of a key byte: the byte shifted left by seven, joined with the upper seven
   * bits of its neighbour, plus the byte itself. The joined bits do not overlap.
   */
  function Mix(h: Byte, below: Byte): Byte { (h * 128 % 256 + below / 2 + h) % 256 }

  /** The key after one more input byte. */
  function Absorb(k: Key, b: Byte): Key {
    [(k[0] * 128 % 256 + k[0] + b) % 256, Mix(k[1], k[0]), Mix(k[2], k[1]), Mix(k[3], k[2])]
  }

  /** The key after a string of input bytes. */
  function Fold(k: Key, s: seq<Byte>): Key {
    if s == [] then k else Absorb(Fold(k, s[..|s| - 1]), s[|s| - 1])
  }

  /** Hashing two strings one after the other is hashing their concatenation. */
  lemma {:induction false} FoldConcat(k: Key, a: seq<Byte>, b: seq<Byte>)
    ensures Fold(k, a + b) == Fold(Fold(k, a), b)
    decreases |b|
  {
    if b == [] {
      assert a + b == a;
    } else {
      var c := b[..|b| - 1];
      FoldConcat(k, a, c);
      assert (a + b)[..|a + b| - 1] == a + c;
    }
  }

  /** Each input byte can be undone: no two keys become one. */
  lemma AbsorbInjective(k: Key, l: Key, b: Byte)
    requires Absorb(k, b) == Absorb(l, b)
    ensures k == l
  {
    var x, y := Absorb(k, b), Absorb(l, b);
    FirstByte(k, l, b, x[0], y[0]);
    NextByte(k[1], l[1], k[0], x[1], y[1]);
    NextByte(k[2], l[2], k[1], x[2], y[2]);
    NextByte(k[3], l[3], k[2], x[3], y[3]);
  }

  lemma FirstByte(k: Key, l: Key, b: Byte, x: Byte, y: Byte)
    requires x == (k[0] * 128 % 256 + k[0] + b) % 256 && y == (l[0] * 128 % 256 + l[0] + b) % 256 && x == y
    ensures k[0] == l[0]
  {
    Times129(k[0], l[0], b);
  }

  lemma NextByte(h: Byte, g: Byte, below: Byte, x: Byte, y: Byte)
    requires x == Mix(h, below) == y == Mix(g, below)
    ensures h == g
  {
    Times129(h, g, below / 2);
  }

  /** Shifting a byte by seven leaves its lowest bit. */
  lemma LowestBit(x: Byte)
    ensures x * 128 % 256 == x % 2 * 128
  {
    var q := x / 2;
    assert x * 128 == q * 256 + x % 2 * 128;
  }

  /** Equal remainders: the difference is a multiple of 256. */
  lemma Congruent(p: nat, q: nat) returns (d: int)
    requires p % 256 == q % 256
    ensures p - q == 256 * d
  {
    d := p / 256 - q / 256;
  }

  lemma Times129(x: Byte, y: Byte, add: Byte)
    requires (x * 128 % 256 + add + x) % 256 == (y * 128 % 256 + add + y) % 256
    ensures x == y
  {
    LowestBit(x);
    LowestBit(y);
    var d := Congruent(x % 2 * 128 + add + x, y % 2 * 128 + add + y);
    assert x == 2 * (x / 2) + x % 2 && y == 2 * (y / 2) + y % 2;
  }

  /** Different keys stay different, whatever is hashed behind. */
  lemma {:induction false} FoldInjective(k: Key, l: Key, s: seq<Byte>)
    requires Fold(k, s) == Fold(l, s)
    ensures k == l
  {
    if s != [] {
      AbsorbInjective(Fold(k, s[..|s| - 1]), Fold(l, s[..|s| - 1]), s[|s| - 1]);
      FoldInjective(k, l, s[..|s| - 1]);
    }
  }

  /** The first byte of a key tells which byte was hashed last. */
  lemma LastByteTells(k: Key, a: Byte, b: Byte)
    requires Absorb(k, a) == Absorb(k, b)
    ensures a == b
  {
    var x, y := Absorb(k, a), Absorb(k, b);
    FirstTells(k[0], a, b, x[0], y[0]);
  }

  lemma FirstTells(h: Byte, a: Byte, b: Byte, x: Byte, y: Byte)
    requires x == (h * 128 % 256 + h + a) % 256 && y == (h * 128 % 256 + h + b) % 256 && x == y
    ensures a == b
  {
    var c: int := h as int * 128 % 256 + h as int;
    if a != b {
      Shifted(c, a, b);
    }
  }

  lemma Shifted(c: nat, a: Byte, b: Byte)
    requires a != b
    ensures (c + a) % 256 != (c + b) % 256
  {
    if (c + a) % 256 == (c + b) % 256 {
      var d := Congruent(c + a, c + b);
    }
  }

  /** Strings that differ in one byte have different keys. */
  lemma OneByteDiffers(k: Key, front: seq<Byte>, a: Byte, b: Byte, back: seq<Byte>)
    requires a != b
    ensures Fold(k, front + [a] + back) != Fold(k, front + [b] + back)
  {
    var m := Fold(k, front);
    FoldSnoc(k, front, a);
    FoldSnoc(k, front, b);
    FoldConcat(k, front + [a], back);
    FoldConcat(k, front + [b], back);
    if Fold(Absorb(m, a), back) == Fold(Absorb(m, b), back) {
      FoldInjective(Absorb(m, a), Absorb(m, b), back);
      LastByteTells(m, a, b);
    }
  }

  lemma FoldSnoc(k: Key, s: seq<Byte>, b: Byte)
    ensures Fold(k, s + [b]) == Absorb(Fold(k, s), b)
  {
    assert (s + [b])[..|s|] == s;
  }

  // ----- The key of the well-known resource -----

  ghost predicate Linked(keys: seq<Key>, w: seq<Byte>, i: nat) {
    i < |w| < |keys| && keys[i + 1] == Absorb(keys[i], w[i])
  }

  /** The keys of the prefixes of a string. */
  ghost predicate Chain(keys: seq<Key>, w: seq<Byte>) {
    |keys| == |w| + 1 && forall i: nat | i < |w| :: Linked(keys, w, i)
  }

  ghost predicate KeyAt(keys: seq<Key>, i: nat, k0: nat, k1: nat, k2: nat, k3: nat) {
    i < |keys| && keys[i][0] == k0 && keys[i][1] == k1 && keys[i][2] == k2 && keys[i][3] == k3
  }

  /** One link of the chain, computed. */
  lemma Link(keys: seq<Key>, w: seq<Byte>, i: nat, b: Byte, k0: nat, k1: nat, k2: nat, k3: nat,
      l0: nat, l1: nat, l2: nat, l3: nat)
    requires Chain(keys, w) && i < |w| && w[i] == b && KeyAt(keys, i, k0, k1, k2, k3)
    requires l0 == (k0 * 128 % 256 + k0 + b) % 256 && l1 == (k1 * 128 % 256 + k0 / 2 + k1) % 256
    requires l2 == (k2 * 128 % 256 + k1 / 2 + k2) % 256 && l3 == (k3 * 128 % 256 + k2 / 2 + k3) % 256
    ensures KeyAt(keys, i + 1, l0, l1, l2, l3)
  {
    assert Linked(keys, w, i);
  }

  /** The links for ".well-". */
  lemma LinksWell(keys: seq<Key>, w: seq<Byte>)
    requires Chain(keys, w) && |w| == 15 && KeyAt(keys, 0, 0, 0, 0, 0)
    requires w[0] == 0x2E && w[1] == 0x77 && w[2] == 0x65 && w[3] == 0x6C && w[4] == 0x6C && w[5] == 0x2D
    ensures KeyAt(keys, 6, 143, 218, 234, 111)
  {
    Link(keys, w, 0, 0x2E, 0, 0, 0, 0, 46, 0, 0, 0);
    Link(keys, w, 1, 0x77, 46, 0, 0, 0, 165, 23, 0, 0);
    Link(keys, w, 2, 0x65, 165, 23, 0, 0, 138, 233, 11, 0);
    Link(keys, w, 3, 0x6C, 138, 233, 11, 0, 246, 174, 255, 5);
    Link(keys, w, 4, 0x6C, 246, 174, 255, 5, 98, 41, 214, 4);
    Link(keys, w, 5, 0x2D, 98, 41, 214, 4, 143, 218, 234, 111);
  }

  /** The links for "known". */
  lemma LinksKnown(keys: seq<Key>, w: seq<Byte>)
    requires Chain(keys, w) && |w| == 15 && KeyAt(keys, 6, 143, 218, 234, 111)
    requires w[6] == 0x6B && w[7] == 0x6E && w[8] == 0x6F && w[9] == 0x77 && w[10] == 0x6E
    ensures KeyAt(keys, 11, 188, 36, 189, 236)
  {
    Link(keys, w, 6, 0x6B, 143, 218, 234, 111, 122, 33, 87, 100);
    Link(keys, w, 7, 0x6E, 122, 33, 87, 100, 232, 222, 231, 143);
    Link(keys, w, 8, 0x6F, 232, 222, 231, 143, 87, 82, 214, 130);
    Link(keys, w, 9, 0x77, 87, 82, 214, 130, 78, 125, 255, 237);
    Link(keys, w, 10, 0x6E, 78, 125, 255, 237, 188, 36, 189, 236);
  }

  /** The links for "core". */
  lemma LinksCore(keys: seq<Key>, w: seq<Byte>)
    requires Chain(keys, w) && |w| == 15 && KeyAt(keys, 11, 188, 36, 189, 236)
    requires w[11] == 0x63 && w[12] == 0x6F && w[13] == 0x72 && w[14] == 0x65
    ensures KeyAt(keys, 15, 229, 88, 100, 165)
  {
    Link(keys, w, 11, 0x63, 188, 36, 189, 236, 31, 130, 79, 74);
    Link(keys, w, 12, 0x6F, 31, 130, 79, 74, 14, 145, 16, 113);
    Link(keys, w, 13, 0x72, 14, 145, 16, 113, 128, 24, 88, 249);
    Link(keys, w, 14, 0x65, 128, 24, 88, 249, 229, 88, 100, 165);
  }

  lemma {:induction false} FoldChain(w: seq<Byte>) returns (keys: seq<Key>)
    ensures Chain(keys, w) && KeyAt(keys, 0, 0, 0, 0, 0) && keys[|w|] == Fold(ZERO, w)
    decreases |w|
  {
    if w == [] {
      keys := [ZERO];
    } else {
      var n := |w| - 1;
      var front := FoldChain(w[..n]);
      keys := front + [Fold(ZERO, w)];
      forall i: nat | i < |w|
        ensures Linked(keys, w, i)
      {
        assert i < n ==> Linked(front, w[..n], i);
      }
    }
  }

  /** The key of ".well-known" and "core" is the constant COAP_DEFAULT_WKC_HASHKEY. */
  lemma WellKnownKey(w: seq<Byte>)
    requires w == [0x2E, 0x77, 0x65, 0x6C, 0x6C, 0x2D, 0x6B, 0x6E, 0x6F, 0x77, 0x6E,
      0x63, 0x6F, 0x72, 0x65]
    ensures Fold(ZERO, w) == [0xE5, 0x58, 0x64, 0xA5]
  {
    var keys := FoldChain(w);
    LinksWell(keys, w);
    LinksKnown(keys, w);
    LinksCore(keys, w);
  }

  /** The inner loop of coap_hash_impl and the last statement: one input byte, in place. */
  method AbsorbInPlace(h: array<Byte>, b: Byte)
    requires h.Length == 4
    modifies h
    ensures h[..] == Absorb(old(h[..]), b)
  {
    var j := 3;
    while j > 0
      invariant 0 <= j <= 3
      invariant forall i | 0 <= i <= j :: h[i] == old(h[i])
      invariant forall i | j < i <= 3 :: h[i] == Mix(old(h[i]), old(h[i - 1]))
    {
      h[j] := Mix(h[j], h[j - 1]);
      j := j - 1;
    }
    h[0] := (h[0] * 128 % 256 + h[0] + b) % 256;
  }

  /** coap_hash_impl. */
  method Hash(s: seq<Byte>, h: array<Byte>)
    requires h.Length == 4
    modifies h
    ensures h[..] == Fold(old(h[..]), s)
  {
    for i := 0 to |s|
      invariant h[..] == Fold(old(h[..]), s[..i])
    {
      AbsorbInPlace(h, s[i]);
      assert s[..i + 1][..i] == s[..i];
    }
    assert s[..|s|] == s;
  }
}
