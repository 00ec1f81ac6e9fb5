/** Bytes, powers of two and the variable-length integers of encode.c. */
module Bytes {

  type Byte = b: int | 0 <= b < 256

  const UINT_MOD: nat := 0x1_0000_0000
  const SLASH: Byte := 0x2F

  function Min(a: int, b: int): int { if a < b then a else b }

  function Pow2(n: nat): (r: nat)
    ensures r >= 1
  {
    if n == 0 then 1 else 2 * Pow2(n - 1)
  }

  lemma {:induction false} Pow2Add(a: nat, b: nat)
    ensures Pow2(a + b) == Pow2(a) * Pow2(b)
  {
    if a > 0 {
      Pow2Add(a - 1, b);
      assert a + b - 1 == (a - 1) + b;
      Twice(Pow2(a - 1), Pow2(b));
    }
  }

  lemma Twice(x: nat, y: nat)
    ensures (2 * x) * y == 2 * (x * y)
  {
  }

  lemma {:induction false} Pow2Mono(a: nat, b: nat)
    requires a <= b
    ensures Pow2(a) <= Pow2(b)
    decreases b
  {
    if a < b {
      Pow2Mono(a, b - 1);
    }
  }

  lemma Pow2Words()
    ensures Pow2(8) == 256 && Pow2(24) == 0x100_0000 && Pow2(32) == UINT_MOD
  {
    assert Pow2(8) == 256;
    Pow2Add(8, 8);
    Pow2Add(16, 8);
    Pow2Add(16, 16);
  }

  /** Position of the most significant set bit, counted from one; zero has none. */
  function FlsOf(i: nat): nat {
    if i == 0 then 0 else 1 + FlsOf(i / 2)
  }

  /** The bit position brackets the value between two neighbouring powers of two. */
  lemma {:induction false} FlsBrackets(i: nat)
    requires i > 0
    ensures FlsOf(i) >= 1
    ensures Pow2(FlsOf(i) - 1) <= i < Pow2(FlsOf(i))
  {
    if i > 1 {
      FlsBrackets(i / 2);
    } else {
      assert FlsOf(0) == 0;
    }
  }

  /** Only one bit position brackets a value. */
  lemma FlsUnique(i: nat, n: nat)
    requires n >= 1 && Pow2(n - 1) <= i < Pow2(n)
    ensures FlsOf(i) == n
  {
    FlsBrackets(i);
    if n < FlsOf(i) {
      Pow2Mono(n, FlsOf(i) - 1);
    } else if FlsOf(i) < n {
      Pow2Mono(FlsOf(i), n - 1);
    }
  }

  method Fls(val: nat) returns (n: nat)
    ensures n == FlsOf(val)
    ensures val == 0 ==> n == 0
    ensures val > 0 ==> n >= 1 && Pow2(n - 1) <= val < Pow2(n)
  {
    var i := val;
    n := 0;
    while i != 0
      invariant n + FlsOf(i) == FlsOf(val)
    {
      i := i / 2;
      n := n + 1;
    }
    if val > 0 {
      FlsBrackets(val);
    }
  }

  /** Value of a byte string read most significant byte first. */
  function BigEndian(s: seq<Byte>): nat {
    if s == [] then 0 else BigEndian(s[..|s| - 1]) * 256 + s[|s| - 1]
  }

  /** The shortest byte string that denotes `val`; zero is the empty string. */
  function VarBytes(val: nat): (s: seq<Byte>) {
    if val == 0 then [] else VarBytes(val / 256) + [val % 256]
  }

  lemma {:induction false} VarBytesDenote(val: nat)
    ensures BigEndian(VarBytes(val)) == val
  {
    if val != 0 {
      VarBytesDenote(val / 256);
      var s := VarBytes(val);
      assert s[..|s| - 1] == VarBytes(val / 256);
    }
  }

  /** No byte string denoting the same value is shorter, and one of equal length is the same string. */
  lemma {:induction false} VarBytesMinimal(val: nat, s: seq<Byte>)
    requires BigEndian(s) == val
    ensures |VarBytes(val)| <= |s|
    ensures |VarBytes(val)| == |s| ==> VarBytes(val) == s
    decreases |s|
  {
    if val != 0 {
      assert s != [];
      assert val / 256 == BigEndian(s[..|s| - 1]) && val % 256 == s[|s| - 1];
      VarBytesMinimal(val / 256, s[..|s| - 1]);
      assert s == s[..|s| - 1] + [s[|s| - 1]];
    }
  }

  /** The earlier bytes count for more: those of `a` stand `|b|` bytes higher than those of `b`. */
  lemma {:induction false} BigEndianJoin(a: seq<Byte>, b: seq<Byte>)
    ensures BigEndian(a + b) == BigEndian(a) * Pow2(8 * |b|) + BigEndian(b)
    decreases |b|
  {
    if b == [] {
      assert a + b == a;
    } else {
      var c, x := b[..|b| - 1], b[|b| - 1];
      BigEndianJoin(a, c);
      assert (a + b)[..|a + b| - 1] == a + c && (a + b)[|a + b| - 1] == x;
      assert BigEndian(a + b) == BigEndian(a + c) * 256 + x;
      assert BigEndian(b) == BigEndian(c) * 256 + x;
      JoinStep(BigEndian(a), |c|, BigEndian(c), x);
    }
  }

  lemma JoinStep(x: nat, n: nat, y: nat, b: nat)
    ensures (x * Pow2(8 * n) + y) * 256 + b == x * Pow2(8 * (n + 1)) + (y * 256 + b)
  {
    Pow2Add(8 * n, 8);
    assert Pow2(8) == 256;
    assert 8 * (n + 1) == 8 * n + 8;
    assert x * Pow2(8 * n) * 256 == x * (Pow2(8 * n) * 256);
  }

  lemma {:induction false} BigEndianBound(s: seq<Byte>)
    ensures BigEndian(s) < Pow2(8 * |s|)
  {
    if s != [] {
      BigEndianBound(s[..|s| - 1]);
      Pow2Add(8 * (|s| - 1), 8);
      assert Pow2(8) == 256;
      assert 8 * |s| == 8 * (|s| - 1) + 8;
    }
  }

  /** A value needs at most `k` bytes exactly when it is below 256^k. */
  lemma {:induction false} VarBytesLength(val: nat, k: nat)
    ensures |VarBytes(val)| <= k <==> val < Pow2(8 * k)
    decreases k
  {
    if val == 0 {
    } else if k == 0 {
      assert |VarBytes(val)| >= 1;
    } else {
      VarBytesLength(val / 256, k - 1);
      assert Pow2(8 * k) == 256 * Pow2(8 * (k - 1)) by {
        Pow2Add(8, 8 * (k - 1));
        Pow2Words();
      }
    }
  }

  /** Cutting to 32 bits before or after a byte is shifted in makes no difference. */
  lemma ShiftIn(x: nat, b: Byte)
    ensures (x % UINT_MOD * 256 + b) % UINT_MOD == (x * 256 + b) % UINT_MOD
  {
    var q, r := x / UINT_MOD, x % UINT_MOD;
    assert x * 256 + b == (r * 256 + b) + UINT_MOD * (q * 256);
    assert ((r * 256 + b) + UINT_MOD * (q * 256)) % UINT_MOD == (r * 256 + b) % UINT_MOD;
  }

  lemma NextByte(buf: seq<Byte>, i: nat)
    requires i < |buf|
    ensures BigEndian(buf[..i + 1]) % UINT_MOD == (BigEndian(buf[..i]) % UINT_MOD * 256 + buf[i]) % UINT_MOD
  {
    assert buf[..i + 1][..i] == buf[..i];
    ShiftIn(BigEndian(buf[..i]), buf[i]);
  }

  lemma ShortBytes(buf: seq<Byte>)
    requires |buf| <= 4
    ensures BigEndian(buf) < UINT_MOD
  {
    BigEndianBound(buf);
    Pow2Mono(8 * |buf|, 32);
    Pow2Words();
  }

  /** coap_decode_var_bytes: the accumulator is a 32-bit unsigned integer. */
  method DecodeVarBytes(buf: seq<Byte>) returns (n: nat)
    ensures n == BigEndian(buf) % UINT_MOD
    ensures |buf| <= 4 ==> n == BigEndian(buf)
  {
    n := 0;
    for i := 0 to |buf|
      invariant n == BigEndian(buf[..i]) % UINT_MOD
    {
      NextByte(buf, i);
      n := (n * 256 + buf[i]) % UINT_MOD;
    }
    assert buf[..|buf|] == buf;
    if |buf| <= 4 { ShortBytes(buf); }
  }

  /** The first loop of coap_encode_var_bytes: how many bytes `val` needs. */
  method CountVarBytes(val: nat) returns (n: nat)
    requires val < UINT_MOD
    ensures n == |VarBytes(val)| <= 4
  {
    VarBytesLength(val, 4);
    Pow2Words();
    var i: nat := val;
    n := 0;
    while i != 0 && n < 4
      invariant n + |VarBytes(i)| == |VarBytes(val)|
      decreases i
    {
      i := i / 256;
      n := n + 1;
    }
  }

  /** One step of the filling loop moves the last byte of the number into the buffer. */
  lemma VarBytesShift(v: nat, tail: seq<Byte>)
    requires v != 0
    ensures VarBytes(v / 256) + ([v % 256] + tail) == VarBytes(v) + tail
  {
  }

  /** coap_encode_var_bytes: count the bytes, then fill the buffer from its end. */
  method EncodeVarBytes(buf: array<Byte>, val: nat) returns (n: nat)
    requires val < UINT_MOD
    requires |VarBytes(val)| <= buf.Length
    modifies buf
    ensures n == |VarBytes(val)| <= 4
    ensures buf[..n] == VarBytes(val)
  {
    n := CountVarBytes(val);
    var v: nat, i := val, n;
    while i > 0
      invariant 0 <= i <= n
      invariant |VarBytes(v)| == i
      invariant VarBytes(v) + buf[i..n] == VarBytes(val)
    {
      VarBytesShift(v, buf[i..n]);
      i := i - 1;
      buf[i] := v % 256;
      assert buf[i..n] == [v % 256] + buf[i + 1..n];
      v := v / 256;
    }
    assert buf[0..n] == buf[..n];
  }

  /** One byte behind those from `at` on. */
  method PutByte(buf: array<Byte>, ghost at: nat, p: nat, b: Byte)
    requires at <= p < buf.Length
    modifies buf
    ensures buf[at..p + 1] == old(buf[at..p]) + [b] && buf[..at] == old(buf[..at])
  {
    buf[p] := b;
  }
}
