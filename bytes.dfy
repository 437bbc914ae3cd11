/**
  Fixed-width big-endian byte arithmetic. An address is a sequence of bytes,
  most significant first; `Value` reads it as a natural number. `Succ` and
  `Pred` are the specifications of the carry and borrow loops that compute
  the first and last usable addresses: they wrap around modulo 2^(8 * width).
*/
module Bytes {

  function Pow2(k: nat): (r: nat)
    ensures r >= 1
  {
    if k == 0 then 1 else 2 * Pow2(k - 1)
  }

  lemma {:induction false} Pow2Add(a: nat, b: nat)
    ensures Pow2(a + b) == Pow2(a) * Pow2(b)
  {
    if b > 0 {
      Pow2Add(a, b - 1);
      assert Pow2(a + b) == 2 * Pow2(a + b - 1);
    }
  }

  lemma Pow2Byte(k: nat)
    ensures Pow2(k + 8) == Pow2(k) * 256
  {
    Pow2Add(k, 8);
    assert Pow2(8) == 256;
  }

  lemma {:induction false} Pow2Mono(a: nat, b: nat)
    requires a <= b
    ensures Pow2(a) <= Pow2(b)
  {
    Pow2Add(a, b - a);
  }

  /** Below the width `w`, 2^s fits; from `w` on, it is a multiple of 2^w. */
  lemma Pow2ModPow2(s: nat, w: nat)
    ensures (if s < w then Pow2(s) else 0) == Pow2(s) % Pow2(w)
  {
    if s < w {
      Pow2Mono(s + 1, w);
      ModBelow(Pow2(s), Pow2(w));
    } else {
      Pow2Add(s - w, w);
      ModMultiple(Pow2(s - w), Pow2(w));
    }
  }

  // Division facts Dafny's arithmetic does not find on its own.

  lemma {:induction false} MulAtLeast(d: int, t: int)
    requires d > 0 && t >= 1
    ensures d * t >= d
  {
    assert d * t == d + d * (t - 1);
    if t > 1 { MulAtLeast(d, t - 1); }
  }
  lemma DivModOf(q: int, d: int, r: int)
    requires d > 0 && 0 <= r < d
    ensures (q * d + r) / d == q && (q * d + r) % d == r
  {
    var x := q * d + r;
    var t := q - x / d;
    assert x == d * (x / d) + x % d;
    assert d * t == x % d - r;
    if t >= 1 {
      MulAtLeast(d, t);
    } else if t <= -1 {
      MulAtLeast(d, -t);
    }
  }
  lemma ModMultiple(k: int, d: int)
    requires d > 0
    ensures (k * d) % d == 0
  {
    DivModOf(k, d, 0);
  }
  lemma ModAddMultiple(k: int, x: int, d: int)
    requires d > 0 && x % d == 0
    ensures (k * d + x) % d == 0
  {
    var j := x / d;
    assert x == j * d;
    assert k * d + x == (k + j) * d;
    ModMultiple(k + j, d);
  }
  /** Adding d - 1 to a multiple of d keeps the quotient and gives remainder d - 1. */
  lemma LastInBlock(v: int, d: int)
    requires d > 0 && v % d == 0
    ensures (v + d - 1) / d == v / d && (v + d - 1) % d == d - 1
  {
    var q := v / d;
    assert v == q * d;
    DivModOf(q, d, 0);
    DivModOf(q, d, d - 1);
  }

  lemma ModAddScaled(v: int, c: int, x: int, d: int)
    requires d > 0 && c % d == 0 && x % d == 0
    ensures (v * c + x) % d == 0
  {
    var j := c / d;
    assert c == j * d;
    assert v * c == (v * j) * d;
    ModAddMultiple(v * j, x, d);
  }

  lemma MulMod(v: int, d: int, c: int)
    requires d > 0 && c > 0 && v % d == 0
    ensures (v * c) % (d * c) == 0
  {
    var j := v / d;
    assert v == j * d;
    assert v * c == j * (d * c);
    ModMultiple(j, d * c);
  }

  /** Big-endian value of a byte sequence. */
  function Value(s: seq<bv8>): (r: nat)
  {
    if s == [] then 0 else Value(s[..|s| - 1]) * 256 + s[|s| - 1] as int
  }

  lemma ValueSnoc(a: seq<bv8>, x: bv8)
    ensures Value(a + [x]) == Value(a) * 256 + x as int
  {
    assert (a + [x])[..|a|] == a;
  }

  lemma {:induction false} ValueBound(s: seq<bv8>)
    ensures Value(s) < Pow2(8 * |s|)
  {
    if s != [] {
      var p := s[..|s| - 1];
      ValueBound(p);
      Pow2Byte(8 * |p|);
      assert 8 * |s| == 8 * |p| + 8;
    }
  }

  /** Big-endian increment by one with carry, wrapping to all zeros. */
  function Succ(s: seq<bv8>): (r: seq<bv8>)
    ensures |r| == |s|
  {
    if s == [] then []
    else if s[|s| - 1] == 0xFF then Succ(s[..|s| - 1]) + [0]
    else s[..|s| - 1] + [s[|s| - 1] + 1]
  }

  /** Big-endian decrement by one with borrow, wrapping to all 0xFF bytes. */
  function Pred(s: seq<bv8>): (r: seq<bv8>)
    ensures |r| == |s|
  {
    if s == [] then []
    else if s[|s| - 1] == 0 then Pred(s[..|s| - 1]) + [0xFF]
    else s[..|s| - 1] + [s[|s| - 1] - 1]
  }

  /**
    Where the carry stops: if byte `i` is the last byte that is not 0xFF
    (or `i == -1` when there is none), `Succ` keeps the bytes before `i`,
    adds one to byte `i` and clears every byte after it.
  */
  lemma {:induction false} SuccShape(s: seq<bv8>, i: int)
    requires -1 <= i < |s|
    requires forall k :: i < k < |s| ==> s[k] == 0xFF
    requires i >= 0 ==> s[i] != 0xFF
    ensures forall k :: 0 <= k < |s| ==>
      Succ(s)[k] == if k < i then s[k] else if k == i then s[k] + 1 else 0
  {
    if s != [] && i < |s| - 1 {
      var p := s[..|s| - 1];
      SuccShape(p, i);
      assert Succ(s) == Succ(p) + [0];
    }
  }

  /**
    Where the borrow stops: if byte `i` is the last non-zero byte (or
    `i == -1` when there is none), `Pred` keeps the bytes before `i`,
    subtracts one from byte `i` and sets every byte after it to 0xFF.
  */
  lemma {:induction false} PredShape(s: seq<bv8>, i: int)
    requires -1 <= i < |s|
    requires forall k :: i < k < |s| ==> s[k] == 0
    requires i >= 0 ==> s[i] != 0
    ensures forall k :: 0 <= k < |s| ==>
      Pred(s)[k] == if k < i then s[k] else if k == i then s[k] - 1 else 0xFF
  {
    if s != [] && i < |s| - 1 {
      var p := s[..|s| - 1];
      PredShape(p, i);
      assert Pred(s) == Pred(p) + [0xFF];
    }
  }

  lemma ByteInc(b: bv8)
    requires b != 0xFF
    ensures (b + 1) as int == b as int + 1
  {
  }

  lemma ByteDec(b: bv8)
    requires b != 0
    ensures (b - 1) as int == b as int - 1
  {
  }

  lemma ModBelow(x: int, d: int)
    requires 0 <= x < d
    ensures x % d == x
  {
  }

  lemma ModEqBelow(y: int, x: int, d: int)
    requires 0 <= x < d && y == x % d
    ensures y == x
  {
    ModBelow(x, d);
  }

  lemma ModWrap(x: int, d: int)
    requires d > 0 && (x == d || x == -1)
    ensures x % d == if x == d then 0 else d - 1
  {
    if x == d {
      assert d == 1 * d + 0;
    } else {
      assert -1 == -1 * d + (d - 1);
    }
  }

  lemma CarryArith(v: int, m: int)
    requires 0 <= v < m
    ensures ((v + 1) % m) * 256 == (v * 256 + 256) % (m * 256)
  {
    if v + 1 < m {
      ModBelow(v + 1, m);
      ModBelow((v + 1) * 256, m * 256);
    } else {
      ModWrap(m, m);
      ModWrap(m * 256, m * 256);
    }
  }

  lemma NoCarryArith(v: int, m: int, x: int)
    requires 0 <= v < m && 0 <= x < 255
    ensures v * 256 + x + 1 == (v * 256 + x + 1) % (m * 256)
  {
    ModBelow(v * 256 + x + 1, m * 256);
  }

  lemma BorrowArith(v: int, m: int)
    requires 0 <= v < m
    ensures ((v - 1) % m) * 256 + 255 == (v * 256 - 1) % (m * 256)
  {
    if v > 0 {
      ModBelow(v - 1, m);
      ModBelow((v - 1) * 256 + 255, m * 256);
    } else {
      ModWrap(-1, m);
      ModWrap(-1, m * 256);
    }
  }

  lemma NoBorrowArith(v: int, m: int, x: int)
    requires 0 <= v < m && 0 < x <= 255
    ensures v * 256 + x - 1 == (v * 256 + x - 1) % (m * 256)
  {
    ModBelow(v * 256 + x - 1, m * 256);
  }

  /** `Succ` is addition of one modulo 2^(8 * width). */
  lemma {:induction false} SuccValue(s: seq<bv8>)
    ensures Value(Succ(s)) == (Value(s) + 1) % Pow2(8 * |s|)
  {
    if s != [] {
      var p, b := s[..|s| - 1], s[|s| - 1];
      ValueBound(p);
      Pow2Byte(8 * |p|);
      assert 8 * |s| == 8 * |p| + 8;
      if b == 0xFF {
        SuccValue(p);
        ValueSnoc(Succ(p), 0);
        CarryArith(Value(p), Pow2(8 * |p|));
      } else {
        ValueSnoc(p, b + 1);
        ByteInc(b);
        NoCarryArith(Value(p), Pow2(8 * |p|), b as int);
      }
    }
  }

  /** `Pred` is subtraction of one modulo 2^(8 * width). */
  lemma {:induction false} PredValue(s: seq<bv8>)
    ensures Value(Pred(s)) == (Value(s) - 1) % Pow2(8 * |s|)
  {
    if s != [] {
      var p, b := s[..|s| - 1], s[|s| - 1];
      var v, m := Value(p), Pow2(8 * |p|);
      assert Value(s) == v * 256 + b as int;
      ValueBound(p);
      Pow2Byte(8 * |p|);
      assert 8 * |s| == 8 * |p| + 8;
      if b == 0 {
        PredValue(p);
        ValueSnoc(Pred(p), 0xFF);
        assert Pred(s) == Pred(p) + [0xFF];
        assert Value(Pred(s)) == ((v - 1) % m) * 256 + 255;
        BorrowArith(v, m);
        assert Value(s) - 1 == v * 256 - 1;
      } else {
        assert Pred(s) == p + [b - 1];
        ValueSnoc(p, b - 1);
        ByteDec(b);
        NoBorrowArith(v, m, b as int);
        assert Value(Pred(s)) == v * 256 + b as int - 1;
      }
    }
  }

  /** Away from the wrap-around point, `Succ` adds exactly one. */
  lemma SuccNoWrap(s: seq<bv8>)
    requires Value(s) + 1 < Pow2(8 * |s|)
    ensures Value(Succ(s)) == Value(s) + 1
  {
    var t := Succ(s);
    SuccValueAt(s, t);
    ModEqBelow(Value(t), Value(s) + 1, Pow2(8 * |s|));
  }

  /** SuccValue for a result given by name, which keeps the unfolding of Succ out of SuccNoWrap. */
  lemma SuccValueAt(s: seq<bv8>, t: seq<bv8>)
    requires t == Succ(s)
    ensures Value(t) == (Value(s) + 1) % Pow2(8 * |s|)
  {
    SuccValue(s);
  }

  /** Away from the wrap-around point, `Pred` subtracts exactly one. */
  lemma PredNoWrap(s: seq<bv8>)
    requires Value(s) >= 1
    ensures Value(Pred(s)) == Value(s) - 1
  {
    PredValue(s);
    ValueBound(s);
    ModEqBelow(Value(Pred(s)), Value(s) - 1, Pow2(8 * |s|));
  }
}
