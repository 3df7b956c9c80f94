/** Machine words: 32-bit halves of 64-bit arguments and the byte strings they are read from. */
module Words {

  type uint8 = x: int | 0 <= x < 0x100
  type uint32 = x: int | 0 <= x < 0x1_0000_0000
  type uint64 = x: int | 0 <= x < 0x1_0000_0000_0000_0000

  const TWO_TO_32 := 0x1_0000_0000

  /** `uint32(v >> 32)` */
  function Hi(v: uint64): uint32 { v / TWO_TO_32 }

  /** `uint32(v)` */
  function Lo(v: uint64): uint32 { v % TWO_TO_32 }

  /** `x & y != 0` on unsigned integers of any width. */
  predicate SharesBit(x: nat, y: nat) {
    x != 0 && y != 0 && ((x % 2 == 1 && y % 2 == 1) || SharesBit(x / 2, y / 2))
  }

  /** `x | y` on unsigned integers of any width. */
  function BitOr(x: nat, y: nat): nat {
    if x == 0 then y
    else if y == 0 then x
    else 2 * BitOr(x / 2, y / 2) + (if x % 2 == 1 || y % 2 == 1 then 1 else 0)
  }

  function Pow2(n: nat): (p: nat)
    ensures p > 0
  {
    if n == 0 then 1 else 2 * Pow2(n - 1)
  }

  /** Bit `i` of `x`, counted from the lowest. */
  predicate HasBit(x: nat, i: nat) { if i == 0 then x % 2 == 1 else HasBit(x / 2, i - 1) }

  lemma Halve(a: nat, l: nat)
    ensures (2 * a + l) / 2 == a + l / 2 && (2 * a + l) % 2 == l % 2
  {}

  lemma TimesDouble(h: nat, p: nat)
    ensures h * (2 * p) == 2 * (h * p)
  {}

  lemma {:induction false} SharesBitStep(x: nat, y: nat)
    ensures SharesBit(x, y) <==> (x % 2 == 1 && y % 2 == 1) || SharesBit(x / 2, y / 2)
  {}

  lemma {:induction false} ZeroHasNoBit(i: nat)
    ensures !HasBit(0, i)
  {
    if i > 0 {
      ZeroHasNoBit(i - 1);
    }
  }

  /** SharesBit is the bitwise test it stands for: some bit position is set in both operands. */
  lemma {:induction false} SharesBitMeansCommonBit(x: nat, y: nat)
    ensures SharesBit(x, y) <==> exists i: nat :: HasBit(x, i) && HasBit(y, i)
    decreases x
  {
    SharesBitStep(x, y);
    if x == 0 {
      forall i: nat ensures !HasBit(x, i) { ZeroHasNoBit(i); }
    } else {
      SharesBitMeansCommonBit(x / 2, y / 2);
      if SharesBit(x, y) {
        if x % 2 == 1 && y % 2 == 1 {
          CommonBit(x, y, 0);
        } else {
          var i: nat :| HasBit(x / 2, i) && HasBit(y / 2, i);
          CommonBit(x, y, i + 1);
        }
      }
      if i: nat :| HasBit(x, i) && HasBit(y, i) {
        if i > 0 {
          CommonBit(x / 2, y / 2, i - 1);
        }
      }
    }
  }

  lemma CommonBit(x: nat, y: nat, i: nat)
    requires HasBit(x, i) && HasBit(y, i)
    ensures exists j: nat :: HasBit(x, j) && HasBit(y, j)
  {}

  /** BitOr is the bitwise operation it stands for. */
  lemma {:induction false} BitOrBits(x: nat, y: nat, i: nat)
    ensures HasBit(BitOr(x, y), i) <==> HasBit(x, i) || HasBit(y, i)
    decreases i
  {
    if x == 0 || y == 0 {
      ZeroHasNoBit(i);
    } else if i > 0 {
      BitOrBits(x / 2, y / 2, i - 1);
    }
  }

  /** Numbers without a common bit are added. */
  lemma {:induction false} BitOrDisjoint(x: nat, y: nat)
    requires !SharesBit(x, y)
    ensures BitOr(x, y) == x + y
    decreases x
  {
    if x != 0 && y != 0 {
      BitOrDisjoint(x / 2, y / 2);
    }
  }

  /** The lowest `n` bits. */
  lemma {:induction false} LowBits(x: nat, n: nat, i: nat)
    ensures HasBit(x % Pow2(n), i) <==> i < n && HasBit(x, i)
    decreases n
  {
    if n == 0 {
      ZeroHasNoBit(i);
    } else {
      HalfOfRest(x, Pow2(n - 1));
      if i > 0 {
        LowBits(x / 2, n - 1, i - 1);
      }
    }
  }

  lemma HalfOfRest(x: nat, p: nat)
    requires p > 0
    ensures (x % (2 * p)) / 2 == (x / 2) % p && (x % (2 * p)) % 2 == x % 2
  {
    var h, l := x / 2, x % 2;
    var q, r := h / p, h % p;
    assert x == (2 * p) * q + (2 * r + l) by { DoubleOf(p, q); }
    RestIs(x, 2 * p, q, 2 * r + l);
  }

  lemma DoubleOf(p: nat, q: nat)
    ensures (2 * p) * q == 2 * (p * q)
  {}

  lemma RestIs(x: nat, m: nat, q: nat, r: nat)
    requires x == m * q + r && r < m
    ensures x % m == r
  {
    var e := x / m;
    assert x == m * e + x % m;
    if e < q {
      TimesMore(m, e, q);
    } else if q < e {
      TimesMore(m, q, e);
    }
  }

  lemma TimesMore(m: nat, a: nat, b: nat)
    requires a < b
    ensures m * b >= m * a + m
  {
    assert m * b == m * a + m * (b - a);
    assert m * (b - a) == m + m * (b - a - 1);
  }

  lemma {:induction false} BitsDetermine(x: nat, y: nat)
    requires forall i: nat :: HasBit(x, i) <==> HasBit(y, i)
    ensures x == y
    decreases x + y
  {
    assert HasBit(x, 0) <==> HasBit(y, 0);
    if x != 0 || y != 0 {
      forall i: nat ensures HasBit(x / 2, i) <==> HasBit(y / 2, i) {
        assert HasBit(x, i + 1) <==> HasBit(y, i + 1);
      }
      BitsDetermine(x / 2, y / 2);
    }
  }

  lemma PowerOf32()
    ensures Pow2(32) == TWO_TO_32
  {
    assert Pow2(8) == 0x100;
    assert Pow2(16) == 0x1_0000;
    assert Pow2(24) == 0x100_0000;
  }

  lemma {:induction false} SharesBitSplit(n: nat, hx: nat, lx: nat, hy: nat, ly: nat)
    requires lx < Pow2(n) && ly < Pow2(n)
    ensures SharesBit(hx * Pow2(n) + lx, hy * Pow2(n) + ly) <==> SharesBit(hx, hy) || SharesBit(lx, ly)
    decreases n
  {
    if n == 0 {
    } else {
      var p := Pow2(n - 1);
      TimesDouble(hx, p);
      TimesDouble(hy, p);
      Halve(hx * p, lx);
      Halve(hy * p, ly);
      SharesBitStep(hx * Pow2(n) + lx, hy * Pow2(n) + ly);
      SharesBitStep(lx, ly);
      SharesBitSplit(n - 1, hx, lx / 2, hy, ly / 2);
    }
  }

  /** A 64-bit bit test is the disjunction of the two 32-bit ones. */
  lemma HiLoBits(x: uint64, y: uint64)
    ensures SharesBit(x, y) <==> SharesBit(Hi(x), Hi(y)) || SharesBit(Lo(x), Lo(y))
  {
    PowerOf32();
    SharesBitSplit(32, Hi(x), Lo(x), Hi(y), Lo(y));
  }

  datatype Order = LittleEndian | BigEndian

  function Pow256(n: nat): (p: nat)
    ensures p > 0
  {
    if n == 0 then 1 else 0x100 * Pow256(n - 1)
  }

  function BigEndianBytes(v: nat, n: nat): (b: seq<uint8>)
    ensures |b| == n
  {
    if n == 0 then [] else BigEndianBytes(v / 0x100, n - 1) + [v % 0x100]
  }

  function BigEndianValue(b: seq<uint8>): (v: nat)
    ensures v < Pow256(|b|)
  {
    if b == [] then 0 else BigEndianValue(b[..|b| - 1]) * 0x100 + b[|b| - 1]
  }

  function Reverse(b: seq<uint8>): (r: seq<uint8>)
    ensures |r| == |b|
    ensures forall i :: 0 <= i < |b| ==> r[i] == b[|b| - 1 - i]
  {
    if b == [] then [] else Reverse(b[1..]) + [b[0]]
  }

  /** The `n` bytes that hold `v` in byte order `o`. */
  function Bytes(v: nat, n: nat, o: Order): (b: seq<uint8>)
    ensures |b| == n
  {
    if o.BigEndian? then BigEndianBytes(v, n) else Reverse(BigEndianBytes(v, n))
  }

  /** The 32-bit word that four consecutive bytes hold in byte order `o`. */
  function Word(b: seq<uint8>, o: Order): uint32
    requires |b| == 4
  {
    Pow256Of4();
    BigEndianValue(if o.BigEndian? then b else Reverse(b))
  }

  lemma Pow256Of4()
    ensures Pow256(4) == TWO_TO_32
  {
    assert Pow256(2) == 0x1_0000;
  }

  lemma ValueOfSnoc(b: seq<uint8>, x: uint8)
    ensures BigEndianValue(b + [x]) == BigEndianValue(b) * 0x100 + x
  {
    assert (b + [x])[..|b|] == b;
  }

  lemma {:induction false} ValueOfBytes(v: nat, n: nat)
    requires v < Pow256(n)
    ensures BigEndianValue(BigEndianBytes(v, n)) == v
  {
    hide BigEndianValue;
    if n == 0 {
      NoBytes();
    } else {
      ValueOfBytes(v / 0x100, n - 1);
      ValueOfSnoc(BigEndianBytes(v / 0x100, n - 1), v % 0x100);
    }
  }

  lemma NoBytes()
    ensures BigEndianValue([]) == 0
  {}

  lemma Divide256(a: nat, l: nat)
    ensures (0x100 * a + l) / 0x100 == a + l / 0x100 && (0x100 * a + l) % 0x100 == l % 0x100
  {}

  lemma Times256(h: nat, p: nat)
    ensures h * (0x100 * p) == 0x100 * (h * p)
  {}

  lemma {:induction false} SplitBytes(h: nat, l: nat, m: nat, n: nat)
    requires l < Pow256(n)
    ensures BigEndianBytes(h * Pow256(n) + l, m + n) == BigEndianBytes(h, m) + BigEndianBytes(l, n)
    decreases n
  {
    if n == 0 {
    } else {
      var p := Pow256(n - 1);
      Times256(h, p);
      Divide256(h * p, l);
      SplitBytes(h, l / 0x100, m, n - 1);
    }
  }

  /** Reading back a word returns it, whatever the byte order. */
  lemma WordOfBytes(w: uint32, o: Order)
    ensures Word(Bytes(w, 4, o), o) == w
  {
    Pow256Of4();
    ValueOfBytes(w, 4);
    var b := BigEndianBytes(w, 4);
    assert Reverse(Reverse(b)) == b;
  }

  /** The half at the lower address is the high one in big-endian order and the low one in little-endian order. */
  lemma HalvesOfBytes(v: uint64, o: Order)
    ensures Bytes(v, 8, o)[..4] == Bytes(if o.BigEndian? then Hi(v) else Lo(v), 4, o)
    ensures Bytes(v, 8, o)[4..] == Bytes(if o.BigEndian? then Lo(v) else Hi(v), 4, o)
  {
    Pow256Of4();
    SplitBytes(Hi(v), Lo(v), 4, 4);
    assert BigEndianBytes(v, 8) == BigEndianBytes(Hi(v), 4) + BigEndianBytes(Lo(v), 4);
  }
}
