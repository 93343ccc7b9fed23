/** The MiniLang values and 61-bit integer operators that the cache code is written in. */
module MiniLang {

  type byte = b: int | 0 <= b < 256
  type Text = seq<byte>

  const INT_MODULUS: int := 0x2000_0000_0000_0000

  /** A tagged integer keeps 61 bits of a 64-bit word. */
  type Int61 = n: int | -0x1000_0000_0000_0000 <= n < 0x1000_0000_0000_0000

  /** A dynamic value. Strings are their payload bytes, a float is its little-endian
      image, and a struct that has a node_kind is a `Node`. */
  datatype Value =
    | Void
    | Bool(b: bool)
    | Int(n: Int61)
    | Str(text: Text)
    | Bytes(data: seq<byte>)
    | Arr(items: seq<Value>)
    | Float(f64le: seq<byte>)
    | Node(kind: Text, filename: Text, fields: seq<Value>)
    | Opaque

  /** A checked copy of part of a buffer; a bad range gives no bytes. */
  function Slice(data: seq<byte>, start: int, count: int): seq<byte> {
    if start < 0 || count < 0 || start > |data| - count then [] else data[start..start + count]
  }

  datatype Option<T> = None | Some(value: T)

  function Pow2(n: nat): (p: nat)
    ensures p > 0
  {
    if n == 0 then 1 else 2 * Pow2(n - 1)
  }

  lemma {:induction false} Pow2Add(a: nat, b: nat)
    ensures Pow2(a + b) == Pow2(a) * Pow2(b)
  {
    if a != 0 {
      Pow2Add(a - 1, b);
      assert Pow2(a + b) == 2 * Pow2(a + b - 1);
      assert 2 * (Pow2(a - 1) * Pow2(b)) == (2 * Pow2(a - 1)) * Pow2(b);
    }
  }

  lemma Pow2Step8(n: nat)
    ensures Pow2(n + 8) == 256 * Pow2(n)
  {
    Pow2Add(8, n);
    assert Pow2(8) == 256;
  }

  lemma {:induction false} Pow2AtMost(a: nat, b: nat)
    requires a <= b
    ensures Pow2(a) <= Pow2(b)
    decreases b
  {
    if a < b {
      Pow2AtMost(a, b - 1);
    }
  }

  lemma Pow2Double(n: nat)
    ensures Pow2(n + 1) == 2 * Pow2(n)
  {
  }

  lemma Pow2Small()
    ensures Pow2(56) == 0x100_0000_0000_0000 && Pow2(64) == 0x1_0000_0000_0000_0000
    ensures Pow2(16) == 0x1_0000 && Pow2(32) == 0x1_0000_0000
  {
    assert Pow2(8) == 256;
    Pow2Add(8, 8);
    Pow2Add(16, 16);
    Pow2Add(32, 16);
    Pow2Add(48, 8);
    Pow2Add(32, 32);
  }

  /** What is left of a 64-bit result once it is shifted into tag position. */
  function Wrap61(n: int): (r: Int61)
    ensures (n - r) % INT_MODULUS == 0 && (r - n) % INT_MODULUS == 0
  {
    var m := n % INT_MODULUS;
    if m < 0x1000_0000_0000_0000 then m else m - INT_MODULUS
  }

  /** Two integers wrap to the same value exactly when they are congruent. */
  lemma Wrap61Unique(n: int, r: Int61)
    requires (n - r) % INT_MODULUS == 0
    ensures Wrap61(n) == r
  {
    var w := Wrap61(n);
    assert (w - r) % INT_MODULUS == 0 by {
      CongruentDifference(n - r, n - w, INT_MODULUS);
    }
  }

  lemma Wrap61Congruent(a: int, b: int)
    ensures Wrap61(a) == Wrap61(b) <==> (a - b) % INT_MODULUS == 0
  {
    var x, y := Wrap61(a), Wrap61(b);
    if x == y {
      CongruentDifference(a - x, b - x, INT_MODULUS);
    }
    if (a - b) % INT_MODULUS == 0 {
      CongruentDifference(a - b, y - b, INT_MODULUS);
      Wrap61Unique(a, y);
    }
  }

  lemma {:induction false} CongruentDifference(a: int, b: int, m: int)
    requires m > 0 && a % m == 0 && b % m == 0
    ensures (a - b) % m == 0
  {
    var x, y := a / m, b / m;
    assert a - b == m * (x - y);
    MultipleMod(x - y, m);
  }

  lemma {:induction false} MultipleMod(k: int, m: int)
    requires m > 0
    ensures (m * k) % m == 0
  {
    DivModUnique(m * k, m, k, 0);
  }

  lemma {:induction false} DivModUnique(a: int, m: int, q: int, r: int)
    requires m > 0 && a == m * q + r && 0 <= r < m
    ensures a / m == q && a % m == r
  {
    EuclideanUnique(m, q, r, a / m, a % m);
  }

  lemma {:induction false} EuclideanUnique(m: int, q: int, r: int, q': int, r': int)
    requires m > 0 && m * q + r == m * q' + r' && 0 <= r < m && 0 <= r' < m
    ensures q == q' && r == r'
  {
    var d := q - q';
    assert d >= 1 ==> m * d >= m;
    assert d <= -1 ==> m * d <= -m;
    assert m * d == r' - r;
  }

  /** `>>` is an arithmetic shift, so it rounds towards minus infinity. */
  function ShiftRight(v: int, bits: nat): int {
    v / Pow2(bits)
  }

  function ShiftLeft(v: int, bits: nat): Int61 {
    Wrap61(v * Pow2(bits))
  }

  /** `|` on two's-complement integers, bit by bit from the low end. */
  function BitOr(a: int, b: int): int
    decreases (if a < 0 then -a else a) + (if b < 0 then -b else b)
  {
    if (a == 0 || a == -1) && (b == 0 || b == -1) then
      (if a == -1 || b == -1 then -1 else 0)
    else
      2 * BitOr(a / 2, b / 2) + (if a % 2 == 1 || b % 2 == 1 then 1 else 0)
  }

  lemma {:induction false} BitOrZero(b: int)
    ensures BitOr(0, b) == b
    decreases if b < 0 then -b else b
  {
    if b != 0 && b != -1 {
      BitOrZero(b / 2);
    }
  }

  /** Or-ing onto bits that are still clear is addition. */
  lemma {:induction false} BitOrDisjoint(a: int, b: int, k: nat)
    requires 0 <= a < Pow2(k) && b % Pow2(k) == 0
    ensures BitOr(a, b) == a + b
    decreases k
  {
    if k == 0 || (a == 0 && (b == 0 || b == -1)) {
      BitOrZero(b);
    } else {
      var p := Pow2(k - 1);
      var q := b / Pow2(k);
      assert b == 2 * (p * q);
      assert b / 2 == p * q && b % 2 == 0;
      MultipleMod(q, p);
      BitOrDisjoint(a / 2, b / 2, k - 1);
    }
  }

  // ----- little-endian numbers

  /** The `width` low bytes of an integer, lowest first. */
  function Le(v: int, width: nat): (bs: seq<byte>)
    ensures |bs| == width
  {
    seq(width, i requires 0 <= i < width => ShiftRight(v, 8 * i) % 256)
  }

  function LeValue(bs: seq<byte>): (v: nat) {
    if bs == [] then 0 else bs[0] + 256 * LeValue(bs[1..])
  }

  lemma LeStep(v: int, width: nat)
    requires width > 0
    ensures Le(v, width) == [v % 256] + Le(v / 256, width - 1)
  {
    forall i | 0 <= i < width
      ensures Le(v, width)[i] == ([v % 256] + Le(v / 256, width - 1))[i]
    {
      if i == 0 {
        assert Pow2(0) == 1;
      } else {
        var p := Pow2(8 * (i - 1));
        Pow2Step8(8 * (i - 1));
        DivDiv(v, 256, p);
      }
    }
  }

  lemma {:induction false} DivDiv(v: int, a: int, b: int)
    requires a > 0 && b > 0
    ensures a * b > 0 && (v / a) / b == v / (a * b)
  {
    var w := v / a;
    NestedRemainder(v, a, b, w / b, w % b, v % a);
    DivModUnique(v, a * b, w / b, a * (w % b) + v % a);
  }

  lemma {:induction false} NestedRemainder(v: int, a: int, b: int, q: int, r: int, s: int)
    requires a > 0 && b > 0 && 0 <= r < b && 0 <= s < a && v == a * (b * q + r) + s
    ensures a * b > 0 && v == (a * b) * q + (a * r + s) && 0 <= a * r + s < a * b
  {
    var t := b * q;
    assert a * (t + r) == a * t + a * r;
    MulAssoc(a, b, q);
    var gap := b - r;
    assert a * gap >= a && a * r >= 0 && a * b > 0;
    assert a * b == a * gap + a * r;
  }

  lemma MulAssoc(a: int, b: int, c: int)
    ensures a * (b * c) == (a * b) * c
  {
  }

  lemma {:induction false} ModStep(v: int, p: nat)
    requires p > 0
    ensures v % (256 * p) == v % 256 + 256 * ((v / 256) % p)
  {
    var q, r := (v / 256) / p, (v / 256) % p;
    assert v == 256 * (p * q + r) + v % 256;
    assert 256 * (p * q + r) == (256 * p) * q + 256 * r;
    DivModUnique(v, 256 * p, q, 256 * r + v % 256);
  }

  lemma {:induction false} LeValueBound(bs: seq<byte>)
    ensures LeValue(bs) < Pow2(8 * |bs|)
  {
    if bs != [] {
      LeValueBound(bs[1..]);
      Pow2Step8(8 * (|bs| - 1));
    } else {
      assert Pow2(0) == 1;
    }
  }

  lemma {:induction false} LeValueSnoc(bs: seq<byte>, b: byte)
    ensures LeValue(bs + [b]) == LeValue(bs) + b * Pow2(8 * |bs|)
  {
    if bs == [] {
      assert bs + [b] == [b] && [b][1..] == [];
      assert LeValue([b]) == b && Pow2(0) == 1;
    } else {
      LeValueSnoc(bs[1..], b);
      assert (bs + [b])[1..] == bs[1..] + [b];
      Pow2Step8(8 * (|bs| - 1));
      var p := Pow2(8 * (|bs| - 1));
      assert 256 * (b * p) == b * (256 * p);
    }
  }

  /** Reading back the low bytes of an integer recovers it modulo the width. */
  lemma {:induction false} LeValueOfLe(v: int, width: nat)
    ensures LeValue(Le(v, width)) == v % Pow2(8 * width)
    decreases width
  {
    if width == 0 {
      assert Pow2(0) == 1;
    } else {
      LeValueOfLe(v / 256, width - 1);
      LeStep(v, width);
      var p := Pow2(8 * (width - 1));
      Pow2Step8(8 * (width - 1));
      assert Le(v, width)[1..] == Le(v / 256, width - 1);
      ModStep(v, p);
    }
  }

  lemma {:induction false} LeOfLeValue(bs: seq<byte>)
    ensures Le(LeValue(bs), |bs|) == bs
  {
    if bs != [] {
      LeOfLeValue(bs[1..]);
      LeStep(LeValue(bs), |bs|);
      DivModUnique(LeValue(bs), 256, LeValue(bs[1..]), bs[0]);
    }
  }
}
