/** The byte format of a cache record, and what a reader may rely on about it. */
module CodecSpec {
  import opened MiniLang

  const MAX_RECORD: nat := 67108864
  const MAX_DEPTH: nat := 128
  const MAX_NODES: nat := 2000000

  function Enc(v: Value): seq<byte>
    decreases v, 1
  {
    match v
    case Void => Le(0, 2)
    case Bool(b) => Le(if b then 2 else 1, 2)
    case Int(n) => Le(3, 2) + Le(n, 8)
    case Str(s) => Le(4, 2) + Le(|s|, 4) + s
    case Bytes(d) => Le(5, 2) + Le(|d|, 4) + d
    case Arr(items) => Le(6, 2) + Le(|items|, 4) + EncAll(items)
    case _ => []
  }

  function EncAll(vs: seq<Value>): seq<byte>
    decreases vs, 0
  {
    if vs == [] then [] else Enc(vs[0]) + EncAll(vs[1..])
  }

  /** Structs, floats and functions have no primitive representation. */
  predicate Supported(v: Value) {
    match v
    case Arr(items) => forall i | 0 <= i < |items| :: Supported(items[i])
    case Float(_) => false
    case Node(_, _, _) => false
    case Opaque => false
    case _ => true
  }

  /** The values a writer can finish. */
  predicate Encodable(v: Value) {
    Supported(v) && |Enc(v)| <= MAX_RECORD
  }

  /** How many arrays enclose the most deeply nested item. */
  function Nest(v: Value): nat
    decreases v, 1
  {
    if v.Arr? && v.items != [] then 1 + NestAll(v.items) else 0
  }

  function NestAll(vs: seq<Value>): nat
    decreases vs, 0
  {
    if vs == [] then 0
    else
      var a, b := Nest(vs[0]), NestAll(vs[1..]);
      if a < b then b else a
  }

  function Nodes(v: Value): (n: nat)
    ensures n >= 1
    decreases v, 1
  {
    if v.Arr? then 1 + NodesAll(v.items) else 1
  }

  function NodesAll(vs: seq<Value>): (n: nat)
    ensures n >= |vs|
    decreases vs, 0
  {
    if vs == [] then 0 else Nodes(vs[0]) + NodesAll(vs[1..])
  }

  lemma {:induction false} EncAllSnoc(vs: seq<Value>, v: Value)
    ensures EncAll(vs + [v]) == EncAll(vs) + Enc(v)
  {
    hide Enc;
    if vs == [] {
      assert vs + [v] == [v] && [v][1..] == [];
    } else {
      EncAllSnoc(vs[1..], v);
      assert (vs + [v])[1..] == vs[1..] + [v];
    }
  }

  // ----- the readable images of a value

  predicate At(data: seq<byte>, pos: nat, lit: seq<byte>) {
    pos + |lit| <= |data| && data[pos..pos + |lit|] == lit
  }

  /** The bytes at `pos` denote `v`. Only an integer has more than one image: its
      payload carries 64 bits of which 61 are kept. */
  predicate MatchAt(data: seq<byte>, pos: nat, v: Value)
    decreases v, 1
  {
    match v
    case Int(n) =>
      && pos + 10 <= |data|
      && At(data, pos, Le(3, 2))
      && Wrap61(LeValue(data[pos + 2..pos + 10])) == n
    case Str(s) => |s| < 0x1_0000_0000 && At(data, pos, Enc(v))
    case Bytes(d) => |d| < 0x1_0000_0000 && At(data, pos, Enc(v))
    case Arr(items) =>
      && |items| < 0x1_0000_0000
      && At(data, pos, Le(6, 2) + Le(|items|, 4))
      && MatchAll(data, pos + 6, items)
    case Void => At(data, pos, Enc(v))
    case Bool(_) => At(data, pos, Enc(v))
    case _ => false
  }

  predicate MatchAll(data: seq<byte>, pos: nat, vs: seq<Value>)
    decreases vs, 0
  {
    if vs == [] then pos <= |data|
    else MatchAt(data, pos, vs[0]) && MatchAll(data, pos + |Enc(vs[0])|, vs[1..])
  }

  /** A value's image lies inside the data and every node takes two bytes or more. */
  lemma {:induction false} MatchSize(data: seq<byte>, pos: nat, v: Value)
    requires MatchAt(data, pos, v)
    ensures Supported(v) && pos + |Enc(v)| <= |data| && |Enc(v)| >= 2 * Nodes(v)
    decreases v, 1
  {
    if v.Arr? {
      MatchAllSize(data, pos + 6, v.items);
    }
  }

  lemma {:induction false} MatchAllSize(data: seq<byte>, pos: nat, vs: seq<Value>)
    requires MatchAll(data, pos, vs)
    ensures forall i | 0 <= i < |vs| :: Supported(vs[i])
    ensures pos + |EncAll(vs)| <= |data| && |EncAll(vs)| >= 2 * NodesAll(vs)
    decreases vs, 0
  {
    if vs != [] {
      MatchSize(data, pos, vs[0]);
      MatchAllSize(data, pos + |Enc(vs[0])|, vs[1..]);
      assert forall i | 1 <= i < |vs| :: vs[i] == vs[1..][i - 1];
    }
  }

  lemma AtSplit(data: seq<byte>, pos: nat, a: seq<byte>, b: seq<byte>)
    ensures At(data, pos, a + b) <==> At(data, pos, a) && At(data, pos + |a|, b)
  {
    if pos + |a| + |b| <= |data| {
      var whole := data[pos..pos + |a| + |b|];
      assert whole == data[pos..pos + |a|] + data[pos + |a|..pos + |a| + |b|];
      assert whole[..|a|] == data[pos..pos + |a|];
      assert whole[|a|..] == data[pos + |a|..pos + |a| + |b|];
      assert (a + b)[..|a|] == a && (a + b)[|a|..] == b;
    }
  }

  /** An encoding is one of the readable images of its value, wherever it is placed. */
  lemma {:induction false} EncMatches(data: seq<byte>, pos: nat, v: Value)
    requires Encodable(v) && At(data, pos, Enc(v))
    ensures MatchAt(data, pos, v)
    decreases v, 1
  {
    match v {
      case Int(n) =>
        AtSplit(data, pos, Le(3, 2), Le(n, 8));
        assert data[pos + 2..pos + 10] == Le(n, 8);
        IntRoundTrip(n);
      case Arr(items) =>
        EncAllSize(items);
        AtSplit(data, pos, Le(6, 2) + Le(|items|, 4), EncAll(items));
        EncAllMatches(data, pos + 6, items);
      case _ =>
    }
  }

  lemma {:induction false} EncAllMatches(data: seq<byte>, pos: nat, vs: seq<Value>)
    requires forall i | 0 <= i < |vs| :: Supported(vs[i])
    requires |EncAll(vs)| <= MAX_RECORD && At(data, pos, EncAll(vs))
    ensures MatchAll(data, pos, vs)
    decreases vs, 0
  {
    if vs != [] {
      hide Enc, At;
      AtSplit(data, pos, Enc(vs[0]), EncAll(vs[1..]));
      EncMatches(data, pos, vs[0]);
      EncAllMatches(data, pos + |Enc(vs[0])|, vs[1..]);
    }
  }

  lemma {:induction false} EncAllSize(vs: seq<Value>)
    requires forall i | 0 <= i < |vs| :: Supported(vs[i])
    ensures |EncAll(vs)| >= 2 * |vs|
  {
    if vs != [] {
      EncAllSize(vs[1..]);
      assert Supported(vs[0]);
    }
  }

  /** Every 61-bit integer survives its eight-byte payload, both extremes included. */
  lemma IntRoundTrip(n: Int61)
    ensures Wrap61(LeValue(Le(n, 8))) == n
  {
    LeValueOfLe(n, 8);
    Pow2Small();
    hide Pow2, LeValue, Le;
    var m := 8 * INT_MODULUS;
    assert (n % m - n) % INT_MODULUS == 0;
    Wrap61Unique(n % m, n);
  }

  /** Lengths and tags are exact while they fit their width. */
  lemma UnsignedRoundTrip(n: nat, width: nat)
    requires n < Pow2(8 * width)
    ensures LeValue(Le(n, width)) == n
  {
    LeValueOfLe(n, width);
    DivModUnique(n, Pow2(8 * width), 0, n);
  }

  // ----- the format is self-delimiting

  /** At one position the bytes denote at most one value. */
  lemma {:induction false} MatchUnique(data: seq<byte>, pos: nat, v: Value, w: Value)
    requires MatchAt(data, pos, v) && MatchAt(data, pos, w)
    ensures v == w
    decreases v, 1
  {
    TagOf(data, pos, v);
    TagOf(data, pos, w);
    match v {
      case Str(s) => LengthOf(data, pos, 4, s, w.text);
      case Bytes(d) => LengthOf(data, pos, 5, d, w.data);
      case Arr(items) =>
        SameLength(data, pos, 6, |items|, |w.items|);
        MatchAllUnique(data, pos + 6, items, w.items);
      case _ =>
    }
  }

  lemma {:induction false} MatchAllUnique(data: seq<byte>, pos: nat, vs: seq<Value>, ws: seq<Value>)
    requires |vs| == |ws| && MatchAll(data, pos, vs) && MatchAll(data, pos, ws)
    ensures vs == ws
    decreases vs, 0
  {
    if vs != [] {
      MatchUnique(data, pos, vs[0], ws[0]);
      MatchAllUnique(data, pos + |Enc(vs[0])|, vs[1..], ws[1..]);
      assert vs == [vs[0]] + vs[1..] && ws == [ws[0]] + ws[1..];
    }
  }

  function Tag(v: Value): nat {
    match v
    case Void => 0
    case Bool(b) => if b then 2 else 1
    case Int(_) => 3
    case Str(_) => 4
    case Bytes(_) => 5
    case Arr(_) => 6
    case _ => 7
  }

  lemma TagBytes(n: nat)
    requires n < 256
    ensures Le(n, 2) == [n, 0]
  {
    LeStep(n, 2);
    LeStep(0, 1);
  }

  lemma {:induction false} TagOf(data: seq<byte>, pos: nat, v: Value)
    requires MatchAt(data, pos, v)
    ensures pos + 2 <= |data| && data[pos] == Tag(v) && data[pos + 1] == 0
  {
    var t := Tag(v);
    TagBytes(t);
    var head := Le(t, 2);
    assert At(data, pos, head) by {
      match v {
        case Str(s) =>
          AtSplit(data, pos, head + Le(|s|, 4), s);
          AtSplit(data, pos, head, Le(|s|, 4));
        case Bytes(d) =>
          AtSplit(data, pos, head + Le(|d|, 4), d);
          AtSplit(data, pos, head, Le(|d|, 4));
        case Arr(items) => AtSplit(data, pos, head, Le(|items|, 4));
        case _ =>
      }
    }
    assert data[pos..pos + 2][0] == data[pos] && data[pos..pos + 2][1] == data[pos + 1];
  }

  lemma SameLength(data: seq<byte>, pos: nat, tag: nat, m: nat, n: nat)
    requires m < 0x1_0000_0000 && n < 0x1_0000_0000
    requires At(data, pos, Le(tag, 2) + Le(m, 4)) && At(data, pos, Le(tag, 2) + Le(n, 4))
    ensures m == n
  {
    AtSplit(data, pos, Le(tag, 2), Le(m, 4));
    AtSplit(data, pos, Le(tag, 2), Le(n, 4));
    Pow2Small();
    UnsignedRoundTrip(m, 4);
    UnsignedRoundTrip(n, 4);
  }

  lemma LengthOf(data: seq<byte>, pos: nat, tag: nat, s: seq<byte>, t: seq<byte>)
    requires |s| < 0x1_0000_0000 && |t| < 0x1_0000_0000
    requires At(data, pos, Le(tag, 2) + Le(|s|, 4) + s) && At(data, pos, Le(tag, 2) + Le(|t|, 4) + t)
    ensures s == t
  {
    HeaderThen(data, pos, tag, s);
    HeaderThen(data, pos, tag, t);
    SameLength(data, pos, tag, |s|, |t|);
    SameBytes(data, pos + 6, s, t);
  }

  lemma HeaderThen(data: seq<byte>, pos: nat, tag: nat, s: seq<byte>)
    requires At(data, pos, Le(tag, 2) + Le(|s|, 4) + s)
    ensures At(data, pos, Le(tag, 2) + Le(|s|, 4)) && At(data, pos + 6, s)
  {
    AtSplit(data, pos, Le(tag, 2) + Le(|s|, 4), s);
  }

  lemma SameBytes(data: seq<byte>, pos: nat, s: seq<byte>, t: seq<byte>)
    requires At(data, pos, s) && At(data, pos, t) && |s| == |t|
    ensures s == t
  {
  }

  /** Reading one encoding out of a longer byte string is unambiguous: no encoding is a
      proper prefix of another, and whatever follows is left over exactly. */
  lemma {:induction false} EncUnique(v: Value, w: Value, r: seq<byte>, s: seq<byte>)
    requires Encodable(v) && Encodable(w)
    requires Enc(v) + r == Enc(w) + s
    ensures v == w && r == s
  {
    var data := Enc(v) + r;
    EncMatches(data, 0, v);
    EncMatches(data, 0, w);
    MatchUnique(data, 0, v, w);
    assert data[|Enc(v)|..] == r && (Enc(w) + s)[|Enc(w)|..] == s;
  }

  /** A concatenation of encodings parses in only one way. */
  lemma {:induction false} EncAllUnique(vs: seq<Value>, ws: seq<Value>)
    requires forall v | v in vs + ws :: Encodable(v)
    requires EncAll(vs) == EncAll(ws)
    ensures vs == ws
  {
    assert forall i | 0 <= i < |vs| :: vs[i] in vs + ws;
    assert forall i | 0 <= i < |ws| :: ws[i] in vs + ws;
    EncAllSize(vs);
    EncAllSize(ws);
    if vs != [] && ws != [] {
      EncUnique(vs[0], ws[0], EncAll(vs[1..]), EncAll(ws[1..]));
      assert forall v | v in vs[1..] + ws[1..] :: v in vs + ws;
      EncAllUnique(vs[1..], ws[1..]);
      assert vs == [vs[0]] + vs[1..] && ws == [ws[0]] + ws[1..];
    }
  }

  // ----- how far an accepted integer payload may differ from the canonical one

  lemma {:induction false} LeValueSplit(bs: seq<byte>, k: nat)
    requires k <= |bs|
    ensures LeValue(bs) == LeValue(bs[..k]) + Pow2(8 * k) * LeValue(bs[k..])
  {
    if k == 0 {
      assert Pow2(0) == 1 && bs[0..] == bs && bs[..0] == [];
    } else {
      LeValueSplit(bs[1..], k - 1);
      assert bs[1..][..k - 1] == bs[..k][1..] && bs[1..][k - 1..] == bs[k..];
      Pow2Step8(8 * (k - 1));
      Rescale(bs[0], LeValue(bs[1..]), LeValue(bs[..k][1..]), Pow2(8 * (k - 1)), LeValue(bs[k..]));
    }
  }

  lemma Rescale(b: int, whole: int, low: int, p: int, high: int)
    requires whole == low + p * high
    ensures b + 256 * whole == (b + 256 * low) + (256 * p) * high
  {
    assert 256 * (p * high) == (256 * p) * high;
  }

  /** A payload decodes to `n` exactly when it is the canonical payload up to the top
      three bits of its last byte. */
  lemma {:induction false} IntPayload(bs: seq<byte>, n: Int61)
    requires |bs| == 8
    ensures Wrap61(LeValue(bs)) == n <==>
            bs[..7] == Le(n, 8)[..7] && (bs[7] as int - Le(n, 8)[7] as int) % 32 == 0
  {
    var cs := Le(n, 8);
    IntRoundTrip(n);
    PayloadsCongruent(bs, cs);
    Wrap61Congruent(LeValue(bs), LeValue(cs));
  }

  lemma PayloadsCongruent(bs: seq<byte>, cs: seq<byte>)
    requires |bs| == |cs| == 8
    ensures (LeValue(bs) - LeValue(cs)) % INT_MODULUS == 0 <==>
            bs[..7] == cs[..7] && (bs[7] as int - cs[7] as int) % 32 == 0
  {
    PayloadSplit(bs);
    PayloadSplit(cs);
    var p := 0x100_0000_0000_0000;
    LeOfLeValue(bs[..7]);
    LeOfLeValue(cs[..7]);
    TopBits(p, LeValue(bs[..7]), bs[7], LeValue(cs[..7]), cs[7]);
  }

  lemma PayloadSplit(bs: seq<byte>)
    requires |bs| == 8
    ensures LeValue(bs) == LeValue(bs[..7]) + 0x100_0000_0000_0000 * (bs[7] as int)
    ensures LeValue(bs[..7]) < 0x100_0000_0000_0000
  {
    assert bs[7..] == [bs[7]] && [bs[7]][1..] == [];
    assert LeValue(bs[7..]) == bs[7];
    hide Pow2, LeValue;
    Pow2Small();
    LeValueSplit(bs, 7);
    LeValueBound(bs[..7]);
  }

  lemma {:induction false} TopBits(p: nat, lo: nat, hi: int, lo': nat, hi': int)
    requires lo < p && lo' < p
    ensures (lo + p * hi - (lo' + p * hi')) % (32 * p) == 0 <==> lo == lo' && (hi - hi') % 32 == 0
  {
    var d := lo + p * hi - (lo' + p * hi');
    if d % (32 * p) == 0 {
      var k := d / (32 * p);
      assert d == (32 * p) * k;
      assert (32 * p) * k == p * (32 * k);
      assert p * (hi' + 32 * k) == p * hi' + p * (32 * k);
      EuclideanUnique(p, hi, lo, hi' + 32 * k, lo');
    }
    if lo == lo' && (hi - hi') % 32 == 0 {
      var k := (hi - hi') / 32;
      assert p * hi - p * hi' == p * (hi - hi') == p * (32 * k) == (32 * p) * k;
      MultipleMod(k, 32 * p);
    }
  }
}
