/** The bounded reader. */
module CodecReader {
  import opened MiniLang
  import opened CodecSpec
  import Spec = CodecDecode
  import opened CodecWriter

  class Reader {
    const data: seq<byte>
    var pos: nat
    var valid: bool
    var remaining: nat
    ghost var slots: nat
    ghost var calls: nat

    ghost predicate Valid()
      reads this
    {
      pos <= |data|
    }

    constructor (data: seq<byte>)
      ensures Valid() && this.data == data && pos == 0 && valid && remaining == MAX_NODES
      ensures slots == 0 && calls == 0
    {
      this.data := data;
      pos, valid, remaining := 0, true, MAX_NODES;
      slots, calls := 0, 0;
    }

    /** Read one little-endian field, or fail without moving. */
    method Number(width: nat) returns (result: Int61)
      requires Valid() && 0 < width <= 8
      modifies this`pos, this`valid
      ensures Valid() && valid == (old(valid) && old(pos) + width <= |data|)
      ensures valid ==> pos == old(pos) + width && result == Spec.Number(data, old(pos), width)
      ensures !valid ==> pos == old(pos) && result == 0
    {
      if !valid || pos > |data| - width {
        valid := false;
        return 0;
      }
      ghost var field := data[pos..pos + width];
      result := 0;
      var i := 0;
      while i < width
        invariant 0 <= i <= width
        invariant result == Wrap61(LeValue(field[..i]))
        invariant i < 8 ==> result == LeValue(field[..i])
        modifies {}
      {
        OrNextByte(field[..i], field[i]);
        assert field[..i] + [field[i]] == field[..i + 1];
        result := BitOr(result, ShiftLeft(data[pos + i], 8 * i));
        i := i + 1;
      }
      assert field[..width] == field;
      pos := pos + width;
    }

    /** The reader went from a valid state to the one that `r` describes. */
    twostate predicate Did(r: Spec.Outcome, value: Value)
      reads this
    {
      && Valid() && valid == r.valid && pos == r.pos && remaining == r.remaining
      && slots == old(slots) + r.slots && calls + 1 == old(calls) + r.calls
      && (valid ==> value == r.value)
    }

    /** Decode one tree: the reader moves exactly as the specification function says. */
    method Read(depth: nat) returns (value: Value)
      requires Valid()
      modifies this
      ensures Valid()
      ensures !old(valid) ==> !valid && slots == old(slots) && pos == old(pos)
      ensures old(valid) ==>
                var r := Spec.Read(data, old(pos), old(remaining), depth);
                && valid == r.valid && pos == r.pos && remaining == r.remaining
                && slots == old(slots) + r.slots && calls == old(calls) + r.calls
                && (valid ==> value == r.value)
      decreases remaining, 0
    {
      calls := calls + 1;
      if depth > MAX_DEPTH || remaining == 0 || !valid {
        valid := false;
        return Void;
      }
      remaining := remaining - 1;
      var tag := Number(2);
      if !valid { return Void; }
      assert tag == Spec.Unsigned(data, old(pos), 2);
      value := ReadTagged(tag, depth);
    }

    /** The branches of `read` on its tag. */
    method ReadTagged(tag: nat, depth: nat) returns (value: Value)
      requires Valid() && valid
      modifies this
      ensures Did(Spec.ReadTagged(data, tag, old(pos), old(remaining), depth), value)
      decreases remaining, |data| + 3
    {
      if tag == 0 { return Void; }
      if tag == 1 { return Bool(false); }
      if tag == 2 { return Bool(true); }
      if tag == 3 {
        var n := Number(8);
        return Int(n);
      }
      if tag == 4 || tag == 5 {
        var count := Number(4);
        if !valid { return Void; }
        assert count == Spec.Unsigned(data, old(pos), 4);
        if count < 0 || count > |data| - pos {
          valid := false;
          return Void;
        }
        var raw := Slice(data, pos, count);
        pos := pos + count;
        return if tag == 4 then Str(raw) else Bytes(raw);
      }
      if tag == 6 {
        var count := Number(4);
        if !valid { return Void; }
        assert count == Spec.Unsigned(data, old(pos), 4);
        value := ReadArray(count, depth);
        return;
      }
      valid := false;
      return Void;
    }

    method ReadArray(count: nat, depth: nat) returns (value: Value)
      requires Valid() && valid
      modifies this
      ensures Did(Spec.ReadArray(data, count, old(pos), old(remaining), depth), value)
      decreases remaining, |data| + 2
    {
      if count > remaining || 2 * count > |data| - pos {
        valid := false;
        return Void;
      }
      slots := slots + count;
      var values := new Value[count](_ => Void);
      ReadItems(values, depth + 1);
      return Arr(values[..]);
    }

    /** Fill the array slot by slot; the first failure ends the loop. */
    method ReadItems(values: array<Value>, depth: nat)
      requires Valid() && valid && 2 * values.Length <= |data|
      modifies this, values
      ensures var r := Spec.ReadItems(data, old(pos), old(remaining), values.Length, depth);
              && Valid() && valid == r.valid && pos == r.pos && remaining == r.remaining
              && slots == old(slots) + r.slots && calls == old(calls) + r.calls
              && (valid ==> values[..] == r.values)
      decreases remaining, values.Length + 1
    {
      ghost var all := Spec.ReadItems(data, pos, remaining, values.Length, depth);
      ghost var s, c := 0, 0;
      var i := 0;
      while i < values.Length
        invariant 0 <= i <= values.Length && Valid() && valid && remaining <= old(remaining)
        invariant slots == old(slots) + s && calls == old(calls) + c
        invariant Spec.Rest(all, values[..i], s, c, Spec.ReadItems(data, pos, remaining, values.Length - i, depth))
        decreases values.Length - i
      {
        Spec.RestStep(all, values[..i], s, c, data, pos, remaining, values.Length - i, depth);
        ghost var r := Spec.Read(data, pos, remaining, depth);
        ghost var done := values[..i];
        var item := Read(depth);
        if !valid { return; }
        values[i] := item;
        i, s, c := i + 1, s + r.slots, c + r.calls;
        assert values[..i] == done + [item];
      }
    }
  }

  /** Or-ing the next byte in is the same as appending it to the number. */
  lemma {:induction false} OrNextByte(low: seq<byte>, b: byte)
    requires |low| < 8
    ensures BitOr(LeValue(low), ShiftLeft(b, 8 * |low|)) == Wrap61(LeValue(low + [b]))
    ensures |low| < 7 ==> Wrap61(LeValue(low + [b])) == LeValue(low + [b])
  {
    hide *;
    var k := 8 * |low|;
    LeValueBound(low);
    LeValueSnoc(low, b);
    if |low| < 7 {
      FitsBelow56(low + [b]);
      LowByte(LeValue(low), b, k);
    } else {
      TopByte(LeValue(low), b);
    }
  }

  lemma FitsBelow56(bs: seq<byte>)
    requires |bs| <= 7
    ensures LeValue(bs) < 0x100_0000_0000_0000 && Wrap61(LeValue(bs)) == LeValue(bs)
  {
    LeValueBound(bs);
    Pow2AtMost(8 * |bs|, 56);
    Pow2Small();
    Wrap61Unique(LeValue(bs), LeValue(bs));
  }

  lemma {:induction false} LowByte(low: nat, b: byte, k: nat)
    requires low < Pow2(k) && low + b * Pow2(k) < 0x100_0000_0000_0000
    ensures BitOr(low, ShiftLeft(b, k)) == low + b * Pow2(k)
  {
    hide Pow2, BitOr, Wrap61;
    ByteMultiple(b, Pow2(k));
    var high := b * Pow2(k);
    Wrap61Unique(high, high);
    BitOrDisjoint(low, high, k);
  }

  lemma {:induction false} ByteMultiple(b: byte, p: nat)
    requires p > 0
    ensures b * p >= 0 && (b * p) % p == 0
  {
    assert b * p == p * b;
    MultipleMod(b, p);
  }

  /** The top byte is wrapped to its low five bits before it is or-ed in. */
  lemma {:induction false} TopByte(low: nat, b: byte)
    requires low < Pow2(56)
    ensures BitOr(low, ShiftLeft(b, 56)) == Wrap61(low + b * Pow2(56))
  {
    Pow2Small();
    hide Pow2, BitOr;
    var p := 0x100_0000_0000_0000;
    var high := WrappedTop(b);
    BitOrDisjoint(low, high, 56);
    assert low + b * p - (low + high) == b * p - high;
    Wrap61Unique(low + b * p, low + high);
  }

  lemma {:induction false} WrappedTop(b: byte) returns (high: Int61)
    ensures var p := 0x100_0000_0000_0000;
            && high == Wrap61(b * p) && high % p == 0 && (b * p - high) % INT_MODULUS == 0
            && high + p <= 0x1000_0000_0000_0000
  {
    high := Wrap61(b * 0x100_0000_0000_0000);
  }

  /** `decodeRecord`, with its cost: on any input at most 129/2 array slots per byte are
      claimed, and at most one `read` per two bytes and one more is made. */
  method DecodeRecord(data: seq<byte>) returns (value: Value, ghost slots: nat, ghost calls: nat)
    ensures value == Spec.DecodeRecord(data)
    ensures 2 * slots <= 129 * |data| && 2 * calls <= |data| + 2
  {
    if |data| > MAX_RECORD { return Void, 0, 0; }
    var rd := new Reader(data);
    var result := rd.Read(0);
    Spec.DecodeCost(data);
    if !rd.valid || rd.pos != |data| { return Void, rd.slots, rd.calls; }
    return result, rd.slots, rd.calls;
  }
}
