/** The growable encoder. */
module CodecWriter {
  import opened MiniLang
  import opened CodecSpec

  const FIRST_CAPACITY: nat := 256

  /** Capacities start at 256 bytes and double, up to the largest record. */
  ghost predicate IsCapacity(n: nat) {
    n <= MAX_RECORD && exists k: nat :: k <= 18 && n == FIRST_CAPACITY * Pow2(k)
  }

  lemma DoublesWithinLimit(n: nat)
    requires IsCapacity(n) && n < MAX_RECORD
    ensures IsCapacity(2 * n)
  {
    hide Pow2;
    var k: nat :| k <= 18 && n == FIRST_CAPACITY * Pow2(k);
    Pow2Of18();
    Pow2Double(k);
    Pow2AtMost(k + 1, if k < 18 then 18 else k + 1);
  }

  lemma Pow2Of18()
    ensures Pow2(18) == 262144
  {
    Pow2Add(9, 9);
    assert Pow2(9) == 512;
  }

  lemma Concat3(a: seq<byte>, b: seq<byte>, c: seq<byte>)
    ensures (a + b) + c == a + (b + c)
  {
  }

  lemma ItemAppended(head: seq<byte>, items: seq<Value>, i: nat)
    requires i < |items|
    ensures EncAll(items[..i + 1]) == EncAll(items[..i]) + Enc(items[i])
    ensures head + EncAll(items[..i + 1]) == (head + EncAll(items[..i])) + Enc(items[i])
  {
    EncAllSnoc(items[..i], items[i]);
    assert items[..i + 1] == items[..i] + [items[i]];
    Concat3(head, EncAll(items[..i]), Enc(items[i]));
  }

  class Writer {
    var data: array<byte>
    var used: nat
    var valid: bool
    var astDepth: nat
    /** The bytes written so far. */
    ghost var contents: seq<byte>

    ghost predicate Valid()
      reads this, data
    {
      used <= data.Length && IsCapacity(data.Length) && contents == data[..used]
    }

    constructor ()
      ensures Valid() && fresh(data)
      ensures contents == [] && valid && astDepth == 0
    {
      data := new byte[FIRST_CAPACITY](_ => 0);
      used := 0;
      valid := true;
      astDepth := 0;
      contents := [];
      new;
      assert FIRST_CAPACITY == FIRST_CAPACITY * Pow2(0);
    }

    /** Make room for `additional` bytes, or give up on the record. */
    method Ensure(additional: nat) returns (ok: bool)
      requires Valid()
      modifies this`data, this`valid
      ensures Valid() && (data == old(data) || fresh(data))
      ensures ok <==> used + additional <= MAX_RECORD
      ensures ok ==> used + additional <= data.Length
      ensures valid == (old(valid) && ok)
    {
      var need := used + additional;
      if need > MAX_RECORD {
        valid := false;
        return false;
      }
      if need <= data.Length {
        return true;
      }
      var capacity := data.Length;
      while capacity < need
        invariant IsCapacity(capacity) && capacity > 0
        modifies {}
        decreases need - capacity
      {
        DoublesWithinLimit(capacity);
        capacity := capacity * 2;
      }
      var next := new byte[capacity](_ => 0);
      forall i | 0 <= i < used {
        next[i] := data[i];
      }
      data := next;
      return true;
    }

    method AppendNumber(value: int, width: nat)
      requires Valid()
      modifies this, data
      ensures Valid() && (data == old(data) || fresh(data)) && astDepth == old(astDepth)
      ensures var fits := |old(contents)| + width <= MAX_RECORD;
              && valid == (old(valid) && fits)
              && contents == if fits then old(contents) + Le(value, width) else old(contents)
    {
      var ok := Ensure(width);
      if !ok { return; }
      var i := 0;
      while i < width
        invariant i <= width && data[..used] == contents
        invariant forall k | 0 <= k < i :: data[used + k] == Le(value, width)[k]
        modifies data
      {
        data[used + i] := ShiftRight(value, i * 8) % 256;
        i := i + 1;
      }
      used := used + width;
      contents := contents + Le(value, width);
    }

    method AppendPayload(value: seq<byte>)
      requires Valid()
      modifies this, data
      ensures Valid() && (data == old(data) || fresh(data)) && astDepth == old(astDepth)
      ensures var fits := |old(contents)| + |value| <= MAX_RECORD;
              && valid == (old(valid) && fits)
              && contents == if fits then old(contents) + value else old(contents)
    {
      var ok := Ensure(|value|);
      if !ok { return; }
      forall i | 0 <= i < |value| {
        data[used + i] := value[i];
      }
      used := used + |value|;
      contents := contents + value;
    }

    /** What appending `bytes` leaves behind: the writer stays valid exactly while
        everything is supported and the record fits, and then holds the longer record. */
    twostate predicate Wrote(supported: bool, bytes: seq<byte>)
      reads this, data
    {
      && Valid() && (data == old(data) || fresh(data)) && astDepth == old(astDepth)
      && (valid <==> old(valid) && supported && |old(contents)| + |bytes| <= MAX_RECORD)
      && (valid ==> contents == old(contents) + bytes)
    }

    /** Append one value. Once invalid, the writer never becomes valid again. */
    method Write(value: Value)
      requires Valid()
      modifies this, data
      ensures Wrote(Supported(value), Enc(value))
      decreases value, 1
    {
      match value {
        case Void =>
          AppendNumber(0, 2);
        case Bool(b) =>
          var tag := 1;
          if b { tag := 2; }
          AppendNumber(tag, 2);
        case Int(n) =>
          AppendNumber(3, 2);
          AppendNumber(n, 8);
          Concat3(old(contents), Le(3, 2), Le(n, 8));
        case Str(s) =>
          WriteText(4, s);
        case Bytes(d) =>
          WriteText(5, d);
        case Arr(items) =>
          WriteArray(items);
        case _ =>
          valid := false;
      }
    }

    /** The string and the bytes branch, which differ in their tag. */
    method WriteText(tag: nat, payload: seq<byte>)
      requires Valid()
      modifies this, data
      ensures Wrote(true, Le(tag, 2) + Le(|payload|, 4) + payload)
    {
      WriteHeader(tag, |payload|);
      AppendPayload(payload);
      Concat3(old(contents), Le(tag, 2) + Le(|payload|, 4), payload);
    }

    method WriteHeader(tag: nat, count: nat)
      requires Valid()
      modifies this, data
      ensures Wrote(true, Le(tag, 2) + Le(count, 4))
    {
      AppendNumber(tag, 2);
      AppendNumber(count, 4);
      Concat3(old(contents), Le(tag, 2), Le(count, 4));
    }

    method WriteArray(items: seq<Value>)
      requires Valid()
      modifies this, data
      ensures Wrote(Supported(Arr(items)), Enc(Arr(items)))
      decreases items, 0
    {
      ghost var head := old(contents) + (Le(6, 2) + Le(|items|, 4));
      WriteHeader(6, |items|);
      assert head + EncAll(items[..0]) == head;
      for i := 0 to |items|
        invariant Valid() && (data == old(data) || fresh(data)) && astDepth == old(astDepth)
        invariant valid <==>
                  && old(valid)
                  && (forall k | 0 <= k < i :: Supported(items[k]))
                  && |head| + |EncAll(items[..i])| <= MAX_RECORD
        invariant valid ==> contents == head + EncAll(items[..i])
      {
        Write(items[i]);
        ItemAppended(head, items, i);
      }
      assert items[..|items|] == items;
      Concat3(old(contents), Le(6, 2) + Le(|items|, 4), EncAll(items));
    }

    /** The finished record, or nothing when a value was unsupported or it grew too large. */
    method Finish() returns (r: Option<seq<byte>>)
      requires Valid()
      ensures r == if valid then Some(contents) else None
    {
      if !valid { return None; }
      return Some(Slice(data[..], 0, used));
    }
  }

  /** `encode`: exactly the supported values of at most 2^26 bytes have a record. */
  method Encode(value: Value) returns (r: Option<seq<byte>>)
    ensures r == if Encodable(value) then Some(Enc(value)) else None
  {
    var w := new Writer();
    w.Write(value);
    assert [] + Enc(value) == Enc(value);
    r := w.Finish();
  }
}
