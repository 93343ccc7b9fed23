/** What one decoding call computes, and exactly which byte strings it accepts. */
module CodecDecode {
  import opened MiniLang
  import opened CodecSpec

  /** The reader's state after a `read`, with the work it did: array slots claimed and
      `read` calls made, counted on the failing paths too. */
  datatype Outcome = Outcome(valid: bool, value: Value, pos: nat, remaining: nat, slots: nat, calls: nat)
  datatype Items = Items(valid: bool, values: seq<Value>, pos: nat, remaining: nat, slots: nat, calls: nat)

  /** A little-endian field as the reader accumulates it. */
  function Number(data: seq<byte>, pos: nat, width: nat): Int61
    requires pos + width <= |data|
  {
    Wrap61(LeValue(data[pos..pos + width]))
  }

  /** A two- or four-byte field is never negative. */
  function Unsigned(data: seq<byte>, pos: nat, width: nat): (n: nat)
    requires pos + width <= |data| && (width == 2 || width == 4)
    ensures n == Number(data, pos, width) && n < Pow2(8 * width)
  {
    var field := data[pos..pos + width];
    LeValueBound(field);
    Pow2Small();
    Wrap61Unique(LeValue(field), LeValue(field));
    Number(data, pos, width)
  }

  function Read(data: seq<byte>, pos: nat, remaining: nat, depth: nat): (r: Outcome)
    requires pos <= |data|
    ensures pos <= r.pos <= |data| && r.remaining <= remaining
    ensures r.valid ==> r.remaining < remaining
    decreases remaining, 0
  {
    if depth > MAX_DEPTH || remaining == 0 then Outcome(false, Void, pos, remaining, 0, 1)
    else if pos + 2 > |data| then Outcome(false, Void, pos, remaining - 1, 0, 1)
    else ReadTagged(data, Unsigned(data, pos, 2), pos + 2, remaining - 1, depth)
  }

  /** The part of `read` that follows the tag. */
  function ReadTagged(data: seq<byte>, tag: nat, pos: nat, remaining: nat, depth: nat): (r: Outcome)
    requires pos <= |data|
    ensures pos <= r.pos <= |data| && r.remaining <= remaining
    decreases remaining, |data| + 3
  {
    if tag == 0 then Outcome(true, Void, pos, remaining, 0, 1)
    else if tag == 1 then Outcome(true, Bool(false), pos, remaining, 0, 1)
    else if tag == 2 then Outcome(true, Bool(true), pos, remaining, 0, 1)
    else if tag == 3 then
      if pos + 8 > |data| then Outcome(false, Void, pos, remaining, 0, 1)
      else Outcome(true, Int(Number(data, pos, 8)), pos + 8, remaining, 0, 1)
    else if tag == 4 || tag == 5 || tag == 6 then
      if pos + 4 > |data| then Outcome(false, Void, pos, remaining, 0, 1)
      else
        var count, start := Unsigned(data, pos, 4), pos + 4;
        if tag == 6 then ReadArray(data, count, start, remaining, depth)
        else if count > |data| - start then Outcome(false, Void, start, remaining, 0, 1)
        else
          var raw := data[start..start + count];
          Outcome(true, if tag == 4 then Str(raw) else Bytes(raw), start + count, remaining, 0, 1)
    else Outcome(false, Void, pos, remaining, 0, 1)
  }

  function ReadArray(data: seq<byte>, count: nat, start: nat, remaining: nat, depth: nat): (r: Outcome)
    requires start <= |data|
    ensures start <= r.pos <= |data| && r.remaining <= remaining
    decreases remaining, |data| + 2
  {
    if count > remaining || 2 * count > |data| - start then Outcome(false, Void, start, remaining, 0, 1)
    else
      var its := ReadItems(data, start, remaining, count, depth + 1);
      Outcome(its.valid, if its.valid then Arr(its.values) else Void, its.pos, its.remaining, count
          + its.slots, 1 + its.calls)
  }

  function ReadItems(data: seq<byte>, pos: nat, remaining: nat, count: nat, depth: nat): (r: Items)
    requires pos <= |data| && 2 * count <= |data|
    ensures pos <= r.pos <= |data| && r.remaining <= remaining
    decreases remaining, 1 + count
  {
    if count == 0 then Items(true, [], pos, remaining, 0, 0)
    else
      var r := Read(data, pos, remaining, depth);
      if !r.valid then Items(false, [], r.pos, r.remaining, r.slots, r.calls)
      else
        var its := ReadItems(data, r.pos, r.remaining, count - 1, depth);
        Items(its.valid, [r.value] + its.values, its.pos, its.remaining, r.slots + its.slots, r.calls + its.calls)
  }

  /** Half-way through an array: `done` items are read and `rest` is what follows. */
  ghost predicate Rest(all: Items, done: seq<Value>, slots: int, calls: int, rest: Items) {
    && all.valid == rest.valid && all.pos == rest.pos && all.remaining == rest.remaining
    && all.slots == slots + rest.slots && all.calls == calls + rest.calls
    && (all.valid ==> all.values == done + rest.values)
  }

  lemma RestStep(all: Items, done: seq<Value>, slots: int, calls: int, data: seq<byte>, pos: nat, remaining: nat,
      count: nat, depth: nat)
    requires pos <= |data| && 0 < 2 * count <= |data|
    requires Rest(all, done, slots, calls, ReadItems(data, pos, remaining, count, depth))
    ensures var r := Read(data, pos, remaining, depth);
            if r.valid then
              Rest(all, done + [r.value], slots + r.slots, calls + r.calls,
                   ReadItems(data, r.pos, r.remaining, count - 1, depth))
            else
              !all.valid && all.pos == r.pos && all.remaining == r.remaining
              && all.slots == slots + r.slots && all.calls == calls + r.calls
  {
    var r := Read(data, pos, remaining, depth);
    if r.valid {
      var its := ReadItems(data, r.pos, r.remaining, count - 1, depth);
      assert done + ([r.value] + its.values) == (done + [r.value]) + its.values;
    }
  }

  /** `decodeRecord` with acceptance kept apart from the decoded value. */
  function Decode(data: seq<byte>): Option<Value> {
    if |data| > MAX_RECORD then None
    else
      var r := Read(data, 0, MAX_NODES, 0);
      if r.valid && r.pos == |data| then Some(r.value) else None
  }

  /** `decodeRecord` itself, which answers void for a rejected record too. */
  function DecodeRecord(data: seq<byte>): Value {
    var r := Decode(data);
    if r.Some? then r.value else Void
  }

  lemma ReadOfArray(data: seq<byte>, pos: nat, remaining: nat, depth: nat)
    requires pos + 6 <= |data| && depth <= MAX_DEPTH && remaining > 0 && Unsigned(data, pos, 2) == 6
    ensures Read(data, pos, remaining, depth) ==
            ReadArray(data, Unsigned(data, pos + 2, 4), pos + 6, remaining - 1, depth)
  {
    assert Read(data, pos, remaining, depth) == ReadTagged(data, 6, pos + 2, remaining - 1, depth);
  }

  // ----- soundness: what is accepted denotes the value that is returned

  lemma {:induction false} ReadSound(data: seq<byte>, pos: nat, remaining: nat, depth: nat)
    requires pos <= |data|
    requires Read(data, pos, remaining, depth).valid
    ensures var r := Read(data, pos, remaining, depth);
            && MatchAt(data, pos, r.value)
            && r.pos == pos + |Enc(r.value)|
            && depth + Nest(r.value) <= MAX_DEPTH
            && r.remaining == remaining - Nodes(r.value)
    decreases remaining, 0
  {
    var tag := Unsigned(data, pos, 2);
    if tag == 6 {
      ReadValidArray(data, pos, remaining, depth);
      hide Le, At, Unsigned, Read, ReadTagged, ReadItems, MatchAll, EncAll, NestAll, NodesAll;
      var count := Unsigned(data, pos + 2, 4);
      ReadItemsSound(data, pos + 6, remaining - 1, count, depth + 1);
      ArrayHeader(data, pos);
    } else {
      ReadAtomSound(data, pos, remaining, depth);
    }
  }

  lemma ReadValidArray(data: seq<byte>, pos: nat, remaining: nat, depth: nat)
    requires pos + 2 <= |data| && Unsigned(data, pos, 2) == 6 && Read(data, pos, remaining, depth).valid
    ensures pos + 6 <= |data| && depth <= MAX_DEPTH && remaining > 0
    ensures Read(data, pos, remaining, depth) ==
            ReadArray(data, Unsigned(data, pos + 2, 4), pos + 6, remaining - 1, depth)
  {
    assert Read(data, pos, remaining, depth) == ReadTagged(data, 6, pos + 2, remaining - 1, depth);
    ReadOfArray(data, pos, remaining, depth);
  }

  lemma ArrayHeader(data: seq<byte>, pos: nat)
    requires pos + 6 <= |data| && Unsigned(data, pos, 2) == 6
    ensures var count := Unsigned(data, pos + 2, 4);
            count < 0x1_0000_0000 && At(data, pos, Le(6, 2) + Le(count, 4))
  {
    FieldAt(data, pos, 2);
    FieldAt(data, pos + 2, 4);
    Pow2Small();
    AtSplit(data, pos, Le(6, 2), Le(Unsigned(data, pos + 2, 4), 4));
  }

  lemma ReadAtomSound(data: seq<byte>, pos: nat, remaining: nat, depth: nat)
    requires pos + 2 <= |data| && Unsigned(data, pos, 2) != 6
    requires Read(data, pos, remaining, depth).valid
    ensures var r := Read(data, pos, remaining, depth);
            && MatchAt(data, pos, r.value)
            && r.pos == pos + |Enc(r.value)|
            && depth + Nest(r.value) <= MAX_DEPTH
            && r.remaining == remaining - Nodes(r.value)
  {
    var tag := Unsigned(data, pos, 2);
    FieldAt(data, pos, 2);
    var r := Read(data, pos, remaining, depth);
    assert r == ReadTagged(data, tag, pos + 2, remaining - 1, depth);
    if tag == 4 || tag == 5 {
      var count := Unsigned(data, pos + 2, 4);
      PayloadAt(data, pos, tag, data[pos + 6..pos + 6 + count]);
    }
  }

  lemma PayloadAt(data: seq<byte>, pos: nat, tag: nat, raw: seq<byte>)
    requires pos + 6 <= |data| && At(data, pos, Le(tag, 2))
    requires |raw| == Unsigned(data, pos + 2, 4) && At(data, pos + 6, raw)
    ensures |raw| < 0x1_0000_0000 && At(data, pos, Le(tag, 2) + Le(|raw|, 4) + raw)
  {
    FieldAt(data, pos + 2, 4);
    AtSplit(data, pos, Le(tag, 2), Le(|raw|, 4));
    AtSplit(data, pos, Le(tag, 2) + Le(|raw|, 4), raw);
    Pow2Small();
  }

  lemma {:induction false} ReadItemsSound(data: seq<byte>, pos: nat, remaining: nat, count: nat, depth: nat)
    requires pos <= |data| && 2 * count <= |data|
    requires ReadItems(data, pos, remaining, count, depth).valid
    ensures var r := ReadItems(data, pos, remaining, count, depth);
            && |r.values| == count
            && MatchAll(data, pos, r.values)
            && r.pos == pos + |EncAll(r.values)|
            && (count > 0 ==> depth + NestAll(r.values) <= MAX_DEPTH)
            && r.remaining == remaining - NodesAll(r.values)
    decreases remaining, 1 + count
  {
    if count > 0 {
      hide Read, ReadItems, Enc, MatchAt, Nest, Nodes, Supported, MatchAll, EncAll, NestAll, NodesAll;
      ReadItemsStep(data, pos, remaining, count, depth);
      var first := Read(data, pos, remaining, depth);
      ReadSound(data, pos, remaining, depth);
      var its := ReadItems(data, first.pos, first.remaining, count - 1, depth);
      ReadItemsSound(data, first.pos, first.remaining, count - 1, depth);
      Joined(data, pos, first.value, its.values);
    } else {
      assert MatchAll(data, pos, []) && EncAll([]) == [] && NodesAll([]) == 0;
    }
  }

  lemma ReadItemsStep(data: seq<byte>, pos: nat, remaining: nat, count: nat, depth: nat)
    requires pos <= |data| && 0 < 2 * count <= |data| && ReadItems(data, pos, remaining, count, depth).valid
    ensures var first := Read(data, pos, remaining, depth);
            var its := ReadItems(data, first.pos, first.remaining, count - 1, depth);
            && first.valid && its.valid
            && ReadItems(data, pos, remaining, count, depth).values == [first.value] + its.values
            && ReadItems(data, pos, remaining, count, depth).pos == its.pos
            && ReadItems(data, pos, remaining, count, depth).remaining == its.remaining
  {
  }

  lemma Joined(data: seq<byte>, pos: nat, v: Value, vs: seq<Value>)
    ensures var all := [v] + vs;
            && (MatchAll(data, pos, all) <==> MatchAt(data, pos, v) && MatchAll(data, pos + |Enc(v)|, vs))
            && |EncAll(all)| == |Enc(v)| + |EncAll(vs)|
            && NodesAll(all) == Nodes(v) + NodesAll(vs)
            && NestAll(all) == (if Nest(v) < NestAll(vs) then NestAll(vs) else Nest(v))
            && NestAll([]) == 0
  {
    assert ([v] + vs)[1..] == vs;
  }

  /** The bytes of a field are the canonical bytes of the number read from it. */
  lemma {:induction false} FieldAt(data: seq<byte>, pos: nat, width: nat)
    requires pos + width <= |data| && (width == 2 || width == 4)
    ensures At(data, pos, Le(Unsigned(data, pos, width), width))
  {
    var field := data[pos..pos + width];
    LeOfLeValue(field);
    LeValueBound(field);
    Pow2Small();
    Wrap61Unique(LeValue(field), LeValue(field));
  }

  lemma FieldValue(data: seq<byte>, pos: nat, width: nat, n: nat)
    requires width == 2 || width == 4
    requires n < Pow2(8 * width) && At(data, pos, Le(n, width))
    ensures Unsigned(data, pos, width) == n
  {
    UnsignedRoundTrip(n, width);
    Pow2Small();
    Wrap61Unique(n, n);
  }

  // ----- completeness: an image inside the budgets is never rejected

  lemma {:induction false} ReadComplete(data: seq<byte>, pos: nat, remaining: nat, depth: nat, v: Value)
    requires MatchAt(data, pos, v)
    requires depth + Nest(v) <= MAX_DEPTH && Nodes(v) <= remaining
    ensures pos <= |data| && Read(data, pos, remaining, depth).valid
    ensures Read(data, pos, remaining, depth).value == v
    decreases v, 1
  {
    ReadTag(data, pos, v);
    if v.Arr? {
      hide Enc, At, Unsigned, Le;
      ArrayCount(data, pos, v.items);
      ReadOfArray(data, pos, remaining, depth);
      MatchAllSize(data, pos + 6, v.items);
      ReadItemsComplete(data, pos + 6, remaining - 1, depth + 1, v.items);
    } else {
      ReadAtomComplete(data, pos, remaining, depth, v);
    }
  }

  lemma ArrayCount(data: seq<byte>, pos: nat, items: seq<Value>)
    requires |items| < 0x1_0000_0000 && At(data, pos, Le(6, 2) + Le(|items|, 4))
    ensures pos + 6 <= |data| && Unsigned(data, pos + 2, 4) == |items|
  {
    AtSplit(data, pos, Le(6, 2), Le(|items|, 4));
    Pow2Small();
    FieldValue(data, pos + 2, 4, |items|);
  }

  lemma ReadTag(data: seq<byte>, pos: nat, v: Value)
    requires MatchAt(data, pos, v)
    ensures pos + 2 <= |data| && Unsigned(data, pos, 2) == Tag(v)
  {
    TagOf(data, pos, v);
    TagBytes(Tag(v));
    assert data[pos..pos + 2] == [data[pos], data[pos + 1]];
    Pow2Small();
    FieldValue(data, pos, 2, Tag(v));
  }

  lemma ReadAtomComplete(data: seq<byte>, pos: nat, remaining: nat, depth: nat, v: Value)
    requires MatchAt(data, pos, v) && !v.Arr? && depth <= MAX_DEPTH && remaining > 0
    requires pos + 2 <= |data| && Unsigned(data, pos, 2) == Tag(v)
    ensures Read(data, pos, remaining, depth).valid
    ensures Read(data, pos, remaining, depth).value == v
  {
    assert Read(data, pos, remaining, depth) == ReadTagged(data, Tag(v), pos + 2, remaining - 1, depth);
    if v.Str? {
      TextAt(data, pos, Tag(v), v.text);
    } else if v.Bytes? {
      TextAt(data, pos, Tag(v), v.data);
    }
  }

  lemma TextAt(data: seq<byte>, pos: nat, tag: nat, payload: seq<byte>)
    requires |payload| < 0x1_0000_0000 && At(data, pos, Le(tag, 2) + Le(|payload|, 4) + payload)
    ensures pos + 6 + |payload| <= |data|
    ensures Unsigned(data, pos + 2, 4) == |payload|
    ensures data[pos + 6..pos + 6 + |payload|] == payload
  {
    Pow2Small();
    HeaderThen(data, pos, tag, payload);
    AtSplit(data, pos, Le(tag, 2), Le(|payload|, 4));
    FieldValue(data, pos + 2, 4, |payload|);
  }

  lemma {:induction false} ReadItemsComplete(data: seq<byte>, pos: nat, remaining: nat, depth: nat, vs: seq<Value>)
    requires MatchAll(data, pos, vs) && 2 * |vs| <= |data| && pos <= |data|
    requires (vs != [] ==> depth + NestAll(vs) <= MAX_DEPTH) && NodesAll(vs) <= remaining
    ensures ReadItems(data, pos, remaining, |vs|, depth).valid
    ensures ReadItems(data, pos, remaining, |vs|, depth).values == vs
    decreases vs, 0
  {
    if vs != [] {
      MatchSize(data, pos, vs[0]);
      ReadComplete(data, pos, remaining, depth, vs[0]);
      ReadSound(data, pos, remaining, depth);
      var first := Read(data, pos, remaining, depth);
      ReadItemsComplete(data, first.pos, first.remaining, depth, vs[1..]);
      assert vs == [vs[0]] + vs[1..];
    }
  }

  // ----- the theorems about whole records

  /** Acceptance, characterised: a record decodes to `v` exactly when it is one whole
      image of `v` and `v` is within the three bounds. */
  lemma {:induction false} DecodeExactly(data: seq<byte>, v: Value)
    ensures Decode(data) == Some(v) <==>
            && |data| <= MAX_RECORD
            && MatchAt(data, 0, v)
            && |Enc(v)| == |data|
            && Nest(v) <= MAX_DEPTH
            && Nodes(v) <= MAX_NODES
  {
    if Decode(data) == Some(v) {
      ReadSound(data, 0, MAX_NODES, 0);
    }
    if |data| <= MAX_RECORD && MatchAt(data, 0, v) && |Enc(v)| == |data| && Nest(v) <= MAX_DEPTH
        && Nodes(v) <= MAX_NODES {
      ReadComplete(data, 0, MAX_NODES, 0, v);
      ReadSound(data, 0, MAX_NODES, 0);
    }
  }

  /** Round trip. Of the values a writer can finish, exactly those nested at most 128
      deep with at most two million nodes come back; the defensive checks reject no
      other record. */
  lemma {:induction false} RoundTrip(v: Value)
    requires Encodable(v)
    ensures Nest(v) <= MAX_DEPTH && Nodes(v) <= MAX_NODES ==> Decode(Enc(v)) == Some(v)
    ensures Nest(v) > MAX_DEPTH || Nodes(v) > MAX_NODES ==> Decode(Enc(v)) == None
    ensures DecodeRecord(Enc(v)) == if Nest(v) <= 128 && Nodes(v) <= 2000000 then v else Void
  {
    EncMatches(Enc(v), 0, v);
    DecodeExactly(Enc(v), v);
    var r := Decode(Enc(v));
    if r.Some? {
      DecodeExactly(Enc(v), r.value);
      MatchUnique(Enc(v), 0, v, r.value);
    }
  }

  /** Decode-then-encode is an idempotent normalisation of accepted records. */
  lemma Normalises(data: seq<byte>)
    requires Decode(data).Some?
    ensures var v := Decode(data).value;
            Encodable(v) && |Enc(v)| == |data| && Decode(Enc(v)) == Some(v)
  {
    var v := Decode(data).value;
    DecodeExactly(data, v);
    MatchSize(data, 0, v);
    RoundTrip(v);
  }

  /** Two accepted records decode alike exactly when they normalise alike. */
  lemma SameValueSameNormalForm(a: seq<byte>, b: seq<byte>)
    requires Decode(a).Some? && Decode(b).Some?
    ensures Decode(a) == Decode(b) <==> Enc(Decode(a).value) == Enc(Decode(b).value)
  {
    Normalises(a);
    Normalises(b);
  }

  /** The positions where a record may differ from the canonical encoding of what it
      decodes to: the last payload byte of an integer. */
  function LooseBytes(pos: nat, v: Value): set<nat>
    decreases v, 1
  {
    match v
    case Int(_) => {pos + 9}
    case Arr(items) => LooseBytesAll(pos + 6, items)
    case _ => {}
  }

  function LooseBytesAll(pos: nat, vs: seq<Value>): set<nat>
    decreases vs, 0
  {
    if vs == [] then {} else LooseBytes(pos, vs[0]) + LooseBytesAll(pos + |Enc(vs[0])|, vs[1..])
  }

  lemma {:induction false} MatchBytes(data: seq<byte>, pos: nat, v: Value, k: nat)
    requires MatchAt(data, pos, v) && k < |Enc(v)|
    ensures pos + |Enc(v)| <= |data|
    ensures SameButTopBits(data[pos + k], Enc(v)[k], pos + k in LooseBytes(pos, v))
    decreases v, 1
  {
    MatchSize(data, pos, v);
    if v.Int? {
      IntBytes(data, pos, v.n, k);
    } else if v.Arr? {
      ArrayBytes(data, pos, v.items, k);
    } else {
      PrefixByte(data, pos, Enc(v), [], k);
    }
  }

  lemma {:induction false} ArrayBytes(data: seq<byte>, pos: nat, items: seq<Value>, k: nat)
    requires MatchAt(data, pos, Arr(items)) && k < |Enc(Arr(items))|
    ensures pos + |Enc(Arr(items))| <= |data|
    ensures SameButTopBits(data[pos + k], Enc(Arr(items))[k], pos + k in LooseBytes(pos, Arr(items)))
    decreases items, 1
  {
    hide Le;
    MatchAllSize(data, pos + 6, items);
    LooseBytesAbove(pos + 6, items);
    if k < 6 {
      PrefixByte(data, pos, Le(6, 2) + Le(|items|, 4), EncAll(items), k);
    } else {
      MatchAllBytes(data, pos + 6, items, k - 6);
    }
  }

  lemma PrefixByte(data: seq<byte>, pos: nat, lit: seq<byte>, rest: seq<byte>, k: nat)
    requires At(data, pos, lit) && k < |lit|
    ensures data[pos + k] == (lit + rest)[k] == lit[k]
  {
    assert data[pos..pos + |lit|][k] == data[pos + k];
  }

  lemma {:induction false} IntBytes(data: seq<byte>, pos: nat, n: Int61, k: nat)
    requires MatchAt(data, pos, Int(n)) && k < 10
    ensures SameButTopBits(data[pos + k], Enc(Int(n))[k], k == 9)
  {
    var bs, cs := data[pos + 2..pos + 10], Le(n, 8);
    IntPayload(bs, n);
    hide LeValue, Wrap61, Le;
    if k < 2 {
      assert data[pos..pos + 2][k] == data[pos + k];
    } else if k < 9 {
      assert bs[..7][k - 2] == cs[..7][k - 2];
    } else {
      assert bs[7] == data[pos + 9] && cs[7] == Enc(Int(n))[9];
    }
  }

  lemma {:induction false} MatchAllBytes(data: seq<byte>, pos: nat, vs: seq<Value>, k: nat)
    requires MatchAll(data, pos, vs) && k < |EncAll(vs)|
    ensures pos + |EncAll(vs)| <= |data|
    ensures SameButTopBits(data[pos + k], EncAll(vs)[k], pos + k in LooseBytesAll(pos, vs))
    decreases vs, 0
  {
    hide Enc, MatchAt, LooseBytes, SameButTopBits;
    MatchAllSize(data, pos, vs);
    var n := |Enc(vs[0])|;
    LooseBytesAbove(pos + n, vs[1..]);
    LooseBytesBelow(pos, vs[0]);
    if k < n {
      MatchBytes(data, pos, vs[0], k);
    } else {
      MatchAllBytes(data, pos + n, vs[1..], k - n);
    }
  }

  lemma {:induction false} LooseBytesAbove(pos: nat, vs: seq<Value>)
    ensures forall p | p in LooseBytesAll(pos, vs) :: pos <= p
    decreases vs
  {
    if vs != [] {
      LooseBytesAbove(pos + |Enc(vs[0])|, vs[1..]);
      if vs[0].Arr? {
        LooseBytesAbove(pos + 6, vs[0].items);
      }
      assert forall p | p in LooseBytes(pos, vs[0]) :: pos <= p;
    }
  }

  lemma {:induction false} LooseBytesBelow(pos: nat, v: Value)
    ensures forall p | p in LooseBytes(pos, v) :: p < pos + |Enc(v)|
    decreases v, 1
  {
    if v.Arr? {
      LooseBytesAllBelow(pos + 6, v.items);
    }
  }

  lemma {:induction false} LooseBytesAllBelow(pos: nat, vs: seq<Value>)
    ensures forall p | p in LooseBytesAll(pos, vs) :: p < pos + |EncAll(vs)|
    decreases vs, 0
  {
    if vs != [] {
      LooseBytesBelow(pos, vs[0]);
      LooseBytesAllBelow(pos + |Enc(vs[0])|, vs[1..]);
    }
  }

  /** The bytes at `pos` are `bs`, but for the top three bits at loose positions. */
  ghost predicate CanonicalAt(data: seq<byte>, pos: nat, bs: seq<byte>, loose: set<nat>) {
    && pos + |bs| <= |data|
    && forall k | 0 <= k < |bs| :: SameButTopBits(data[pos + k], bs[k], pos + k in loose)
  }

  /** `data` is `v`'s canonical encoding up to the top three bits of the last byte of
      integer payloads. */
  ghost predicate CanonicalButTopBits(data: seq<byte>, v: Value) {
    |Enc(v)| == |data| && CanonicalAt(data, 0, Enc(v), LooseBytes(0, v))
  }

  predicate SameButTopBits(x: byte, y: byte, loose: bool) {
    if loose then (x as int - y as int) % 32 == 0 else x == y
  }

  /** Acceptance, byte by byte: a record decodes to `v` exactly when it is `v`'s canonical
      encoding but for those bits and within the three bounds. */
  lemma {:induction false} DecodeSound(data: seq<byte>, v: Value)
    ensures Decode(data) == Some(v) <==>
            && |data| <= 67108864
            && Supported(v)
            && CanonicalButTopBits(data, v)
            && Nest(v) <= 128
            && Nodes(v) <= 2000000
  {
    DecodeExactly(data, v);
    hide Decode, MatchAt, Enc, LooseBytes, Nest, Nodes;
    if Decode(data) == Some(v) {
      MatchSize(data, 0, v);
      forall k | 0 <= k < |data|
        ensures SameButTopBits(data[k], Enc(v)[k], k in LooseBytes(0, v))
      {
        MatchBytes(data, 0, v, k);
      }
    }
    if |data| <= MAX_RECORD && Supported(v) && CanonicalButTopBits(data, v) {
      BytesMatch(data, 0, v);
    }
  }

  /** Bytes that are canonical but for the loose bits are an image of the value. */
  lemma {:induction false} BytesMatch(data: seq<byte>, pos: nat, v: Value)
    requires Encodable(v) && CanonicalAt(data, pos, Enc(v), LooseBytes(pos, v))
    ensures MatchAt(data, pos, v)
    decreases v, 1
  {
    if v.Int? {
      IntBytesMatch(data, pos, v.n);
    } else if v.Arr? {
      var head := Le(6, 2) + Le(|v.items|, 4);
      LooseBytesAbove(pos + 6, v.items);
      CanonicalSplit(data, pos, head, EncAll(v.items), {}, LooseBytesAll(pos + 6, v.items));
      ExactAt(data, pos, head);
      ItemsWithin(v.items);
      BytesMatchAll(data, pos + 6, v.items);
    } else {
      ExactAt(data, pos, Enc(v));
    }
  }

  lemma {:induction false} BytesMatchAll(data: seq<byte>, pos: nat, vs: seq<Value>)
    requires (forall i | 0 <= i < |vs| :: Supported(vs[i])) && |EncAll(vs)| <= MAX_RECORD && pos <= |data|
    requires CanonicalAt(data, pos, EncAll(vs), LooseBytesAll(pos, vs))
    ensures MatchAll(data, pos, vs)
    decreases vs, 0
  {
    if vs != [] {
      var n := |Enc(vs[0])|;
      LooseBytesBelow(pos, vs[0]);
      LooseBytesAbove(pos + n, vs[1..]);
      CanonicalSplit(data, pos, Enc(vs[0]), EncAll(vs[1..]), LooseBytes(pos, vs[0]), LooseBytesAll(pos + n, vs[1..]));
      BytesMatch(data, pos, vs[0]);
      BytesMatchAll(data, pos + n, vs[1..]);
    }
  }

  /** Two adjacent stretches, each with its own loose positions. */
  lemma CanonicalSplit(data: seq<byte>, pos: nat, a: seq<byte>, b: seq<byte>, s: set<nat>, t: set<nat>)
    requires CanonicalAt(data, pos, a + b, s + t)
    requires (forall p | p in s :: p < pos + |a|) && (forall p | p in t :: pos + |a| <= p)
    ensures CanonicalAt(data, pos, a, s) && CanonicalAt(data, pos + |a|, b, t)
  {
    forall k | 0 <= k < |a|
      ensures SameButTopBits(data[pos + k], a[k], pos + k in s)
    {
      assert (a + b)[k] == a[k];
    }
    forall k | 0 <= k < |b|
      ensures SameButTopBits(data[pos + |a| + k], b[k], pos + |a| + k in t)
    {
      assert (a + b)[|a| + k] == b[k];
      assert SameButTopBits(data[pos + (|a| + k)], (a + b)[|a| + k], pos + (|a| + k) in s + t);
    }
  }

  lemma ExactAt(data: seq<byte>, pos: nat, bs: seq<byte>)
    requires CanonicalAt(data, pos, bs, {})
    ensures At(data, pos, bs)
  {
    assert forall k | 0 <= k < |bs| :: data[pos..pos + |bs|][k] == data[pos + k] == bs[k];
  }

  lemma {:induction false} IntBytesMatch(data: seq<byte>, pos: nat, n: Int61)
    requires CanonicalAt(data, pos, Enc(Int(n)), {pos + 9})
    ensures MatchAt(data, pos, Int(n))
  {
    var bs, cs := data[pos + 2..pos + 10], Le(n, 8);
    CanonicalSplit(data, pos, Le(3, 2), cs, {}, {pos + 9});
    ExactAt(data, pos, Le(3, 2));
    hide LeValue, Wrap61, Le;
    forall k | 0 <= k < 7
      ensures bs[k] == cs[k]
    {
      assert SameButTopBits(data[pos + 2 + k], cs[k], pos + 2 + k in {pos + 9});
    }
    assert bs[..7] == cs[..7];
    assert SameButTopBits(data[pos + 2 + 7], cs[7], pos + 2 + 7 in {pos + 9});
    IntPayload(bs, n);
  }

  lemma ItemsWithin(items: seq<Value>)
    requires |EncAll(items)| <= MAX_RECORD && forall i | 0 <= i < |items| :: Supported(items[i])
    ensures |items| < 0x1_0000_0000
  {
    EncAllSize(items);
  }

  lemma {:induction false} MatchExtends(data: seq<byte>, more: seq<byte>, pos: nat, v: Value)
    requires MatchAt(data, pos, v)
    ensures MatchAt(data + more, pos, v)
    decreases v, 1
  {
    if v.Int? {
      assert (data + more)[pos + 2..pos + 10] == data[pos + 2..pos + 10];
      AtExtends(data, more, pos, Le(3, 2));
    } else if v.Arr? {
      AtExtends(data, more, pos, Le(6, 2) + Le(|v.items|, 4));
      MatchAllExtends(data, more, pos + 6, v.items);
    } else {
      AtExtends(data, more, pos, Enc(v));
    }
  }

  lemma {:induction false} MatchAllExtends(data: seq<byte>, more: seq<byte>, pos: nat, vs: seq<Value>)
    requires MatchAll(data, pos, vs)
    ensures MatchAll(data + more, pos, vs)
    decreases vs, 0
  {
    if vs != [] {
      MatchExtends(data, more, pos, vs[0]);
      MatchAllExtends(data, more, pos + |Enc(vs[0])|, vs[1..]);
    }
  }

  lemma AtExtends(data: seq<byte>, more: seq<byte>, pos: nat, lit: seq<byte>)
    requires At(data, pos, lit)
    ensures At(data + more, pos, lit)
  {
    assert (data + more)[pos..pos + |lit|] == data[pos..pos + |lit|];
  }

  /** Self-delimiting records: of two byte strings where one extends the other, at most
      one is accepted. Truncation and trailing bytes are always noticed. */
  lemma NoAcceptedExtension(data: seq<byte>, more: seq<byte>)
    requires more != []
    ensures Decode(data) == None || Decode(data + more) == None
  {
    if Decode(data).Some? && Decode(data + more).Some? {
      var v, w := Decode(data).value, Decode(data + more).value;
      DecodeExactly(data, v);
      DecodeExactly(data + more, w);
      MatchExtends(data, more, 0, v);
      MatchUnique(data + more, 0, v, w);
    }
  }

  /** `decodeRecord` answers void for every rejected record and for one accepted one. */
  lemma VoidIsAmbiguous(data: seq<byte>)
    ensures DecodeRecord(data) == Void <==> Decode(data) == None || data == [0, 0]
  {
    TagBytes(0);
    DecodeExactly(data, Void);
    if data == [0, 0] {
      assert data[0..2] == data;
    } else if |data| == 2 {
      assert data[0..2] == data;
    }
  }

  // ----- how much work any input can cause

  /** What a read of `data` from `pos` may cost at this depth. */
  ghost predicate WithinCost(r: Outcome, pos: nat, length: nat, depth: nat)
    requires pos <= length
  {
    if r.valid then 2 * r.slots + 2 <= r.pos - pos && 2 * r.calls <= r.pos - pos
    else
      && 2 * r.slots <= (if depth <= MAX_DEPTH then (MAX_DEPTH + 1 - depth) * (length - pos) else 0)
      && 2 * r.calls <= length - pos + 2
  }

  /** A failed read claimed at most half of what was left for each level that was still
      open; a successful one at most half of what it consumed. */
  lemma {:induction false} ReadCost(data: seq<byte>, pos: nat, remaining: nat, depth: nat)
    requires pos <= |data|
    ensures WithinCost(Read(data, pos, remaining, depth), pos, |data|, depth)
    decreases remaining, 0
  {
    if depth <= MAX_DEPTH && remaining > 0 && pos + 6 <= |data| && Unsigned(data, pos, 2) == 6 {
      ReadOfArray(data, pos, remaining, depth);
      ReadArrayCost(data, Unsigned(data, pos + 2, 4), pos + 6, remaining - 1, depth);
      HeaderCost(Read(data, pos, remaining, depth), pos, |data|, depth);
    } else {
      ReadAtomCost(data, pos, remaining, depth);
    }
  }

  lemma ReadAtomCost(data: seq<byte>, pos: nat, remaining: nat, depth: nat)
    requires pos <= |data|
    requires depth > MAX_DEPTH || remaining == 0 || pos + 6 > |data| || Unsigned(data, pos, 2) != 6
    ensures WithinCost(Read(data, pos, remaining, depth), pos, |data|, depth)
  {
    var r := Read(data, pos, remaining, depth);
    if depth <= MAX_DEPTH && remaining > 0 && pos + 2 <= |data| {
      assert r == ReadTagged(data, Unsigned(data, pos, 2), pos + 2, remaining - 1, depth);
    }
    assert r.slots == 0 && r.calls == 1 && (r.valid ==> r.pos >= pos + 2);
    SpendWithin(if depth <= MAX_DEPTH then MAX_DEPTH + 1 - depth else 0, |data| - pos, 0);
  }

  lemma HeaderCost(r: Outcome, pos: nat, length: nat, depth: nat)
    requires pos + 6 <= length && depth <= MAX_DEPTH
    requires r.valid ==> 2 * r.slots <= r.pos - (pos + 6) && 2 * r.calls <= r.pos - pos - 4
    requires !r.valid ==> 2 * r.slots <= (MAX_DEPTH + 1 - depth) * (length - (pos + 6))
    requires !r.valid ==> 2 * r.calls <= length - pos - 2
    ensures WithinCost(r, pos, length, depth)
  {
    var left := length - (pos + 6);
    SpendWithin(MAX_DEPTH + 1 - depth, left, 6);
    assert length - pos == left + 6;
  }

  lemma {:induction false} ReadArrayCost(data: seq<byte>, count: nat, start: nat, remaining: nat, depth: nat)
    requires start <= |data| && depth <= MAX_DEPTH
    ensures var r := ReadArray(data, count, start, remaining, depth);
            && (r.valid ==> 2 * r.slots <= r.pos - start && 2 * r.calls <= r.pos - start + 2)
            && (!r.valid ==> 2 * r.slots <= (MAX_DEPTH + 1 - depth) * (|data| - start))
            && (!r.valid ==> 2 * r.calls <= |data| - start + 4)
    decreases remaining, 2 + count
  {
    var levels := MAX_DEPTH - depth;
    if count <= remaining && 2 * count <= |data| - start {
      ReadItemsCost(data, start, remaining, count, depth + 1);
    }
    SpendWithin(levels, |data| - start, 0);
  }

  lemma SpendWithin(levels: nat, left: nat, spent: nat)
    ensures levels * (left + spent) >= levels * left + if levels > 0 then spent else 0
    ensures (levels + 1) * (left + spent) == levels * (left + spent) + left + spent
  {
    if levels > 0 {
      assert levels * spent >= spent;
    }
  }

  lemma {:induction false} ReadItemsCost(data: seq<byte>, pos: nat, remaining: nat, count: nat, depth: nat)
    requires pos <= |data| && 2 * count <= |data| && 0 < depth <= MAX_DEPTH + 1
    ensures var r := ReadItems(data, pos, remaining, count, depth);
            && (r.valid ==> 2 * r.slots + 2 * count <= r.pos - pos && 2 * r.calls <= r.pos - pos)
            && (!r.valid ==> 2 * r.slots <= (MAX_DEPTH + 1 - depth) * (|data| - pos))
            && (!r.valid ==> 2 * r.calls <= |data| - pos + 2)
    decreases remaining, 1 + count
  {
    if count > 0 {
      ReadCost(data, pos, remaining, depth);
      var first := Read(data, pos, remaining, depth);
      var levels := MAX_DEPTH + 1 - depth;
      if first.valid {
        ReadItemsCost(data, first.pos, first.remaining, count - 1, depth);
        ReadSound(data, pos, remaining, depth);
        SpendWithin(levels, |data| - first.pos, first.pos - pos);
      } else if levels == 0 {
        assert levels * (|data| - pos) == 0;
      }
    }
  }

  /** Whatever the input, one call claims fewer than 65 array slots per byte and makes at
      most one `read` per two bytes and one more. */
  lemma DecodeCost(data: seq<byte>)
    ensures var r := Read(data, 0, MAX_NODES, 0);
            && 2 * r.slots <= 129 * |data|
            && 2 * r.calls <= |data| + 2
            && r.calls <= r.slots + 1
            && (Decode(data).Some? ==> 2 * r.slots + 2 <= |data| && r.calls == r.slots + 1 == Nodes(r.value))
  {
    ReadCost(data, 0, MAX_NODES, 0);
    ReadCalls(data, 0, MAX_NODES, 0);
    if Decode(data).Some? {
      ReadSound(data, 0, MAX_NODES, 0);
    }
  }

  /** Every call that gets past the budget check takes one unit from the budget, and every
      call but the first fills a slot that was claimed for it. */
  lemma {:induction false} ReadCalls(data: seq<byte>, pos: nat, remaining: nat, depth: nat)
    requires pos <= |data|
    ensures var r := Read(data, pos, remaining, depth);
            && r.calls - 1 <= remaining - r.remaining <= r.calls && (r.valid ==> r.calls == remaining - r.remaining)
            && r.calls <= r.slots + 1 && (r.valid ==> r.calls == r.slots + 1)
    decreases remaining, 0
  {
    if depth <= MAX_DEPTH && remaining > 0 && pos + 6 <= |data| && Unsigned(data, pos, 2) == 6 {
      ReadOfArray(data, pos, remaining, depth);
      var count := Unsigned(data, pos + 2, 4);
      if count <= remaining - 1 && 2 * count <= |data| - (pos + 6) {
        ReadItemsCalls(data, pos + 6, remaining - 1, count, depth + 1);
      }
    }
  }

  lemma {:induction false} ReadItemsCalls(data: seq<byte>, pos: nat, remaining: nat, count: nat, depth: nat)
    requires pos <= |data| && 2 * count <= |data|
    ensures var r := ReadItems(data, pos, remaining, count, depth);
            && r.calls - 1 <= remaining - r.remaining <= r.calls && (r.valid ==> r.calls == remaining - r.remaining)
            && r.calls <= r.slots + count && (r.valid ==> r.calls == r.slots + count)
    decreases remaining, 1 + count
  {
    if count > 0 {
      ReadCalls(data, pos, remaining, depth);
      var first := Read(data, pos, remaining, depth);
      if first.valid {
        ReadItemsCalls(data, first.pos, first.remaining, count - 1, depth);
      }
    }
  }
}
