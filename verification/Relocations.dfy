/** Relocation folding and the refresh of the embedded runtime blob. */
module Relocations {
  import opened MiniLang

  datatype Patch = Patch(pos: nat, target: string)

  // ----- signed 32-bit fields

  predicate IsInt32(v: int) {
    -0x8000_0000 <= v < 0x8000_0000
  }

  /** A little-endian field read as a signed number. */
  function Signed32(field: seq<byte>): int
    requires |field| == 4
  {
    var u := LeValue(field);
    if u < 0x8000_0000 then u else u - 0x1_0000_0000
  }

  lemma Signed32RoundTrip(v: int)
    requires IsInt32(v)
    ensures Signed32(Le(v, 4)) == v
  {
    LeValueOfLe(v, 4);
    Pow2Small();
    hide Pow2, LeValue, Le;
    assert v % 0x1_0000_0000 == if v < 0 then v + 0x1_0000_0000 else v;
  }

  /** `struct.pack_into('<i', code, pos, v)`, which raises on a value or a position that
      does not fit. */
  function PackInto(code: seq<byte>, pos: nat, v: int): Option<seq<byte>> {
    if IsInt32(v) && pos + 4 <= |code| then Some(code[..pos] + Le(v, 4) + code[pos + 4..]) else None
  }

  /** The displacement from the end of a patched field to its label. */
  function Displacement(p: Patch, labels: map<string, int>): int
    requires p.target in labels
  {
    labels[p.target] - p.pos - 4
  }

  function FoldAll(code: seq<byte>, patches: seq<Patch>, labels: map<string, int>): Option<seq<byte>> {
    if patches == [] then Some(code)
    else
      var before := FoldAll(code, patches[..|patches| - 1], labels);
      var p := patches[|patches| - 1];
      if before == None || p.target !in labels then before
      else PackInto(before.value, p.pos, Displacement(p, labels))
  }

  /** `external` is what stands in `patches` at the places `at`, which are, in order, those
      of all relocations against no label of this assembler. */
  ghost predicate KeepsOthers(external: seq<Patch>, at: seq<nat>, patches: seq<Patch>, labels: map<string, int>) {
    && |external| == |at|
    && (forall i, j | 0 <= i < j < |at| :: at[i] < at[j])
    && (forall j | 0 <= j < |at| :: at[j] < |patches| && external[j] == patches[at[j]])
    && (forall i: nat | i < |patches| :: i in at <==> patches[i].target !in labels)
  }

  lemma FoldSnoc(code: seq<byte>, before: seq<byte>, patches: seq<Patch>, p: Patch, labels: map<string, int>)
    requires FoldAll(code, patches, labels) == Some(before)
    ensures p.target !in labels ==> FoldAll(code, patches + [p], labels) == Some(before)
    ensures p.target in labels ==>
              && FoldAll(code, patches + [p], labels) == PackInto(before, p.pos, Displacement(p, labels))
              && (PackInto(before, p.pos, Displacement(p, labels)).Some?
                  <==> IsInt32(Displacement(p, labels)) && p.pos + 4 <= |before|)
  {
    assert (patches + [p])[..|patches|] == patches;
  }

  lemma KeepsOneMore(
      external: seq<Patch>, at: seq<nat>, patches: seq<Patch>, p: Patch, labels: map<string, int>)
    requires KeepsOthers(external, at, patches, labels) && p.target !in labels
    ensures KeepsOthers(external + [p], at + [|patches|], patches + [p], labels)
  {
    var more := at + [|patches|];
    assert more[|at|] == |patches|;
    assert forall i: nat | i < |patches| :: i in more <==> i in at;
  }

  lemma KeepsTheSame(
      external: seq<Patch>, at: seq<nat>, patches: seq<Patch>, p: Patch, labels: map<string, int>)
    requires KeepsOthers(external, at, patches, labels) && p.target in labels
    ensures KeepsOthers(external, at, patches + [p], labels)
  {
    assert |patches| !in at;
  }

  /** Fold every relocation against a label of this assembler and keep the others. */
  method Fold(code: array<byte>, patches: seq<Patch>, labels: map<string, int>)
    returns (ok: bool, external: seq<Patch>, ghost at: seq<nat>)
    modifies code
    ensures ok == FoldAll(old(code[..]), patches, labels).Some?
    ensures ok ==> code[..] == FoldAll(old(code[..]), patches, labels).value
    ensures ok ==> KeepsOthers(external, at, patches, labels)
  {
    external, at := [], [];
    assert FoldAll(code[..], patches[..0], labels) == Some(code[..]);
    assert KeepsOthers(external, at, patches[..0], labels);
    hide KeepsOthers, FoldAll, PackInto, Le;
    var i := 0;
    while i < |patches|
      invariant i <= |patches|
      invariant FoldAll(old(code[..]), patches[..i], labels) == Some(code[..])
      invariant KeepsOthers(external, at, patches[..i], labels)
    {
      var p := patches[i];
      assert patches[..i + 1] == patches[..i] + [p];
      ghost var before := code[..];
      FoldSnoc(old(code[..]), before, patches[..i], p, labels);
      if p.target in labels {
        var v := Displacement(p, labels);
        if !IsInt32(v) || p.pos + 4 > code.Length {
          FailureStays(old(code[..]), patches, i + 1, labels);
          return false, external, at;
        }
        Pack(code, p.pos, v);
        KeepsTheSame(external, at, patches[..i], p, labels);
      } else {
        KeepsOneMore(external, at, patches[..i], p, labels);
        external, at := external + [p], at + [i];
      }
      i := i + 1;
    }
    assert patches[..i] == patches;
    return true, external, at;
  }

  method Pack(code: array<byte>, pos: nat, v: int)
    requires IsInt32(v) && pos + 4 <= code.Length
    modifies code
    ensures PackInto(old(code[..]), pos, v) == Some(code[..])
  {
    ghost var before := code[..];
    var field := Le(v, 4);
    forall k | 0 <= k < 4 {
      code[pos + k] := field[k];
    }
    assert code[..] == before[..pos] + field + before[pos + 4..];
  }

  lemma {:induction false} FailureStays(code: seq<byte>, patches: seq<Patch>, k: nat, labels: map<string, int>)
    requires k <= |patches| && FoldAll(code, patches[..k], labels) == None
    ensures FoldAll(code, patches, labels) == None
    decreases |patches| - k
  {
    if k < |patches| {
      assert patches[..k + 1][..k] == patches[..k];
      FailureStays(code, patches, k + 1, labels);
    } else {
      assert patches[..k] == patches;
    }
  }

  // ----- what folding achieves

  /** The patched fields do not overlap. */
  ghost predicate Disjoint(patches: seq<Patch>) {
    forall i, j | 0 <= i < j < |patches| :: patches[i].pos + 4 <= patches[j].pos || patches[j].pos + 4 <= patches[i].pos
  }

  predicate InField(k: nat, p: Patch) {
    p.pos <= k < p.pos + 4
  }

  ghost predicate InLocalField(k: nat, patches: seq<Patch>, labels: map<string, int>) {
    exists i :: 0 <= i < |patches| && patches[i].target in labels && InField(k, patches[i])
  }

  /** The rel32 field of `p`, read the way a disassembler does, names `p`'s label. */
  ghost predicate LandsOn(code: seq<byte>, p: Patch, labels: map<string, int>) {
    && p.target in labels
    && p.pos + 4 <= |code|
    && p.pos + 4 + Signed32(code[p.pos..p.pos + 4]) == labels[p.target]
  }

  /** The caller's side of it: every local field lies in the code and its displacement is a
      signed 32-bit number. */
  ghost predicate AllFit(length: nat, patches: seq<Patch>, labels: map<string, int>) {
    forall i | 0 <= i < |patches| && patches[i].target in labels ::
      IsInt32(Displacement(patches[i], labels)) && patches[i].pos + 4 <= length
  }

  /** For disjoint fields, folding succeeds if and only if every local field fits, and then
      every local field lands on its label and every byte outside the local fields is
      unchanged. */
  lemma {:induction false} FoldLands(code: seq<byte>, patches: seq<Patch>, labels: map<string, int>)
    requires Disjoint(patches)
    ensures FoldAll(code, patches, labels).Some? <==> AllFit(|code|, patches, labels)
    ensures AllFit(|code|, patches, labels) ==> Landed(FoldAll(code, patches, labels).value, code, patches, labels)
  {
    FoldFits(code, patches, labels);
    if AllFit(|code|, patches, labels) {
      FoldedLands(code, patches, labels);
    }
  }

  lemma {:induction false} FoldFits(code: seq<byte>, patches: seq<Patch>, labels: map<string, int>)
    ensures FoldAll(code, patches, labels).Some? <==> AllFit(|code|, patches, labels)
    ensures FoldAll(code, patches, labels).Some? ==> |FoldAll(code, patches, labels).value| == |code|
    decreases |patches|
  {
    if patches != [] {
      var init, p := patches[..|patches| - 1], patches[|patches| - 1];
      FoldFits(code, init, labels);
      assert AllFit(|code|, patches, labels) <==>
             AllFit(|code|, init, labels) && (p.target in labels ==> AllFit(|code|, [p], labels)) by {
        assert forall i | 0 <= i < |init| :: init[i] == patches[i];
        assert [p][0] == p;
      }
      assert p.target in labels ==>
          (AllFit(|code|, [p], labels) <==> IsInt32(Displacement(p, labels)) && p.pos + 4 <= |code|) by {
        assert [p][0] == p;
      }
    }
  }

  /** `r` is `code` with every local field landing on its label and nothing else changed. */
  ghost predicate Landed(r: seq<byte>, code: seq<byte>, patches: seq<Patch>, labels: map<string, int>) {
    && |r| == |code|
    && (forall i | 0 <= i < |patches| && patches[i].target in labels :: LandsOn(r, patches[i], labels))
    && (forall k | 0 <= k < |r| && !InLocalField(k, patches, labels) :: r[k] == code[k])
  }

  lemma {:induction false} FoldedLands(code: seq<byte>, patches: seq<Patch>, labels: map<string, int>)
    requires Disjoint(patches) && FoldAll(code, patches, labels).Some?
    ensures Landed(FoldAll(code, patches, labels).value, code, patches, labels)
    decreases |patches|
  {
    if patches != [] {
      var init, p := patches[..|patches| - 1], patches[|patches| - 1];
      assert init + [p] == patches;
      FoldedLands(code, init, labels);
      var before := FoldAll(code, init, labels).value;
      hide Landed, PackInto, Disjoint;
      if p.target in labels {
        OneMoreLands(before, code, init, p, labels);
      } else {
        OneMoreExternal(before, code, init, p, labels);
      }
    }
  }

  lemma OneMoreExternal(
      before: seq<byte>, code: seq<byte>, init: seq<Patch>, p: Patch, labels: map<string, int>)
    requires p.target !in labels && Landed(before, code, init, labels)
    ensures Landed(before, code, init + [p], labels)
  {
    OutsideFields(init, p, labels);
    hide InLocalField, LandsOn;
  }

  lemma OneMoreLands(before: seq<byte>, code: seq<byte>, init: seq<Patch>, p: Patch, labels: map<string, int>)
    requires p.target in labels && Disjoint(init + [p]) && Landed(before, code, init, labels)
    requires PackInto(before, p.pos, Displacement(p, labels)).Some?
    ensures Landed(PackInto(before, p.pos, Displacement(p, labels)).value, code, init + [p], labels)
  {
    OutsideFields(init, p, labels);
    PackLands(before, init, p, labels);
    hide InLocalField, LandsOn, PackInto, Disjoint;
  }

  lemma OutsideFields(init: seq<Patch>, p: Patch, labels: map<string, int>)
    ensures forall k: nat | !InLocalField(k, init + [p], labels) ::
              !InLocalField(k, init, labels) && (p.target in labels ==> !InField(k, p))
  {
    var patches := init + [p];
    assert forall i | 0 <= i < |init| :: patches[i] == init[i];
    assert patches[|init|] == p;
  }

  lemma PackLands(code: seq<byte>, init: seq<Patch>, p: Patch, labels: map<string, int>)
    requires p.target in labels && Disjoint(init + [p])
    requires forall i | 0 <= i < |init| && init[i].target in labels :: LandsOn(code, init[i], labels)
    requires PackInto(code, p.pos, Displacement(p, labels)).Some?
    ensures var r := PackInto(code, p.pos, Displacement(p, labels)).value;
            && |r| == |code|
            && LandsOn(r, p, labels)
            && (forall i | 0 <= i < |init| && init[i].target in labels :: LandsOn(r, init[i], labels))
            && (forall k | 0 <= k < |r| && !InField(k, p) :: r[k] == code[k])
  {
    var v := Displacement(p, labels);
    var r := PackInto(code, p.pos, v).value;
    Signed32RoundTrip(v);
    assert r[p.pos..p.pos + 4] == Le(v, 4);
    forall i | 0 <= i < |init| && init[i].target in labels
      ensures LandsOn(r, init[i], labels)
    {
      var q := init[i];
      assert (init + [p])[i] == q && (init + [p])[|init|] == p;
      assert r[q.pos..q.pos + 4] == code[q.pos..q.pos + 4];
    }
  }

  lemma Signed32Field(field: seq<byte>)
    requires |field| == 4
    ensures IsInt32(Signed32(field)) && Le(Signed32(field), 4) == field
  {
    var v := Signed32(field);
    LeValueBound(field);
    Pow2Small();
    hide Pow2, LeValue, Le;
    Signed32RoundTrip(v);
    LeOfLeValue(field);
    LeOfLeValue(Le(v, 4));
    assert LeValue(field) == LeValue(Le(v, 4));
  }

  /** A field that already lands on its label is what folding would write. */
  lemma LandedIsPacked(code: seq<byte>, p: Patch, labels: map<string, int>)
    requires LandsOn(code, p, labels)
    ensures PackInto(code, p.pos, Displacement(p, labels)) == Some(code)
  {
    var field := code[p.pos..p.pos + 4];
    Signed32Field(field);
    hide Signed32, Le, IsInt32;
    assert code == code[..p.pos] + field + code[p.pos + 4..];
  }

  /** Folding what is already folded changes nothing. */
  lemma {:induction false} FoldIdempotent(code: seq<byte>, patches: seq<Patch>, labels: map<string, int>)
    requires forall i | 0 <= i < |patches| && patches[i].target in labels :: LandsOn(code, patches[i], labels)
    ensures FoldAll(code, patches, labels) == Some(code)
    decreases |patches|
  {
    if patches != [] {
      FoldIdempotent(code, patches[..|patches| - 1], labels);
      var p := patches[|patches| - 1];
      if p.target in labels {
        LandedIsPacked(code, p, labels);
      }
    }
  }

  lemma FoldTwice(code: seq<byte>, patches: seq<Patch>, labels: map<string, int>)
    requires Disjoint(patches) && FoldAll(code, patches, labels).Some?
    ensures FoldAll(FoldAll(code, patches, labels).value, patches, labels) == FoldAll(code, patches, labels)
  {
    FoldLands(code, patches, labels);
    FoldIdempotent(FoldAll(code, patches, labels).value, patches, labels);
  }

  // ----- refreshing the embedded blob

  /** What the source file embeds: the container blob, the thread thunks and the offsets. */
  datatype Embedded = Embedded(
    raw: seq<byte>, threads: seq<byte>, exitOffset: nat, legacyStart: nat, legacyEnd: nat,
    external: seq<nat>, labels: map<string, int>)

  /** What the assembler produced, after folding. */
  datatype Assembled = Assembled(
    code: seq<byte>, start: nat, end: nat, exitLabel: nat, external: seq<nat>, labels: map<string, int>)

  /** A Python slice, which clips its bounds. */
  function PySlice(s: seq<byte>, from: nat, to: nat): seq<byte> {
    var b := if to < |s| then to else |s|;
    if from < b then s[from..b] else []
  }

  const SYS_EXIT: int := 60
  const MOV_EAX: byte := 0xb8

  /** The canonical blob keeps the unused legacy thread range and stores exit(60). */
  function Refresh(file: Embedded, asm: Assembled): Option<Embedded> {
    var legacy := PySlice(file.raw, file.legacyStart, file.legacyEnd);
    var prefix := PySlice(asm.code, 0, asm.start);
    var exitOffset := asm.exitLabel + 3;
    if exitOffset > |asm.code| || asm.code[exitOffset - 1] != MOV_EAX then None
    else
      var patched := PackInto(prefix, exitOffset, SYS_EXIT);
      if patched == None then None
      else Some(Embedded(patched.value + legacy + PySlice(asm.code, asm.end, |asm.code|),
                         PySlice(asm.code, asm.start, asm.end), exitOffset, asm.start, asm.start + |legacy|,
                         asm.external, asm.labels))
  }

  /** Refreshing a file that is already refreshed changes nothing: blob, thunks and offsets
      are a fixed point, whatever the file said before. */
  lemma RefreshIdempotent(file: Embedded, asm: Assembled)
    requires asm.start <= |asm.code| && Refresh(file, asm).Some?
    ensures Refresh(Refresh(file, asm).value, asm) == Refresh(file, asm)
  {
    var result := Refresh(file, asm).value;
    var legacy := PySlice(file.raw, file.legacyStart, file.legacyEnd);
    assert |PackInto(PySlice(asm.code, 0, asm.start), asm.exitLabel + 3, SYS_EXIT).value| == asm.start;
    assert result.raw[asm.start..asm.start + |legacy|] == legacy;
  }

  /** When a refresh succeeds and where everything comes from: the instruction at the exit
      label must be the expected one and its field lie in the prefix; behind the legacy range
      comes the assembler's tail, the thunks are what the legacy range replaced, and offsets
      and label positions are the assembler's. */
  lemma RefreshLayout(file: Embedded, asm: Assembled)
    requires asm.start <= asm.end <= |asm.code|
    ensures Refresh(file, asm).Some? <==>
            asm.exitLabel + 7 <= asm.start && asm.code[asm.exitLabel + 2] == 0xb8
    ensures Refresh(file, asm).Some? ==>
              var r := Refresh(file, asm).value;
              && |r.raw| == asm.start + (r.legacyEnd - r.legacyStart) + (|asm.code| - asm.end)
              && r.exitOffset == asm.exitLabel + 3 && r.legacyStart == asm.start <= r.legacyEnd
              && r.raw[r.legacyEnd..] == asm.code[asm.end..]
              && r.threads == asm.code[asm.start..asm.end]
              && r.external == asm.external && r.labels == asm.labels
  {
    if Refresh(file, asm).Some? {
      var r := Refresh(file, asm).value;
      var legacy := PySlice(file.raw, file.legacyStart, file.legacyEnd);
      assert |r.raw[..r.legacyEnd]| == asm.start + |legacy|;
    }
  }

  /** The legacy range survives a refresh byte for byte, wherever it moves. */
  lemma LegacyPreserved(file: Embedded, asm: Assembled)
    requires asm.start <= |asm.code| && Refresh(file, asm).Some?
    ensures var result := Refresh(file, asm).value;
            && PySlice(result.raw, result.legacyStart, result.legacyEnd)
                == PySlice(file.raw, file.legacyStart, file.legacyEnd)
            && result.exitOffset + 4 <= asm.start
            && Signed32(result.raw[result.exitOffset..result.exitOffset + 4]) == 60
            && (forall k | 0 <= k < asm.start && !(result.exitOffset <= k < result.exitOffset + 4) ::
                  result.raw[k] == asm.code[k])
  {
    var result := Refresh(file, asm).value;
    var legacy := PySlice(file.raw, file.legacyStart, file.legacyEnd);
    var exit := asm.exitLabel + 3;
    Signed32RoundTrip(SYS_EXIT);
    assert result.raw[exit..exit + 4] == Le(SYS_EXIT, 4);
    assert result.raw[asm.start..asm.start + |legacy|] == legacy;
  }
}
