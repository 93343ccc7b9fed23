/** The emitted visitor: it writes the declaration view through the shared encoder. */
module AstVisitor {
  import opened MiniLang
  import opened CodecSpec
  import opened CodecWriter
  import opened AstProjection

  /** Visit one value, within the writer's nesting budget. */
  method Write(schema: Schema, w: Writer, node: Value, headers: bool)
    requires w.Valid() && w.astDepth <= MAX_LEVELS
    modifies w, w.data
    ensures w.Wrote(Accepts(schema, node, headers, MAX_LEVELS - old(w.astDepth)), Project(schema, node, headers))
    decreases node, 2
  {
    if !w.valid { return; }
    if w.astDepth >= MAX_LEVELS {
      w.valid := false;
      return;
    }
    w.astDepth := w.astDepth + 1;
    WriteNode(schema, w, node, headers);
    w.astDepth := w.astDepth - 1;
  }

  method WriteNode(schema: Schema, w: Writer, node: Value, headers: bool)
    requires w.Valid() && 0 < w.astDepth <= MAX_LEVELS
    modifies w, w.data
    ensures w.Wrote(Accepts(schema, node, headers, MAX_LEVELS + 1 - old(w.astDepth)), Project(schema, node, headers))
    decreases node, 1
  {
    hide Enc, EncAll, KeepsBody, ProjectFields, AcceptsFields;
    match node {
      case Arr(items) =>
        w.Write(ListHeader(|items|));
        WriteItems(schema, w, items, headers);
        HeaderEncodable(|items|);
        Concat3(old(w.contents), Enc(ListHeader(|items|)), ProjectAll(schema, items, headers));
      case Node(kind, filename, fields) =>
        WriteStruct(schema, w, kind, filename, fields, headers);
      case _ =>
        w.Write(node);
    }
  }

  method WriteStruct(schema: Schema, w: Writer, kind: Text, filename: Text, fields: seq<Value>, headers: bool)
    requires w.Valid() && 0 < w.astDepth <= MAX_LEVELS
    modifies w, w.data
    ensures var node := Node(kind, filename, fields);
            w.Wrote(Accepts(schema, node, headers, MAX_LEVELS + 1 - old(w.astDepth)), Project(schema, node, headers))
    decreases fields, 1
  {
    hide Enc, EncAll, KeepsBody, ProjectFields, AcceptsFields;
    w.Write(Str(kind));
    w.Write(Str(filename));
    ghost var head := Enc(Str(kind)) + Enc(Str(filename));
    Concat3(old(w.contents), Enc(Str(kind)), Enc(Str(filename)));
    if kind in schema {
      ghost var view := ProjectFields(schema, kind, schema[kind], fields, headers,
          KeepsBody(kind, schema[kind], fields, headers));
      Concat3(old(w.contents), head, view);
      WriteFields(schema, w, kind, schema[kind], fields, headers);
    } else {
      w.valid := false;
    }
  }

  method WriteItems(schema: Schema, w: Writer, items: seq<Value>, headers: bool)
    requires w.Valid() && 0 < w.astDepth <= MAX_LEVELS
    modifies w, w.data
    ensures w.Wrote(AcceptsAll(schema, items, headers, MAX_LEVELS - old(w.astDepth)),
            ProjectAll(schema, items, headers))
    decreases items, 0
  {
    hide Enc, EncAll, Project, Accepts;
    ghost var levels := MAX_LEVELS - w.astDepth;
    ghost var ok, done := true, [];
    for i := 0 to |items|
      invariant w.Wrote(ok, done)
      invariant AcceptsAll(schema, items, headers, levels) == (ok && AcceptsAll(schema, items[i..], headers, levels))
      invariant ProjectAll(schema, items, headers) == done + ProjectAll(schema, items[i..], headers)
    {
      ghost var view := Project(schema, items[i], headers);
      assert items[i..][1..] == items[i + 1..];
      Concat3(done, view, ProjectAll(schema, items[i + 1..], headers));
      Concat3(old(w.contents), done, view);
      Write(schema, w, items[i], headers);
      ok := ok && Accepts(schema, items[i], headers, levels);
      done := done + view;
    }
  }

  /** The fields in declaration order. A kept body is visited with nothing left out. */
  method WriteFields(schema: Schema, w: Writer, kind: Text, names: seq<Field>, vals: seq<Value>, headers: bool)
    requires w.Valid() && 0 < w.astDepth <= MAX_LEVELS
    modifies w, w.data
    ensures var keep := KeepsBody(kind, names, vals, headers);
            w.Wrote(AcceptsFields(schema, kind, names, vals, headers, keep, MAX_LEVELS - old(w.astDepth)),
                    ProjectFields(schema, kind, names, vals, headers, keep))
    decreases vals, 0
  {
    hide Enc, EncAll, Project, Accepts, ProjectField, AcceptsField, KeepsBody, ProjectFields, AcceptsFields;
    ghost var levels := MAX_LEVELS - w.astDepth;
    var keep := KeepsBody(kind, names, vals, headers);
    ghost var ok, done := true, [];
    assert names[0..] == names && vals[0..] == vals;
    var i := 0;
    while i < |names| && i < |vals|
      invariant i <= |names| && i <= |vals| && w.Wrote(ok, done)
      invariant AcceptsFields(schema, kind, names, vals, headers, keep, levels) ==
                (ok && AcceptsFields(schema, kind, names[i..], vals[i..], headers, keep, levels))
      invariant ProjectFields(schema, kind, names, vals, headers, keep) ==
                done + ProjectFields(schema, kind, names[i..], vals[i..], headers, keep)
    {
      FieldsStep(schema, kind, names, vals, headers, keep, levels, i);
      ghost var view := ProjectField(schema, kind, names[i], vals[i], headers, keep);
      Concat3(done, view, ProjectFields(schema, kind, names[i + 1..], vals[i + 1..], headers, keep));
      Concat3(old(w.contents), done, view);
      WriteField(schema, w, kind, names[i], vals[i], headers, keep);
      ok := ok && AcceptsField(schema, kind, names[i], vals[i], headers, keep, levels);
      done := done + view;
      i := i + 1;
    }
    FieldsEnd(schema, kind, names[i..], vals[i..], headers, keep, levels);
  }

  lemma FieldsEnd(schema: Schema, kind: Text, names: seq<Field>, vals: seq<Value>, headers: bool, keep: bool,
      levels: nat)
    requires names == [] || vals == []
    ensures ProjectFields(schema, kind, names, vals, headers, keep) == []
            && AcceptsFields(schema, kind, names, vals, headers, keep, levels)
  {
  }

  lemma FieldsStep(schema: Schema, kind: Text, names: seq<Field>, vals: seq<Value>, headers: bool, keep: bool,
      levels: nat, i: nat)
    requires i < |names| && i < |vals|
    ensures ProjectFields(schema, kind, names[i..], vals[i..], headers, keep) ==
            ProjectField(schema, kind, names[i], vals[i], headers, keep)
                + ProjectFields(schema, kind, names[i + 1..], vals[i + 1..], headers, keep)
    ensures AcceptsFields(schema, kind, names[i..], vals[i..], headers, keep, levels) ==
            (AcceptsField(schema, kind, names[i], vals[i], headers, keep, levels)
                && AcceptsFields(schema, kind, names[i + 1..], vals[i + 1..], headers, keep, levels))
  {
    assert names[i..][1..] == names[i + 1..] && vals[i..][1..] == vals[i + 1..];
  }

  method WriteField(schema: Schema, w: Writer, kind: Text, field: Field, v: Value, headers: bool, keep: bool)
    requires w.Valid() && 0 < w.astDepth <= MAX_LEVELS
    modifies w, w.data
    ensures w.Wrote(AcceptsField(schema, kind, field, v, headers, keep, MAX_LEVELS - old(w.astDepth)),
                    ProjectField(schema, kind, field, v, headers, keep))
    decreases v, 3
  {
    hide Enc, EncAll, Project, Accepts;
    match ClassOf(kind, field) {
      case Skipped =>
      case Scalar =>
        w.Write(ScalarView(kind, v));
      case Child =>
        Write(schema, w, v, headers);
      case FunctionBody =>
        if keep {
          Write(schema, w, v, false);
        }
    }
  }

  /** `interfaceKey` up to the checksum: the bytes that are hashed, or nothing. */
  method Interface(schema: Schema, program: Value) returns (r: Option<seq<byte>>)
    ensures r == InterfaceRecord(schema, program)
  {
    var w := new Writer();
    Write(schema, w, program, true);
    assert [] + Project(schema, program, true) == Project(schema, program, true);
    r := w.Finish();
  }
}
