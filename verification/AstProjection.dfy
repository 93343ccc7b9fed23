/** The declaration view of a program: what the generated visitor writes for an AST, and
    which part of the AST that view depends on. */
module AstProjection {
  import opened MiniLang
  import opened CodecSpec

  /** A declared field, and whether the visitor writes fields of this name at all. */
  datatype Field = Field(name: string, written: bool)

  /** The declared fields of every node kind, in order, without `node_kind` and
      `_filename`, which every node carries. */
  type Schema = m: map<Text, seq<Field>> | FlagsWritten(m) witness map[]

  const MAX_LEVELS: nat := 128

  function Ascii(s: string): (t: Text)
    ensures |t| == |s|
  {
    seq(|s|, i requires 0 <= i < |s| => s[i] as int % 256)
  }

  const NUM := Ascii("Num")
  const FUNCTION_DEF := Ascii("FunctionDef")
  const LAMBDA_PREFIX := Ascii("__ml_lambda_")
  const HEADER_FLAGS := {"is_inline", "return_type", "name"}
  const CHILDREN := {
    "items", "right", "left", "expr", "callee", "args", "target", "obj", "index", "body", "then_body",
    "elifs", "else_body", "cond", "start", "end_expr", "iterable", "cases", "default_body", "values",
    "range_start", "range_end", "methods", "field_defaults", "param_defaults", "lock", "cleanup", "defaults"
  }

  /** The fields that decide whether a function's body is written are themselves written. */
  predicate FlagsWritten(m: map<Text, seq<Field>>) {
    FUNCTION_DEF in m ==> forall f | f in m[FUNCTION_DEF] && f.name in HEADER_FLAGS :: f.written
  }

  /** What the visitor does with one declared field. */
  datatype FieldClass = Skipped | Scalar | Child | FunctionBody

  function ClassOf(kind: Text, field: Field): FieldClass {
    if field.name == "_pos" || "_ml_" <= field.name || !field.written then Skipped
    else if kind == FUNCTION_DEF && field.name == "body" then FunctionBody
    else if field.name in CHILDREN || field.name == "params" then Child
    else Scalar
  }

  /** The value of a named field of a node. */
  function FieldOf(names: seq<Field>, vals: seq<Value>, field: string): Value {
    if names == [] || vals == [] then Void
    else if names[0].name == field then vals[0]
    else FieldOf(names[1..], vals[1..], field)
  }

  /** Whether a function's body belongs to the view: always outside the header mode, and
      in it for inline, typed and generated functions. Other kinds leave nothing out. */
  predicate KeepsBody(kind: Text, names: seq<Field>, vals: seq<Value>, headers: bool) {
    var returnType, name := FieldOf(names, vals, "return_type"), FieldOf(names, vals, "name");
    || kind != FUNCTION_DEF
    || !headers
    || FieldOf(names, vals, "is_inline") == Bool(true)
    || (returnType.Str? && returnType.text != [])
    || (name.Str? && LAMBDA_PREFIX <= name.text)
  }

  /** A literal's value; a float is written through its bit image. */
  function ScalarView(kind: Text, v: Value): Value {
    if kind == NUM && v.Float? then Arr([Str(Ascii("float")), Bytes(v.f64le)]) else v
  }

  function ListHeader(n: nat): Value {
    Arr([Str(Ascii("array")), Int(Wrap61(n))])
  }

  // ----- the view as bytes

  function Project(schema: Schema, v: Value, headers: bool): seq<byte>
    decreases v, 1
  {
    match v
    case Arr(items) => Enc(ListHeader(|items|)) + ProjectAll(schema, items, headers)
    case Node(kind, filename, fields) =>
      Enc(Str(kind)) + Enc(Str(filename)) +
      if kind in schema then
        ProjectFields(schema, kind, schema[kind], fields, headers, KeepsBody(kind, schema[kind], fields, headers))
      else []
    case _ => Enc(v)
  }

  function ProjectAll(schema: Schema, vs: seq<Value>, headers: bool): seq<byte>
    decreases vs, 0
  {
    if vs == [] then [] else Project(schema, vs[0], headers) + ProjectAll(schema, vs[1..], headers)
  }

  function ProjectFields(schema: Schema, kind: Text, names: seq<Field>, vals: seq<Value>, headers: bool,
      keep: bool): seq<byte>
    decreases vals, 0
  {
    if names == [] || vals == [] then []
    else
      ProjectField(schema, kind, names[0], vals[0], headers, keep)
      + ProjectFields(schema, kind, names[1..], vals[1..], headers, keep)
  }

  function ProjectField(schema: Schema, kind: Text, field: Field, v: Value, headers: bool, keep: bool): seq<byte>
    decreases v, 2
  {
    match ClassOf(kind, field)
    case Skipped => []
    case Scalar => Enc(ScalarView(kind, v))
    case Child => Project(schema, v, headers)
    case FunctionBody => if keep then Project(schema, v, false) else []
  }

  // ----- which values have a view

  /** At most `levels` nested visits, only known kinds and only supported field values. */
  predicate Accepts(schema: Schema, v: Value, headers: bool, levels: nat)
    decreases v, 1
  {
    && levels > 0
    && match v
       case Arr(items) => AcceptsAll(schema, items, headers, levels - 1)
       case Node(kind, filename, fields) =>
         kind in schema &&
         AcceptsFields(schema, kind, schema[kind], fields, headers, KeepsBody(kind, schema[kind], fields, headers),
             levels - 1)
       case _ => Supported(v)
  }

  predicate AcceptsAll(schema: Schema, vs: seq<Value>, headers: bool, levels: nat)
    decreases vs, 0
  {
    vs == [] || (Accepts(schema, vs[0], headers, levels) && AcceptsAll(schema, vs[1..], headers, levels))
  }

  predicate AcceptsFields(schema: Schema, kind: Text, names: seq<Field>, vals: seq<Value>, headers: bool,
      keep: bool, levels: nat)
    decreases vals, 0
  {
    names == [] || vals == [] ||
    (AcceptsField(schema, kind, names[0], vals[0], headers, keep, levels)
     && AcceptsFields(schema, kind, names[1..], vals[1..], headers, keep, levels))
  }

  predicate AcceptsField(schema: Schema, kind: Text, field: Field, v: Value, headers: bool, keep: bool, levels: nat)
    decreases v, 2
  {
    match ClassOf(kind, field)
    case Skipped => true
    case Scalar => Supported(ScalarView(kind, v))
    case Child => Accepts(schema, v, headers, levels)
    case FunctionBody => keep ==> Accepts(schema, v, false, levels)
  }

  /** The record that is hashed into the interface key, when there is one. */
  function InterfaceRecord(schema: Schema, program: Value): Option<seq<byte>> {
    if Accepts(schema, program, true, MAX_LEVELS) && |Project(schema, program, true)| <= MAX_RECORD then
      Some(Project(schema, program, true))
    else None
  }

  // ----- how deep a visit goes

  function Max(a: nat, b: nat): nat {
    if a < b then b else a
  }

  /** The number of nested visits that writing a value takes. */
  function Levels(schema: Schema, v: Value, headers: bool): nat
    decreases v, 1
  {
    1 + match v
        case Arr(items) => LevelsAll(schema, items, headers)
        case Node(kind, _, fields) =>
          if kind in schema then
            LevelsFields(schema, kind, schema[kind], fields, headers, KeepsBody(kind, schema[kind], fields, headers))
          else 0
        case _ => 0
  }

  function LevelsAll(schema: Schema, vs: seq<Value>, headers: bool): nat
    decreases vs, 0
  {
    if vs == [] then 0 else Max(Levels(schema, vs[0], headers), LevelsAll(schema, vs[1..], headers))
  }

  function LevelsFields(schema: Schema, kind: Text, names: seq<Field>, vals: seq<Value>, headers: bool,
      keep: bool): nat
    decreases vals, 0
  {
    if names == [] || vals == [] then 0
    else
      Max(LevelsField(schema, kind, names[0], vals[0], headers, keep),
          LevelsFields(schema, kind, names[1..], vals[1..], headers, keep))
  }

  function LevelsField(schema: Schema, kind: Text, field: Field, v: Value, headers: bool, keep: bool): nat
    decreases v, 2
  {
    match ClassOf(kind, field)
    case Child => Levels(schema, v, headers)
    case FunctionBody => if keep then Levels(schema, v, false) else 0
    case _ => 0
  }

  /** A value whose kinds and field values are all supported is accepted within a budget
      exactly when its visits nest no deeper than that. */
  lemma {:induction false} LevelsExact(schema: Schema, v: Value, headers: bool, m: nat, n: nat)
    requires Accepts(schema, v, headers, m)
    ensures Accepts(schema, v, headers, n) <==> Levels(schema, v, headers) <= n
    decreases v, 1
  {
    hide KeepsBody, Supported;
    if n > 0 {
      match v {
        case Arr(items) =>
          LevelsAllExact(schema, items, headers, m - 1, n - 1);
        case Node(kind, _, fields) =>
          var keep := KeepsBody(kind, schema[kind], fields, headers);
          LevelsFieldsExact(schema, kind, schema[kind], fields, headers, keep, m - 1, n - 1);
        case _ =>
      }
    }
  }

  lemma {:induction false} LevelsAllExact(schema: Schema, vs: seq<Value>, headers: bool, m: nat, n: nat)
    requires AcceptsAll(schema, vs, headers, m)
    ensures AcceptsAll(schema, vs, headers, n) <==> LevelsAll(schema, vs, headers) <= n
    decreases vs, 0
  {
    if vs != [] {
      LevelsExact(schema, vs[0], headers, m, n);
      LevelsAllExact(schema, vs[1..], headers, m, n);
    }
  }

  lemma {:induction false} LevelsFieldsExact(
      schema: Schema, kind: Text, names: seq<Field>, vals: seq<Value>, headers: bool, keep: bool, m: nat, n: nat)
    requires AcceptsFields(schema, kind, names, vals, headers, keep, m)
    ensures AcceptsFields(schema, kind, names, vals, headers, keep, n)
            <==> LevelsFields(schema, kind, names, vals, headers, keep) <= n
    decreases vals, 0
  {
    if names != [] && vals != [] {
      LevelsFieldExact(schema, kind, names[0], vals[0], headers, keep, m, n);
      LevelsFieldsExact(schema, kind, names[1..], vals[1..], headers, keep, m, n);
    }
  }

  lemma {:induction false} LevelsFieldExact(
      schema: Schema, kind: Text, field: Field, v: Value, headers: bool, keep: bool, m: nat, n: nat)
    requires AcceptsField(schema, kind, field, v, headers, keep, m)
    ensures AcceptsField(schema, kind, field, v, headers, keep, n)
            <==> LevelsField(schema, kind, field, v, headers, keep) <= n
    decreases v, 2
  {
    match ClassOf(kind, field) {
      case Child => LevelsExact(schema, v, headers, m, n);
      case FunctionBody => if keep { LevelsExact(schema, v, false, m, n); }
      case _ =>
    }
  }

  // ----- when there is a record

  /** A field that the visitor walks into, the others being scalars. */
  predicate IsWalked(name: string) {
    name in CHILDREN || name == "params"
  }

  /** A field that no visitor writes: a position, compiler bookkeeping, or one left out. */
  predicate IsHidden(field: Field) {
    field.name == "_pos" || "_ml_" <= field.name || !field.written
  }

  lemma BodyIsWalked()
    ensures IsWalked("body")
  {
  }

  lemma ClassByName(kind: Text, field: Field)
    requires !IsHidden(field) && !(kind == FUNCTION_DEF && field.name == "body")
    ensures ClassOf(kind, field) == if IsWalked(field.name) then Child else Scalar
  {
  }

  /** Whether the visitor, started on `v`, walks down `path` to `sub` and visits it in the
      mode `within`. */
  predicate Reaches(schema: Schema, v: Value, headers: bool, path: seq<nat>, sub: Value, within: bool)
    decreases |path|
  {
    if path == [] then v == sub && headers == within
    else
      var i := path[0];
      match v
      case Arr(items) => i < |items| && Reaches(schema, items[i], headers, path[1..], sub, within)
      case Node(kind, _, fields) =>
        && kind in schema && i < |fields| && i < |schema[kind]|
        && (match ClassOf(kind, schema[kind][i])
            case Child => Reaches(schema, fields[i], headers, path[1..], sub, within)
            case FunctionBody =>
              && KeepsBody(kind, schema[kind], fields, headers)
              && Reaches(schema, fields[i], false, path[1..], sub, within)
            case _ => false)
      case _ => false
  }

  /** What the visitor needs of a value it reaches: a known kind and supported scalars. A
      float is supported as a literal. */
  predicate LocallyOk(schema: Schema, v: Value) {
    match v
    case Arr(_) => true
    case Node(kind, _, fields) =>
      && kind in schema
      && forall i | 0 <= i < |fields| && i < |schema[kind]| :: ScalarOk(kind, schema[kind][i], fields[i])
    case _ => Supported(v)
  }

  predicate ScalarOk(kind: Text, field: Field, v: Value) {
    IsHidden(field) || IsWalked(field.name) || (kind == NUM && v.Float?) || Supported(v)
  }

  ghost predicate AllReachedOk(schema: Schema, v: Value, headers: bool) {
    forall path, sub, within :: Reaches(schema, v, headers, path, sub, within) ==> LocallyOk(schema, sub)
  }

  /** There is a record exactly when every value that the visitor reaches is in order, at
      most 128 visits nest, and the view fits. */
  lemma RecordExists(schema: Schema, program: Value)
    ensures InterfaceRecord(schema, program).Some? <==>
            && AllReachedOk(schema, program, true)
            && Levels(schema, program, true) <= 128
            && |Project(schema, program, true)| <= 67108864
  {
    if Accepts(schema, program, true, MAX_LEVELS) {
      LevelsExact(schema, program, true, MAX_LEVELS, MAX_LEVELS);
      forall path, sub, within | Reaches(schema, program, true, path, sub, within)
        ensures LocallyOk(schema, sub)
      {
        ReachedOk(schema, program, true, MAX_LEVELS, path, sub, within);
      }
    }
    if AllReachedOk(schema, program, true) {
      OkAccepted(schema, program, true);
      LevelsExact(schema, program, true, Levels(schema, program, true), MAX_LEVELS);
    }
  }

  lemma {:induction false} ReachedOk(
      schema: Schema, v: Value, headers: bool, levels: nat, path: seq<nat>, sub: Value, within: bool)
    requires Accepts(schema, v, headers, levels) && Reaches(schema, v, headers, path, sub, within)
    ensures LocallyOk(schema, sub)
    decreases |path|
  {
    hide Supported, KeepsBody, ClassOf, LocallyOk;
    match v {
      case Arr(items) =>
        AllAccepted(schema, items, headers, levels - 1);
        if path != [] {
          ReachedOk(schema, items[path[0]], headers, levels - 1, path[1..], sub, within);
        } else {
          PlainOk(schema, v);
        }
      case Node(kind, _, fields) =>
        var keep := KeepsBody(kind, schema[kind], fields, headers);
        FieldsAccepted(schema, kind, schema[kind], fields, headers, keep, levels - 1);
        if path == [] {
          NodeOk(schema, v, headers, keep, levels - 1);
        } else if ClassOf(kind, schema[kind][path[0]]) == Child {
          ReachedOk(schema, fields[path[0]], headers, levels - 1, path[1..], sub, within);
        } else {
          ReachedOk(schema, fields[path[0]], false, levels - 1, path[1..], sub, within);
        }
      case _ => PlainOk(schema, v);
    }
  }

  lemma PlainOk(schema: Schema, v: Value)
    requires !v.Node? && (v.Arr? || Supported(v))
    ensures LocallyOk(schema, v)
  {
  }

  lemma NodeOk(schema: Schema, v: Value, headers: bool, keep: bool, levels: nat)
    requires v.Node? && v.kind in schema
    requires forall k | 0 <= k < |v.fields| && k < |schema[v.kind]| ::
               AcceptsField(schema, v.kind, schema[v.kind][k], v.fields[k], headers, keep, levels)
    ensures LocallyOk(schema, v)
  {
    hide Accepts, Supported;
    forall k | 0 <= k < |v.fields| && k < |schema[v.kind]|
      ensures ScalarOk(v.kind, schema[v.kind][k], v.fields[k])
    {
      assert AcceptsField(schema, v.kind, schema[v.kind][k], v.fields[k], headers, keep, levels);
      ScalarAccepted(schema, v.kind, schema[v.kind][k], v.fields[k], headers, keep, levels);
    }
  }

  /** A field is accepted exactly when it is a supported scalar, or hidden, or a tree that is
      accepted. */
  lemma ScalarAccepted(schema: Schema, kind: Text, field: Field, v: Value, headers: bool, keep: bool, levels: nat)
    ensures AcceptsField(schema, kind, field, v, headers, keep, levels) ==> ScalarOk(kind, field, v)
    ensures ScalarOk(kind, field, v) && ClassOf(kind, field) == Scalar ==>
              AcceptsField(schema, kind, field, v, headers, keep, levels)
    ensures ClassOf(kind, field) == Skipped ==> AcceptsField(schema, kind, field, v, headers, keep, levels)
  {
    BodyIsWalked();
    assert IsHidden(field) <==> ClassOf(kind, field) == Skipped;
    if !IsHidden(field) && !(kind == FUNCTION_DEF && field.name == "body") {
      ClassByName(kind, field);
    }
    hide Accepts, ClassOf, IsHidden, IsWalked;
    assert v.Float? ==> Supported(Arr([Str(Ascii("float")), Bytes(v.f64le)]));
  }

  lemma {:induction false} AllAccepted(schema: Schema, vs: seq<Value>, headers: bool, levels: nat)
    ensures AcceptsAll(schema, vs, headers, levels)
            <==> forall k | 0 <= k < |vs| :: Accepts(schema, vs[k], headers, levels)
    decreases |vs|
  {
    hide Accepts;
    if vs != [] {
      AllAccepted(schema, vs[1..], headers, levels);
      assert forall k | 1 <= k < |vs| :: vs[k] == vs[1..][k - 1];
      assert forall k | 0 <= k < |vs| - 1 :: vs[1..][k] == vs[k + 1];
    }
  }

  lemma {:induction false} FieldsAccepted(
      schema: Schema, kind: Text, names: seq<Field>, vals: seq<Value>, headers: bool, keep: bool, levels: nat)
    ensures AcceptsFields(schema, kind, names, vals, headers, keep, levels)
            <==> forall k | 0 <= k < |names| && k < |vals| ::
                   AcceptsField(schema, kind, names[k], vals[k], headers, keep, levels)
    decreases |vals|
  {
    hide AcceptsField;
    if names != [] && vals != [] {
      FieldsAccepted(schema, kind, names[1..], vals[1..], headers, keep, levels);
      assert forall k | 1 <= k < |names| && k < |vals| :: names[k] == names[1..][k - 1] && vals[k] == vals[1..][k - 1];
      assert forall k | 0 <= k < |names| - 1 && k < |vals| - 1 ::
          names[1..][k] == names[k + 1] && vals[1..][k] == vals[k + 1];
    }
  }

  /** What is in order everywhere is accepted within as many levels as its visits nest. */
  lemma {:induction false} OkAccepted(schema: Schema, v: Value, headers: bool)
    requires AllReachedOk(schema, v, headers)
    ensures Accepts(schema, v, headers, Levels(schema, v, headers))
    decreases v
  {
    hide Supported, KeepsBody, ClassOf, LocallyOk;
    assert Reaches(schema, v, headers, [], v, headers);
    match v {
      case Arr(items) =>
        var n := LevelsAll(schema, items, headers);
        forall k | 0 <= k < |items|
          ensures Accepts(schema, items[k], headers, n)
        {
          ItemReachedOk(schema, items, headers, k);
          OkAccepted(schema, items[k], headers);
          LevelsAllCovers(schema, items, headers, k);
          LevelsExact(schema, items[k], headers, Levels(schema, items[k], headers), n);
        }
        AllAccepted(schema, items, headers, n);
      case Node(kind, _, fields) =>
        KindKnown(schema, v);
        var names := schema[kind];
        var keep := KeepsBody(kind, names, fields, headers);
        var n := LevelsFields(schema, kind, names, fields, headers, keep);
        forall k | 0 <= k < |names| && k < |fields|
          ensures AcceptsField(schema, kind, names[k], fields[k], headers, keep, n)
        {
          LevelsFieldsCovers(schema, kind, names, fields, headers, keep, k);
          ScalarAccepted(schema, kind, names[k], fields[k], headers, keep, n);
          if ClassOf(kind, names[k]) == Child || (ClassOf(kind, names[k]) == FunctionBody && keep) {
            var mode := if ClassOf(kind, names[k]) == Child then headers else false;
            FieldReachedOk(schema, v, headers, k, mode);
            OkAccepted(schema, fields[k], mode);
            LevelsExact(schema, fields[k], mode, Levels(schema, fields[k], mode), n);
          } else {
            ScalarsOk(schema, v, k);
          }
        }
        FieldsAccepted(schema, kind, names, fields, headers, keep, n);
      case _ => PlainSupported(schema, v);
    }
  }

  lemma PlainSupported(schema: Schema, v: Value)
    requires LocallyOk(schema, v) && !v.Node? && !v.Arr?
    ensures Supported(v)
  {
  }

  lemma KindKnown(schema: Schema, v: Value)
    requires LocallyOk(schema, v) && v.Node?
    ensures v.kind in schema
  {
  }

  lemma ScalarsOk(schema: Schema, v: Value, k: nat)
    requires LocallyOk(schema, v) && v.Node? && k < |v.fields|
    ensures v.kind in schema && (k < |schema[v.kind]| ==> ScalarOk(v.kind, schema[v.kind][k], v.fields[k]))
  {
  }

  lemma ItemReachedOk(schema: Schema, items: seq<Value>, headers: bool, k: nat)
    requires k < |items| && AllReachedOk(schema, Arr(items), headers)
    ensures AllReachedOk(schema, items[k], headers)
  {
    hide LocallyOk;
    forall path, sub, within | Reaches(schema, items[k], headers, path, sub, within)
      ensures LocallyOk(schema, sub)
    {
      assert ([k] + path)[1..] == path;
      assert Reaches(schema, Arr(items), headers, [k] + path, sub, within);
    }
  }

  lemma FieldReachedOk(schema: Schema, v: Value, headers: bool, k: nat, mode: bool)
    requires v.Node? && v.kind in schema && k < |v.fields| && k < |schema[v.kind]| && AllReachedOk(schema, v, headers)
    requires || (ClassOf(v.kind, schema[v.kind][k]) == Child && mode == headers)
             || (ClassOf(v.kind, schema[v.kind][k]) == FunctionBody && !mode
                 && KeepsBody(v.kind, schema[v.kind], v.fields, headers))
    ensures AllReachedOk(schema, v.fields[k], mode)
  {
    hide LocallyOk, ClassOf, KeepsBody;
    forall path, sub, within | Reaches(schema, v.fields[k], mode, path, sub, within)
      ensures LocallyOk(schema, sub)
    {
      assert ([k] + path)[1..] == path;
      assert Reaches(schema, v, headers, [k] + path, sub, within);
    }
  }

  lemma {:induction false} LevelsAllCovers(schema: Schema, vs: seq<Value>, headers: bool, k: nat)
    requires k < |vs|
    ensures Levels(schema, vs[k], headers) <= LevelsAll(schema, vs, headers)
    decreases |vs|
  {
    hide Levels;
    if k > 0 {
      LevelsAllCovers(schema, vs[1..], headers, k - 1);
    }
  }

  lemma {:induction false} LevelsFieldsCovers(
      schema: Schema, kind: Text, names: seq<Field>, vals: seq<Value>, headers: bool, keep: bool, k: nat)
    requires k < |names| && k < |vals|
    ensures LevelsField(schema, kind, names[k], vals[k], headers, keep)
            <= LevelsFields(schema, kind, names, vals, headers, keep)
    decreases |vals|
  {
    hide LevelsField;
    if k > 0 {
      LevelsFieldsCovers(schema, kind, names[1..], vals[1..], headers, keep, k - 1);
    }
  }

  // ----- erasure

  /** The program without source positions, compiler bookkeeping and, in header mode, the
      bodies that the view leaves out. Nothing is erased beneath a body that is kept. */
  function Erase(schema: Schema, v: Value, headers: bool): Value
    decreases v, 1
  {
    match v
    case Arr(items) => Arr(EraseAll(schema, items, headers))
    case Node(kind, filename, fields) =>
      if kind in schema then
        Node(kind, filename,
             EraseFields(schema, kind, schema[kind], fields, headers, KeepsBody(kind, schema[kind], fields, headers)))
      else v
    case _ => v
  }

  function EraseAll(schema: Schema, vs: seq<Value>, headers: bool): (r: seq<Value>)
    ensures |r| == |vs|
    decreases vs, 0
  {
    if vs == [] then [] else [Erase(schema, vs[0], headers)] + EraseAll(schema, vs[1..], headers)
  }

  function EraseFields(schema: Schema, kind: Text, names: seq<Field>, vals: seq<Value>, headers: bool,
      keep: bool): (r: seq<Value>)
    ensures |r| == |vals|
    decreases vals, 0
  {
    if names == [] || vals == [] then vals
    else
      [EraseField(schema, kind, names[0], vals[0], headers, keep)]
      + EraseFields(schema, kind, names[1..], vals[1..], headers, keep)
  }

  function EraseField(schema: Schema, kind: Text, field: Field, v: Value, headers: bool, keep: bool): Value
    decreases v, 2
  {
    match ClassOf(kind, field)
    case Skipped => Void
    case Scalar => v
    case Child => Erase(schema, v, headers)
    case FunctionBody => if keep then Erase(schema, v, false) else Void
  }

  // ----- the view depends only on the erased program

  lemma EraseKeepsScalars(schema: Schema, kind: Text, names: seq<Field>, vals: seq<Value>, headers: bool,
      keep: bool, field: string)
    requires forall f | f in names && f.name == field :: ClassOf(kind, f) == Scalar
    ensures FieldOf(names, EraseFields(schema, kind, names, vals, headers, keep), field) == FieldOf(names, vals, field)
    decreases vals
  {
    if names != [] && vals != [] {
      EraseKeepsScalars(schema, kind, names[1..], vals[1..], headers, keep, field);
      var r := EraseFields(schema, kind, names, vals, headers, keep);
      assert names[0] in names;
      assert r[1..] == EraseFields(schema, kind, names[1..], vals[1..], headers, keep);
    }
  }

  lemma HeaderFieldsAreScalars(kind: Text, f: Field)
    requires f.name in HEADER_FLAGS && f.written
    ensures ClassOf(kind, f) == Scalar
  {
    var pos, own := "_pos", "_ml_";
    assert pos[0] == '_' && own[0] == '_' && f.name[0] != '_';
    assert "is_inline" !in CHILDREN && "return_type" !in CHILDREN && "name" !in CHILDREN;
    var params, body := "params", "body";
    assert params[0] == 'p' && body[0] == 'b';
  }

  lemma EraseKeepsFlag(schema: Schema, kind: Text, vals: seq<Value>, headers: bool, keep: bool)
    requires kind in schema
    ensures var names := schema[kind];
            KeepsBody(kind, names, EraseFields(schema, kind, names, vals, headers, keep), headers)
            == KeepsBody(kind, names, vals, headers)
  {
    if kind == FUNCTION_DEF {
      var names := schema[kind];
      forall f | f in names && f.name in HEADER_FLAGS
        ensures ClassOf(kind, f) == Scalar
      {
        HeaderFieldsAreScalars(kind, f);
      }
      hide ClassOf;
      EraseKeepsScalars(schema, kind, names, vals, headers, keep, "is_inline");
      EraseKeepsScalars(schema, kind, names, vals, headers, keep, "return_type");
      EraseKeepsScalars(schema, kind, names, vals, headers, keep, "name");
    }
  }

  /** The erased program has the same view, the same acceptance and the same erasure. */
  lemma {:induction false} ViewOfErased(schema: Schema, v: Value, headers: bool, levels: nat)
    ensures Project(schema, Erase(schema, v, headers), headers) == Project(schema, v, headers)
    ensures Accepts(schema, Erase(schema, v, headers), headers, levels) == Accepts(schema, v, headers, levels)
    ensures Erase(schema, Erase(schema, v, headers), headers) == Erase(schema, v, headers)
    decreases v, 1
  {
    hide Enc, EncAll, Supported, KeepsBody;
    match v {
      case Arr(items) =>
        ViewOfErasedAll(schema, items, headers, if levels > 0 then levels - 1 else 0);
      case Node(kind, filename, fields) =>
        if kind in schema {
          var keep := KeepsBody(kind, schema[kind], fields, headers);
          EraseKeepsFlag(schema, kind, fields, headers, keep);
          ViewOfErasedFields(schema, kind, schema[kind], fields, headers, keep, if levels > 0 then levels - 1 else 0);
        }
      case _ =>
    }
  }

  lemma {:induction false} ViewOfErasedAll(schema: Schema, vs: seq<Value>, headers: bool, levels: nat)
    ensures var es := EraseAll(schema, vs, headers);
            && ProjectAll(schema, es, headers) == ProjectAll(schema, vs, headers)
            && AcceptsAll(schema, es, headers, levels) == AcceptsAll(schema, vs, headers, levels)
            && EraseAll(schema, es, headers) == es
    decreases vs, 0
  {
    if vs != [] {
      ViewOfErased(schema, vs[0], headers, levels);
      ViewOfErasedAll(schema, vs[1..], headers, levels);
      var es := EraseAll(schema, vs, headers);
      assert es[0] == Erase(schema, vs[0], headers) && es[1..] == EraseAll(schema, vs[1..], headers);
    }
  }

  lemma {:induction false} ViewOfErasedFields(schema: Schema, kind: Text, names: seq<Field>, vals: seq<Value>,
      headers: bool, keep: bool, levels: nat)
    ensures var es := EraseFields(schema, kind, names, vals, headers, keep);
            && ProjectFields(schema, kind, names, es, headers, keep)
                == ProjectFields(schema, kind, names, vals, headers, keep)
            && AcceptsFields(schema, kind, names, es, headers, keep, levels)
                == AcceptsFields(schema, kind, names, vals, headers, keep, levels)
            && EraseFields(schema, kind, names, es, headers, keep) == es
    decreases vals, 0
  {
    if names != [] && vals != [] {
      ViewOfErasedField(schema, kind, names[0], vals[0], headers, keep, levels);
      ViewOfErasedFields(schema, kind, names[1..], vals[1..], headers, keep, levels);
      var es := EraseFields(schema, kind, names, vals, headers, keep);
      assert es[0] == EraseField(schema, kind, names[0], vals[0], headers, keep);
      assert es[1..] == EraseFields(schema, kind, names[1..], vals[1..], headers, keep);
    }
  }

  lemma {:induction false} ViewOfErasedField(schema: Schema, kind: Text, field: Field, v: Value, headers: bool,
      keep: bool, levels: nat)
    ensures var e := EraseField(schema, kind, field, v, headers, keep);
            && ProjectField(schema, kind, field, e, headers, keep)
                == ProjectField(schema, kind, field, v, headers, keep)
            && AcceptsField(schema, kind, field, e, headers, keep, levels)
                == AcceptsField(schema, kind, field, v, headers, keep, levels)
            && EraseField(schema, kind, field, e, headers, keep) == e
    decreases v, 2
  {
    ViewOfErased(schema, v, headers, levels);
    ViewOfErased(schema, v, false, levels);
  }

  // ----- the view determines the erased program

  /** Values that conform to the schema. A slot that the visitor walks holds either a tree,
      whose strings all sit inside nodes, or a list of names without nodes. A function's
      body is a list and the field after it is a scalar that is not a list. */
  predicate Conforms(schema: Schema, v: Value, names: bool)
    decreases v, 1
  {
    match v
    case Arr(items) => ConformsAll(schema, items, names)
    case Node(kind, filename, fields) =>
      && !names
      && kind in schema
      && |fields| == |schema[kind]|
      && ConformsFields(schema, kind, schema[kind], fields)
    case Str(_) => names
    case _ => true
  }

  predicate ConformsAll(schema: Schema, vs: seq<Value>, names: bool)
    decreases vs, 0
  {
    vs == [] || (Conforms(schema, vs[0], names) && ConformsAll(schema, vs[1..], names))
  }

  predicate ConformsFields(schema: Schema, kind: Text, names: seq<Field>, vals: seq<Value>)
    requires |names| == |vals|
    decreases vals, 0
  {
    vals == [] ||
    (&& ConformsField(schema, kind, names[0], vals[0])
     && (ClassOf(kind, names[0]) == FunctionBody ==>
           |vals| > 1 && ClassOf(kind, names[1]) == Scalar && !vals[1].Arr?)
     && ConformsFields(schema, kind, names[1..], vals[1..]))
  }

  /** Only the parameters of an extern function are nodes; other parameters are names. */
  predicate ConformsField(schema: Schema, kind: Text, field: Field, v: Value)
    decreases v, 2
  {
    match ClassOf(kind, field)
    case Skipped => true
    case Scalar => kind == NUM ==> !v.Arr?
    case Child => Conforms(schema, v, field.name == "params" && kind != Ascii("ExternFunctionDef"))
    case FunctionBody => v.Arr? && Conforms(schema, v, false)
  }

  lemma {:induction false} AcceptedSize(schema: Schema, v: Value, headers: bool, levels: nat)
    requires Accepts(schema, v, headers, levels)
    ensures |Project(schema, v, headers)| >= 2
  {
  }

  lemma {:induction false} AcceptedAllSize(schema: Schema, vs: seq<Value>, headers: bool, levels: nat)
    requires AcceptsAll(schema, vs, headers, levels)
    ensures |ProjectAll(schema, vs, headers)| >= 2 * |vs|
  {
    if vs != [] {
      AcceptedSize(schema, vs[0], headers, levels);
      AcceptedAllSize(schema, vs[1..], headers, levels);
    }
  }

  /** Two lists whose views agree announce the same length. */
  lemma SameCount(m: nat, n: nat, r: seq<byte>, s: seq<byte>)
    requires m <= MAX_RECORD && n <= MAX_RECORD
    requires Enc(ListHeader(m)) + r == Enc(ListHeader(n)) + s
    ensures m == n && r == s
  {
    HeaderEncodable(m);
    HeaderEncodable(n);
    EncUnique(ListHeader(m), ListHeader(n), r, s);
    Wrap61Unique(m, m);
    Wrap61Unique(n, n);
    assert ListHeader(m).items[1] == ListHeader(n).items[1];
  }

  lemma HeaderEncodable(n: nat)
    ensures Encodable(ListHeader(n)) && |Enc(ListHeader(n))| == 27
  {
    var items := ListHeader(n).items;
    assert items[1..] == [items[1]] && items[1..][1..] == [];
    assert EncAll(items) == Enc(items[0]) + EncAll(items[1..]);
    assert EncAll(items[1..]) == Enc(items[1]) + EncAll([]);
    assert |Enc(items[0])| == 11 && |Enc(items[1])| == 10;
  }

  /** A whole view can be read back out of a longer byte string: what it leaves over is
      determined, and so is the erased value. */
  lemma {:induction false} ViewUnique(
      schema: Schema, a: Value, b: Value, headers: bool, names: bool, la: nat, lb: nat, r: seq<byte>, s: seq<byte>)
    requires Conforms(schema, a, names) && Conforms(schema, b, names)
    requires Accepts(schema, a, headers, la) && Accepts(schema, b, headers, lb)
    requires |Project(schema, a, headers)| <= MAX_RECORD && |Project(schema, b, headers)| <= MAX_RECORD
    requires Project(schema, a, headers) + r == Project(schema, b, headers) + s
    ensures Erase(schema, a, headers) == Erase(schema, b, headers) && r == s
    decreases a, 1
  {
    hide EncAll, KeepsBody;
    match a {
      case Arr(xs) =>
        SameShape(schema, a, b, headers, names, la, lb, r, s);
        ListViewUnique(schema, xs, b.items, headers, names, la, lb, r, s);
      case Node(kind, filename, fields) =>
        SameShape(schema, a, b, headers, names, la, lb, r, s);
        NodeViewUnique(schema, a, b, headers, la, lb, r, s);
      case _ =>
        SameShape(schema, b, a, headers, names, lb, la, s, r);
        EncUnique(a, b, r, s);
    }
  }

  /** The first value written tells a list, a node and a plain value apart. */
  function Lead(v: Value): Value {
    match v
    case Arr(items) => ListHeader(|items|)
    case Node(kind, _, _) => Str(kind)
    case _ => v
  }

  function AfterLead(schema: Schema, v: Value, headers: bool): seq<byte> {
    match v
    case Arr(items) => ProjectAll(schema, items, headers)
    case Node(kind, filename, fields) =>
      Enc(Str(filename)) +
      if kind in schema then
        ProjectFields(schema, kind, schema[kind], fields, headers, KeepsBody(kind, schema[kind], fields, headers))
      else []
    case _ => []
  }

  lemma LeadFirst(schema: Schema, v: Value, headers: bool, levels: nat)
    requires Accepts(schema, v, headers, levels) && |Project(schema, v, headers)| <= MAX_RECORD
    ensures Project(schema, v, headers) == Enc(Lead(v)) + AfterLead(schema, v, headers)
    ensures Encodable(Lead(v))
  {
    if v.Arr? {
      HeaderEncodable(|v.items|);
    }
  }

  lemma SameLead(
      schema: Schema, a: Value, b: Value, headers: bool, la: nat, lb: nat, r: seq<byte>, s: seq<byte>)
    requires Accepts(schema, a, headers, la) && Accepts(schema, b, headers, lb)
    requires |Project(schema, a, headers)| <= MAX_RECORD && |Project(schema, b, headers)| <= MAX_RECORD
    requires Project(schema, a, headers) + r == Project(schema, b, headers) + s
    ensures Lead(a) == Lead(b)
    ensures AfterLead(schema, a, headers) + r == AfterLead(schema, b, headers) + s
  {
    LeadFirst(schema, a, headers, la);
    LeadFirst(schema, b, headers, lb);
    var x, y := AfterLead(schema, a, headers), AfterLead(schema, b, headers);
    assert (Enc(Lead(a)) + x) + r == Enc(Lead(a)) + (x + r);
    assert (Enc(Lead(b)) + y) + s == Enc(Lead(b)) + (y + s);
    EncUnique(Lead(a), Lead(b), x + r, y + s);
  }

  lemma SameShape(
      schema: Schema, a: Value, b: Value, headers: bool, names: bool, la: nat, lb: nat, r: seq<byte>, s: seq<byte>)
    requires Conforms(schema, a, names) && Conforms(schema, b, names)
    requires Accepts(schema, a, headers, la) && Accepts(schema, b, headers, lb)
    requires |Project(schema, a, headers)| <= MAX_RECORD && |Project(schema, b, headers)| <= MAX_RECORD
    requires Project(schema, a, headers) + r == Project(schema, b, headers) + s
    ensures a.Arr? == b.Arr? && a.Node? == b.Node?
  {
    SameLead(schema, a, b, headers, la, lb, r, s);
  }

  lemma {:induction false} ListViewUnique(
      schema: Schema, xs: seq<Value>, ys: seq<Value>, headers: bool, names: bool, la: nat, lb: nat, r: seq<byte>,
          s: seq<byte>)
    requires Conforms(schema, Arr(xs), names) && Conforms(schema, Arr(ys), names)
    requires Accepts(schema, Arr(xs), headers, la) && Accepts(schema, Arr(ys), headers, lb)
    requires |Project(schema, Arr(xs), headers)| <= MAX_RECORD && |Project(schema, Arr(ys), headers)| <= MAX_RECORD
    requires Project(schema, Arr(xs), headers) + r == Project(schema, Arr(ys), headers) + s
    ensures Erase(schema, Arr(xs), headers) == Erase(schema, Arr(ys), headers) && r == s
    decreases xs, 1
  {
    hide Enc, EncAll, Supported;
    AcceptedAllSize(schema, xs, headers, la - 1);
    AcceptedAllSize(schema, ys, headers, lb - 1);
    var x, y := ProjectAll(schema, xs, headers), ProjectAll(schema, ys, headers);
    assert (Enc(ListHeader(|xs|)) + x) + r == Enc(ListHeader(|xs|)) + (x + r);
    assert (Enc(ListHeader(|ys|)) + y) + s == Enc(ListHeader(|ys|)) + (y + s);
    SameCount(|xs|, |ys|, x + r, y + s);
    AllViewUnique(schema, xs, ys, headers, names, la - 1, lb - 1, r, s);
  }

  lemma {:induction false} AllViewUnique(
      schema: Schema, xs: seq<Value>, ys: seq<Value>, headers: bool, names: bool, la: nat, lb: nat, r: seq<byte>,
          s: seq<byte>)
    requires |xs| == |ys| && ConformsAll(schema, xs, names) && ConformsAll(schema, ys, names)
    requires AcceptsAll(schema, xs, headers, la) && AcceptsAll(schema, ys, headers, lb)
    requires |ProjectAll(schema, xs, headers)| <= MAX_RECORD && |ProjectAll(schema, ys, headers)| <= MAX_RECORD
    requires ProjectAll(schema, xs, headers) + r == ProjectAll(schema, ys, headers) + s
    ensures EraseAll(schema, xs, headers) == EraseAll(schema, ys, headers) && r == s
    decreases xs, 0
  {
    if xs != [] {
      var x, y := ProjectAll(schema, xs[1..], headers), ProjectAll(schema, ys[1..], headers);
      var x0, y0 := Project(schema, xs[0], headers), Project(schema, ys[0], headers);
      assert (x0 + x) + r == x0 + (x + r) && (y0 + y) + s == y0 + (y + s);
      ViewUnique(schema, xs[0], ys[0], headers, names, la, lb, x + r, y + s);
      AllViewUnique(schema, xs[1..], ys[1..], headers, names, la, lb, r, s);
    } else {
      assert [] + r == r && [] + s == s;
    }
  }

  lemma {:induction false} NodeViewUnique(
      schema: Schema, a: Value, b: Value, headers: bool, la: nat, lb: nat, r: seq<byte>, s: seq<byte>)
    requires a.Node? && b.Node? && Conforms(schema, a, false) && Conforms(schema, b, false)
    requires Accepts(schema, a, headers, la) && Accepts(schema, b, headers, lb)
    requires |Project(schema, a, headers)| <= MAX_RECORD && |Project(schema, b, headers)| <= MAX_RECORD
    requires Project(schema, a, headers) + r == Project(schema, b, headers) + s
    ensures Erase(schema, a, headers) == Erase(schema, b, headers) && r == s
    decreases a.fields, 1
  {
    hide EncAll, Supported;
    SameLead(schema, a, b, headers, la, lb, r, s);
    var names := schema[a.kind];
    var ka, kb := KeepsBody(a.kind, names, a.fields, headers), KeepsBody(a.kind, names, b.fields, headers);
    var x := ProjectFields(schema, a.kind, names, a.fields, headers, ka);
    var y := ProjectFields(schema, a.kind, names, b.fields, headers, kb);
    assert (Enc(Str(a.filename)) + x) + r == Enc(Str(a.filename)) + (x + r);
    assert (Enc(Str(b.filename)) + y) + s == Enc(Str(b.filename)) + (y + s);
    EncUnique(Str(a.filename), Str(b.filename), x + r, y + s);
    FieldsViewUnique(schema, a.kind, names, a.fields, b.fields, headers, ka, kb, la - 1, lb - 1, r, s);
  }

  lemma {:induction false} FieldsViewUnique(
      schema: Schema, kind: Text, names: seq<Field>, xs: seq<Value>, ys: seq<Value>,
      headers: bool, ka: bool, kb: bool, la: nat, lb: nat, r: seq<byte>, s: seq<byte>)
    requires |names| == |xs| == |ys|
    requires ConformsFields(schema, kind, names, xs) && ConformsFields(schema, kind, names, ys)
    requires AcceptsFields(schema, kind, names, xs, headers, ka, la)
            && AcceptsFields(schema, kind, names, ys, headers, kb, lb)
    requires |ProjectFields(schema, kind, names, xs, headers, ka)| <= MAX_RECORD
    requires |ProjectFields(schema, kind, names, ys, headers, kb)| <= MAX_RECORD
    requires ProjectFields(schema, kind, names, xs, headers, ka) + r
            == ProjectFields(schema, kind, names, ys, headers, kb) + s
    ensures EraseFields(schema, kind, names, xs, headers, ka) == EraseFields(schema, kind, names, ys, headers, kb)
            && r == s
    decreases xs, 0
  {
    if xs != [] {
      var x := ProjectFields(schema, kind, names[1..], xs[1..], headers, ka);
      var y := ProjectFields(schema, kind, names[1..], ys[1..], headers, kb);
      var x0 := ProjectField(schema, kind, names[0], xs[0], headers, ka);
      var y0 := ProjectField(schema, kind, names[0], ys[0], headers, kb);
      assert (x0 + x) + r == x0 + (x + r) && (y0 + y) + s == y0 + (y + s);
      if ClassOf(kind, names[0]) == FunctionBody && ka != kb {
        if ka {
          BodyPresenceShows(schema, kind, names, xs, ys, headers, la, lb, r, s);
        } else {
          BodyPresenceShows(schema, kind, names, ys, xs, headers, lb, la, s, r);
        }
      } else {
        FieldViewUnique(schema, kind, names[0], xs[0], ys[0], headers, ka, kb, la, lb, x + r, y + s);
        FieldsViewUnique(schema, kind, names[1..], xs[1..], ys[1..], headers, ka, kb, la, lb, r, s);
      }
    } else {
      assert [] + r == r && [] + s == s;
    }
  }

  lemma {:induction false} FieldViewUnique(
      schema: Schema, kind: Text, field: Field, x: Value, y: Value,
      headers: bool, ka: bool, kb: bool, la: nat, lb: nat, r: seq<byte>, s: seq<byte>)
    requires ClassOf(kind, field) == FunctionBody ==> ka == kb
    requires ConformsField(schema, kind, field, x) && ConformsField(schema, kind, field, y)
    requires AcceptsField(schema, kind, field, x, headers, ka, la)
            && AcceptsField(schema, kind, field, y, headers, kb, lb)
    requires |ProjectField(schema, kind, field, x, headers, ka)| <= MAX_RECORD
    requires |ProjectField(schema, kind, field, y, headers, kb)| <= MAX_RECORD
    requires ProjectField(schema, kind, field, x, headers, ka) + r
            == ProjectField(schema, kind, field, y, headers, kb) + s
    ensures EraseField(schema, kind, field, x, headers, ka) == EraseField(schema, kind, field, y, headers, kb) && r == s
    decreases x, 2
  {
    hide Enc, EncAll, Project, Accepts, Erase, Conforms;
    match ClassOf(kind, field) {
      case Skipped =>
        assert [] + r == r && [] + s == s;
      case Scalar =>
        EncUnique(ScalarView(kind, x), ScalarView(kind, y), r, s);
      case Child =>
        ViewUnique(schema, x, y, headers, field.name == "params" && kind != Ascii("ExternFunctionDef"), la, lb, r, s);
      case FunctionBody =>
        if ka {
          ViewUnique(schema, x, y, false, false, la, lb, r, s);
        } else {
          assert [] + r == r && [] + s == s;
        }
    }
  }

  /** Whether a body was written cannot be mistaken, although the flags that decide it come
      later: a body starts with a list header and the scalar after it does not. */
  lemma BodyPresenceShows(
      schema: Schema, kind: Text, names: seq<Field>, xs: seq<Value>, ys: seq<Value>,
      headers: bool, la: nat, lb: nat, r: seq<byte>, s: seq<byte>)
    requires |names| == |xs| == |ys| > 0 && ClassOf(kind, names[0]) == FunctionBody
    requires ConformsFields(schema, kind, names, xs) && ConformsFields(schema, kind, names, ys)
    requires AcceptsFields(schema, kind, names, xs, headers, true, la)
            && AcceptsFields(schema, kind, names, ys, headers, false, lb)
    requires |ProjectFields(schema, kind, names, xs, headers, true)| <= MAX_RECORD
    requires |ProjectFields(schema, kind, names, ys, headers, false)| <= MAX_RECORD
    ensures ProjectFields(schema, kind, names, xs, headers, true) + r
            != ProjectFields(schema, kind, names, ys, headers, false) + s
  {
    assert kind == FUNCTION_DEF && kind != NUM;
    hide Enc, EncAll, KeepsBody, Ascii;
    var body, next := xs[0], ys[1];
    var x := ProjectFields(schema, kind, names[1..], xs[1..], headers, true);
    var y := ProjectFields(schema, kind, names[2..], ys[2..], headers, false);
    var inner := ProjectAll(schema, body.items, false);
    assert names[1..][1..] == names[2..] && ys[1..][1..] == ys[2..];
    assert ProjectFields(schema, kind, names[1..], ys[1..], headers, false) == Enc(next) + y;
    assert ProjectFields(schema, kind, names, ys, headers, false) == Enc(next) + y;
    assert ProjectField(schema, kind, names[0], body, headers, true) == Project(schema, body, false);
    assert Project(schema, body, false) == Enc(ListHeader(|body.items|)) + inner;
    assert ProjectFields(schema, kind, names, xs, headers, true) == (Enc(ListHeader(|body.items|)) + inner) + x;
    assert ((Enc(ListHeader(|body.items|)) + inner) + x) + r == Enc(ListHeader(|body.items|)) + (inner + x + r);
    assert (Enc(next) + y) + s == Enc(next) + (y + s);
    HeaderEncodable(|body.items|);
    assert AcceptsFields(schema, kind, names[1..], ys[1..], headers, false, lb);
    assert AcceptsField(schema, kind, names[1], next, headers, false, lb);
    if Enc(ListHeader(|body.items|)) + (inner + x + r) == Enc(next) + (y + s) {
      EncUnique(ListHeader(|body.items|), next, inner + x + r, y + s);
    }
  }

  /** The interface record is exact: two conforming programs that have one have the same
      one if and only if they are equal after erasure. */
  lemma InterfaceExact(schema: Schema, p: Value, q: Value)
    requires Conforms(schema, p, false) && Conforms(schema, q, false)
    requires InterfaceRecord(schema, p).Some? && InterfaceRecord(schema, q).Some?
    ensures InterfaceRecord(schema, p) == InterfaceRecord(schema, q)
            <==> Erase(schema, p, true) == Erase(schema, q, true)
  {
    if InterfaceRecord(schema, p) == InterfaceRecord(schema, q) {
      assert Project(schema, p, true) + [] == Project(schema, q, true) + [];
      ViewUnique(schema, p, q, true, false, MAX_LEVELS, MAX_LEVELS, [], []);
    }
    SameErasureSameRecord(schema, p, q);
  }

  /** Programs that agree after erasure get the same answer, including having no record at
      all: an erased body affects neither the bytes nor any of the budgets. */
  lemma SameErasureSameRecord(schema: Schema, p: Value, q: Value)
    ensures Erase(schema, p, true) == Erase(schema, q, true)
            ==> InterfaceRecord(schema, p) == InterfaceRecord(schema, q)
  {
    ViewOfErased(schema, p, true, MAX_LEVELS);
    ViewOfErased(schema, q, true, MAX_LEVELS);
  }

  // ----- edits

  /** `v` with what stands at `path` replaced. */
  function Replace(v: Value, path: seq<nat>, other: Value): Value
    decreases |path|
  {
    if path == [] then other
    else
      var i := path[0];
      match v
      case Arr(items) => if i < |items| then Arr(items[i := Replace(items[i], path[1..], other)]) else v
      case Node(_, _, fields) =>
        if i < |fields| then v.(fields := fields[i := Replace(fields[i], path[1..], other)]) else v
      case _ => v
  }

  /** An edit at a place that the visitor walks survives erasure exactly when it survives
      erasure there: nothing around the place hides it or shows it. */
  lemma {:induction false} EraseReplace(
      schema: Schema, v: Value, headers: bool, path: seq<nat>, sub: Value, within: bool, other: Value)
    requires Reaches(schema, v, headers, path, sub, within)
    ensures Erase(schema, Replace(v, path, other), headers) == Erase(schema, v, headers)
            <==> Erase(schema, other, within) == Erase(schema, sub, within)
    decreases |path|
  {
    hide KeepsBody, Erase, EraseAll, EraseFields, ClassOf;
    if path != [] {
      var i, rest := path[0], path[1..];
      match v {
        case Arr(items) =>
          EraseReplace(schema, items[i], headers, rest, sub, within, other);
          EraseItem(schema, items, i, Replace(items[i], rest, other), headers);
        case Node(kind, filename, fields) =>
          var w := Replace(fields[i], rest, other);
          if ClassOf(kind, schema[kind][i]) == FunctionBody {
            EraseReplace(schema, fields[i], false, rest, sub, within, other);
          } else {
            EraseReplace(schema, fields[i], headers, rest, sub, within, other);
          }
          EraseNodeField(schema, kind, filename, fields, i, w, headers);
      }
    }
  }

  lemma {:induction false} EraseItem(schema: Schema, items: seq<Value>, i: nat, w: Value, headers: bool)
    requires i < |items|
    ensures Erase(schema, Arr(items[i := w]), headers) == Erase(schema, Arr(items), headers)
            <==> Erase(schema, w, headers) == Erase(schema, items[i], headers)
  {
    EraseAllAt(schema, items, headers);
    EraseAllAt(schema, items[i := w], headers);
    var a, b := EraseAll(schema, items, headers), EraseAll(schema, items[i := w], headers);
    hide EraseAll;
    if Erase(schema, w, headers) == Erase(schema, items[i], headers) {
      assert forall k | 0 <= k < |items| :: a[k] == b[k];
      assert a == b;
    } else {
      assert a[i] != b[i];
    }
  }

  lemma {:induction false} EraseAllAt(schema: Schema, vs: seq<Value>, headers: bool)
    ensures forall k | 0 <= k < |vs| :: EraseAll(schema, vs, headers)[k] == Erase(schema, vs[k], headers)
    decreases |vs|
  {
    if vs != [] {
      EraseAllAt(schema, vs[1..], headers);
    }
  }

  lemma {:induction false} EraseFieldsAt(schema: Schema, kind: Text, names: seq<Field>, vals: seq<Value>,
      headers: bool, keep: bool)
    ensures forall k | 0 <= k < |vals| ::
              EraseFields(schema, kind, names, vals, headers, keep)[k]
              == if k < |names| then EraseField(schema, kind, names[k], vals[k], headers, keep) else vals[k]
    decreases |vals|
  {
    if names != [] && vals != [] {
      EraseFieldsAt(schema, kind, names[1..], vals[1..], headers, keep);
    }
  }

  /** Changing a field that is not one of the deciding flags changes the erased node exactly
      when it changes that field's erasure. */
  lemma {:induction false} EraseNodeField(
      schema: Schema, kind: Text, filename: Text, fields: seq<Value>, i: nat, w: Value, headers: bool)
    requires kind in schema && i < |fields| && i < |schema[kind]| && ClassOf(kind, schema[kind][i]) != Scalar
    ensures var keep := KeepsBody(kind, schema[kind], fields, headers);
            && KeepsBody(kind, schema[kind], fields[i := w], headers) == keep
            && (Erase(schema, Node(kind, filename, fields[i := w]), headers)
                == Erase(schema, Node(kind, filename, fields), headers)
                <==> EraseField(schema, kind, schema[kind][i], w, headers, keep)
                     == EraseField(schema, kind, schema[kind][i], fields[i], headers, keep))
  {
    var names := schema[kind];
    FlagsUntouched(schema, kind, fields, i, w, headers);
    var keep := KeepsBody(kind, names, fields, headers);
    hide KeepsBody, EraseField, ClassOf;
    EraseFieldsAt(schema, kind, names, fields, headers, keep);
    EraseFieldsAt(schema, kind, names, fields[i := w], headers, keep);
    var a := EraseFields(schema, kind, names, fields, headers, keep);
    var b := EraseFields(schema, kind, names, fields[i := w], headers, keep);
    hide EraseFields;
    if a[i] == b[i] {
      assert forall k | 0 <= k < |fields| :: a[k] == b[k];
      assert a == b;
    }
  }

  lemma {:induction false} FlagsUntouched(
      schema: Schema, kind: Text, fields: seq<Value>, i: nat, w: Value, headers: bool)
    requires kind in schema && i < |fields| && i < |schema[kind]| && ClassOf(kind, schema[kind][i]) != Scalar
    ensures KeepsBody(kind, schema[kind], fields[i := w], headers) == KeepsBody(kind, schema[kind], fields, headers)
  {
    if kind == FUNCTION_DEF {
      var names := schema[kind];
      if names[i].name in HEADER_FLAGS {
        HeaderFieldsAreScalars(kind, names[i]);
      }
      hide ClassOf;
      OtherFieldKept(names, fields, i, w, "is_inline");
      OtherFieldKept(names, fields, i, w, "return_type");
      OtherFieldKept(names, fields, i, w, "name");
    }
  }

  lemma {:induction false} OtherFieldKept(names: seq<Field>, vals: seq<Value>, i: nat, w: Value, field: string)
    requires i < |vals| && i < |names| && names[i].name != field
    ensures FieldOf(names, vals[i := w], field) == FieldOf(names, vals, field)
    decreases i
  {
    if i > 0 {
      OtherFieldKept(names[1..], vals[1..], i - 1, w, field);
      assert vals[i := w][1..] == vals[1..][i - 1 := w];
    } else {
      assert vals[i := w][1..] == vals[1..];
    }
  }

  /** Where an edit is visible: of two conforming programs that differ at one place the
      visitor walks, the records agree if and only if the two values erase alike there. */
  lemma EditShows(schema: Schema, p: Value, path: seq<nat>, sub: Value, within: bool, other: Value)
    requires Reaches(schema, p, true, path, sub, within)
    requires Conforms(schema, p, false) && Conforms(schema, Replace(p, path, other), false)
    requires InterfaceRecord(schema, p).Some? && InterfaceRecord(schema, Replace(p, path, other)).Some?
    ensures InterfaceRecord(schema, p) == InterfaceRecord(schema, Replace(p, path, other))
            <==> Erase(schema, sub, within) == Erase(schema, other, within)
  {
    hide *;
    InterfaceExact(schema, p, Replace(p, path, other));
    EraseReplace(schema, p, true, path, sub, within, other);
  }

  /** An edit of a field that the visitor does not write, or of the body of an ordinary
      function, is invisible wherever the node stands: at top level, as a method, in a
      namespace, anywhere the visitor walks. No conformance is asked for. */
  lemma HiddenEditInvisible(
      schema: Schema, p: Value, path: seq<nat>, f: Value, within: bool, i: nat, value: Value)
    requires Reaches(schema, p, true, path, f, within)
    requires f.Node? && f.kind in schema && i < |f.fields| && i < |schema[f.kind]|
    requires || ClassOf(f.kind, schema[f.kind][i]) == Skipped
             || (ClassOf(f.kind, schema[f.kind][i]) == FunctionBody
                 && !KeepsBody(f.kind, schema[f.kind], f.fields, within))
    ensures InterfaceRecord(schema, Replace(p, path, f.(fields := f.fields[i := value])))
            == InterfaceRecord(schema, p)
  {
    var g := f.(fields := f.fields[i := value]);
    hide KeepsBody, Erase, ClassOf, Replace, Reaches, InterfaceRecord;
    EraseNodeField(schema, f.kind, f.filename, f.fields, i, value, within);
    assert g == Node(f.kind, f.filename, f.fields[i := value]) && f == Node(f.kind, f.filename, f.fields);
    EraseReplace(schema, p, true, path, f, within, g);
    SameErasureSameRecord(schema, Replace(p, path, g), p);
  }

  /** The fields of a function definition that carry its source form, in declared order. */
  const FUNCTION_FIELDS: seq<Field> := [
    Field("name", true), Field("params", true), Field("body", true), Field("is_static", true),
    Field("is_inline", true), Field("is_synchronized", true), Field("param_types", true),
    Field("param_optional", true), Field("param_defaults", true), Field("variadic_index", true),
    Field("return_type", true), Field("return_optional", true), Field("is_async", true), Field("is_iterator", true)
  ]

  lemma BodyFieldClass()
    ensures ClassOf(FUNCTION_DEF, Field("body", true)) == FunctionBody
  {
    var b, pos, own := "body", "_pos", "_ml_";
    assert b[0] == 'b' && pos[0] == '_' && own[0] == '_';
  }

  lemma FunctionLayout(names: seq<Field>, vals: seq<Value>)
    requires FUNCTION_FIELDS <= names && |vals| == |names|
    ensures ClassOf(FUNCTION_DEF, names[2]) == FunctionBody
    ensures FieldOf(names, vals, "name") == vals[0]
    ensures FieldOf(names, vals, "is_inline") == vals[4]
    ensures FieldOf(names, vals, "return_type") == vals[10]
  {
    BodyFieldClass();
    hide ClassOf, FieldOf;
    assert forall k | 0 <= k < |FUNCTION_FIELDS| :: names[k] == FUNCTION_FIELDS[k];
    FieldAtIndex(names, vals, "name", 0);
    FieldAtIndex(names, vals, "is_inline", 4);
    FieldAtIndex(names, vals, "return_type", 10);
  }

  lemma {:induction false} FieldAtIndex(names: seq<Field>, vals: seq<Value>, field: string, i: nat)
    requires i < |names| && i < |vals| && names[i].name == field
    requires forall k | 0 <= k < i :: names[k].name != field
    ensures FieldOf(names, vals, field) == vals[i]
    decreases i
  {
    if i > 0 {
      FieldAtIndex(names[1..], vals[1..], field, i - 1);
    }
  }

  /** Concretely: the record says nothing about the body of a function that is not inline,
      declares no return type and is not a generated lambda, wherever the function stands.
      Bookkeeping fields may follow the declared ones. */
  lemma OrdinaryBodyInvisible(
      schema: Schema, p: Value, path: seq<nat>, filename: Text, vals: seq<Value>, body: Value)
    requires FUNCTION_DEF in schema && FUNCTION_FIELDS <= schema[FUNCTION_DEF] && |vals| == |schema[FUNCTION_DEF]|
    requires Reaches(schema, p, true, path, Node(FUNCTION_DEF, filename, vals), true)
    requires vals[0].Str? && !(LAMBDA_PREFIX <= vals[0].text)
    requires vals[4] == Bool(false)
    requires vals[10] == Void || vals[10] == Int(0) || vals[10] == Str([])
    ensures InterfaceRecord(schema, Replace(p, path, Node(FUNCTION_DEF, filename, vals[2 := body])))
            == InterfaceRecord(schema, p)
  {
    hide InterfaceRecord, ClassOf, FieldOf, Reaches, Replace;
    FunctionLayout(schema[FUNCTION_DEF], vals);
    var f := Node(FUNCTION_DEF, filename, vals);
    assert f.(fields := vals[2 := body]) == Node(FUNCTION_DEF, filename, vals[2 := body]);
    HiddenEditInvisible(schema, p, path, f, true, 2, body);
  }

  // ----- what a record shows

  /** The whole value without its hidden fields, with every body. */
  function Strip(schema: Schema, v: Value): Value
    decreases v, 1
  {
    match v
    case Arr(items) => Arr(StripAll(schema, items))
    case Node(kind, filename, fields) =>
      if kind in schema then Node(kind, filename, StripFields(schema, schema[kind], fields)) else v
    case _ => v
  }

  function StripAll(schema: Schema, vs: seq<Value>): (r: seq<Value>)
    ensures |r| == |vs|
    decreases vs, 0
  {
    if vs == [] then [] else [Strip(schema, vs[0])] + StripAll(schema, vs[1..])
  }

  function StripFields(schema: Schema, names: seq<Field>, vals: seq<Value>): (r: seq<Value>)
    ensures |r| == |vals|
    decreases vals, 0
  {
    if names == [] || vals == [] then vals
    else
      [if IsHidden(names[0]) then Void else if IsWalked(names[0].name) then Strip(schema, vals[0]) else vals[0]]
      + StripFields(schema, names[1..], vals[1..])
  }

  /** Beneath a body that is kept, and outside the header mode, nothing else is erased. */
  lemma {:induction false} EraseNothingElse(schema: Schema, v: Value)
    ensures Erase(schema, v, false) == Strip(schema, v)
    decreases v, 1
  {
    match v {
      case Arr(items) => EraseNothingElseAll(schema, items);
      case Node(kind, filename, fields) =>
        if kind in schema {
          EraseNothingElseFields(schema, kind, schema[kind], fields);
        }
      case _ =>
    }
  }

  lemma {:induction false} EraseNothingElseAll(schema: Schema, vs: seq<Value>)
    ensures EraseAll(schema, vs, false) == StripAll(schema, vs)
    decreases vs, 0
  {
    if vs != [] {
      EraseNothingElse(schema, vs[0]);
      EraseNothingElseAll(schema, vs[1..]);
    }
  }

  lemma {:induction false} EraseNothingElseFields(schema: Schema, kind: Text, names: seq<Field>, vals: seq<Value>)
    ensures EraseFields(schema, kind, names, vals, false, true) == StripFields(schema, names, vals)
    decreases vals, 0
  {
    if names != [] && vals != [] {
      EraseNothingElse(schema, vals[0]);
      EraseNothingElseFields(schema, kind, names[1..], vals[1..]);
      BodyIsWalked();
      hide Erase, Strip;
    }
  }

  /** Every field that is neither hidden nor a function's body shows, wherever its node
      stands: a scalar whenever it changes, a tree whenever its erasure does. */
  lemma {:induction false} FieldShows(
      schema: Schema, p: Value, path: seq<nat>, f: Value, within: bool, i: nat, value: Value)
    requires Reaches(schema, p, true, path, f, within)
    requires f.Node? && f.kind in schema && i < |f.fields| && i < |schema[f.kind]|
    requires !IsHidden(schema[f.kind][i]) && !(f.kind == FUNCTION_DEF && schema[f.kind][i].name == "body")
    requires var q := Replace(p, path, f.(fields := f.fields[i := value]));
             && Conforms(schema, p, false) && Conforms(schema, q, false)
             && InterfaceRecord(schema, p).Some? && InterfaceRecord(schema, q).Some?
    ensures var q := Replace(p, path, f.(fields := f.fields[i := value]));
            InterfaceRecord(schema, p) == InterfaceRecord(schema, q)
            <==> if IsWalked(schema[f.kind][i].name) then
                   Erase(schema, f.fields[i], within) == Erase(schema, value, within)
                 else f.fields[i] == value
  {
    var g := f.(fields := f.fields[i := value]);
    var field := schema[f.kind][i];
    ClassByName(f.kind, field);
    assert f == Node(f.kind, f.filename, f.fields) && g == Node(f.kind, f.filename, f.fields[i := value]);
    EditShows(schema, p, path, f, within, g);
    hide InterfaceRecord, Conforms, Reaches, Replace, Erase, KeepsBody;
    if IsWalked(field.name) {
      EraseNodeField(schema, f.kind, f.filename, f.fields, i, value, within);
    } else if f.fields[i] != value {
      ScalarEditShows(schema, f.kind, f.filename, f.fields, i, value, within);
    } else {
      assert f.fields[i := value] == f.fields;
    }
  }

  /** The other side of `OrdinaryBodyInvisible`: the body of a function that is inline, or
      declares a return type, or is a generated lambda, or stands beneath a kept body, shows
      entirely. Two such bodies share a record exactly when they are equal but for hidden
      fields; bodies of different length never do. */
  lemma {:induction false} KeptBodyShows(
      schema: Schema, p: Value, path: seq<nat>, within: bool, filename: Text, vals: seq<Value>, body: Value)
    requires FUNCTION_DEF in schema && FUNCTION_FIELDS <= schema[FUNCTION_DEF] && |vals| == |schema[FUNCTION_DEF]|
    requires Reaches(schema, p, true, path, Node(FUNCTION_DEF, filename, vals), within)
    requires || !within
             || vals[4] == Bool(true)
             || (vals[10].Str? && vals[10].text != [])
             || (vals[0].Str? && LAMBDA_PREFIX <= vals[0].text)
    requires var q := Replace(p, path, Node(FUNCTION_DEF, filename, vals[2 := body]));
             && Conforms(schema, p, false) && Conforms(schema, q, false)
             && InterfaceRecord(schema, p).Some? && InterfaceRecord(schema, q).Some?
    ensures var q := Replace(p, path, Node(FUNCTION_DEF, filename, vals[2 := body]));
            && (InterfaceRecord(schema, p) == InterfaceRecord(schema, q)
                <==> Strip(schema, vals[2]) == Strip(schema, body))
            && (InterfaceRecord(schema, p) == InterfaceRecord(schema, q)
                <==> Erase(schema, vals[2], false) == Erase(schema, body, false))
            && (vals[2].Arr? && body.Arr? && |vals[2].items| != |body.items| ==>
                  InterfaceRecord(schema, p) != InterfaceRecord(schema, q))
  {
    var names := schema[FUNCTION_DEF];
    var f, g := Node(FUNCTION_DEF, filename, vals), Node(FUNCTION_DEF, filename, vals[2 := body]);
    EditShows(schema, p, path, f, within, g);
    FunctionLayout(names, vals);
    assert KeepsBody(FUNCTION_DEF, names, vals, within);
    hide InterfaceRecord, Conforms, Reaches, Replace, Erase, KeepsBody, ClassOf;
    EraseNodeField(schema, FUNCTION_DEF, filename, vals, 2, body, within);
    KeptBodyErasure(schema, names[2], vals[2]);
    KeptBodyErasure(schema, names[2], body);
    EraseNothingElse(schema, vals[2]);
    EraseNothingElse(schema, body);
  }

  lemma KeptBodyErasure(schema: Schema, field: Field, v: Value)
    requires ClassOf(FUNCTION_DEF, field) == FunctionBody
    ensures forall headers :: EraseField(schema, FUNCTION_DEF, field, v, headers, true) == Erase(schema, v, false)
  {
    hide Erase;
  }

  // ----- the checked-in visitor against the generator

  const STRUCT_DEF := Ascii("StructDef")
  const STRUCT_WRITTEN: nat := 8

  /** The fields of a struct definition: the visitor in the repository writes the first
      eight, then come the position and fifteen that it leaves out. */
  const STRUCT_FIELDS: seq<Field> := [
    Field("name", true), Field("fields", true), Field("methods", true), Field("field_types", true),
    Field("field_optional", true), Field("field_defaults", true), Field("interfaces", true),
    Field("_extern_field_types", true), Field("_pos", true),
    Field("base", false), Field("is_class", false), Field("override_methods", false),
    Field("_class_ancestors", false), Field("is_abstract", false), Field("is_final", false),
    Field("field_visibility", false), Field("method_visibility", false), Field("abstract_methods", false),
    Field("final_methods", false), Field("field_owners", false), Field("method_hidden_names", false),
    Field("qualified_name", false), Field("constructor_min", false), Field("constructor_max", false)
  ]

  /** What the generator makes of the same declarations: it leaves nothing out. */
  function Regenerated(schema: Schema): Schema {
    map kind | kind in schema :: AllWritten(schema[kind])
  }

  function AllWritten(names: seq<Field>): (r: seq<Field>)
    ensures |r| == |names| && forall k | 0 <= k < |r| :: r[k] == Field(names[k].name, true)
  {
    seq(|names|, k requires 0 <= k < |names| => Field(names[k].name, true))
  }

  /** The visitor in the repository is older than the parser. Two programs that differ only
      in one of the fifteen fields it leaves out, `is_abstract` among them, share their
      record; the visitor that the generator makes tells them apart. */
  lemma OmittedFieldsCollide(schema: Schema, filename: Text, vals: seq<Value>, i: nat, value: Value)
    requires STRUCT_DEF in schema && schema[STRUCT_DEF] == STRUCT_FIELDS
    requires |vals| == |STRUCT_FIELDS| && STRUCT_WRITTEN < i < |vals| && vals[i] != value
    ensures var p, q := Node(STRUCT_DEF, filename, vals), Node(STRUCT_DEF, filename, vals[i := value]);
            var g := Regenerated(schema);
            && InterfaceRecord(schema, p) == InterfaceRecord(schema, q)
            && Erase(g, p, true) != Erase(g, q, true)
            && (Conforms(g, p, false) && Conforms(g, q, false)
                && InterfaceRecord(g, p).Some? && InterfaceRecord(g, q).Some?
                ==> InterfaceRecord(g, p) != InterfaceRecord(g, q))
  {
    var p, q := Node(STRUCT_DEF, filename, vals), Node(STRUCT_DEF, filename, vals[i := value]);
    var g := Regenerated(schema);
    assert !STRUCT_FIELDS[i].written;
    assert q == p.(fields := p.fields[i := value]) && Replace(p, [], q) == q;
    HiddenEditInvisible(schema, p, [], p, true, i, value);
    OmittedAreScalars(i);
    assert STRUCT_DEF in g && g[STRUCT_DEF][i] == Field(STRUCT_FIELDS[i].name, true);
    ScalarEditShows(g, STRUCT_DEF, filename, vals, i, value, true);
    if Conforms(g, p, false) && Conforms(g, q, false) && InterfaceRecord(g, p).Some? && InterfaceRecord(g, q).Some? {
      InterfaceExact(g, p, q);
    }
  }

  lemma ScalarEditShows(
      schema: Schema, kind: Text, filename: Text, vals: seq<Value>, i: nat, value: Value, headers: bool)
    requires kind in schema && i < |vals| && i < |schema[kind]| && ClassOf(kind, schema[kind][i]) == Scalar
    requires vals[i] != value
    ensures Erase(schema, Node(kind, filename, vals), headers)
            != Erase(schema, Node(kind, filename, vals[i := value]), headers)
  {
    var names := schema[kind];
    var ka, kb := KeepsBody(kind, names, vals, headers), KeepsBody(kind, names, vals[i := value], headers);
    EraseFieldsAt(schema, kind, names, vals, headers, ka);
    EraseFieldsAt(schema, kind, names, vals[i := value], headers, kb);
    hide KeepsBody, EraseFields, ClassOf;
    var a := EraseFields(schema, kind, names, vals, headers, ka);
    var b := EraseFields(schema, kind, names, vals[i := value], headers, kb);
    assert a[i] == vals[i] && b[i] == value;
  }

  lemma OmittedAreScalars(i: nat)
    requires STRUCT_WRITTEN < i < |STRUCT_FIELDS|
    ensures ClassOf(STRUCT_DEF, Field(STRUCT_FIELDS[i].name, true)) == Scalar
  {
    var name := STRUCT_FIELDS[i].name;
    assert |STRUCT_DEF| == 9 && |FUNCTION_DEF| == 11;
    var pos, own, params := "_pos", "_ml_", "params";
    assert pos[1] == 'p' && own[1] == 'm' && |params| == 6;
    assert name !in CHILDREN;
  }

  /** The fields that the visitor in the repository walks, over all its kinds. */
  const VISITED: seq<string> := [
    "args", "body", "callee", "cases", "cleanup", "cond", "default_body", "elifs", "else_body", "end_expr",
    "expr", "field_defaults", "index", "items", "iterable", "left", "lock", "methods", "obj",
    "param_defaults", "params", "range_end", "range_start", "right", "start", "target", "then_body",
    "values"
  ]

  /** The fields that it hands to the encoder as they are, in three parts. */
  const SCALARS_A: seq<string> := [
    "_extern_field_types", "alias", "arg_names", "capture_kind", "count", "declared_optional",
    "declared_type", "dll", "field", "field_optional", "field_types", "fields", "instructions",
    "interfaces", "is_async", "is_inline"
  ]

  const SCALARS_B: seq<string> := [
    "is_iterator", "is_out", "is_static", "is_synchronized", "kind", "modes", "module", "name", "names",
    "negated", "offset", "offsets", "op", "optional", "param_optional", "param_types"
  ]

  const SCALARS_C: seq<string> := [
    "path", "result_optional", "result_type", "ret_ty", "return_optional", "return_type", "site_id",
    "stack_variadic", "symbol_name", "ty", "type_name", "types", "unsafe", "var", "variadic_index",
    "variants"
  ]

  /** The generator's classes are those of the visitor in the repository, for every field
      that visitor writes. */
  lemma VisitorMatches(kind: Text, field: Field)
    requires field.written && (field.name in VISITED || field.name in SCALARS_A + SCALARS_B + SCALARS_C)
    ensures field.name in VISITED ==>
              ClassOf(kind, field) == if kind == FUNCTION_DEF && field.name == "body" then FunctionBody else Child
    ensures field.name !in VISITED ==> ClassOf(kind, field) == Scalar
  {
    if k :| 0 <= k < |VISITED| && VISITED[k] == field.name {
      VisitedIsWalked(k);
    } else {
      ScalarNotWalked(field.name);
    }
    hide IsWalked;
    if !(kind == FUNCTION_DEF && field.name == "body") {
      ClassByName(kind, field);
    } else {
      BodyFieldClass();
    }
  }

  lemma VisitedIsWalked(k: nat)
    requires k < |VISITED|
    ensures IsWalked(VISITED[k]) && VISITED[k] != "_pos" && !("_ml_" <= VISITED[k])
  {
    var pos, own := "_pos", "_ml_";
    assert pos[0] == '_' && own[0] == '_' && VISITED[k][0] != '_';
  }

  lemma ScalarNotWalked(name: string)
    requires name in SCALARS_A + SCALARS_B + SCALARS_C
    ensures !IsWalked(name) && name != "_pos" && !("_ml_" <= name) && name != "body"
  {
    if name in SCALARS_A {
      var k :| 0 <= k < |SCALARS_A| && SCALARS_A[k] == name;
      ScalarA(k);
    } else if name in SCALARS_B {
      var k :| 0 <= k < |SCALARS_B| && SCALARS_B[k] == name;
      ScalarB(k);
    } else {
      var k :| 0 <= k < |SCALARS_C| && SCALARS_C[k] == name;
      ScalarC(k);
    }
  }

  lemma ScalarA(k: nat)
    requires k < |SCALARS_A|
    ensures !IsWalked(SCALARS_A[k]) && SCALARS_A[k] != "_pos" && !("_ml_" <= SCALARS_A[k]) && SCALARS_A[k] != "body"
  {
    var pos, own := "_pos", "_ml_";
    assert pos[1] == 'p' && own[1] == 'm';
    assert SCALARS_A[k] !in CHILDREN && SCALARS_A[k] != "params";
  }

  lemma ScalarB(k: nat)
    requires k < |SCALARS_B|
    ensures !IsWalked(SCALARS_B[k]) && SCALARS_B[k] != "_pos" && !("_ml_" <= SCALARS_B[k]) && SCALARS_B[k] != "body"
  {
    var pos, own := "_pos", "_ml_";
    assert pos[1] == 'p' && own[1] == 'm';
    assert SCALARS_B[k] !in CHILDREN && SCALARS_B[k] != "params";
  }

  lemma ScalarC(k: nat)
    requires k < |SCALARS_C|
    ensures !IsWalked(SCALARS_C[k]) && SCALARS_C[k] != "_pos" && !("_ml_" <= SCALARS_C[k]) && SCALARS_C[k] != "body"
  {
    var pos, own := "_pos", "_ml_";
    assert pos[1] == 'p' && own[1] == 'm';
    assert SCALARS_C[k] !in CHILDREN && SCALARS_C[k] != "params";
  }

  const VOID_LIT := Ascii("VoidLit")
  const COALESCE := Ascii("Coalesce")

  /** Why a tree slot must not hold a bare string: a string reads like the first value of a
      node, and these two different programs share one record. */
  lemma BareStringsCollide()
    ensures var schema: Schema := map[VOID_LIT := [], COALESCE := [Field("left", true), Field("right", true)]];
            var p := Arr([Node(COALESCE, [], [Node(VOID_LIT, [], []), Str(VOID_LIT)]), Str([])]);
            var q := Arr([Node(COALESCE, [], [Str(VOID_LIT), Str([])]), Node(VOID_LIT, [], [])]);
            && InterfaceRecord(schema, p).Some?
            && InterfaceRecord(schema, p) == InterfaceRecord(schema, q)
            && Erase(schema, p, true) != Erase(schema, q, true)
  {
    assert |VOID_LIT| == 7 && |COALESCE| == 8 && VOID_LIT != COALESCE;
    hide *;
    CollideIn(map[VOID_LIT := [], COALESCE := [Field("left", true), Field("right", true)]]);
  }

  lemma CollideIn(schema: Schema)
    requires VOID_LIT in schema && schema[VOID_LIT] == [] && |VOID_LIT| == 7
    requires COALESCE in schema && schema[COALESCE] == [Field("left", true), Field("right", true)] && |COALESCE| == 8
    ensures var p := Arr([Node(COALESCE, [], [Node(VOID_LIT, [], []), Str(VOID_LIT)]), Str([])]);
            var q := Arr([Node(COALESCE, [], [Str(VOID_LIT), Str([])]), Node(VOID_LIT, [], [])]);
            && InterfaceRecord(schema, p).Some?
            && InterfaceRecord(schema, p) == InterfaceRecord(schema, q)
            && Erase(schema, p, true) != Erase(schema, q, true)
  {
    hide Project, ProjectAll, ProjectFields, Accepts, AcceptsAll, AcceptsFields, Erase, EraseAll, Enc, Ascii,
      ListHeader;
    var leaf, name, empty := Node(VOID_LIT, [], []), Str(VOID_LIT), Str([]);
    var x, y := Node(COALESCE, [], [leaf, name]), Node(COALESCE, [], [name, empty]);
    LeafView(schema, 126);
    LeafView(schema, 127);
    StringView(schema, VOID_LIT, 126);
    StringView(schema, [], 126);
    StringView(schema, [], 127);
    StringView(schema, COALESCE, 127);
    PairView(schema, leaf, name, 127);
    PairView(schema, name, empty, 127);
    TwoView(schema, x, empty);
    TwoView(schema, y, leaf);
    var c, v, e := Enc(Str(COALESCE)) + Enc(empty), Enc(name), Enc(empty);
    assert (c + ((v + e) + v)) + e == (c + (v + e)) + (v + e);
  }

  lemma StringView(schema: Schema, s: Text, levels: nat)
    requires levels > 0
    ensures Project(schema, Str(s), true) == Enc(Str(s)) && |Enc(Str(s))| == 6 + |s|
    ensures Accepts(schema, Str(s), true, levels) && Erase(schema, Str(s), true) == Str(s)
  {
  }

  lemma LeafView(schema: Schema, levels: nat)
    requires VOID_LIT in schema && schema[VOID_LIT] == [] && levels > 0
    ensures var leaf := Node(VOID_LIT, [], []);
            && Project(schema, leaf, true) == Enc(Str(VOID_LIT)) + Enc(Str([]))
            && Accepts(schema, leaf, true, levels)
            && Erase(schema, leaf, true) == leaf
  {
    assert Enc(Str(VOID_LIT)) + Enc(Str([])) + [] == Enc(Str(VOID_LIT)) + Enc(Str([]));
  }

  lemma PairView(schema: Schema, a: Value, b: Value, levels: nat)
    requires COALESCE in schema && schema[COALESCE] == [Field("left", true), Field("right", true)] && levels > 0
    requires Accepts(schema, a, true, levels - 1) && Accepts(schema, b, true, levels - 1)
    ensures var pair := Node(COALESCE, [], [a, b]);
            && Project(schema, pair, true) == Enc(Str(COALESCE)) + Enc(Str([]))
                + (Project(schema, a, true) + Project(schema, b, true))
            && Accepts(schema, pair, true, levels)
            && Erase(schema, pair, true) == Node(COALESCE, [], [Erase(schema, a, true), Erase(schema, b, true)])
  {
    var names, vals := [Field("left", true), Field("right", true)], [a, b];
    var keep := KeepsBody(COALESCE, names, vals, true);
    assert "left"[0] == 'l' && "right"[0] == 'r';
    assert ClassOf(COALESCE, Field("left", true)) == Child && ClassOf(COALESCE, Field("right", true)) == Child;
    hide ClassOf;
    assert names[1..] == [Field("right", true)] && vals[1..] == [b];
    LastFieldView(schema, COALESCE, Field("right", true), b, keep, levels - 1);
    assert ProjectFields(schema, COALESCE, names, vals, true, keep) == Project(schema, a, true)
        + Project(schema, b, true);
    assert AcceptsFields(schema, COALESCE, names, vals, true, keep, levels - 1);
    assert EraseFields(schema, COALESCE, names, vals, true, keep) == [Erase(schema, a, true), Erase(schema, b, true)];
  }

  lemma LastFieldView(schema: Schema, kind: Text, field: Field, v: Value, keep: bool, levels: nat)
    ensures ProjectFields(schema, kind, [field], [v], true, keep) == ProjectField(schema, kind, field, v, true, keep)
    ensures AcceptsFields(schema, kind, [field], [v], true, keep, levels)
            == AcceptsField(schema, kind, field, v, true, keep, levels)
    ensures EraseFields(schema, kind, [field], [v], true, keep) == [EraseField(schema, kind, field, v, true, keep)]
  {
    assert [field][1..] == [] && [v][1..] == [];
  }

  lemma TwoView(schema: Schema, a: Value, b: Value)
    requires Accepts(schema, a, true, MAX_LEVELS - 1) && Accepts(schema, b, true, MAX_LEVELS - 1)
    ensures var two := Arr([a, b]);
            && Project(schema, two, true) == Enc(ListHeader(2)) + (Project(schema, a, true) + Project(schema, b, true))
            && |Enc(ListHeader(2))| <= 100
            && Accepts(schema, two, true, MAX_LEVELS)
            && Erase(schema, two, true) == Arr([Erase(schema, a, true), Erase(schema, b, true)])
  {
    hide Enc, EncAll, KeepsBody, ProjectFields, AcceptsFields, EraseFields;
    assert [a, b][1..] == [b] && [b][1..] == [];
    assert ProjectAll(schema, [b], true) == Project(schema, b, true) + [];
    assert AcceptsAll(schema, [b], true, MAX_LEVELS - 1);
    assert EraseAll(schema, [b], true) == [Erase(schema, b, true)];
    HeaderEncodable(2);
  }
}
