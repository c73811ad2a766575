// The bounded worklist check of reminder metadata.
module Metadata {
  import opened Wrappers
  import opened Reminder

  // ---- the recursive definition of the three measures ----

  function Nodes(v: Json): nat
    decreases v, 1
  {
    1 + match v
        case Arr(items) => NodesAll(items)
        case Obj(fields) => NodesOf(fields)
        case _ => 0
  }

  function NodesAll(vs: seq<Json>): nat
    decreases vs, 0
  {
    if vs == [] then 0 else Nodes(vs[0]) + NodesAll(vs[1..])
  }

  function NodesOf(fs: seq<Field>): nat
    decreases fs, 0
  {
    if fs == [] then 0 else Nodes(fs[0].value) + NodesOf(fs[1..])
  }

  function Max(a: nat, b: nat): nat { if a < b then b else a }

  function Depth(v: Json): nat
    decreases v, 1
  {
    1 + match v
        case Arr(items) => DepthAll(items)
        case Obj(fields) => DepthOf(fields)
        case _ => 0
  }

  function DepthAll(vs: seq<Json>): nat
    decreases vs, 0
  {
    if vs == [] then 0 else Max(Depth(vs[0]), DepthAll(vs[1..]))
  }

  function DepthOf(fs: seq<Field>): nat
    decreases fs, 0
  {
    if fs == [] then 0 else Max(Depth(fs[0].value), DepthOf(fs[1..]))
  }

  function KeyBytes(fs: seq<Field>): nat {
    if fs == [] then 0 else |fs[0].key| + KeyBytes(fs[1..])
  }

  // A word counts with its length, a text with its bytes, a container with its members and their names.
  function Bytes(v: Json): nat
    decreases v, 1
  {
    match v
    case Null => |"null"|
    case Bool(b) => if b then |"true"| else |"false"|
    case Number(digits) => |digits|
    case Str(s) => |s|
    case Arr(items) => |items| + BytesAll(items)
    case Obj(fields) => |fields| + KeyBytes(fields) + BytesOf(fields)
  }

  function BytesAll(vs: seq<Json>): nat
    decreases vs, 0
  {
    if vs == [] then 0 else Bytes(vs[0]) + BytesAll(vs[1..])
  }

  function BytesOf(fs: seq<Field>): nat
    decreases fs, 0
  {
    if fs == [] then 0 else Bytes(fs[0].value) + BytesOf(fs[1..])
  }

  // ---- the worklist ----

  // Bytes charged for a value itself, without its children.
  function OwnBytes(v: Json): nat {
    match v
    case Null => 4
    case Bool(b) => if b then 4 else 5
    case Number(digits) => |digits|
    case Str(s) => |s|
    case Arr(items) => |items|
    case Obj(fields) => |fields| + KeyBytes(fields)
  }

  type Stack = seq<(Json, nat)>

  // The children of v, each one level deeper, in the order they are pushed.
  function Children(v: Json, depth: nat): Stack {
    match v
    case Arr(items) => Items(items, depth + 1)
    case Obj(fields) => Fields(fields, depth + 1)
    case _ => []
  }

  function Items(vs: seq<Json>, depth: nat): Stack {
    if vs == [] then [] else [(vs[0], depth)] + Items(vs[1..], depth)
  }

  function Fields(fs: seq<Field>, depth: nat): Stack {
    if fs == [] then [] else [(fs[0].value, depth)] + Fields(fs[1..], depth)
  }

  // Totals over everything still on the stack.
  function PendingNodes(stack: Stack): nat {
    if stack == [] then 0 else Nodes(stack[0].0) + PendingNodes(stack[1..])
  }

  function PendingBytes(stack: Stack): nat {
    if stack == [] then 0 else Bytes(stack[0].0) + PendingBytes(stack[1..])
  }

  predicate DepthFits(v: Json, depth: nat) { depth + Depth(v) <= MAX_METADATA_DEPTH + 1 }

  predicate PendingFits(stack: Stack) {
    forall i | 0 <= i < |stack| :: DepthFits(stack[i].0, stack[i].1)
  }

  lemma {:induction false} PendingAppend(a: Stack, b: Stack)
    ensures PendingNodes(a + b) == PendingNodes(a) + PendingNodes(b)
    ensures PendingBytes(a + b) == PendingBytes(a) + PendingBytes(b)
  {
    if a == [] {
      assert a + b == b;
    } else {
      assert (a + b)[1..] == a[1..] + b;
      PendingAppend(a[1..], b);
    }
  }

  lemma {:induction false} ItemsTotals(vs: seq<Json>, depth: nat)
    ensures PendingNodes(Items(vs, depth)) == NodesAll(vs)
    ensures PendingBytes(Items(vs, depth)) == BytesAll(vs)
    ensures PendingFits(Items(vs, depth)) <==> vs == [] || depth + DepthAll(vs) <= MAX_METADATA_DEPTH + 1
  {
    if vs != [] {
      var rest := Items(vs[1..], depth);
      ItemsTotals(vs[1..], depth);
      FitsCons(vs[0], depth, rest);
      assert Items(vs, depth)[1..] == rest;
    }
  }

  lemma {:induction false} FieldsTotals(fs: seq<Field>, depth: nat)
    ensures PendingNodes(Fields(fs, depth)) == NodesOf(fs)
    ensures PendingBytes(Fields(fs, depth)) == BytesOf(fs)
    ensures PendingFits(Fields(fs, depth)) <==> fs == [] || depth + DepthOf(fs) <= MAX_METADATA_DEPTH + 1
  {
    if fs != [] {
      var rest := Fields(fs[1..], depth);
      FieldsTotals(fs[1..], depth);
      FitsCons(fs[0].value, depth, rest);
      assert Fields(fs, depth)[1..] == rest;
    }
  }

  lemma FitsCons(v: Json, depth: nat, rest: Stack)
    ensures PendingFits([(v, depth)] + rest) <==> DepthFits(v, depth) && PendingFits(rest)
  {
    var stack := [(v, depth)] + rest;
    assert stack[0] == (v, depth) && stack[1..] == rest;
    assert forall i | 0 <= i < |rest| :: rest[i] == stack[i + 1];
  }

  lemma FitsAppend(a: Stack, b: Stack)
    ensures PendingFits(a + b) <==> PendingFits(a) && PendingFits(b)
  {
    assert forall i | 0 <= i < |a| :: a[i] == (a + b)[i];
    assert forall i | 0 <= i < |b| :: b[i] == (a + b)[|a| + i];
  }

  // Replacing a value by its children takes exactly the value's own share off the totals.
  lemma Expand(rest: Stack, v: Json, depth: nat)
    ensures PendingNodes(rest + [(v, depth)]) == PendingNodes(rest + Children(v, depth)) + 1
    ensures PendingBytes(rest + [(v, depth)]) == PendingBytes(rest + Children(v, depth)) + OwnBytes(v)
    ensures PendingFits(rest + [(v, depth)]) <==>
            depth <= MAX_METADATA_DEPTH && PendingFits(rest + Children(v, depth))
  {
    var one := [(v, depth)];
    assert one[1..] == [] && one + [] == one;
    FitsCons(v, depth, []);
    OwnShare(v, depth);
    hide Children, Nodes, Bytes, OwnBytes, DepthFits, PendingFits;
    PendingAppend(rest, one);
    PendingAppend(rest, Children(v, depth));
    FitsAppend(rest, one);
    FitsAppend(rest, Children(v, depth));
  }

  lemma OwnShare(v: Json, depth: nat)
    ensures Nodes(v) == PendingNodes(Children(v, depth)) + 1
    ensures Bytes(v) == PendingBytes(Children(v, depth)) + OwnBytes(v)
    ensures DepthFits(v, depth) <==> depth <= MAX_METADATA_DEPTH && PendingFits(Children(v, depth))
    ensures PendingFits([])
  {
    hide PendingFits, PendingNodes, PendingBytes, Nodes, Bytes, OwnBytes, Children;
    match v
    case Arr(items) => ListShare(items, depth);
    case Obj(fields) => ObjectShare(fields, depth);
    case _ => LeafShare(v, depth);
  }

  lemma LeafShare(v: Json, depth: nat)
    requires !v.Arr? && !v.Obj?
    ensures Children(v, depth) == [] && Nodes(v) == 1 && Bytes(v) == OwnBytes(v) && Depth(v) == 1
    ensures PendingNodes([]) == 0 && PendingBytes([]) == 0 && PendingFits([])
  {
    assert |"null"| == 4 && |"true"| == 4 && |"false"| == 5;
  }

  lemma ListShare(items: seq<Json>, depth: nat)
    ensures var v := Arr(items);
            && Nodes(v) == PendingNodes(Children(v, depth)) + 1
            && Bytes(v) == PendingBytes(Children(v, depth)) + OwnBytes(v)
            && (DepthFits(v, depth) <==> depth <= MAX_METADATA_DEPTH && PendingFits(Children(v, depth)))
    ensures PendingFits([])
  {
    hide PendingFits;
    ItemsTotals(items, depth + 1);
    NothingFits();
    assert items == [] ==> DepthAll(items) == 0;
  }

  lemma ObjectShare(fields: seq<Field>, depth: nat)
    ensures var v := Obj(fields);
            && Nodes(v) == PendingNodes(Children(v, depth)) + 1
            && Bytes(v) == PendingBytes(Children(v, depth)) + OwnBytes(v)
            && (DepthFits(v, depth) <==> depth <= MAX_METADATA_DEPTH && PendingFits(Children(v, depth)))
    ensures PendingFits([])
  {
    hide PendingFits;
    FieldsTotals(fields, depth + 1);
    NothingFits();
    assert fields == [] ==> DepthOf(fields) == 0;
  }

  lemma NothingFits()
    ensures PendingFits([])
  {}

  // The check as the code runs it: one pop per step, an early exit at the first exceeded bound.
  function Walk(stack: Stack, nodes: nat, bytes: nat): Outcome<ValidationError>
    decreases PendingNodes(stack)
  {
    if stack == [] then Pass
    else
      var rest := stack[..|stack| - 1];
      var (v, depth) := stack[|stack| - 1];
      assert PendingNodes(rest + Children(v, depth)) < PendingNodes(stack) by {
        Expand(rest, v, depth);
        assert stack == rest + [(v, depth)];
      }
      if nodes + 1 > MAX_METADATA_NODES then Fail(MetadataTooManyNodes)
      else if depth > MAX_METADATA_DEPTH then Fail(MetadataTooDeep)
      else if bytes + OwnBytes(v) > MAX_METADATA_BYTES then Fail(MetadataTooLarge)
      else Walk(rest + Children(v, depth), nodes + 1, bytes + OwnBytes(v))
  }

  function ValidateMetadata(metadata: Json): Outcome<ValidationError> {
    if !metadata.Obj? then Fail(InvalidMetadata) else Walk([(metadata, 1)], 0, 0)
  }

  predicate WithinBounds(nodes: nat, bytes: nat, fits: bool) {
    nodes <= MAX_METADATA_NODES && bytes <= MAX_METADATA_BYTES && fits
  }

  // Whatever the order of the stack, the walk passes exactly when the totals are within bounds,
  // and an error names a bound that is really exceeded.
  lemma {:induction false} WalkDecides(stack: Stack, nodes: nat, bytes: nat)
    requires nodes <= MAX_METADATA_NODES && bytes <= MAX_METADATA_BYTES
    ensures Walk(stack, nodes, bytes).Pass? <==>
            WithinBounds(nodes + PendingNodes(stack), bytes + PendingBytes(stack), PendingFits(stack))
    ensures Walk(stack, nodes, bytes) == Fail(MetadataTooManyNodes) ==>
            nodes + PendingNodes(stack) > MAX_METADATA_NODES
    ensures Walk(stack, nodes, bytes) == Fail(MetadataTooLarge) ==>
            bytes + PendingBytes(stack) > MAX_METADATA_BYTES
    ensures Walk(stack, nodes, bytes) == Fail(MetadataTooDeep) ==> !PendingFits(stack)
    decreases PendingNodes(stack)
  {
    if stack != [] {
      var rest := stack[..|stack| - 1];
      var (v, depth) := stack[|stack| - 1];
      assert stack == rest + [(v, depth)];
      Expand(rest, v, depth);
      if nodes + 1 <= MAX_METADATA_NODES && bytes + OwnBytes(v) <= MAX_METADATA_BYTES {
        WalkDecides(rest + Children(v, depth), nodes + 1, bytes + OwnBytes(v));
      }
    }
  }

  // The acceptance theorem: an object with at most 1024 nodes, 16 levels and 16 KiB, and no other.
  lemma MetadataAcceptance(m: Json)
    ensures ValidateMetadata(m).Pass? <==>
            && m.Obj?
            && Nodes(m) <= 1024
            && Depth(m) <= 16
            && Bytes(m) <= 16 * 1024
    ensures ValidateMetadata(m) == Fail(InvalidMetadata) <==> !m.Obj?
    ensures ValidateMetadata(m) == Fail(MetadataTooManyNodes) ==> Nodes(m) > 1024
    ensures ValidateMetadata(m) == Fail(MetadataTooDeep) ==> Depth(m) > 16
    ensures ValidateMetadata(m) == Fail(MetadataTooLarge) ==> Bytes(m) > 16 * 1024
  {
    var stack := [(m, 1)];
    assert stack[1..] == [];
    WalkDecides(stack, 0, 0);
    WalkErrors(stack, 0, 0);
    FitsCons(m, 1, []);
    assert [(m, 1)] + [] == stack;
  }

  lemma {:induction false} WalkErrors(stack: Stack, nodes: nat, bytes: nat)
    ensures Walk(stack, nodes, bytes) != Fail(InvalidMetadata)
    decreases PendingNodes(stack)
  {
    if stack != [] {
      var rest := stack[..|stack| - 1];
      var (v, depth) := stack[|stack| - 1];
      assert stack == rest + [(v, depth)];
      Expand(rest, v, depth);
      WalkErrors(rest + Children(v, depth), nodes + 1, bytes + OwnBytes(v));
    }
  }

  lemma {:induction false} FieldsSnoc(fs: seq<Field>, f: Field, depth: nat)
    ensures Fields(fs + [f], depth) == Fields(fs, depth) + [(f.value, depth)]
    ensures KeyBytes(fs + [f]) == KeyBytes(fs) + |f.key|
  {
    if fs == [] {
      assert fs + [f] == [f];
      assert [f][1..] == [];
    } else {
      assert (fs + [f])[1..] == fs[1..] + [f];
      FieldsSnoc(fs[1..], f, depth);
    }
  }

  // The inner loop over an object's fields: charge each key, push each value.
  method PushFields(fields: seq<Field>, depth: nat, bytes0: nat, stack0: Stack)
    returns (bytes: nat, stack: Stack)
    ensures bytes == bytes0 + KeyBytes(fields) && stack == stack0 + Fields(fields, depth)
  {
    bytes, stack := bytes0, stack0;
    for i := 0 to |fields|
      invariant stack == stack0 + Fields(fields[..i], depth)
      invariant bytes == bytes0 + KeyBytes(fields[..i])
    {
      FieldsSnoc(fields[..i], fields[i], depth);
      assert fields[..i + 1] == fields[..i] + [fields[i]];
      bytes := bytes + |fields[i].key|;
      stack := stack + [(fields[i].value, depth)];
    }
    assert fields[..|fields|] == fields;
  }

  // The worklist loop itself.
  method ValidateMetadataLoop(metadata: Json) returns (r: Outcome<ValidationError>)
    ensures r == ValidateMetadata(metadata)
  {
    if !metadata.Obj? { return Fail(InvalidMetadata); }
    var bytes: nat, nodes: nat := 0, 0;
    var stack: Stack := [(metadata, 1)];
    while stack != []
      invariant ValidateMetadata(metadata) == Walk(stack, nodes, bytes)
      decreases PendingNodes(stack)
    {
      var (value, depth) := stack[|stack| - 1];
      ghost var before, bytes0 := stack, bytes;
      var rest := stack[..|stack| - 1];
      assert before == rest + [(value, depth)];
      Expand(rest, value, depth);
      nodes := nodes + 1;
      if nodes > MAX_METADATA_NODES { return Fail(MetadataTooManyNodes); }
      if depth > MAX_METADATA_DEPTH { return Fail(MetadataTooDeep); }
      bytes, stack := Charge(value, depth, bytes, rest);
      if bytes > MAX_METADATA_BYTES { return Fail(MetadataTooLarge); }
    }
    return Pass;
  }

  // The match on the popped value.
  method Charge(value: Json, depth: nat, bytes0: nat, stack0: Stack)
    returns (bytes: nat, stack: Stack)
    ensures bytes == bytes0 + OwnBytes(value) && stack == stack0 + Children(value, depth)
  {
    bytes, stack := bytes0, stack0;
    match value {
      case Null => bytes := bytes + 4;
      case Bool(b) => bytes := bytes + if b then 4 else 5;
      case Number(digits) => bytes := bytes + |digits|;
      case Str(s) => bytes := bytes + |s|;
      case Arr(values) =>
        bytes := bytes + |values|;
        stack := stack + Items(values, depth + 1);
      case Obj(values) =>
        bytes, stack := PushFields(values, depth + 1, bytes + |values|, stack);
    }
  }
}
