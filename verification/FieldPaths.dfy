/** What the fields of a global are registered as (`register_fields_recursive` in
    `engine/src/reconciler.rs`): one registration for each path through the nested structures, at the
    sum of the offsets along it. */
module FieldPaths {
  import opened Types
  import opened WorldGraph

  /** A path names a field by its place in the structure, and then a place inside that field. */
  type Path = seq<nat>

  /** Each step is to a field with a size that is not the synthetic description of a pointee; only
      structures of more than eight bytes are entered, and no more than seven levels deep. */
  predicate Leads(fields: seq<FieldInfo>, path: Path, depth: nat)
    decreases |path|
  {
    && path != [] && path[0] < |fields| && depth <= 6
    && fields[path[0]].byteSize > 0 && fields[path[0]].name != "<pointee>"
    && (|path| > 1 ==>
          && !fields[path[0]].typeInfo.isPointer && fields[path[0]].byteSize > 8
          && Leads(fields[path[0]].typeInfo.fields, path[1..], depth + 1))
  }

  function FieldOn(fields: seq<FieldInfo>, path: Path, depth: nat): FieldInfo
    requires Leads(fields, path, depth)
    decreases |path|
  {
    if |path| == 1 then fields[path[0]] else FieldOn(fields[path[0]].typeInfo.fields, path[1..], depth + 1)
  }

  function OffsetOf(fields: seq<FieldInfo>, path: Path, depth: nat): nat
    requires Leads(fields, path, depth)
    decreases |path|
  {
    fields[path[0]].byteOffset
    + if |path| == 1 then 0 else OffsetOf(fields[path[0]].typeInfo.fields, path[1..], depth + 1)
  }

  /** The names along the path, joined by dots. */
  function NameOf(name: string, fields: seq<FieldInfo>, path: Path, depth: nat): string
    requires Leads(fields, path, depth)
    decreases |path|
  {
    var full := name + "." + fields[path[0]].name;
    if |path| == 1 then full else NameOf(full, fields[path[0]].typeInfo.fields, path[1..], depth + 1)
  }

  /** The registration of the field at the end of the path. */
  predicate Describes(r: Registration, name: string, base: nat, fields: seq<FieldInfo>, path: Path, depth: nat)
    requires Leads(fields, path, depth)
  {
    && r.addr == (base + OffsetOf(fields, path, depth)) % 0x1_0000_0000_0000_0000
    && r.size == FieldOn(fields, path, depth).byteSize
    && r.typeInfo == FieldOn(fields, path, depth).typeInfo
    && r.name == NameOf(name, fields, path, depth)
  }

  lemma WrapTwice(a: nat, b: nat)
    ensures (a % 0x1_0000_0000_0000_0000 + b) % 0x1_0000_0000_0000_0000 == (a + b) % 0x1_0000_0000_0000_0000
  {
  }

  /** One step down: what describes a field inside a structure describes it from outside. */
  lemma {:induction false} DescribesOutside(
    r: Registration, name: string, base: nat, fields: seq<FieldInfo>, i: nat, inner: Path, depth: nat)
    requires i < |fields| && fields[i].byteSize > 8 && fields[i].name != "<pointee>" && !fields[i].typeInfo.isPointer && depth <= 6
    requires Leads(fields[i].typeInfo.fields, inner, depth + 1)
    ensures Leads(fields, [i] + inner, depth)
    ensures Describes(r, name + "." + fields[i].name, (base + fields[i].byteOffset) % 0x1_0000_0000_0000_0000,
                      fields[i].typeInfo.fields, inner, depth + 1)
            <==> Describes(r, name, base, fields, [i] + inner, depth)
  {
    var path := [i] + inner;
    assert path[1..] == inner && |path| > 1;
    WrapTwice(base + fields[i].byteOffset, OffsetOf(fields[i].typeInfo.fields, inner, depth + 1));
  }

  lemma {:induction false} FieldRegPath(name: string, base: nat, fields: seq<FieldInfo>, i: nat, gi: nat, fi: nat, depth: nat, k: nat)
    returns (path: Path)
    requires i < |fields| && !Skipped(fields[i]) && fi < MAX_FIELD && depth <= MAX_DEPTH
    requires k < |FieldReg(name, base, fields[i], gi, fi, depth).0|
    ensures Leads(fields, path, depth) && path[0] == i
    ensures Describes(FieldReg(name, base, fields[i], gi, fi, depth).0[k], name, base, fields, path, depth)
    decreases MAX_DEPTH + 1 - depth, 0
  {
    if k == 0 {
      path := [i];
    } else {
      var f := fields[i];
      var addr, full := (base + f.byteOffset) % 0x1_0000_0000_0000_0000, name + "." + f.name;
      var inner := RegPath(full, addr, f.typeInfo.fields, 0, gi, fi + 1, depth + 1, k - 1);
      path := [i] + inner;
      DescribesOutside(FieldReg(name, base, f, gi, fi, depth).0[k], name, base, fields, i, inner, depth);
    }
  }

  /** Every registration is that of a path. */
  lemma {:induction false} RegPath(
    name: string, base: nat, fields: seq<FieldInfo>, from: nat, gi: nat, fi: nat, depth: nat, k: nat)
    returns (path: Path)
    requires from <= |fields| && fi <= MAX_FIELD
    requires k < |FieldRegs(name, base, fields, from, gi, fi, depth).0|
    ensures Leads(fields, path, depth) && path[0] >= from
    ensures Describes(FieldRegs(name, base, fields, from, gi, fi, depth).0[k], name, base, fields, path, depth)
    decreases MAX_DEPTH + 1 - depth, |fields| + 1 - from
  {
    if Skipped(fields[from]) {
      path := RegPath(name, base, fields, from + 1, gi, fi, depth, k);
    } else {
      var first := FieldReg(name, base, fields[from], gi, fi, depth);
      if k < |first.0| {
        path := FieldRegPath(name, base, fields, from, gi, fi, depth, k);
      } else {
        path := RegPath(name, base, fields, from + 1, gi, first.1, depth, k - |first.0|);
      }
    }
  }

  lemma {:induction false} PathFieldReg(name: string, base: nat, fields: seq<FieldInfo>, path: Path, gi: nat, fi: nat, depth: nat)
    returns (k: nat)
    requires Leads(fields, path, depth) && fi < MAX_FIELD && !Skipped(fields[path[0]])
    requires FieldReg(name, base, fields[path[0]], gi, fi, depth).1 < MAX_FIELD
    ensures k < |FieldReg(name, base, fields[path[0]], gi, fi, depth).0|
    ensures Describes(FieldReg(name, base, fields[path[0]], gi, fi, depth).0[k], name, base, fields, path, depth)
    decreases MAX_DEPTH + 1 - depth, 0
  {
    if |path| == 1 {
      k := 0;
    } else {
      var i, f := path[0], fields[path[0]];
      var addr, full := (base + f.byteOffset) % 0x1_0000_0000_0000_0000, name + "." + f.name;
      var j := PathReg(full, addr, f.typeInfo.fields, 0, path[1..], gi, fi + 1, depth + 1);
      k := j + 1;
      assert path == [i] + path[1..];
      DescribesOutside(FieldReg(name, base, f, gi, fi, depth).0[k], name, base, fields, i, path[1..], depth);
    }
  }

  /** Every path is registered, unless the 65535 numbers run out. */
  lemma {:induction false} PathReg(
    name: string, base: nat, fields: seq<FieldInfo>, from: nat, path: Path, gi: nat, fi: nat, depth: nat)
    returns (k: nat)
    requires Leads(fields, path, depth) && from <= path[0] && fi <= MAX_FIELD
    requires FieldRegs(name, base, fields, from, gi, fi, depth).1 < 0xffff
    ensures k < |FieldRegs(name, base, fields, from, gi, fi, depth).0|
    ensures Describes(FieldRegs(name, base, fields, from, gi, fi, depth).0[k], name, base, fields, path, depth)
    decreases MAX_DEPTH + 1 - depth, |fields| + 1 - from
  {
    if Skipped(fields[from]) {
      k := PathReg(name, base, fields, from + 1, path, gi, fi, depth);
    } else {
      var first := FieldReg(name, base, fields[from], gi, fi, depth);
      if path[0] == from {
        k := PathFieldReg(name, base, fields, path, gi, fi, depth);
      } else {
        var j := PathReg(name, base, fields, from + 1, path, gi, first.1, depth);
        k := |first.0| + j;
      }
    }
  }

  /** A global is registered at its relocated address, and then its fields; a pointer has none. */
  lemma GlobalThenFields(g: GlobalVar, gi: nat, delta: nat)
    ensures var rs := GlobalRegs(g, gi, delta);
            && rs[0] == Registration(Global(gi), g.name, g.typeInfo, (g.addr + delta) % 0x1_0000_0000_0000_0000, g.size)
            && rs[1..] == (if g.typeInfo.isPointer then []
                           else FieldRegs(g.name, rs[0].addr, g.typeInfo.fields, 0, gi, 0, 0).0)
  {
  }
}
