/** What a pointer write into a typed region means (`propagate_field_write` in `engine/src/world.rs`):
    which field of the covering type decides, and which type ends up where the value points. */
module PropagatedTypes {
  import opened OrderedMap
  import opened Types
  import opened ShadowTypes

  // ----- the field that decides -----

  /** Field k starts at the offset and is not the synthetic description of a pointee. */
  predicate StartsAt(fields: seq<FieldInfo>, offset: nat, k: nat)
    requires k < |fields|
  {
    fields[k].byteOffset == offset && fields[k].name != "<pointee>"
  }

  /** Field k decides a write of eight bytes at the offset: it is the only field that starts there;
      or, as in a union, it is the first one of eight bytes there; or without one of eight bytes, the
      last of the largest. */
  predicate Decides(fields: seq<FieldInfo>, offset: nat, k: nat)
    requires k < |fields|
  {
    && StartsAt(fields, offset, k)
    && ( || (forall j :: 0 <= j < |fields| && StartsAt(fields, offset, j) ==> j == k)
         || (fields[k].byteSize == 8
             && forall j :: 0 <= j < k && StartsAt(fields, offset, j) ==> fields[j].byteSize != 8)
         || (forall j :: 0 <= j < |fields| && StartsAt(fields, offset, j) ==>
               fields[j].byteSize != 8 && fields[j].byteSize <= fields[k].byteSize
               && (k < j ==> fields[j].byteSize < fields[k].byteSize)))
  }

  predicate Increasing(ks: seq<nat>, n: nat) {
    (forall i :: 0 <= i < |ks| ==> ks[i] < n) && forall i, j :: 0 <= i < j < |ks| ==> ks[i] < ks[j]
  }

  predicate Listed(ks: seq<nat>, k: nat) { exists i :: 0 <= i < |ks| && ks[i] == k }

  /** `ks` are the places of the fields `c` that start at the offset, among the first n, in order. */
  ghost predicate Places(fields: seq<FieldInfo>, offset: nat, n: nat, ks: seq<nat>, c: seq<FieldInfo>)
    requires n <= |fields|
  {
    && Increasing(ks, n) && |c| == |ks|
    && (forall i :: 0 <= i < |ks| ==> c[i] == fields[ks[i]])
    && (forall k: nat {:trigger Listed(ks, k)} :: k < n ==> (StartsAt(fields, offset, k) <==> Listed(ks, k)))
  }

  function PlacesOf(fields: seq<FieldInfo>, offset: nat, n: nat): seq<nat>
    requires n <= |fields|
  {
    if n == 0 then []
    else if StartsAt(fields, offset, n - 1) then PlacesOf(fields, offset, n - 1) + [n - 1]
    else PlacesOf(fields, offset, n - 1)
  }

  lemma {:induction false} PlacesIncrease(fields: seq<FieldInfo>, offset: nat, n: nat)
    requires n <= |fields|
    ensures Increasing(PlacesOf(fields, offset, n), n)
  {
    if n > 0 { PlacesIncrease(fields, offset, n - 1); }
  }

  lemma {:induction false} PlaceListed(fields: seq<FieldInfo>, offset: nat, n: nat, k: nat)
    requires k < n <= |fields|
    ensures Listed(PlacesOf(fields, offset, n), k) <==> StartsAt(fields, offset, k)
  {
    var ks, before := PlacesOf(fields, offset, n), PlacesOf(fields, offset, n - 1);
    if k < n - 1 {
      PlaceListed(fields, offset, n - 1, k);
      if Listed(before, k) { var i :| 0 <= i < |before| && before[i] == k; assert ks[i] == k; }
    } else {
      PlacesIncrease(fields, offset, n - 1);
      if StartsAt(fields, offset, k) { assert ks[|before|] == k; }
    }
  }

  lemma {:induction false} PlacesField(fields: seq<FieldInfo>, offset: nat, n: nat)
    requires n <= |fields|
    ensures var ks, c := PlacesOf(fields, offset, n), FieldsAt(fields, offset, n);
            |c| == |ks| && forall i :: 0 <= i < |ks| ==> ks[i] < n && c[i] == fields[ks[i]]
  {
    if n > 0 { PlacesField(fields, offset, n - 1); }
  }

  lemma {:induction false} PlacesAre(fields: seq<FieldInfo>, offset: nat, n: nat)
    requires n <= |fields|
    ensures Places(fields, offset, n, PlacesOf(fields, offset, n), FieldsAt(fields, offset, n))
  {
    PlacesIncrease(fields, offset, n);
    PlacesField(fields, offset, n);
    forall k: nat | k < n ensures StartsAt(fields, offset, k) <==> Listed(PlacesOf(fields, offset, n), k) {
      PlaceListed(fields, offset, n, k);
    }
  }

  lemma {:induction false} FirstOfSizeIs(c: seq<FieldInfo>, n: nat) returns (i: nat)
    requires n <= |c|
    ensures FirstOfSize(c, 8, n).None? ==> forall j :: 0 <= j < n ==> c[j].byteSize != 8
    ensures FirstOfSize(c, 8, n).Some? ==>
              i < n && FirstOfSize(c, 8, n).value == c[i] && c[i].byteSize == 8 && forall j :: 0 <= j < i ==> c[j].byteSize != 8
  {
    i := 0;
    if n > 0 {
      i := FirstOfSizeIs(c, n - 1);
      if FirstOfSize(c, 8, n - 1).None? { i := n - 1; }
    }
  }

  lemma {:induction false} LastLargestIs(c: seq<FieldInfo>, n: nat) returns (i: nat)
    requires 0 < n <= |c|
    ensures i < n && LastLargest(c, n) == c[i]
    ensures forall j :: 0 <= j < n ==> c[j].byteSize <= c[i].byteSize && (i < j ==> c[j].byteSize < c[i].byteSize)
  {
    if n == 1 {
      i := 0;
    } else {
      i := LastLargestIs(c, n - 1);
      if c[n - 1].byteSize >= c[i].byteSize { i := n - 1; }
    }
  }

  /** The choice, in terms of the places of the candidates. */
  lemma {:induction false} ChosenPlace(fields: seq<FieldInfo>, offset: nat, ks: seq<nat>, c: seq<FieldInfo>, i: nat)
    requires Places(fields, offset, |fields|, ks, c) && i < |ks|
    requires || |c| == 1
             || (c[i].byteSize == 8 && forall j :: 0 <= j < i ==> c[j].byteSize != 8)
             || (forall j :: 0 <= j < |c| ==>
                   c[j].byteSize != 8 && c[j].byteSize <= c[i].byteSize && (i < j ==> c[j].byteSize < c[i].byteSize))
    ensures ks[i] < |fields| && Decides(fields, offset, ks[i]) && c[i] == fields[ks[i]]
  {
    assert Listed(ks, ks[i]);
    forall m: nat | m < |fields| && StartsAt(fields, offset, m)
      ensures exists j :: 0 <= j < |ks| && ks[j] == m && c[j] == fields[m]
    {
      assert Listed(ks, m);
    }
  }

  /** Some field decides exactly when one starts at the offset, and `FieldFor` takes it. */
  lemma {:induction false} FieldForDecides(ti: TypeInfo, offset: nat) returns (k: nat)
    ensures FieldFor(ti, offset).None? ==> forall j :: 0 <= j < |ti.fields| ==> !StartsAt(ti.fields, offset, j)
    ensures FieldFor(ti, offset).Some? ==>
              k < |ti.fields| && Decides(ti.fields, offset, k) && FieldFor(ti, offset).value == ti.fields[k]
  {
    var c := FieldsAt(ti.fields, offset, |ti.fields|);
    var ks := PlacesOf(ti.fields, offset, |ti.fields|);
    PlacesAre(ti.fields, offset, |ti.fields|);
    k := 0;
    if |c| == 1 {
      ChosenPlace(ti.fields, offset, ks, c, 0);
      k := ks[0];
    } else if c == [] {
      forall j: nat | j < |ti.fields| ensures !StartsAt(ti.fields, offset, j) { assert !Listed(ks, j); }
    } else {
      var i := FirstOfSizeIs(c, |c|);
      if FirstOfSize(c, 8, |c|).None? { i := LastLargestIs(c, |c|); }
      ChosenPlace(ti.fields, offset, ks, c, i);
      k := ks[i];
    }
  }

  /** No two fields decide. */
  lemma DecidesUnique(fields: seq<FieldInfo>, offset: nat, j: nat, k: nat)
    requires j < |fields| && k < |fields| && Decides(fields, offset, j) && Decides(fields, offset, k)
    ensures j == k
  {
  }

  // ----- the region a write falls into -----

  /** The projection with the greatest base at or below the address reaches it. */
  predicate Nearest(s: Shadow, base: nat, addr: nat) {
    && base in s.types && base <= addr < base + s.types[base].typeInfo.byteSize
    && forall b :: b in s.types && b <= addr ==> b <= base
  }

  /** The allocation with the greatest base at or below the address reaches it and is registered as
      an array; the end stops at the top of the address space. */
  predicate InArray(s: Shadow, env: Env, base: nat, addr: nat) {
    && base in env.allocs && base in s.indirect && base <= addr < base + env.allocs[base].size
    && addr < 0xffff_ffff_ffff_ffff
    && forall b :: b in env.allocs && b <= addr ==> b <= base
  }

  lemma NearestIs(s: Shadow, base: nat, addr: nat)
    requires Sound(s)
    ensures Nearest(s, base, addr) <==> base in s.types && Predecessor(s.types, addr) == Some(s.types[base])
  {
    var near := Floor(s.types.Keys, addr);
    if base in s.types && base <= addr { assert base in s.types.Keys && near.Some?; }
    if near.Some? { assert near.value in s.types && s.types[near.value].base == near.value; }
    if base in s.types { assert s.types[base].base == base; }
  }

  lemma InArrayIs(s: Shadow, env: Env, base: nat, addr: nat)
    ensures InArray(s, env, base, addr) ==> IndirectType(s, env, addr) == Some(s.indirect[base])
  {
    if InArray(s, env, base, addr) {
      assert base in env.allocs.Keys;
      assert Floor(env.allocs.Keys, addr) == Some(base);
    }
  }

  lemma NotInArray(s: Shadow, env: Env, addr: nat) returns (base: nat)
    ensures IndirectType(s, env, addr).Some? ==> InArray(s, env, base, addr)
  {
    var near := Floor(env.allocs.Keys, addr);
    base := if near.Some? then near.value else 0;
  }

  // ----- what a write does -----

  /** The type name of a pointer field is a star and the name of what it points to; a name without a
      star counts as pointing to the empty name. */
  predicate PointsTo(f: FieldInfo, pointee: string) {
    && f.typeInfo.isPointer
    && (f.typeInfo.name == "*" + pointee
        || (pointee == "" && (f.typeInfo.name == "" || f.typeInfo.name[0] != '*')))
  }

  lemma PointeeIs(f: FieldInfo, pointee: string)
    requires f.typeInfo.isPointer
    ensures PointsTo(f, pointee) <==> Pointee(f.typeInfo.name) == pointee
  {
    var name := f.typeInfo.name;
    if name != "" && name[0] == '*' { assert name == "*" + name[1..]; }
    assert ("*" + pointee)[1..] == pointee;
  }

  /** The field at place k decides and points to a registered type with a size. */
  predicate Gives(fields: seq<FieldInfo>, offset: nat, registry: Registry, k: nat, pointee: string) {
    && k < |fields| && Decides(fields, offset, k) && PointsTo(fields[k], pointee)
    && pointee in registry && registry[pointee].byteSize > 0
  }

  /** A write at `addr` is judged by the projection at `base`: it is the nearest, no newer allocation
      has voided it, and the address is in no registered array. */
  ghost predicate Judges(s: Shadow, env: Env, base: nat, addr: nat) {
    && Nearest(s, base, addr)
    && !(base in env.allocs && s.types[base].stampSeq < env.allocs[base].at)
    && forall b :: !InArray(s, env, b, addr)
  }

  lemma JudgedByField(s: Shadow, env: Env, addr: nat, value: nat, at: nat, base: nat)
    requires Sound(s) && Judges(s, env, base, addr) && value != 0
    ensures base <= addr
    ensures Propagate(s, env, addr, value, 8, at) == PropagateField(s, env, s.types[base], addr, value, at)
    ensures s.types[base].base == base && !Outdated(env, s.types[base])
  {
    var b := NotInArray(s, env, addr);
    NearestIs(s, base, addr);
  }

  /** The one field and pointee that can give a type, read off the chosen field. */
  lemma {:induction false} ChoiceGives(ti: TypeInfo, offset: nat, registry: Registry) returns (k: nat, n: string)
    ensures forall j: nat, m: string :: Gives(ti.fields, offset, registry, j, m) ==> j == k && m == n
    ensures var f := FieldFor(ti, offset);
            && (Gives(ti.fields, offset, registry, k, n)
                <==> f.Some? && f.value.typeInfo.isPointer && n in registry && registry[n].byteSize > 0)
            && (f.Some? ==> k < |ti.fields| && f.value == ti.fields[k] && n == Pointee(f.value.typeInfo.name))
  {
    k := FieldForDecides(ti, offset);
    var f := FieldFor(ti, offset);
    n := if f.Some? then Pointee(f.value.typeInfo.name) else "";
    forall j: nat, m: string | Gives(ti.fields, offset, registry, j, m) ensures j == k && m == n {
      PointeeIs(ti.fields[j], m);
      if f.Some? { DecidesUnique(ti.fields, offset, j, k); }
    }
    if f.Some? && f.value.typeInfo.isPointer { PointeeIs(f.value, n); }
  }

  predicate GivesAt(s: Shadow, registry: Registry, base: nat, addr: nat, k: nat, pointee: string) {
    base in s.types && base <= addr && Gives(s.types[base].typeInfo.fields, addr - base, registry, k, pointee)
  }

  /** What the chosen field does to an untyped value. */
  lemma FieldTypes(s: Shadow, env: Env, p: Projection, addr: nat, value: nat, at: nat)
    requires !Outdated(env, p) && p.base <= addr && value != 0 && value !in s.types
    ensures var r, f := PropagateField(s, env, p, addr, value, at), FieldFor(p.typeInfo, addr - p.base);
            if f.Some? && f.value.typeInfo.isPointer && Pointee(f.value.typeInfo.name) in env.registry
               && env.registry[Pointee(f.value.typeInfo.name)].byteSize > 0
            then r.1 && r.0.types == s.types[value := Projection(value, env.registry[Pointee(f.value.typeInfo.name)], f.value.name, at)]
            else !r.1 && r.0.types == s.types
  {
  }

  /** What a write that is judged does to an untyped value, by the field chosen. */
  lemma {:induction false} JudgedTypes(s: Shadow, env: Env, addr: nat, value: nat, at: nat, base: nat)
    requires Sound(s) && Judges(s, env, base, addr) && value != 0 && value !in s.types
    ensures base <= addr
    ensures var r, f := Propagate(s, env, addr, value, 8, at), FieldFor(s.types[base].typeInfo, addr - base);
            if f.Some? && f.value.typeInfo.isPointer && Pointee(f.value.typeInfo.name) in env.registry
               && env.registry[Pointee(f.value.typeInfo.name)].byteSize > 0
            then r.1 && r.0.types == s.types[value := Projection(value, env.registry[Pointee(f.value.typeInfo.name)], f.value.name, at)]
            else !r.1 && r.0.types == s.types
  {
    JudgedByField(s, env, addr, value, at, base);
    FieldTypes(s, env, s.types[base], addr, value, at);
  }

  /** The one choice that can give the value a type, and what comes of it. */
  lemma {:induction false} FieldWriteChoice(s: Shadow, env: Env, addr: nat, value: nat, at: nat, base: nat) returns (k: nat, n: string)
    requires Sound(s) && Judges(s, env, base, addr) && value != 0 && value !in s.types
    ensures forall j: nat, m: string :: GivesAt(s, env.registry, base, addr, j, m) ==> j == k && m == n
    ensures var r := Propagate(s, env, addr, value, 8, at);
            if GivesAt(s, env.registry, base, addr, k, n)
            then r.1 && r.0.types == s.types[value := Projection(value, env.registry[n], s.types[base].typeInfo.fields[k].name, at)]
            else !r.1 && r.0.types == s.types
  {
    JudgedTypes(s, env, addr, value, at, base);
    k, n := ChoiceGives(s.types[base].typeInfo, addr - base, env.registry);
    assert GivesAt(s, env.registry, base, addr, k, n) <==> Gives(s.types[base].typeInfo.fields, addr - base, env.registry, k, n);
  }

  /** An untyped value written into a typed region becomes typed exactly when the field that decides
      points to a registered type with a size, and then it has that type, under that field's name;
      nothing else of the type map changes. */
  lemma {:induction false} FieldWriteTypes(s: Shadow, env: Env, addr: nat, value: nat, at: nat, base: nat)
    requires Sound(s) && Judges(s, env, base, addr) && value != 0 && value !in s.types
    ensures var r := Propagate(s, env, addr, value, 8, at);
            && (value in r.0.types <==> exists k: nat, n: string :: GivesAt(s, env.registry, base, addr, k, n))
            && (value !in r.0.types ==> r.0.types == s.types)
            && (forall k: nat, n: string :: GivesAt(s, env.registry, base, addr, k, n) ==>
                  r.0.types == s.types[value := Projection(value, env.registry[n], s.types[base].typeInfo.fields[k].name, at)])
            && (r.1 <==> value in r.0.types)
  {
    var k, n := FieldWriteChoice(s, env, addr, value, at, base);
  }

  /** The field at place k decides and points to pointers to a registered type, while the pointer
      type itself is not registered. */
  predicate GivesArray(fields: seq<FieldInfo>, offset: nat, registry: Registry, k: nat, element: string) {
    && k < |fields| && Decides(fields, offset, k) && PointsTo(fields[k], "*" + element)
    && "*" + element !in registry && element in registry
  }

  lemma StarPointee(name: string)
    ensures Pointee("*" + name) == name
    ensures name != "" && name[0] == '*' ==> name == "*" + Pointee(name)
  {
    assert ("*" + name)[1..] == name;
  }

  lemma {:induction false} ChoiceGivesArray(ti: TypeInfo, offset: nat, registry: Registry) returns (k: nat, n: string)
    ensures forall j: nat, m: string :: GivesArray(ti.fields, offset, registry, j, m) ==> j == k && m == n
    ensures var f := FieldFor(ti, offset);
            GivesArray(ti.fields, offset, registry, k, n)
            <==> f.Some? && f.value.typeInfo.isPointer
                 && (var p := Pointee(f.value.typeInfo.name); p !in registry && p != "" && p[0] == '*' && Pointee(p) in registry)
    ensures FieldFor(ti, offset).Some? ==> n == Pointee(Pointee(FieldFor(ti, offset).value.typeInfo.name))
  {
    k := FieldForDecides(ti, offset);
    var f := FieldFor(ti, offset);
    var p := if f.Some? then Pointee(f.value.typeInfo.name) else "";
    n := Pointee(p);
    StarPointee(p);
    forall j: nat, m: string | GivesArray(ti.fields, offset, registry, j, m) ensures j == k && m == n {
      PointeeIs(ti.fields[j], "*" + m);
      StarPointee(m);
      if f.Some? { DecidesUnique(ti.fields, offset, j, k); }
    }
    if f.Some? && f.value.typeInfo.isPointer { PointeeIs(f.value, p); StarPointee(n); }
  }

  predicate GivesArrayAt(s: Shadow, registry: Registry, base: nat, addr: nat, k: nat, element: string) {
    base in s.types && base <= addr && GivesArray(s.types[base].typeInfo.fields, addr - base, registry, k, element)
  }

  lemma FieldRegisters(s: Shadow, env: Env, p: Projection, addr: nat, value: nat, at: nat)
    requires !Outdated(env, p) && p.base <= addr && value != 0
    ensures var r, f := PropagateField(s, env, p, addr, value, at), FieldFor(p.typeInfo, addr - p.base);
            if f.Some? && f.value.typeInfo.isPointer
               && (var n := Pointee(f.value.typeInfo.name);
                   n !in env.registry && n != "" && n[0] == '*' && Pointee(n) in env.registry)
            then r.0 == s.(indirect := s.indirect[value := env.registry[Pointee(Pointee(f.value.typeInfo.name))]],
                           indirectRegistrations := s.indirectRegistrations + 1)
            else r.0.indirect == s.indirect && r.0.indirectRegistrations == s.indirectRegistrations
  {
  }

  /** What a write that is judged does to the arrays, by the field chosen. */
  lemma {:induction false} JudgedRegisters(s: Shadow, env: Env, addr: nat, value: nat, at: nat, base: nat)
    requires Sound(s) && Judges(s, env, base, addr) && value != 0
    ensures base <= addr
    ensures var r, f := Propagate(s, env, addr, value, 8, at), FieldFor(s.types[base].typeInfo, addr - base);
            if f.Some? && f.value.typeInfo.isPointer
               && (var n := Pointee(f.value.typeInfo.name);
                   n !in env.registry && n != "" && n[0] == '*' && Pointee(n) in env.registry)
            then r.0 == s.(indirect := s.indirect[value := env.registry[Pointee(Pointee(f.value.typeInfo.name))]],
                           indirectRegistrations := s.indirectRegistrations + 1)
            else r.0.indirect == s.indirect && r.0.indirectRegistrations == s.indirectRegistrations
  {
    JudgedByField(s, env, addr, value, at, base);
    FieldRegisters(s, env, s.types[base], addr, value, at);
  }

  /** The one choice that can make the value an array, and what comes of it. */
  lemma {:induction false} ArrayWriteChoice(s: Shadow, env: Env, addr: nat, value: nat, at: nat, base: nat) returns (k: nat, n: string)
    requires Sound(s) && Judges(s, env, base, addr) && value != 0
    ensures forall j: nat, m: string :: GivesArrayAt(s, env.registry, base, addr, j, m) ==> j == k && m == n
    ensures var s' := Propagate(s, env, addr, value, 8, at).0;
            if GivesArrayAt(s, env.registry, base, addr, k, n)
            then s' == s.(indirect := s.indirect[value := env.registry[n]], indirectRegistrations := s.indirectRegistrations + 1)
            else s'.indirect == s.indirect && s'.indirectRegistrations == s.indirectRegistrations
  {
    JudgedRegisters(s, env, addr, value, at, base);
    k, n := ChoiceGivesArray(s.types[base].typeInfo, addr - base, env.registry);
    assert GivesArrayAt(s, env.registry, base, addr, k, n)
           <==> GivesArray(s.types[base].typeInfo.fields, addr - base, env.registry, k, n);
  }

  /** A value written into a typed region is registered as an array exactly when the field that
      decides points to pointers to a registered type; the array's element type is that type. */
  lemma {:induction false} FieldWriteRegisters(s: Shadow, env: Env, addr: nat, value: nat, at: nat, base: nat)
    requires Sound(s) && Judges(s, env, base, addr) && value != 0
    ensures var s' := Propagate(s, env, addr, value, 8, at).0;
            && (s'.indirectRegistrations == s.indirectRegistrations
                <==> !exists k: nat, n: string :: GivesArrayAt(s, env.registry, base, addr, k, n))
            && (s'.indirectRegistrations == s.indirectRegistrations ==> s'.indirect == s.indirect)
            && (forall k: nat, n: string :: GivesArrayAt(s, env.registry, base, addr, k, n) ==>
                  s'.types == s.types && s'.indirect == s.indirect[value := env.registry[n]]
                  && s'.indirectRegistrations == s.indirectRegistrations + 1)
  {
    var k, n := ArrayWriteChoice(s, env, addr, value, at, base);
  }

  /** An element type reaches the value: it has a size, and the value has no type, or a different one
      that was stamped no later. */
  predicate Reaches(s: Shadow, ti: TypeInfo, value: nat, at: nat) {
    ti.byteSize > 0 && (value in s.types ==> s.types[value].typeInfo.name != ti.name && s.types[value].stampSeq <= at)
  }

  /** A value written into a registered array becomes an element: an untyped one gets the array's
      type if that has a size, a typed one gives its type up to it unless its stamp is newer. Each
      element typed counts as one indirect stamp, and only those writes report success. */
  lemma ArrayWriteTypes(s: Shadow, env: Env, addr: nat, value: nat, at: nat, base: nat)
    requires InArray(s, env, base, addr) && value != 0
    ensures var r, ti := Propagate(s, env, addr, value, 8, at), s.indirect[base];
            && r.1 == Reaches(s, ti, value, at)
            && r.0.types == (if r.1 then s.types[value := Projection(value, ti, "<indirect>", at)] else s.types)
            && r.0.indirectStamps == s.indirectStamps + (if r.1 then 1 else 0)
            && r.0.indirect == s.indirect && r.0.indirectRegistrations == s.indirectRegistrations
  {
    InArrayIs(s, env, base, addr);
  }

  /** Any other write leaves the map alone: one that is not of eight bytes, one of null, and one that
      nothing judges. */
  lemma OtherWritesIgnored(s: Shadow, env: Env, addr: nat, value: nat, size: nat, at: nat)
    requires Sound(s)
    requires size != 8 || value == 0 || forall b :: !InArray(s, env, b, addr) && !Judges(s, env, b, addr)
    ensures Propagate(s, env, addr, value, size, at) == (s, false)
  {
    if size == 8 && value != 0 {
      var b := NotInArray(s, env, addr);
      assert !InArray(s, env, b, addr);
      if Predecessor(s.types, addr).Some? {
        var base := Predecessor(s.types, addr).value.base;
        assert Floor(s.types.Keys, addr).value == base;
        NearestIs(s, base, addr);
        assert !Judges(s, env, base, addr);
      }
    }
  }
}
