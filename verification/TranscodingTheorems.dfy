/** When encoding followed by decoding gives every value of a type back. */
module TranscodingTheorems {
  import opened Bytes
  import opened Transcoding

  /** Every value of the type survives the round trip. */
  ghost predicate Faithful(ty: Ty) {
    forall v :: HasType(v, ty) ==> Decode(Encode(v, ty), ty) == Ok(v)
  }

  predicate Distinct(names: seq<string>) {
    forall i, j :: 0 <= i < j < |names| ==> names[i] != names[j]
  }

  /** What the Rust compiler demands of derived structs: one distinct name per field. */
  predicate Derivable(ty: Ty)
    decreases ty, 1
  {
    match ty
    case VecTy(e) => Derivable(e)
    case TupleTy(fields) => AllDerivable(fields)
    case OptionTy(t) => Derivable(t)
    case ResultTy(t, e) => Derivable(t) && Derivable(e)
    case StructTy(_, names, fields) => |names| == |fields| && Distinct(names) && AllDerivable(fields)
    case RecordTy(_, fields) => AllDerivable(fields)
    case UntaggedTy(variants) => AllDerivable(variants)
    case _ => true
  }

  predicate AllDerivable(tys: seq<Ty>)
    decreases tys, 0
  {
    forall i :: 0 <= i < |tys| ==> Derivable(tys[i])
  }

  /** The type has a value; an enum without variants has none. */
  predicate Inhabited(ty: Ty)
    decreases ty, 1
  {
    match ty
    case TupleTy(fields) => AllInhabited(fields)
    case ResultTy(t, e) => Inhabited(t) || Inhabited(e)
    case StructTy(_, _, fields) => AllInhabited(fields)
    case RecordTy(_, fields) => AllInhabited(fields)
    case UnitEnumTy(atoms) => atoms != []
    case UntaggedTy(variants) => exists i :: 0 <= i < |variants| && Inhabited(variants[i])
    case _ => true
  }

  predicate AllInhabited(tys: seq<Ty>)
    decreases tys, 0
  {
    forall i :: 0 <= i < |tys| ==> Inhabited(tys[i])
  }

  /** The conditions for a round trip: the payload of an option rejects `nil`, unit variants have distinct atoms,
      no variant of an untagged enum accepts what a later one encodes, and a struct field called like the module
      key, which overwrites it, only ever holds the module's own atom. */
  ghost predicate Unambiguous(ty: Ty)
    decreases ty, 1
  {
    match ty
    case VecTy(e) => Unambiguous(e)
    case TupleTy(fields) => AllInhabited(fields) ==> AllUnambiguous(fields)
    case OptionTy(t) => Unambiguous(t) && Decode(AtomTerm("nil"), t) == Err
    case ResultTy(t, e) => Unambiguous(t) && Unambiguous(e)
    case StructTy(name, names, fields) =>
      AllInhabited(fields) ==> AllUnambiguous(fields) && ModuleKept(name, names, fields)
    case RecordTy(_, fields) => AllInhabited(fields) ==> AllUnambiguous(fields)
    case UnitEnumTy(atoms) => Distinct(atoms)
    case UntaggedTy(variants) => AllUnambiguous(variants) && NoEarlierAccepts(variants)
    case _ => true
  }

  ghost predicate ModuleKept(name: string, names: seq<string>, fields: seq<Ty>) {
    forall i, v :: 0 <= i < |names| && i < |fields| && names[i] == STRUCT_KEY && HasType(v, fields[i]) ==>
      Encode(v, fields[i]) == AtomTerm(ModuleAtom(name))
  }

  ghost predicate AllUnambiguous(tys: seq<Ty>)
    decreases tys, 0
  {
    forall i :: 0 <= i < |tys| ==> Unambiguous(tys[i])
  }

  ghost predicate NoEarlierAccepts(variants: seq<Ty>) {
    forall i, j, v :: 0 <= i < j < |variants| && HasType(v, variants[j]) ==>
      Decode(Encode(v, variants[j]), variants[i]) == Err
  }

  // ---- The terms themselves ----

  /** What is left of a list after `k` cells. */
  function After(t: Term, k: nat): Term
    decreases k
  {
    if k == 0 || !t.Cell? then t else After(t.tail, k - 1)
  }

  lemma {:induction false} CellsOf(terms: seq<Term>, k: nat)
    requires k <= |terms|
    ensures if k == |terms| then After(ToList(terms), k) == EmptyList
            else After(ToList(terms), k).Cell? && After(ToList(terms), k).head == terms[k]
    decreases k
  {
    if k == 0 {
    } else {
      CellsOf(terms[1..], k - 1);
    }
  }

  lemma {:induction false} PutAllKeys(entries: map<string, Term>, names: seq<string>, terms: seq<Term>, key: string)
    requires |names| == |terms|
    ensures key in PutAll(entries, names, terms) <==> key in entries || key in names
    decreases |names|
  {
    if names == [] {
    } else {
      PutAllKeys(entries[names[0] := terms[0]], names[1..], terms[1..], key);
    }
  }

  /** The term is the one that stands for the value on the Erlang side. */
  ghost predicate StandsFor(t: Term, v: Val, ty: Ty)
    requires HasType(v, ty)
  {
    match ty
    case IntTy(_) => t == IntTerm(v.n)
    case BoolTy => t == AtomTerm(if v.b then "true" else "false")
    case StringTy => t == BinaryTerm(v.utf8)
    case VecTy(e) =>
      && After(t, |v.elements|) == EmptyList
      && forall k :: 0 <= k < |v.elements| ==>
           After(t, k).Cell? && After(t, k).head == Encode(v.elements[k], e)
    case TupleTy(fields) =>
      t.TupleTerm? && EachStandsFor(t.elements, v.elements, fields)
    case OptionTy(inner) => t == if v.NoneVal? then AtomTerm("nil") else Encode(v.value, inner)
    case ResultTy(ok, err) =>
      t == TupleTerm(if v.OkVal? then [AtomTerm("ok"), Encode(v.value, ok)]
                     else [AtomTerm("error"), Encode(v.value, err)])
    case StructTy(name, names, fields) =>
      |names| == |fields| && Distinct(names) ==>
        && t.MapTerm? && (forall key :: key in t.entries <==> key == "__struct__" || key in names)
        && EachStandsFor(seq(|names|, k requires 0 <= k < |names| => t.entries[names[k]]), v.elements, fields)
        && ("__struct__" !in names ==> t.entries["__struct__"] == AtomTerm("Elixir." + name))
    case RecordTy(tag, fields) =>
      && t.TupleTerm? && t.elements != [] && t.elements[0] == AtomTerm(tag)
      && EachStandsFor(t.elements[1..], v.elements, fields)
    case UnitEnumTy(atoms) => t == AtomTerm(atoms[v.index])
    case UntaggedTy(variants) => t == Encode(v.value, variants[v.index])
  }

  predicate EachStandsFor(ts: seq<Term>, vs: seq<Val>, tys: seq<Ty>)
    requires HaveTypes(vs, tys)
  {
    |ts| == |tys| && forall k :: 0 <= k < |tys| ==> ts[k] == Encode(vs[k], tys[k])
  }

  /** Every encoder writes the term that stands for its value. */
  lemma EncodeStandsFor(v: Val, ty: Ty)
    requires HasType(v, ty)
    ensures StandsFor(Encode(v, ty), v, ty)
  {
    match ty
    case VecTy(e) =>
      var terms := EncodeEach(v.elements, e);
      CellsOf(terms, |terms|);
      forall k | 0 <= k < |terms|
        ensures After(ToList(terms), k).Cell? && After(ToList(terms), k).head == Encode(v.elements[k], e)
      {
        CellsOf(terms, k);
      }
    case StructTy(name, names, fields) =>
      if |names| == |fields| && Distinct(names) { StructStandsFor(name, names, fields, v.elements); }
    case _ =>
  }

  lemma StructStandsFor(name: string, names: seq<string>, fields: seq<Ty>, vs: seq<Val>)
    requires |names| == |fields| && Distinct(names) && HaveTypes(vs, fields)
    ensures StandsFor(Encode(SeqVal(vs), StructTy(name, names, fields)), SeqVal(vs), StructTy(name, names, fields))
  {
    var terms := EncodeAll(vs, fields);
    var start := map[STRUCT_KEY := AtomTerm(ModuleAtom(name))];
    forall key ensures key in PutAll(start, names, terms) <==> key == STRUCT_KEY || key in names {
      PutAllKeys(start, names, terms, key);
    }
    forall k | 0 <= k < |names| ensures PutAll(start, names, terms)[names[k]] == terms[k] {
      PutAllPuts(start, names, terms, k);
    }
    if STRUCT_KEY !in names { PutAllKeeps(start, names, terms, STRUCT_KEY); }
  }

  /** Which terms the integer and boolean decoders take for which values: integers of the type read, cut down to the
      low bits of the type asked for; and anything at all, `false` and `nil` being false. */
  lemma LeavesDecodeExactly(t: Term, k: IntKind, n: int)
    ensures Decode(t, IntTy(k)) == Ok(IntVal(n)) <==>
            && t.IntTerm? && InRange(k, n) && (t.n - n) % Bits(k) == 0
            && if Bits(k) == U64 then InRange(k, t.n)
               else if Signed(k) then -0x8000_0000 <= t.n < 0x8000_0000 else 0 <= t.n < U32
    ensures !Decode(t, IntTy(k)).Panic? && (!t.IntTerm? ==> Decode(t, IntTy(k)) == Err)
    ensures Decode(t, BoolTy) == Ok(BoolVal(t != AtomTerm("false") && t != AtomTerm("nil")))
  {
    if t.IntTerm? { CastExactly(k, t.n, n); }
  }

  lemma CastExactly(k: IntKind, x: int, n: int)
    ensures Cast(k, x) == n <==> InRange(k, n) && (x - n) % Bits(k) == 0
  {
    var b, l := Bits(k), Least(k);
    var q := (x - l) / b;
    assert x - l == q * b + (Cast(k, x) - l);
    if Cast(k, x) == n {
      RemainderOf(x - n, q, b, 0);
    } else if (x - n) % b == 0 && InRange(k, n) {
      var p := (x - n) / b;
      RemainderOf(x - l, p, b, n - l);
    }
  }

  lemma RemainderOf(x: int, q: int, b: nat, r: nat)
    requires b == 0x100 || b == 0x1_0000 || b == U32 || b == U64
    requires r < b && x == q * b + r
    ensures x % b == r
  {}

  // ---- Decoding what was encoded, shape by shape ----

  ghost predicate AllFaithful(tys: seq<Ty>) {
    forall i :: 0 <= i < |tys| ==> Faithful(tys[i])
  }

  lemma {:induction false} ListDecodes(ts: seq<Term>, e: Ty, vs: seq<Val>)
    requires |ts| == |vs| && forall i :: 0 <= i < |vs| ==> Decode(ts[i], e) == Ok(vs[i])
    ensures DecodeList(ToList(ts), e) == AllOk(vs)
    decreases |vs|
  {
    if vs == [] {
    } else {
      ListDecodes(ts[1..], e, vs[1..]);
      assert vs == [vs[0]] + vs[1..];
    }
  }

  lemma {:induction false} AllDecode(ts: seq<Term>, tys: seq<Ty>, vs: seq<Val>)
    requires |ts| == |tys| == |vs| && forall i :: 0 <= i < |vs| ==> Decode(ts[i], tys[i]) == Ok(vs[i])
    ensures DecodeAll(ts, tys) == AllOk(vs)
    decreases |vs|
  {
    if vs == [] {
    } else {
      AllDecode(ts[1..], tys[1..], vs[1..]);
      assert vs == [vs[0]] + vs[1..];
    }
  }

  /** Puts under other names leave an entry alone. */
  lemma {:induction false} PutAllKeeps(entries: map<string, Term>, names: seq<string>, terms: seq<Term>, key: string)
    requires |names| == |terms| && key in entries && key !in names
    ensures var r := PutAll(entries, names, terms); key in r && r[key] == entries[key]
    decreases |names|
  {
    if names == [] {
    } else {
      PutAllKeeps(entries[names[0] := terms[0]], names[1..], terms[1..], key);
    }
  }

  lemma {:induction false} PutAllPuts(entries: map<string, Term>, names: seq<string>, terms: seq<Term>, i: nat)
    requires |names| == |terms| && i < |names| && Distinct(names)
    ensures var r := PutAll(entries, names, terms); names[i] in r && r[names[i]] == terms[i]
    decreases |names|
  {
    var next := entries[names[0] := terms[0]];
    if i == 0 {
      PutAllKeeps(next, names[1..], terms[1..], names[0]);
    } else {
      PutAllPuts(next, names[1..], terms[1..], i - 1);
    }
  }

  /** Fields that are all present under their names are decoded like a tuple of them. */
  lemma {:induction false} FieldsAreAll(entries: map<string, Term>, names: seq<string>, terms: seq<Term>, tys: seq<Ty>)
    requires |names| == |terms| == |tys|
    requires forall i :: 0 <= i < |names| ==> names[i] in entries && entries[names[i]] == terms[i]
    ensures DecodeFields(entries, names, tys) == DecodeAll(terms, tys)
    decreases |names|
  {
    if names == [] {
    } else {
      FieldsAreAll(entries, names[1..], terms[1..], tys[1..]);
    }
  }

  /** The map that the struct encoder builds still names the module. */
  predicate NamesModule(name: string, names: seq<string>, terms: seq<Term>) {
    forall i :: 0 <= i < |names| && i < |terms| && names[i] == STRUCT_KEY ==> terms[i] == AtomTerm(ModuleAtom(name))
  }

  /** A derived struct decodes to what its fields, taken as a tuple, decode to, exactly when no field has taken the
      module's place. */
  lemma StructIsTuple(name: string, names: seq<string>, fields: seq<Ty>, vs: seq<Val>)
    requires |names| == |fields| && Distinct(names) && HaveTypes(vs, fields)
    ensures var ty := StructTy(name, names, fields);
            Decode(Encode(SeqVal(vs), ty), ty) ==
            if NamesModule(name, names, EncodeAll(vs, fields)) then AsSeq(DecodeAll(EncodeAll(vs, fields), fields))
            else Err
  {
    var terms := EncodeAll(vs, fields);
    var start := map[STRUCT_KEY := AtomTerm(ModuleAtom(name))];
    forall i | 0 <= i < |names|
      ensures names[i] in PutAll(start, names, terms) && PutAll(start, names, terms)[names[i]] == terms[i]
    {
      PutAllPuts(start, names, terms, i);
    }
    if STRUCT_KEY !in names { PutAllKeeps(start, names, terms, STRUCT_KEY); }
    FieldsAreAll(PutAll(start, names, terms), names, terms, fields);
  }

  lemma RecordIsTuple(tag: string, fields: seq<Ty>, vs: seq<Val>)
    requires HaveTypes(vs, fields)
    ensures var ty := RecordTy(tag, fields);
            Decode(Encode(SeqVal(vs), ty), ty) == AsSeq(DecodeAll(EncodeAll(vs, fields), fields))
  {}

  lemma {:induction false} FirstAtomFinds(atom: string, atoms: seq<string>, i: nat, index: nat)
    requires i <= index < |atoms| && atoms[index] == atom
    ensures FirstAtom(atom, atoms, i) == Ok(UnitVal(index)) <==> forall j :: i <= j < index ==> atoms[j] != atom
    decreases |atoms| - i
  {
    if i >= index || atoms[i] == atom {
    } else {
      FirstAtomFinds(atom, atoms, i + 1, index);
    }
  }

  /** An untagged value comes back exactly when every earlier variant fails on its encoding and its own does not. */
  lemma {:induction false} FirstVariantFinds(t: Term, variants: seq<Ty>, i: nat, index: nat, v: Val)
    requires i <= index < |variants|
    ensures FirstVariant(t, variants, i) == Ok(VariantVal(index, v)) <==>
            (forall j :: i <= j < index ==> Decode(t, variants[j]) == Err) && Decode(t, variants[index]) == Ok(v)
    decreases |variants| - i
  {
    if !Decode(t, variants[i]).Err? {
    } else {
      if i < index {
        FirstVariantFinds(t, variants, i + 1, index, v);
      } else {
        LaterVariants(t, variants, i + 1, index, v);
      }
    }
  }

  lemma {:induction false} LaterVariants(t: Term, variants: seq<Ty>, i: nat, index: nat, v: Val)
    requires index < i <= |variants|
    ensures FirstVariant(t, variants, i) != Ok(VariantVal(index, v))
    decreases |variants| - i
  {
    if i >= |variants| {
    } else {
      LaterVariants(t, variants, i + 1, index, v);
    }
  }

  lemma {:induction false} TypedIsInhabited(v: Val, ty: Ty)
    requires HasType(v, ty)
    ensures Inhabited(ty)
    decreases ty, 1
  {
    match ty
    case TupleTy(fields) => TypedAreInhabited(v.elements, fields);
    case ResultTy(t, e) => TypedIsInhabited(v.value, if v.OkVal? then t else e);
    case StructTy(_, _, fields) => TypedAreInhabited(v.elements, fields);
    case RecordTy(_, fields) => TypedAreInhabited(v.elements, fields);
    case UntaggedTy(variants) => TypedIsInhabited(v.value, variants[v.index]);
    case _ =>
  }

  lemma {:induction false} TypedAreInhabited(vs: seq<Val>, tys: seq<Ty>)
    requires HaveTypes(vs, tys)
    ensures AllInhabited(tys)
    decreases tys, 0
  {
    forall i | 0 <= i < |tys| ensures Inhabited(tys[i]) { TypedIsInhabited(vs[i], tys[i]); }
  }

  // ---- The conditions suffice ----

  lemma {:induction false} RoundTrip(v: Val, ty: Ty)
    requires Derivable(ty) && Unambiguous(ty) && HasType(v, ty)
    ensures Decode(Encode(v, ty), ty) == Ok(v)
    decreases ty, 1
  {
    match ty
    case IntTy(k) => CastInRange(k, v.n);
    case BoolTy =>
    case StringTy =>
    case VecTy(e) =>
      forall i | 0 <= i < |v.elements| ensures Decode(Encode(v.elements[i], e), e) == Ok(v.elements[i]) {
        RoundTrip(v.elements[i], e);
      }
      ListDecodes(EncodeEach(v.elements, e), e, v.elements);
    case TupleTy(fields) =>
      TypedIsInhabited(v, ty);
      AllComeBack(v.elements, fields);
    case OptionTy(t) =>
      if v.SomeVal? { RoundTrip(v.value, t); }
    case ResultTy(t, e) =>
      if v.OkVal? { RoundTrip(v.value, t); } else { RoundTrip(v.value, e); }
    case StructTy(name, names, fields) =>
      TypedIsInhabited(v, ty);
      StructIsTuple(name, names, fields, v.elements);
      AllComeBack(v.elements, fields);
    case RecordTy(tag, fields) =>
      TypedIsInhabited(v, ty);
      RecordIsTuple(tag, fields, v.elements);
      AllComeBack(v.elements, fields);
    case UnitEnumTy(atoms) =>
      FirstAtomFinds(atoms[v.index], atoms, 0, v.index);
    case UntaggedTy(variants) =>
      RoundTrip(v.value, variants[v.index]);
      FirstVariantFinds(Encode(v, ty), variants, 0, v.index, v.value);
  }

  lemma {:induction false} AllComeBack(vs: seq<Val>, tys: seq<Ty>)
    requires AllDerivable(tys) && AllUnambiguous(tys) && HaveTypes(vs, tys)
    ensures DecodeAll(EncodeAll(vs, tys), tys) == AllOk(vs)
    decreases tys, 0
  {
    forall i | 0 <= i < |vs| ensures Decode(Encode(vs[i], tys[i]), tys[i]) == Ok(vs[i]) {
      RoundTrip(vs[i], tys[i]);
    }
    AllDecode(EncodeAll(vs, tys), tys, vs);
  }

  // ---- The conditions are needed ----

  /** Some value of an inhabited type. */
  ghost function Sample(ty: Ty): (v: Val)
    requires Inhabited(ty)
    ensures HasType(v, ty)
    decreases ty, 1
  {
    match ty
    case IntTy(_) => IntVal(0)
    case BoolTy => BoolVal(true)
    case StringTy => StringVal([])
    case VecTy(_) => SeqVal([])
    case TupleTy(fields) => SeqVal(Samples(fields))
    case OptionTy(_) => NoneVal
    case ResultTy(t, e) => if Inhabited(t) then OkVal(Sample(t)) else ErrVal(Sample(e))
    case StructTy(_, _, fields) => SeqVal(Samples(fields))
    case RecordTy(_, fields) => SeqVal(Samples(fields))
    case UnitEnumTy(_) => UnitVal(0)
    case UntaggedTy(variants) =>
      var i :| 0 <= i < |variants| && Inhabited(variants[i]);
      VariantVal(i, Sample(variants[i]))
  }

  ghost function Samples(tys: seq<Ty>): (vs: seq<Val>)
    requires AllInhabited(tys)
    ensures HaveTypes(vs, tys)
    decreases tys, 0
  {
    if tys == [] then [] else [Sample(tys[0])] + Samples(tys[1..])
  }

  lemma {:induction false} AllDecodeTells(ts: seq<Term>, tys: seq<Ty>, vs: seq<Val>, i: nat)
    requires |ts| == |tys| == |vs| && i < |ts| && DecodeAll(ts, tys) == AllOk(vs)
    ensures Decode(ts[i], tys[i]) == Ok(vs[i])
    decreases |ts|
  {
    var first, rest := Decode(ts[0], tys[0]), DecodeAll(ts[1..], tys[1..]);
    assert vs == [first.value] + rest.values;
    assert vs[1..] == rest.values;
    if i == 0 {
    } else {
      AllDecodeTells(ts[1..], tys[1..], vs[1..], i - 1);
    }
  }

  /** If tuples of the types come back, each type is faithful. */
  lemma TupleTells(tys: seq<Ty>)
    requires AllInhabited(tys)
    requires forall vs :: HaveTypes(vs, tys) ==> DecodeAll(EncodeAll(vs, tys), tys) == AllOk(vs)
    ensures AllFaithful(tys)
  {
    forall i, v | 0 <= i < |tys| && HasType(v, tys[i]) ensures Decode(Encode(v, tys[i]), tys[i]) == Ok(v) {
      var vs := Samples(tys)[i := v];
      assert HaveTypes(vs, tys);
      AllDecodeTells(EncodeAll(vs, tys), tys, vs, i);
    }
  }

  lemma AsSeqTells(d: DecodedAll, vs: seq<Val>)
    ensures AsSeq(d) == Ok(SeqVal(vs)) <==> d == AllOk(vs)
  {}

  lemma ProductTells(ty: Ty, fields: seq<Ty>)
    requires Derivable(ty) && Faithful(ty)
    requires ty.TupleTy? || ty.StructTy? || ty.RecordTy?
    requires fields == ty.fields && AllInhabited(fields)
    ensures AllFaithful(fields)
  {
    forall vs | HaveTypes(vs, fields) ensures DecodeAll(EncodeAll(vs, fields), fields) == AllOk(vs) {
      assert HasType(SeqVal(vs), ty);
      if ty.StructTy? { StructIsTuple(ty.name, ty.names, fields, vs); }
      if ty.RecordTy? { RecordIsTuple(ty.tag, fields, vs); }
      AsSeqTells(DecodeAll(EncodeAll(vs, fields), fields), vs);
    }
    TupleTells(fields);
  }

  lemma ModuleTells(name: string, names: seq<string>, fields: seq<Ty>)
    requires |names| == |fields| && Distinct(names) && AllInhabited(fields)
    requires Faithful(StructTy(name, names, fields))
    ensures ModuleKept(name, names, fields)
  {
    var ty := StructTy(name, names, fields);
    forall i, v | 0 <= i < |names| && names[i] == STRUCT_KEY && HasType(v, fields[i])
      ensures Encode(v, fields[i]) == AtomTerm(ModuleAtom(name))
    {
      var vs := Samples(fields)[i := v];
      assert HaveTypes(vs, fields) && HasType(SeqVal(vs), ty);
      StructIsTuple(name, names, fields, vs);
      assert Decode(Encode(SeqVal(vs), ty), ty) == Ok(SeqVal(vs));
    }
  }

  lemma VecTells(e: Ty)
    requires Faithful(VecTy(e))
    ensures Faithful(e)
  {
    forall v | HasType(v, e) ensures Decode(Encode(v, e), e) == Ok(v) {
      var vs := [v];
      assert HasType(SeqVal(vs), VecTy(e));
      assert EncodeEach(vs, e)[1..] == [];
      assert Decode(Encode(SeqVal(vs), VecTy(e)), VecTy(e)) == Ok(SeqVal(vs));
      assert ToList(EncodeEach(vs, e)) == Cell(Encode(v, e), EmptyList);
    }
  }

  lemma OptionTells(t: Ty)
    requires Faithful(OptionTy(t))
    ensures Faithful(t) && Decode(AtomTerm("nil"), t) == Err
  {
    var ty := OptionTy(t);
    assert HasType(NoneVal, ty);
    assert Decode(Encode(NoneVal, ty), ty) == Ok(NoneVal);
    forall v | HasType(v, t) ensures Decode(Encode(v, t), t) == Ok(v) {
      assert HasType(SomeVal(v), ty);
      assert Decode(Encode(SomeVal(v), ty), ty) == Ok(SomeVal(v));
    }
  }

  lemma ResultTells(t: Ty, e: Ty)
    requires Faithful(ResultTy(t, e))
    ensures Faithful(t) && Faithful(e)
  {
    var ty := ResultTy(t, e);
    forall v | HasType(v, t) ensures Decode(Encode(v, t), t) == Ok(v) {
      assert HasType(OkVal(v), ty);
      assert Decode(Encode(OkVal(v), ty), ty) == Ok(OkVal(v));
    }
    forall v | HasType(v, e) ensures Decode(Encode(v, e), e) == Ok(v) {
      assert HasType(ErrVal(v), ty);
      assert Decode(Encode(ErrVal(v), ty), ty) == Ok(ErrVal(v));
    }
  }

  lemma UnitEnumTells(atoms: seq<string>)
    requires Faithful(UnitEnumTy(atoms))
    ensures Distinct(atoms)
  {
    var ty := UnitEnumTy(atoms);
    forall i, j | 0 <= i < j < |atoms| ensures atoms[i] != atoms[j] {
      assert HasType(UnitVal(j), ty);
      assert Decode(Encode(UnitVal(j), ty), ty) == Ok(UnitVal(j));
      FirstAtomFinds(atoms[j], atoms, 0, j);
    }
  }

  lemma UntaggedTells(variants: seq<Ty>)
    requires Faithful(UntaggedTy(variants))
    ensures AllFaithful(variants) && NoEarlierAccepts(variants)
  {
    var ty := UntaggedTy(variants);
    forall j, v | 0 <= j < |variants| && HasType(v, variants[j])
      ensures Decode(Encode(v, variants[j]), variants[j]) == Ok(v)
      ensures forall i :: 0 <= i < j ==> Decode(Encode(v, variants[j]), variants[i]) == Err
    {
      assert HasType(VariantVal(j, v), ty);
      assert Decode(Encode(VariantVal(j, v), ty), ty) == Ok(VariantVal(j, v));
      FirstVariantFinds(Encode(v, variants[j]), variants, 0, j, v);
    }
  }

  lemma {:induction false} FaithfulIsUnambiguous(ty: Ty)
    requires Derivable(ty) && Faithful(ty)
    ensures Unambiguous(ty)
    decreases ty, 1
  {
    match ty
    case VecTy(e) =>
      VecTells(e);
      FaithfulIsUnambiguous(e);
    case OptionTy(t) =>
      OptionTells(t);
      FaithfulIsUnambiguous(t);
    case ResultTy(t, e) =>
      ResultTells(t, e);
      FaithfulIsUnambiguous(t);
      FaithfulIsUnambiguous(e);
    case TupleTy(fields) => FieldsAreUnambiguous(ty, fields);
    case StructTy(name, names, fields) =>
      FieldsAreUnambiguous(ty, fields);
      if AllInhabited(fields) { ModuleTells(name, names, fields); }
    case RecordTy(_, fields) => FieldsAreUnambiguous(ty, fields);
    case UnitEnumTy(atoms) => UnitEnumTells(atoms);
    case UntaggedTy(variants) =>
      UntaggedTells(variants);
      AllAreUnambiguous(variants);
    case _ =>
  }

  lemma {:induction false} FieldsAreUnambiguous(ty: Ty, fields: seq<Ty>)
    requires Derivable(ty) && Faithful(ty)
    requires ty.TupleTy? || ty.StructTy? || ty.RecordTy?
    requires fields == ty.fields
    ensures AllInhabited(fields) ==> AllUnambiguous(fields)
    decreases ty, 0
  {
    if AllInhabited(fields) {
      ProductTells(ty, fields);
      AllAreUnambiguous(fields);
    }
  }

  lemma {:induction false} AllAreUnambiguous(tys: seq<Ty>)
    requires AllDerivable(tys) && AllFaithful(tys)
    ensures AllUnambiguous(tys)
    decreases tys, 0
  {
    forall i | 0 <= i < |tys| ensures Unambiguous(tys[i]) { FaithfulIsUnambiguous(tys[i]); }
  }

  /** Decoding inverts encoding on every value of a type exactly when, throughout the type, options hold payloads
      that reject `nil`, unit variants have distinct atoms, untagged variants do not shadow later ones and no
      struct field takes the place of the module. */
  lemma FaithfulExactly(ty: Ty)
    requires Derivable(ty)
    ensures Faithful(ty) <==> Unambiguous(ty)
  {
    if Faithful(ty) { FaithfulIsUnambiguous(ty); }
    if Unambiguous(ty) {
      forall v | HasType(v, ty) ensures Decode(Encode(v, ty), ty) == Ok(v) { RoundTrip(v, ty); }
    }
  }

  /** An option of a boolean and an option of an option are among the types that do not come back. */
  lemma BooleanAndNestedOptionsAreLost(t: Ty)
    requires Derivable(t)
    ensures !Faithful(OptionTy(BoolTy)) && !Faithful(OptionTy(OptionTy(t)))
  {
    FaithfulExactly(OptionTy(BoolTy));
    FaithfulExactly(OptionTy(OptionTy(t)));
    assert Decode(AtomTerm("nil"), OptionTy(t)).Ok? || Decode(AtomTerm("nil"), t).Panic?;
    NilNeverPanics(t);
  }

  lemma {:induction false} NilNeverPanics(ty: Ty)
    ensures !Decode(AtomTerm("nil"), ty).Panic?
    decreases ty
  {
    match ty
    case OptionTy(t) => NilNeverPanics(t);
    case UnitEnumTy(atoms) => AtomsNeverPanic(atoms, 0);
    case UntaggedTy(variants) => VariantsNeverPanic(variants, 0);
    case _ =>
  }

  lemma {:induction false} AtomsNeverPanic(atoms: seq<string>, i: nat)
    requires i <= |atoms|
    ensures !FirstAtom("nil", atoms, i).Panic?
    decreases |atoms| - i
  {
    if i >= |atoms| {
    } else {
      AtomsNeverPanic(atoms, i + 1);
    }
  }

  lemma {:induction false} VariantsNeverPanic(variants: seq<Ty>, i: nat)
    requires i <= |variants|
    ensures !FirstVariant(AtomTerm("nil"), variants, i).Panic?
    decreases variants, |variants| - i
  {
    if i >= |variants| {
    } else {
      NilNeverPanics(variants[i]);
      VariantsNeverPanic(variants, i + 1);
    }
  }
}
