/** Rustler's encoders and decoders between Rust values and Erlang terms, over a universe of types: integers,
    booleans, strings, vectors, tuples, options, results and the four derived shapes. */
module Transcoding {
  import opened Bytes

  // ---- Types, values and terms ----

  datatype IntKind = Int8 | UInt8 | Int16 | UInt16 | Int32 | UInt32 | Int64 | UInt64 | IntSize | UIntSize

  datatype Ty =
    | IntTy(kind: IntKind)
    | BoolTy
    | StringTy
    | VecTy(element: Ty)
    | TupleTy(fields: seq<Ty>)
    | OptionTy(inner: Ty)
    | ResultTy(ok: Ty, err: Ty)
    | StructTy(name: string, names: seq<string>, fields: seq<Ty>)
    | RecordTy(tag: string, fields: seq<Ty>)
    | UnitEnumTy(atoms: seq<string>)
    | UntaggedTy(variants: seq<Ty>)

  datatype Val =
    | IntVal(n: int)
    | BoolVal(b: bool)
    | StringVal(utf8: bytes)
    | SeqVal(elements: seq<Val>)
    | NoneVal
    | SomeVal(value: Val)
    | OkVal(value: Val)
    | ErrVal(value: Val)
    | UnitVal(index: nat)
    | VariantVal(index: nat, value: Val)

  /** Lists are cons cells, so that improper lists exist; map keys are atoms. */
  datatype Term =
    | IntTerm(n: int)
    | AtomTerm(atom: string)
    | BinaryTerm(b: bytes)
    | EmptyList
    | Cell(head: Term, tail: Term)
    | TupleTerm(elements: seq<Term>)
    | MapTerm(entries: map<string, Term>)

  const STRUCT_KEY: string := "__struct__"

  // ---- Integers (`primitive.rs`) ----

  function Bits(k: IntKind): nat {
    match k
    case Int8 => 0x100 case UInt8 => 0x100
    case Int16 => 0x1_0000 case UInt16 => 0x1_0000
    case Int32 => U32 case UInt32 => U32
    case _ => U64
  }

  predicate Signed(k: IntKind) {
    k.Int8? || k.Int16? || k.Int32? || k.Int64? || k.IntSize?
  }

  function Least(k: IntKind): int {
    if Signed(k) then -(Bits(k) / 2) else 0
  }

  predicate InRange(k: IntKind, n: int) {
    Least(k) <= n < Least(k) + Bits(k)
  }

  /** The type the term is read as before it is cast. */
  function NifKind(k: IntKind): IntKind {
    match k
    case Int8 => Int32 case Int16 => Int32 case Int32 => Int32
    case UInt8 => UInt32 case UInt16 => UInt32 case UInt32 => UInt32
    case Int64 => Int64 case IntSize => Int64
    case UInt64 => UInt64 case UIntSize => UInt64
  }

  /** `res as $dec_type`: keeps the low bits. */
  function Cast(k: IntKind, n: int): int {
    (n - Least(k)) % Bits(k) + Least(k)
  }

  lemma CastInRange(k: IntKind, n: int)
    requires InRange(k, n)
    ensures Cast(k, n) == n && InRange(NifKind(k), n)
  {}

  /** A byte decoder accepts integers far outside its range. */
  lemma NarrowingAcceptsMore()
    ensures Decode(IntTerm(300), IntTy(UInt8)) == Ok(IntVal(44))
  {}

  // ---- Strings ----

  predicate Continues(b: bytes, i: nat) {
    i < |b| && 0x80 <= b[i] < 0xC0
  }

  /** Well-formed UTF-8: no overlong forms, no surrogates, nothing above U+10FFFF. */
  predicate IsUtf8(b: bytes) {
    b == [] ||
    if b[0] < 0x80 then IsUtf8(b[1..])
    else if 0xC2 <= b[0] < 0xE0 then Continues(b, 1) && IsUtf8(b[2..])
    else if 0xE0 <= b[0] < 0xF0 then
      && Continues(b, 1) && Continues(b, 2)
      && (b[0] == 0xE0 ==> b[1] >= 0xA0) && (b[0] == 0xED ==> b[1] < 0xA0) && IsUtf8(b[3..])
    else
      && 0xF0 <= b[0] < 0xF5 && Continues(b, 1) && Continues(b, 2) && Continues(b, 3)
      && (b[0] == 0xF0 ==> b[1] >= 0x90) && (b[0] == 0xF4 ==> b[1] < 0x90) && IsUtf8(b[4..])
  }

  // ---- Typing ----

  predicate HasType(v: Val, ty: Ty)
    decreases ty, 1
  {
    match ty
    case IntTy(k) => v.IntVal? && InRange(k, v.n)
    case BoolTy => v.BoolVal?
    case StringTy => v.StringVal? && IsUtf8(v.utf8)
    case VecTy(e) => v.SeqVal? && forall i :: 0 <= i < |v.elements| ==> HasType(v.elements[i], e)
    case TupleTy(fields) => v.SeqVal? && HaveTypes(v.elements, fields)
    case OptionTy(t) => v.NoneVal? || (v.SomeVal? && HasType(v.value, t))
    case ResultTy(t, e) => (v.OkVal? && HasType(v.value, t)) || (v.ErrVal? && HasType(v.value, e))
    case StructTy(_, _, fields) => v.SeqVal? && HaveTypes(v.elements, fields)
    case RecordTy(_, fields) => v.SeqVal? && HaveTypes(v.elements, fields)
    case UnitEnumTy(atoms) => v.UnitVal? && v.index < |atoms|
    case UntaggedTy(variants) => v.VariantVal? && v.index < |variants| && HasType(v.value, variants[v.index])
  }

  predicate HaveTypes(vs: seq<Val>, tys: seq<Ty>)
    decreases tys, 0
  {
    |vs| == |tys| && forall i :: 0 <= i < |tys| ==> HasType(vs[i], tys[i])
  }

  // ---- Encoding ----

  function ToList(terms: seq<Term>): Term {
    if terms == [] then EmptyList else Cell(terms[0], ToList(terms[1..]))
  }

  function PutAll(entries: map<string, Term>, names: seq<string>, terms: seq<Term>): map<string, Term>
    requires |names| == |terms|
    decreases |names|
  {
    if names == [] then entries else PutAll(entries[names[0] := terms[0]], names[1..], terms[1..])
  }

  function Encode(v: Val, ty: Ty): Term
    requires HasType(v, ty)
    decreases ty, 1
  {
    match ty
    case IntTy(_) => IntTerm(v.n)
    case BoolTy => AtomTerm(if v.b then "true" else "false")
    case StringTy => BinaryTerm(v.utf8)
    case VecTy(e) => ToList(EncodeEach(v.elements, e))
    case TupleTy(fields) => TupleTerm(EncodeAll(v.elements, fields))
    case OptionTy(t) => if v.SomeVal? then Encode(v.value, t) else AtomTerm("nil")
    case ResultTy(t, e) =>
      if v.OkVal? then TupleTerm([AtomTerm("ok"), Encode(v.value, t)])
      else TupleTerm([AtomTerm("error"), Encode(v.value, e)])
    case StructTy(name, names, fields) =>
      var terms := EncodeAll(v.elements, fields);
      MapTerm(PutAll(map[STRUCT_KEY := AtomTerm(ModuleAtom(name))], Fit(names, |terms|), terms))
    case RecordTy(tag, fields) => TupleTerm([AtomTerm(tag)] + EncodeAll(v.elements, fields))
    case UnitEnumTy(atoms) => AtomTerm(atoms[v.index])
    case UntaggedTy(variants) => Encode(v.value, variants[v.index])
  }

  function ModuleAtom(name: string): string {
    "Elixir." + name
  }

  /** As many names as there are fields; well-formed struct types have exactly these. */
  function Fit(names: seq<string>, n: nat): (r: seq<string>)
    ensures |r| == n && (|names| == n ==> r == names)
  {
    if |names| == n then names else seq(n, _ => "")
  }

  function EncodeEach(vs: seq<Val>, e: Ty): (ts: seq<Term>)
    requires forall i :: 0 <= i < |vs| ==> HasType(vs[i], e)
    ensures |ts| == |vs| && forall i :: 0 <= i < |vs| ==> ts[i] == Encode(vs[i], e)
    decreases e, 2, |vs|
  {
    if vs == [] then [] else [Encode(vs[0], e)] + EncodeEach(vs[1..], e)
  }

  function EncodeAll(vs: seq<Val>, tys: seq<Ty>): (ts: seq<Term>)
    requires HaveTypes(vs, tys)
    ensures |ts| == |vs| && forall i :: 0 <= i < |vs| ==> ts[i] == Encode(vs[i], tys[i])
    decreases tys, 0
  {
    if vs == [] then [] else [Encode(vs[0], tys[0])] + EncodeAll(vs[1..], tys[1..])
  }

  /** The derived struct encoder: one `map_put` per field onto a map that holds the module. */
  method EncodeStruct(name: string, names: seq<string>, terms: seq<Term>) returns (t: Term)
    requires |names| == |terms|
    ensures t == MapTerm(PutAll(map[STRUCT_KEY := AtomTerm(ModuleAtom(name))], names, terms))
  {
    var entries := map[STRUCT_KEY := AtomTerm(ModuleAtom(name))];
    for i := 0 to |names|
      invariant PutAll(map[STRUCT_KEY := AtomTerm(ModuleAtom(name))], names, terms) ==
                PutAll(entries, names[i..], terms[i..])
    {
      assert names[i..][1..] == names[i + 1..] && terms[i..][1..] == terms[i + 1..];
      entries := entries[names[i] := terms[i]];
    }
    t := MapTerm(entries);
  }

  // ---- Decoding ----

  datatype Decoded = Ok(value: Val) | Err | Panic

  datatype DecodedAll = AllOk(values: seq<Val>) | SomeErr | SomePanic

  predicate IsTruthy(t: Term) {
    !(t == AtomTerm("false") || t == AtomTerm("nil"))
  }

  function Decode(t: Term, ty: Ty): Decoded
    decreases ty, 2, t
  {
    match ty
    case IntTy(k) => if t.IntTerm? && InRange(NifKind(k), t.n) then Ok(IntVal(Cast(k, t.n))) else Err
    case BoolTy => Ok(BoolVal(IsTruthy(t)))
    case StringTy => if t.BinaryTerm? && IsUtf8(t.b) then Ok(StringVal(t.b)) else Err
    case VecTy(e) => if t.EmptyList? || t.Cell? then AsSeq(DecodeList(t, e)) else Err
    case TupleTy(fields) =>
      if t.TupleTerm? && |t.elements| == |fields| then AsSeq(DecodeAll(t.elements, fields)) else Err
    case OptionTy(inner) =>
      (match Decode(t, inner)
       case Ok(v) => Ok(SomeVal(v))
       case Panic => Panic
       case Err => if t == AtomTerm("nil") then Ok(NoneVal) else Err)
    case ResultTy(ok, err) =>
      if !(t.TupleTerm? && |t.elements| == 2 && t.elements[0].AtomTerm?) then Err
      else if t.elements[0].atom == "ok" then
        (match Decode(t.elements[1], ok) case Ok(v) => Ok(OkVal(v)) case other => other)
      else if t.elements[0].atom == "error" then
        (match Decode(t.elements[1], err) case Ok(v) => Ok(ErrVal(v)) case other => other)
      else Err
    case StructTy(name, names, fields) =>
      if t.MapTerm? && STRUCT_KEY in t.entries && t.entries[STRUCT_KEY] == AtomTerm(ModuleAtom(name))
      then AsSeq(DecodeFields(t.entries, Fit(names, |fields|), fields)) else Err
    case RecordTy(tag, fields) =>
      if t.TupleTerm? && |t.elements| == |fields| + 1 && t.elements[0] == AtomTerm(tag)
      then AsSeq(DecodeAll(t.elements[1..], fields)) else Err
    case UnitEnumTy(atoms) => if t.AtomTerm? then FirstAtom(t.atom, atoms, 0) else Err
    case UntaggedTy(variants) => FirstVariant(t, variants, 0)
  }

  function AsSeq(d: DecodedAll): Decoded {
    match d case AllOk(vs) => Ok(SeqVal(vs)) case SomeErr => Err case SomePanic => Panic
  }

  function Then(d: Decoded, rest: DecodedAll): DecodedAll {
    match d
    case Err => SomeErr
    case Panic => SomePanic
    case Ok(v) => if rest.AllOk? then AllOk([v] + rest.values) else rest
  }

  /** Iterates over the cells; the first element that is not decoded ends it, and so does an improper tail. */
  function DecodeList(t: Term, e: Ty): DecodedAll
    decreases e, 3, t
  {
    match t
    case EmptyList => AllOk([])
    case Cell(head, tail) => Then(Decode(head, e), DecodeList(tail, e))
    case _ => SomePanic
  }

  function DecodeAll(ts: seq<Term>, tys: seq<Ty>): DecodedAll
    requires |ts| == |tys|
    decreases tys, 0
  {
    if tys == [] then AllOk([]) else Then(Decode(ts[0], tys[0]), DecodeAll(ts[1..], tys[1..]))
  }

  function DecodeFields(entries: map<string, Term>, names: seq<string>, tys: seq<Ty>): DecodedAll
    requires |names| == |tys|
    decreases tys, 0
  {
    if tys == [] then AllOk([])
    else if names[0] !in entries then SomeErr
    else Then(Decode(entries[names[0]], tys[0]), DecodeFields(entries, names[1..], tys[1..]))
  }

  /** The derived chain of equality tests: the first variant with this atom. */
  function FirstAtom(atom: string, atoms: seq<string>, i: nat): Decoded
    requires i <= |atoms|
    decreases |atoms| - i
  {
    if i == |atoms| then Err else if atoms[i] == atom then Ok(UnitVal(i)) else FirstAtom(atom, atoms, i + 1)
  }

  /** The derived chain of attempts: the first variant that decodes. */
  function FirstVariant(t: Term, variants: seq<Ty>, i: nat): Decoded
    requires i <= |variants|
    decreases variants, 1, |variants| - i
  {
    if i == |variants| then Err
    else match Decode(t, variants[i])
      case Ok(v) => Ok(VariantVal(i, v))
      case Panic => Panic
      case Err => FirstVariant(t, variants, i + 1)
  }

  // ---- ListIterator (`list.rs`) ----

  datatype Iteration = Item(term: Term) | Finished | Improper

  class ListIterator {
    var term: Term

    constructor (term: Term)
      ensures this.term == term
    {
      this.term := term;
    }

    /** Yields the head of the cell it is at and moves to the tail. */
    method Next() returns (r: Iteration)
      modifies this
      ensures match old(term)
              case Cell(head, tail) => r == Item(head) && term == tail
              case EmptyList => r == Finished && term == old(term)
              case _ => r == Improper && term == old(term)
    {
      if term.Cell? {
        r := Item(term.head);
        term := term.tail;
      } else {
        r := if term.EmptyList? then Finished else Improper;
      }
    }
  }

  function After(decoded: seq<Val>, rest: DecodedAll): DecodedAll {
    if rest.AllOk? then AllOk(decoded + rest.values) else rest
  }

  lemma AfterNothing(d: DecodedAll)
    ensures After([], d) == d
  {
    if d.AllOk? { assert [] + d.values == d.values; }
  }

  lemma AfterOne(decoded: seq<Val>, v: Val, rest: DecodedAll)
    ensures After(decoded, Then(Ok(v), rest)) == After(decoded + [v], rest)
  {
    if rest.AllOk? { assert decoded + ([v] + rest.values) == decoded + [v] + rest.values; }
  }

  /** `Vec::decode`: maps the decoder over the iterator and collects until the first failure. */
  method DecodeVec(t: Term, e: Ty) returns (d: DecodedAll)
    ensures d == DecodeList(t, e)
  {
    var cells := new ListIterator(t);
    var decoded: seq<Val> := [];
    AfterNothing(DecodeList(t, e));
    while true
      invariant DecodeList(t, e) == After(decoded, DecodeList(cells.term, e))
      decreases cells.term
    {
      var item := cells.Next();
      if item.Improper? { return SomePanic; }
      if item.Finished? {
        assert decoded + [] == decoded;
        return AllOk(decoded);
      }
      match Decode(item.term, e)
      case Err => return SomeErr;
      case Panic => return SomePanic;
      case Ok(v) =>
        AfterOne(decoded, v, DecodeList(cells.term, e));
        decoded := decoded + [v];
    }
  }
}
