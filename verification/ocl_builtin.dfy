/** The TableGen-driven builtin library generator: type records become
    OpenCL C types (scalars, vectors over scalars, and numbered generic
    types), built once per record and cached in a table, and builtin
    records become builtins whose generic types are bound to ordered lists
    of specialisations. Every `throw` of the generator is a `Failure`
    carrying the thrown text. */
module OclBuiltin {
  import opened Results
  import opened Text

  /** A type record: its TableGen class decides how it is built. */
  datatype TypeRecord =
    | ScalarRec(recName: string)
    | VectRec(recName: string, base: TypeRecord, width: nat)
    | GenRec(recName: string, n: nat)
    | OtherRec(recName: string)

  /** `OCLType` and its three subclasses. */
  datatype OclType =
    | Scalar(scalarName: string)
    | Vect(baseName: string, width: nat)
    | Gen(n: nat)
  {
    /** `OCLType::GetName`, fixed by each subclass's `BuildName`. */
    function Name(): string {
      match this
      case Scalar(s) => s
      case Vect(b, w) => b + ShowNat(w)
      case Gen(n) => "gentype" + ShowNat(n)
    }
  }

  predicate StartsWith(s: string, prefix: string) {
    |prefix| <= |s| && s[..|prefix|] == prefix
  }

  /** `OCLScalarType::BuildName`: the record name without its `ocl_` prefix. */
  function ScalarName(recName: string): (r: Result<string, string>)
    ensures r.Success? <==> StartsWith(recName, "ocl_") && |recName| > 4
    ensures r.Success? ==> "ocl_" + r.value == recName && |r.value| > 0
    ensures !StartsWith(recName, "ocl_") ==> r == Failure("Scalar type names must begin with ocl_: " + recName)
  {
    if !StartsWith(recName, "ocl_") then Failure("Scalar type names must begin with ocl_: " + recName)
    else if |recName| == 4 then Failure("Scalar type names must have a non-empty suffix: " + recName)
    else
      assert recName == "ocl_" + recName[4..];
      Success(recName[4..])
  }

  /** The cache of built types in the order they were built. */
  type TypeTable = seq<(TypeRecord, OclType)>

  /** The value of the first entry with the given key: a type in the
      type table, or the binding list of a generic type in a builtin. */
  function Lookup<K(==), V>(table: seq<(K, V)>, key: K): (r: Option<V>)
    ensures r.Some? <==> exists i :: 0 <= i < |table| && table[i].0 == key
    ensures r.Some? ==> (key, r.value) in table
  {
    if |table| == 0 then None
    else if table[0].0 == key then Some(table[0].1)
    else
      var r := Lookup(table[1..], key);
      assert forall i :: 1 <= i < |table| ==> table[i] == table[1..][i - 1];
      assert r.Some? ==> (key, r.value) in table[1..];
      r
  }

  /** `OCLTypeTable::GetType(Record &)`: the cached type, or a new one built
      and appended to the table. A vector's base record is built first and
      must give a scalar. */
  function GetType(table: TypeTable, rec: TypeRecord): (r: Result<(TypeTable, OclType), string>)
    ensures r.Success? ==> table <= r.value.0
    ensures r.Success? ==> (rec, r.value.1) in r.value.0
    ensures Lookup(table, rec).Some? ==> r == Success((table, Lookup(table, rec).value))
    decreases rec
  {
    match Lookup(table, rec)
    case Some(t) => Success((table, t))
    case None =>
      match rec
      case ScalarRec(name) =>
        var s :- ScalarName(name);
        Success((table + [(rec, Scalar(s))], Scalar(s)))
      case VectRec(_, base, width) =>
        var (t1, bt) :- GetType(table, base);
        if !bt.Scalar? then Failure("Cannot construct a vector for a non-scalar type: " + bt.Name())
        else Success((t1 + [(rec, Vect(bt.scalarName, width))], Vect(bt.scalarName, width)))
      case GenRec(_, n) => Success((table + [(rec, Gen(n))], Gen(n)))
      case OtherRec(name) => Failure("Cannot construct a type for " + name)
  }

  /** A type is built once per record: asking again returns the same type
      and leaves the table as it is. */
  lemma GetTypeCached(table: TypeTable, rec: TypeRecord)
    requires GetType(table, rec).Success?
    ensures var (t1, ty) := GetType(table, rec).value;
      GetType(t1, rec) == Success((t1, ty))
  {
    var (t1, ty) := GetType(table, rec).value;
    var i :| 0 <= i < |t1| && t1[i] == (rec, ty);
    if Lookup(table, rec).None? {
      FirstBuiltIsLast(table, rec);
    } else {
      TableKeysUnique(table, rec, Lookup(table, rec).value);
    }
  }

  /** A freshly built record is appended at the end and was absent before. */
  lemma FirstBuiltIsLast(table: TypeTable, rec: TypeRecord)
    requires GetType(table, rec).Success? && Lookup(table, rec).None?
    ensures var (t1, ty) := GetType(table, rec).value;
      Lookup(t1, rec) == Some(ty)
  {
    var (t1, ty) := GetType(table, rec).value;
    LookupAppendNew(if rec.VectRec? then GetType(table, rec.base).value.0 else table, rec, ty, table);
  }

  lemma LookupAppendNew(prefix: TypeTable, rec: TypeRecord, ty: OclType, table: TypeTable)
    requires table <= prefix
    requires Lookup(table, rec).None?
    requires Lookup(prefix, rec).None?
    ensures Lookup(prefix + [(rec, ty)], rec) == Some(ty)
  {
    LookupAppend(prefix, rec, ty);
  }

  lemma {:induction false} LookupAppend(prefix: TypeTable, rec: TypeRecord, ty: OclType)
    requires Lookup(prefix, rec).None?
    ensures Lookup(prefix + [(rec, ty)], rec) == Some(ty)
  {
    if |prefix| > 0 {
      assert (prefix + [(rec, ty)])[1..] == prefix[1..] + [(rec, ty)];
      LookupAppend(prefix[1..], rec, ty);
    }
  }

  lemma TableKeysUnique(table: TypeTable, rec: TypeRecord, ty: OclType)
    requires Lookup(table, rec) == Some(ty)
    ensures GetType(table, rec) == Success((table, ty))
  {
  }

  /** `OCLTypeTable::GetType(StringRef)`: the first cached type with that name. */
  function FindByName(table: TypeTable, name: string): (r: Result<OclType, string>)
    ensures r.Success? <==> exists i :: 0 <= i < |table| && table[i].1.Name() == name
    ensures r.Success? ==> r.value.Name() == name && exists i :: 0 <= i < |table| && table[i].1 == r.value
    ensures r.Failure? ==> r.error == "Type not found: " + name
  {
    if |table| == 0 then Failure("Type not found: " + name)
    else if table[0].1.Name() == name then Success(table[0].1)
    else
      var r := FindByName(table[1..], name);
      assert forall i :: 1 <= i < |table| ==> table[i] == table[1..][i - 1];
      r
  }

  /** An element of a builtin's `GentypeSubs`: a list of type records, or
      some other TableGen value, kept as its printed form. */
  datatype SubsElem = SubList(recs: seq<TypeRecord>) | NotAList(text: string)

  /** A `GenBuiltin` record. */
  datatype BuiltinRecord = BuiltinRecord(
    recName: string,
    retType: TypeRecord,
    paramTypes: seq<TypeRecord>,
    gentypeSubs: seq<SubsElem>,
    attributes: seq<string>,
    baseImpl: string)

  /** `OCLLibBuiltin`: the generic types are bound, in index order, to the
      specialisations the user listed. */
  datatype Builtin = Builtin(
    name: string,
    ret: OclType,
    params: seq<OclType>,
    subs: seq<(OclType, seq<OclType>)>,
    attrs: seq<string>,
    baseImpl: string)

  /** `blt_` followed by the builtin's name. */
  function BuiltinName(recName: string): (r: Result<string, string>)
    ensures r.Success? <==> StartsWith(recName, "blt_")
    ensures r.Success? ==> "blt_" + r.value == recName
  {
    if !StartsWith(recName, "blt_") then Failure("Builtin name must starts with blt_: " + recName)
    else
      assert recName == "blt_" + recName[4..];
      Success(recName[4..])
  }

  /** The types of a list of records, built in order through the table. */
  function GetTypes(table: TypeTable, recs: seq<TypeRecord>): (r: Result<(TypeTable, seq<OclType>), string>)
    ensures r.Success? ==> table <= r.value.0 && |r.value.1| == |recs|
    ensures r.Success? ==> forall i :: 0 <= i < |recs| ==> (recs[i], r.value.1[i]) in r.value.0
    decreases |recs|
  {
    if |recs| == 0 then Success((table, []))
    else
      var (t1, ty) :- GetType(table, recs[0]);
      var (t2, tys) :- GetTypes(t1, recs[1..]);
      assert forall i :: 1 <= i < |recs| ==> recs[i] == recs[1..][i - 1];
      Success((t2, [ty] + tys))
  }

  /** The positions of the non-empty lists among `GentypeSubs[i..]`, in
      order: a binding is created by the first specialisation pushed onto
      it, so an empty list binds nothing. */
  function Bound(elems: seq<SubsElem>, i: nat): (r: seq<nat>)
    requires i <= |elems|
    ensures forall k :: 0 <= k < |r| ==> i <= r[k] < |elems| && elems[r[k]].SubList? && |elems[r[k]].recs| > 0
    ensures forall k, m :: 0 <= k < m < |r| ==> r[k] < r[m]
    ensures forall m :: i <= m < |elems| && elems[m].SubList? && |elems[m].recs| > 0 ==> m in r
    decreases |elems| - i
  {
    if i == |elems| then []
    else if elems[i].SubList? && |elems[i].recs| > 0 then [i] + Bound(elems, i + 1)
    else Bound(elems, i + 1)
  }

  /** `subs` are the bindings of `GentypeSubs[i..]`: every element is a
      list, and the `k`-th binding comes from the `k`-th non-empty list,
      binding the type named `gentype<m+1>` for list `m` to as many types
      as that list has records. */
  predicate BindsFrom(elems: seq<SubsElem>, i: nat, subs: seq<(OclType, seq<OclType>)>) {
    && i <= |elems|
    && (forall m :: i <= m < |elems| ==> elems[m].SubList?)
    && BindsAt(elems, Bound(elems, i), subs)
  }

  /** `subs[k]` binds the type for list `b[k]`. */
  predicate BindsAt(elems: seq<SubsElem>, b: seq<nat>, subs: seq<(OclType, seq<OclType>)>) {
    |subs| == |b| && forall k :: 0 <= k < |subs| ==> BindsList(elems, b[k], subs[k])
  }

  /** `s` binds the type named for list `m`, to as many types as that list
      holds. */
  predicate BindsList(elems: seq<SubsElem>, m: nat, s: (OclType, seq<OclType>)) {
    && m < |elems| && elems[m].SubList?
    && s.0.Name() == "gentype" + ShowNat(m + 1)
    && |s.1| == |elems[m].recs|
  }

  /** The bindings of `GentypeSubs[i..]`: list `i` binds the type named
      `gentype<i+1>`, which must already be in the table; it is taken as a
      generic type without a check. */
  function GetSubs(table: TypeTable, elems: seq<SubsElem>, i: nat): (r: Result<(TypeTable, seq<(OclType, seq<OclType>)>), string>)
    requires i <= |elems|
    ensures r.Success? ==> table <= r.value.0 && BindsFrom(elems, i, r.value.1)
    ensures (exists m :: i <= m < |elems| && elems[m].NotAList?) ==> r.Failure?
    decreases |elems| - i
  {
    if i == |elems| then Success((table, []))
    else match elems[i]
      case NotAList(text) => Failure("Expected gentype mappings list. Found: " + text)
      case SubList(recs) =>
        var g :- FindByName(table, "gentype" + ShowNat(i + 1));
        var (t1, tys) :- GetTypes(table, recs);
        var (t2, more) :- GetSubs(t1, elems, i + 1);
        if |recs| == 0 then
          SubsSkip(elems, i, more);
          Success((t2, more))
        else
          SubsCons(elems, i, g, tys, more);
          Success((t2, [(g, tys)] + more))
  }

  /** An empty list at position `i` adds no binding. */
  lemma SubsSkip(elems: seq<SubsElem>, i: nat, more: seq<(OclType, seq<OclType>)>)
    requires i < |elems| && elems[i].SubList? && |elems[i].recs| == 0
    requires BindsFrom(elems, i + 1, more)
    ensures BindsFrom(elems, i, more)
  {
    assert Bound(elems, i) == Bound(elems, i + 1);
  }

  /** Binding list `i` in front of the bindings of the later lists. */
  lemma SubsCons(elems: seq<SubsElem>, i: nat, g: OclType, tys: seq<OclType>, more: seq<(OclType, seq<OclType>)>)
    requires i < |elems| && elems[i].SubList? && |elems[i].recs| > 0
    requires g.Name() == "gentype" + ShowNat(i + 1) && |tys| == |elems[i].recs|
    requires BindsFrom(elems, i + 1, more)
    ensures BindsFrom(elems, i, [(g, tys)] + more)
  {
    assert Bound(elems, i) == [i] + Bound(elems, i + 1);
    BindsAtCons(elems, i, Bound(elems, i + 1), g, tys, more);
  }

  lemma BindsAtCons(elems: seq<SubsElem>, i: nat, b: seq<nat>, g: OclType, tys: seq<OclType>, more: seq<(OclType, seq<OclType>)>)
    requires i < |elems| && elems[i].SubList?
    requires g.Name() == "gentype" + ShowNat(i + 1) && |tys| == |elems[i].recs|
    requires BindsAt(elems, b, more)
    ensures BindsAt(elems, [i] + b, [(g, tys)] + more)
  {
    var r := [(g, tys)] + more;
    assert BindsList(elems, i, (g, tys));
    forall k | 0 < k < |r|
      ensures BindsList(elems, ([i] + b)[k], r[k])
    {
      assert r[k] == more[k - 1] && ([i] + b)[k] == b[k - 1];
    }
  }

  /** The bindings of a constructed builtin are of pairwise different
      types, as they carry different names. */
  lemma BindingsDistinct(elems: seq<SubsElem>, i: nat, subs: seq<(OclType, seq<OclType>)>, k: nat, m: nat)
    requires BindsFrom(elems, i, subs)
    requires k < m < |subs|
    ensures subs[k].0 != subs[m].0
  {
    var b := Bound(elems, i);
    assert b[k] < b[m];
    assert BindsList(elems, b[k], subs[k]) && BindsList(elems, b[m], subs[m]);
    GentypeNamesDiffer(b[k] + 1, b[m] + 1);
  }

  /** Different numbers give different generic type names. */
  lemma GentypeNamesDiffer(x: nat, y: nat)
    requires x != y
    ensures "gentype" + ShowNat(x) != "gentype" + ShowNat(y)
  {
    if "gentype" + ShowNat(x) == "gentype" + ShowNat(y) {
      assert ShowNat(x) == ("gentype" + ShowNat(x))[7..] == ("gentype" + ShowNat(y))[7..] == ShowNat(y);
      ShowNatInjective(x, y);
    }
  }

  /** The generic type of an empty mapping list is bound to nothing. */
  lemma EmptyListUnbound(elems: seq<SubsElem>, subs: seq<(OclType, seq<OclType>)>, m: nat)
    requires BindsFrom(elems, 0, subs)
    requires m < |elems| && elems[m].SubList? && |elems[m].recs| == 0
    ensures forall k :: 0 <= k < |subs| ==> subs[k].0.Name() != "gentype" + ShowNat(m + 1)
  {
    var b := Bound(elems, 0);
    forall k | 0 <= k < |subs|
      ensures subs[k].0.Name() != "gentype" + ShowNat(m + 1)
    {
      assert b[k] != m;
      GentypeNamesDiffer(b[k] + 1, m + 1);
    }
  }

  /** `OCLLibBuiltin(Record &)`: name, return type, parameters, bindings,
      attributes and base implementation, in that order, through the
      shared type table. */
  function NewBuiltin(table: TypeTable, rec: BuiltinRecord): (r: Result<(TypeTable, Builtin), string>)
    ensures r.Success? ==> table <= r.value.0
    ensures r.Success? ==> var b := r.value.1;
      && "blt_" + b.name == rec.recName
      && |b.params| == |rec.paramTypes|
      && BindsFrom(rec.gentypeSubs, 0, b.subs)
      && b.attrs == rec.attributes
      && b.baseImpl == rec.baseImpl
    ensures !StartsWith(rec.recName, "blt_") ==> r.Failure?
  {
    var name :- BuiltinName(rec.recName);
    var (t1, ret) :- GetType(table, rec.retType);
    var (t2, params) :- GetTypes(t1, rec.paramTypes);
    var (t3, subs) :- GetSubs(t2, rec.gentypeSubs, 0);
    Success((t3, Builtin(name, ret, params, subs, rec.attributes, rec.baseImpl)))
  }

  /** `LoadOCLBuiltins`: every builtin record in order, sharing one table. */
  function LoadBuiltins(table: TypeTable, recs: seq<BuiltinRecord>): (r: Result<seq<Builtin>, string>)
    ensures r.Success? ==> |r.value| == |recs|
    ensures r.Success? ==> forall i :: 0 <= i < |recs| ==> "blt_" + r.value[i].name == recs[i].recName
    decreases |recs|
  {
    if |recs| == 0 then Success([])
    else
      var (t1, b) :- NewBuiltin(table, recs[0]);
      var more :- LoadBuiltins(t1, recs[1..]);
      assert forall i :: 1 <= i < |recs| ==> recs[i] == recs[1..][i - 1];
      Success([b] + more)
  }

  /** `GetSpecializationsCount`: the length of the first binding list, 0 without bindings. */
  function SpecializationsCount(b: Builtin): (r: nat)
    ensures |b.subs| == 0 ==> r == 0
    ensures |b.subs| > 0 ==> r == |b.subs[0].1|
  {
    if |b.subs| == 0 then 0 else |b.subs[0].1|
  }

  /** `GetSpecializedType`: a non-generic type is returned unchanged; a
      generic type is replaced by its `spec`-th binding. */
  function Specialize(b: Builtin, ty: OclType, spec: nat): (r: Result<OclType, string>)
    ensures !ty.Gen? ==> r == Success(ty)
    ensures ty.Gen? && Lookup(b.subs, ty).None? ==> r == Failure("Type is not specialized: " + ty.Name())
    ensures ty.Gen? && Lookup(b.subs, ty).Some? ==>
      (r.Success? <==> spec < |Lookup(b.subs, ty).value|)
    ensures ty.Gen? && r.Success? ==> r.value == Lookup(b.subs, ty).value[spec]
  {
    if !ty.Gen? then Success(ty)
    else match Lookup(b.subs, ty)
      case None => Failure("Type is not specialized: " + ty.Name())
      case Some(list) =>
        if spec >= |list| then Failure("Not enough specializations") else Success(list[spec])
  }

  /** `GetReturnType(SpecID)`. */
  function ReturnType(b: Builtin, spec: nat): Result<OclType, string> {
    Specialize(b, b.ret, spec)
  }

  /** `GetParameterType(I)`: range-checked. */
  function ParameterType(b: Builtin, i: nat): (r: Result<OclType, string>)
    ensures r.Success? <==> i < |b.params|
    ensures r.Success? ==> r.value == b.params[i]
    ensures r.Failure? ==> r.error == "Out of range parameter index: " + ShowNat(i)
  {
    if i >= |b.params| then Failure("Out of range parameter index: " + ShowNat(i)) else Success(b.params[i])
  }

  /** `GetParameterType(I, SpecID)`. */
  function SpecializedParameterType(b: Builtin, i: nat, spec: nat): (r: Result<OclType, string>)
    ensures i >= |b.params| ==> r == Failure("Out of range parameter index: " + ShowNat(i))
    ensures i < |b.params| ==> r == Specialize(b, b.params[i], spec)
  {
    var t :- ParameterType(b, i);
    Specialize(b, t, spec)
  }

  /** `GetAttribute(I)`: range-checked. */
  function Attribute(b: Builtin, i: nat): (r: Result<string, string>)
    ensures r.Success? <==> i < |b.attrs|
    ensures r.Success? ==> r.value == b.attrs[i]
    ensures r.Failure? ==> r.error == "Out of range attribute index: " + ShowNat(i)
  {
    if i >= |b.attrs| then Failure("Out of range attribute index: " + ShowNat(i)) else Success(b.attrs[i])
  }

  /** Specialising a generic type lands on the type the user listed at that
      position of the list bound to it; a spec beyond that list fails. */
  lemma SpecializeGeneric(b: Builtin, elems: seq<SubsElem>, k: nat, spec: nat)
    requires BindsFrom(elems, 0, b.subs) && k < |b.subs| && b.subs[k].0.Gen?
    ensures Specialize(b, b.subs[k].0, spec) ==
      if spec < |b.subs[k].1| then Success(b.subs[k].1[spec]) else Failure("Not enough specializations")
  {
    forall j | 0 <= j < k
      ensures b.subs[j].0 != b.subs[k].0
    {
      BindingsDistinct(elems, 0, b.subs, j, k);
    }
    LookupFirst(b.subs, k);
  }

  /** The generic type of an empty mapping list cannot be specialised. */
  lemma EmptyListNotSpecialized(b: Builtin, elems: seq<SubsElem>, m: nat, spec: nat)
    requires BindsFrom(elems, 0, b.subs)
    requires m < |elems| && elems[m].SubList? && |elems[m].recs| == 0
    ensures Specialize(b, Gen(m + 1), spec) == Failure("Type is not specialized: gentype" + ShowNat(m + 1))
  {
    EmptyListUnbound(elems, b.subs, m);
    UnboundNotSpecialized(b, m + 1, spec);
  }

  /** A generic type no binding names cannot be specialised. */
  lemma UnboundNotSpecialized(b: Builtin, n: nat, spec: nat)
    requires forall k :: 0 <= k < |b.subs| ==> b.subs[k].0.Name() != "gentype" + ShowNat(n)
    ensures Specialize(b, Gen(n), spec) == Failure("Type is not specialized: gentype" + ShowNat(n))
  {
    var g := Gen(n);
    assert forall k :: 0 <= k < |b.subs| ==> b.subs[k].0 != g;
    assert Lookup(b.subs, g).None?;
    assert "Type is not specialized: " + g.Name() == "Type is not specialized: gentype" + ShowNat(n);
  }

  /** An entry no earlier entry shares a key with is the one found. */
  lemma {:induction false} LookupFirst<K, V>(table: seq<(K, V)>, k: nat)
    requires k < |table|
    requires forall j :: 0 <= j < k ==> table[j].0 != table[k].0
    ensures Lookup(table, table[k].0) == Some(table[k].1)
    decreases k
  {
    if k > 0 {
      assert table[0].0 != table[k].0;
      assert table[1..][k - 1] == table[k];
      forall j | 0 <= j < k - 1
        ensures table[1..][j].0 != table[1..][k - 1].0
      {
        assert table[1..][j] == table[j + 1];
      }
      LookupFirst(table[1..], k - 1);
    }
  }
}
