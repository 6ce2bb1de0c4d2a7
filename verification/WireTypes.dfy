/**
  The types and values that the D-Bus streams marshal. A `Type` stands for a C++ type together with the
  deployment that travels with it (object path, unix file descriptor, D-Bus variant).
 */
module WireTypes {
  import opened Common

  /** What a conversion to `uint32_t` keeps. */
  function Low32(n: nat): (r: nat)
    ensures r < 0x1_0000_0000
    ensures n < 0x1_0000_0000 <==> r == n
  {
    n % 0x1_0000_0000
  }

  /** A ranged integer starts as `initial`, which is up to its class; that class is not part of this repository. */
  datatype Type =
    | TBool
    | TInt(size: nat, signed: bool)
    | TUnixFd(signed: bool)
    | TRanged(min: int, max: int, initial: int)
    | TDouble(isFloat: bool)
    | TString(isObjectPath: bool)
    | TVersion
    | TBytes
    | TStruct(fields: seq<Type>)
    | TArray(elem: Type)
    | TMap(key: Type, value: Type)
    | TVariant(isDBus: bool, alternatives: seq<Type>)

  datatype Entry = Entry(key: Value, value: Value)

  /** A map value is given in the order in which its container is iterated. Doubles are opaque words. */
  datatype Value =
    | VBool(b: bool)
    | VInt(n: int)
    | VDouble(word: nat)
    | VString(chars: seq<byte>)
    | VVersion(major: nat, minor: nat)
    | VBytes(bytes: seq<byte>)
    | VStruct(fields: seq<Value>)
    | VArray(elems: seq<Value>)
    | VMap(entries: seq<Entry>)
    | VVariant(index: nat, held: Value)
    | VNoVariant(index: nat)

  /** 256 to the power `k`. */
  function Pow256(k: nat): (p: nat)
    ensures p > 0
  {
    if k == 0 then 1 else 256 * Pow256(k - 1)
  }

  /** Types that a C++ instantiation can have: a struct has a field, a variant 1 to 255 alternatives. */
  predicate WellFormed(t: Type)
  {
    match t
    case TInt(size, _) => size in {1, 2, 4, 8}
    case TRanged(min, max, initial) => InRange(min, 4, true) && InRange(max, 4, true) && InRange(initial, 4, true)
    case TStruct(ts) => ts != [] && forall i | 0 <= i < |ts| :: WellFormed(ts[i])
    case TArray(e) => WellFormed(e)
    case TMap(k, w) => WellFormed(k) && WellFormed(w)
    case TVariant(_, alts) => 1 <= |alts| <= 255 && forall i | 0 <= i < |alts| :: WellFormed(alts[i])
    case _ => true
  }

  predicate InRange(n: int, size: nat, signed: bool)
  {
    if signed then 0 <= 2 * n + Pow256(size) && 2 * n < Pow256(size) else 0 <= n < Pow256(size)
  }

  predicate DistinctKeys(entries: seq<Entry>)
  {
    forall i, j | 0 <= i < j < |entries| :: entries[i].key != entries[j].key
  }

  /** The alternative that a variant index selects: the first alternative has the highest index. */
  function Alternative(alts: seq<Type>, index: nat): Type
    requires 1 <= index <= |alts|
  {
    alts[|alts| - index]
  }

  predicate HasType(v: Value, t: Type)
    decreases t
  {
    match t
    case TBool => v.VBool?
    case TInt(size, signed) => v.VInt? && InRange(v.n, size, signed)
    case TUnixFd(signed) => v.VInt? && InRange(v.n, 4, signed)
    case TRanged(_, _, _) => v.VInt? && InRange(v.n, 4, true)
    case TDouble(_) => v.VDouble? && v.word < Pow256(8)
    case TString(_) => v.VString?
    case TVersion => v.VVersion? && v.major < 0x1_0000_0000 && v.minor < 0x1_0000_0000
    case TBytes => v.VBytes?
    case TStruct(ts) => v.VStruct? && FieldsHaveType(v.fields, ts)
    case TArray(e) => v.VArray? && forall i | 0 <= i < |v.elems| :: HasType(v.elems[i], e)
    case TMap(k, w) =>
      && v.VMap?
      && DistinctKeys(v.entries)
      && forall i | 0 <= i < |v.entries| :: HasType(v.entries[i].key, k) && HasType(v.entries[i].value, w)
    case TVariant(_, alts) =>
      v.VVariant? && 1 <= v.index <= |alts| && HasType(v.held, Alternative(alts, v.index))
  }

  predicate FieldsHaveType(vs: seq<Value>, ts: seq<Type>)
    decreases ts
  {
    |vs| == |ts| && (ts == [] || (HasType(vs[0], ts[0]) && FieldsHaveType(vs[1..], ts[1..])))
  }
}
