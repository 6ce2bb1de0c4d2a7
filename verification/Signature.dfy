/**
  D-Bus type signatures: what `DBusTypeOutputStream` emits, and why every emitted signature can be decoded
  in one way only.
 */
module Signature {
  import opened Common
  import opened WireTypes

  function IntCode(size: nat, signed: bool): char
  {
    if size == 1 then 'y'
    else if size == 2 then (if signed then 'n' else 'q')
    else if size == 4 then (if signed then 'i' else 'u')
    else (if signed then 'x' else 't')
  }

  /** The signature of a type. */
  function Sig(t: Type): (s: string)
    ensures s != []
    decreases t, 1
  {
    match t
    case TBool => "b"
    case TInt(size, signed) => [IntCode(size, signed)]
    case TUnixFd(_) => "h"
    case TRanged(_, _, _) => "i"
    case TDouble(_) => "d"
    case TString(isObjectPath) => if isObjectPath then "o" else "s"
    case TVersion => "(uu)"
    case TBytes => "ay"
    case TStruct(ts) => "(" + SigFields(ts) + ")"
    case TArray(e) => "a" + Sig(e)
    case TMap(k, w) => "a{" + Sig(k) + Sig(w) + "}"
    case TVariant(isDBus, _) => if isDBus then "v" else "(yv)"
  }

  function SigFields(ts: seq<Type>): string
    decreases ts, 0
  {
    if ts == [] then "" else Sig(ts[0]) + SigFields(ts[1..])
  }

  /** The stream that collects a signature; `writeType` appends to its one field. */
  class DBusTypeOutputStream {
    var signature: string

    constructor ()
      ensures signature == ""
    {
      signature := "";
    }

    method Append(s: string)
      modifies this
      ensures signature == old(signature) + s
    {
      signature := signature + s;
    }

    method WriteType(t: Type)
      modifies this
      ensures signature == old(signature) + Sig(t)
      decreases t, 1
    {
      match t
      case TBool => Append("b");
      case TInt(size, signed) => Append([IntCode(size, signed)]);
      case TUnixFd(_) => Append("h");
      case TRanged(_, _, _) => Append("i");
      case TDouble(_) => Append("d");
      case TString(isObjectPath) => Append(if isObjectPath then "o" else "s");
      case TVersion => Append("(uu)");
      case TBytes => Append("ay");
      case TStruct(ts) => WriteStruct(ts);
      case TArray(e) =>
        Append("a");
        WriteType(e);
        Assoc(old(signature), "a", Sig(e));
      case TMap(_, _) => WriteMap(t);
      case TVariant(isDBus, _) => Append(if isDBus then "v" else "(yv)");
    }

    method WriteStruct(ts: seq<Type>)
      modifies this
      ensures signature == old(signature) + ("(" + SigFields(ts) + ")")
      decreases ts, 0
    {
      Append("(");
      ghost var begun := signature;
      for i := 0 to |ts|
        invariant signature + SigFields(ts[i..]) == begun + SigFields(ts)
      {
        ghost var before := signature;
        WriteType(ts[i]);
        assert ts[i..][0] == ts[i] && ts[i..][1..] == ts[i + 1..];
        Assoc(before, Sig(ts[i]), SigFields(ts[i + 1..]));
      }
      assert ts[|ts|..] == [];
      assert signature + "" == signature;
      Append(")");
      Assoc(old(signature), "(", SigFields(ts));
      Assoc(old(signature), "(" + SigFields(ts), ")");
    }

    method WriteMap(t: Type)
      requires t.TMap?
      modifies this
      ensures signature == old(signature) + Sig(t)
      decreases t, 0
    {
      var k, w := t.key, t.value;
      Append("a{");
      WriteType(k);
      Assoc(old(signature), "a{", Sig(k));
      WriteType(w);
      Assoc(old(signature), "a{" + Sig(k), Sig(w));
      Append("}");
      Assoc(old(signature), "a{" + Sig(k) + Sig(w), "}");
    }
  }

  // ----- single complete types -----

  /** A single complete type of the D-Bus Specification, "Type System". */
  datatype Complete =
    | Code(c: char)
    | Array(elem: Complete)
    | Dict(key: Complete, value: Complete)
    | Struct(fields: seq<Complete>)

  const CODES: string := "ybnqiuxtdsohv"

  predicate Legal(c: Complete)
  {
    match c
    case Code(ch) => ch in CODES
    case Array(e) => Legal(e)
    case Dict(k, w) => Legal(k) && Legal(w)
    case Struct(cs) => cs != [] && forall i | 0 <= i < |cs| :: Legal(cs[i])
  }

  function Print(c: Complete): (s: string)
    ensures s != []
    decreases c, 1
  {
    match c
    case Code(ch) => [ch]
    case Array(e) => "a" + Print(e)
    case Dict(k, w) => "a{" + Print(k) + Print(w) + "}"
    case Struct(cs) => "(" + PrintAll(cs) + ")"
  }

  function PrintAll(cs: seq<Complete>): string
    decreases cs, 0
  {
    if cs == [] then "" else Print(cs[0]) + PrintAll(cs[1..])
  }

  /** What a signature tells of a type: signs of bytes, float against double and variant contents are erased. */
  function Erase(t: Type): Complete
    decreases t, 1
  {
    match t
    case TBool => Code('b')
    case TInt(size, signed) => Code(IntCode(size, signed))
    case TUnixFd(_) => Code('h')
    case TRanged(_, _, _) => Code('i')
    case TDouble(_) => Code('d')
    case TString(isObjectPath) => Code(if isObjectPath then 'o' else 's')
    case TVersion => Struct([Code('u'), Code('u')])
    case TBytes => Array(Code('y'))
    case TStruct(ts) => Struct(EraseAll(ts))
    case TArray(e) => Array(Erase(e))
    case TMap(k, w) => Dict(Erase(k), Erase(w))
    case TVariant(isDBus, _) => if isDBus then Code('v') else Struct([Code('y'), Code('v')])
  }

  function EraseAll(ts: seq<Type>): (cs: seq<Complete>)
    ensures |cs| == |ts|
    decreases ts, 0
  {
    if ts == [] then [] else [Erase(ts[0])] + EraseAll(ts[1..])
  }

  datatype Parsed<+T> = Parsed(value: T, rest: string) | NoParse

  /** A predictive parser for the first single complete type of a string. */
  function Parse(s: string): (r: Parsed<Complete>)
    ensures r.Parsed? ==> |r.rest| < |s|
    decreases |s|, 0
  {
    if s == "" then NoParse
    else if s[0] == 'a' then
      if |s| > 1 && s[1] == '{' then
        var k := Parse(s[2..]);
        if k.NoParse? then NoParse else
        var w := Parse(k.rest);
        if w.Parsed? && w.rest != "" && w.rest[0] == '}' then Parsed(Dict(k.value, w.value), w.rest[1..]) else NoParse
      else
        var e := Parse(s[1..]);
        if e.NoParse? then NoParse else Parsed(Array(e.value), e.rest)
    else if s[0] == '(' then
      var fs := ParseFields(s[1..]);
      if fs.Parsed? && fs.value != [] then Parsed(Struct(fs.value), fs.rest) else NoParse
    else if s[0] in CODES then Parsed(Code(s[0]), s[1..])
    else NoParse
  }

  /** The complete types up to a closing parenthesis, which is consumed. */
  function ParseFields(s: string): (r: Parsed<seq<Complete>>)
    ensures r.Parsed? ==> |r.rest| < |s|
    decreases |s|, 1
  {
    if s == "" then NoParse
    else if s[0] == ')' then Parsed([], s[1..])
    else
      var f := Parse(s);
      if f.NoParse? then NoParse else
      var fs := ParseFields(f.rest);
      if fs.NoParse? then NoParse else Parsed([f.value] + fs.value, fs.rest)
  }

  lemma PrintHead(c: Complete)
    requires Legal(c)
    ensures Print(c)[0] != ')' && Print(c)[0] != '{' && Print(c)[0] != '}'
  {
  }

  lemma ParseArray(e: Complete, printed: string, tail: string)
    requires printed != [] && printed[0] != '{'
    requires Parse(printed + tail) == Parsed(e, tail)
    ensures Parse("a" + printed + tail) == Parsed(Array(e), tail)
  {
    var rest := printed + tail;
    assert rest[0] == printed[0];
    assert ("a" + rest)[1..] == rest;
    ParseA(e, rest, tail);
    Assoc("a", printed, tail);
  }

  lemma ParseA(e: Complete, rest: string, tail: string)
    requires rest != [] && rest[0] != '{' && ("a" + rest)[1..] == rest
    requires Parse(rest) == Parsed(e, tail)
    ensures Parse("a" + rest) == Parsed(Array(e), tail)
  {
    var s := "a" + rest;
    assert s[0] == 'a' && s[1] == rest[0];
  }

  lemma ParseDict(k: Complete, w: Complete, pk: string, pw: string, tail: string)
    requires Parse(pk + (pw + ("}" + tail))) == Parsed(k, pw + ("}" + tail))
    requires Parse(pw + ("}" + tail)) == Parsed(w, "}" + tail)
    ensures Parse("a{" + pk + pw + "}" + tail) == Parsed(Dict(k, w), tail)
  {
    var inner := pk + (pw + ("}" + tail));
    var s := "a{" + inner;
    assert s[2..] == inner;
    assert ("}" + tail)[1..] == tail;
    assert Parse(s) == Parsed(Dict(k, w), tail);
    assert "a{" + pk + pw + "}" + tail == s by {
      Assoc("a{", pk, pw);
      Assoc("a{" + pk + pw, "}", tail);
      Assoc("a{" + pk, pw, "}" + tail);
      Assoc("a{", pk, pw + ("}" + tail));
    }
  }

  /** Printing then parsing a complete type gives it back, whatever follows it. */
  lemma {:induction false} ParsePrint(c: Complete, tail: string)
    requires Legal(c)
    ensures Parse(Print(c) + tail) == Parsed(c, tail)
    decreases c, 1
  {
    hide Parse;
    match c
    case Code(ch) => ParseCode(ch, tail);
    case Array(e) =>
      ParsePrint(e, tail);
      PrintHead(e);
      ParseArray(e, Print(e), tail);
    case Dict(k, w) =>
      ParsePrint(k, Print(w) + ("}" + tail));
      ParsePrint(w, "}" + tail);
      ParseDict(k, w, Print(k), Print(w), tail);
    case Struct(cs) =>
      ParsePrintAll(cs, tail);
      ParseStruct(cs, PrintAll(cs), tail);
  }

  lemma ParseCode(ch: char, tail: string)
    requires Legal(Code(ch))
    ensures Parse([ch] + tail) == Parsed(Code(ch), tail)
  {
    assert ([ch] + tail)[1..] == tail;
  }

  lemma ParseStruct(cs: seq<Complete>, printed: string, tail: string)
    requires cs != [] && ParseFields(printed + (")" + tail)) == Parsed(cs, tail)
    ensures Parse("(" + printed + ")" + tail) == Parsed(Struct(cs), tail)
  {
    var inner := printed + (")" + tail);
    assert "(" + printed + ")" + tail == "(" + inner;
    assert ("(" + inner)[1..] == inner;
  }

  lemma {:induction false} ParsePrintAll(cs: seq<Complete>, tail: string)
    requires forall i | 0 <= i < |cs| :: Legal(cs[i])
    ensures ParseFields(PrintAll(cs) + (")" + tail)) == Parsed(cs, tail)
    decreases cs, 0
  {
    if cs == [] {
      assert PrintAll(cs) + (")" + tail) == ")" + tail;
      assert (")" + tail)[1..] == tail;
    } else {
      var rest := PrintAll(cs[1..]) + (")" + tail);
      assert PrintAll(cs) + (")" + tail) == Print(cs[0]) + rest;
      PrintHead(cs[0]);
      ParsePrint(cs[0], rest);
      ParsePrintAll(cs[1..], tail);
      assert (Print(cs[0]) + rest)[0] == Print(cs[0])[0];
      assert [cs[0]] + cs[1..] == cs;
    }
  }

  /** An emitted signature prints the erased type, which is legal. */
  lemma {:induction false} SigIsPrint(t: Type)
    requires WellFormed(t)
    ensures Legal(Erase(t)) && Sig(t) == Print(Erase(t))
    decreases t, 1
  {
    match t
    case TStruct(ts) => SigFieldsArePrint(ts);
    case TArray(e) => SigIsPrint(e);
    case TMap(k, w) => SigIsPrint(k); SigIsPrint(w);
    case TVersion => PairIsPrinted('u', 'u');
    case TVariant(_, _) => PairIsPrinted('y', 'v');
    case _ =>
  }

  lemma PairIsPrinted(a: char, b: char)
    ensures PrintAll([Code(a), Code(b)]) == [a, b]
  {
    assert [Code(a), Code(b)][1..] == [Code(b)];
    assert PrintAll([Code(b)]) == [b];
  }

  lemma {:induction false} SigFieldsArePrint(ts: seq<Type>)
    requires forall i | 0 <= i < |ts| :: WellFormed(ts[i])
    ensures forall i | 0 <= i < |ts| :: Legal(EraseAll(ts)[i])
    ensures SigFields(ts) == PrintAll(EraseAll(ts))
    decreases ts, 0
  {
    if ts != [] {
      SigIsPrint(ts[0]);
      SigFieldsArePrint(ts[1..]);
      assert EraseAll(ts)[1..] == EraseAll(ts[1..]);
    }
  }

  /** Every emitted signature is exactly one single complete type. */
  lemma SigIsComplete(t: Type)
    requires WellFormed(t)
    ensures Parse(Sig(t)) == Parsed(Erase(t), "")
  {
    SigIsPrint(t);
    ParsePrint(Erase(t), "");
    assert Sig(t) + "" == Sig(t);
  }

  /** No emitted signature is a proper prefix of another one. */
  lemma SigPrefixFree(t: Type, u: Type)
    requires WellFormed(t) && WellFormed(u)
    requires Sig(t) <= Sig(u)
    ensures Sig(t) == Sig(u)
  {
    var tail := Sig(u)[|Sig(t)|..];
    assert Sig(u) == Sig(t) + tail;
    SigIsPrint(t);
    ParsePrint(Erase(t), tail);
    SigIsComplete(u);
  }

  /** Two types have the same signature exactly when they agree after erasure. */
  lemma SigDecidesErasure(t: Type, u: Type)
    requires WellFormed(t) && WellFormed(u)
    ensures Sig(t) == Sig(u) <==> Erase(t) == Erase(u)
  {
    SigIsPrint(t);
    SigIsPrint(u);
    SigIsComplete(t);
    SigIsComplete(u);
  }

  // ----- finding the alternative of a D-Bus variant -----

  /** Position of the first alternative with this signature, or the number of alternatives. */
  function FirstMatch(sig: string, alts: seq<Type>): (i: nat)
    ensures i <= |alts|
    ensures i < |alts| ==> Sig(alts[i]) == sig
    ensures forall j | 0 <= j < i :: Sig(alts[j]) != sig
  {
    if alts == [] then 0 else if Sig(alts[0]) == sig then 0 else 1 + FirstMatch(sig, alts[1..])
  }

  /** `ApplyTypeCompareVisitor`: walks the alternatives and compares signatures; the index counts down. */
  method SelectAlternative(sig: string, alts: seq<Type>) returns (found: bool, index: nat)
    ensures found <==> exists j :: 0 <= j < |alts| && Sig(alts[j]) == sig
    ensures found ==> 1 <= index <= |alts| && Sig(Alternative(alts, index)) == sig
    ensures found ==> forall j | 0 <= j < |alts| - index :: Sig(alts[j]) != sig
    ensures found ==> |alts| - index == FirstMatch(sig, alts)
    ensures !found ==> index == 0 && FirstMatch(sig, alts) == |alts|
    decreases |alts|
  {
    hide Sig;
    if alts == [] {
      return false, 0;
    }
    var output := new DBusTypeOutputStream();
    output.WriteType(alts[0]);
    if output.signature == sig {
      return true, |alts|;
    }
    found, index := SelectAlternative(sig, alts[1..]);
    assert FirstMatch(sig, alts) == 1 + FirstMatch(sig, alts[1..]);
  }

  /** The reader picks the alternative the writer used exactly when no earlier one has the same erasure. */
  lemma SelectionFindsWriter(alts: seq<Type>, index: nat)
    requires forall i | 0 <= i < |alts| :: WellFormed(alts[i])
    requires 1 <= index <= |alts|
    ensures FirstMatch(Sig(Alternative(alts, index)), alts) == |alts| - index
       <==> forall j | 0 <= j < |alts| - index :: Erase(alts[j]) != Erase(Alternative(alts, index))
  {
    var t := Alternative(alts, index);
    forall j | 0 <= j < |alts|
      ensures Sig(alts[j]) == Sig(t) <==> Erase(alts[j]) == Erase(t)
    {
      SigDecidesErasure(alts[j], t);
    }
  }

  /** Byte-sized alternatives collide: after an unsigned one, a signed one is never found. */
  lemma SignedByteIsMisread()
    ensures FirstMatch(Sig(TInt(1, true)), [TInt(1, false), TInt(1, true)]) == 0
  {
  }
}
