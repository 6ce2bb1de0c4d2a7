/**
  The marshalling rules of the D-Bus Specification, "Type System" and "Marshaling (Wire Format)", written down from type
  codes alone, and the proof that the encoder follows them.
 */
module WireConformance {
  import opened Common
  import opened WireTypes
  import opened WireFormat
  import opened Signature

  // ----- the tables of the Specification -----

  /** Size of the fixed types. */
  function CodeSize(c: char): nat
  {
    match c
    case 'y' => 1
    case 'n' => 2
    case 'q' => 2
    case 'b' => 4
    case 'i' => 4
    case 'u' => 4
    case 'h' => 4
    case 'x' => 8
    case 't' => 8
    case 'd' => 8
    case _ => 0
  }

  predicate CodeSigned(c: char) { c == 'n' || c == 'i' || c == 'x' }

  /** Alignment of a type that begins with this code; strings are aligned by their length, signatures not at all. */
  function CodeAlignment(c: char): (b: nat)
    ensures b > 0
  {
    if c == 'y' || c == 'g' || c == 'v' then 1
    else if c == 'n' || c == 'q' then 2
    else if c == 'b' || c == 'i' || c == 'u' || c == 'h' || c == 's' || c == 'o' || c == 'a' then 4
    else 8
  }

  function Alignment(c: Complete): (b: nat)
    ensures b > 0
  {
    CodeAlignment(Print(c)[0])
  }

  // ----- marshalling by the Specification -----

  datatype Pair = Pair(key: Datum, value: Datum)

  /** A value as the Specification knows it; a variant holds a single complete type and a value of it. */
  datatype Datum =
    | Number(n: int)
    | Characters(bytes: seq<byte>)
    | Items(items: seq<Datum>)
    | Pairs(pairs: seq<Pair>)
    | Record(fields: seq<Datum>)
    | Held(c: Complete, d: Datum)

  /** The bytes of padding up to a multiple of the alignment. */
  function Gap(off: nat, align: nat): nat
    requires align > 0
  {
    (align - off % align) % align
  }

  function Place(i: nat): nat
  {
    if i == 0 then 1 else if i == 1 then 0x100 else if i == 2 then 0x1_0000 else if i == 3 then 0x100_0000
    else if i == 4 then 0x1_0000_0000 else if i == 5 then 0x100_0000_0000 else if i == 6 then 0x1_0000_0000_0000
    else 0x100_0000_0000_0000
  }

  /** The least significant byte first, in two's complement. */
  function LittleEndian(n: int, size: nat): (bs: seq<byte>)
    ensures |bs| == size
  {
    seq(size, i requires 0 <= i < size => n / Place(i) % 256)
  }

  function Padded(off: nat, align: nat, bytes: seq<byte>): seq<byte>
    requires align > 0
  {
    Zeros(Gap(off, align)) + bytes
  }

  function Marshal(c: Complete, d: Datum, off: nat): seq<byte>
    decreases d, 1
  {
    match (c, d)
    case (Code(ch), Number(n)) => Padded(off, CodeAlignment(ch), LittleEndian(n, CodeSize(ch)))
    case (Code(ch), Characters(bytes)) => Padded(off, 4, LittleEndian(|bytes|, 4) + bytes + [0])
    case (Code(ch), Held(e, x)) =>
      var front := LittleEndian(|Print(e)|, 1) + Ascii(Print(e)) + [0];
      front + Marshal(e, x, off + |front|)
    case (Array(e), Items(xs)) =>
      var start := off + Gap(off, 4) + 4;
      var body := MarshalItems(e, xs, start + Gap(start, Alignment(e)));
      Padded(off, 4, LittleEndian(|body|, 4) + Padded(start, Alignment(e), body))
    case (Dict(k, w), Pairs(ps)) =>
      var start := off + Gap(off, 4) + 4;
      var body := MarshalPairs(k, w, ps, start + Gap(start, 8));
      Padded(off, 4, LittleEndian(|body|, 4) + Padded(start, 8, body))
    case (Struct(cs), Record(xs)) => Padded(off, 8, MarshalFields(cs, xs, off + Gap(off, 8)))
    case _ => []
  }

  function MarshalItems(e: Complete, xs: seq<Datum>, off: nat): seq<byte>
    decreases xs, 0
  {
    if xs == [] then [] else
    var head := Marshal(e, xs[0], off);
    head + MarshalItems(e, xs[1..], off + |head|)
  }

  function MarshalPairs(k: Complete, w: Complete, ps: seq<Pair>, off: nat): seq<byte>
    decreases ps, 0
  {
    if ps == [] then [] else
    var head := MarshalPair(k, w, ps[0], off);
    head + MarshalPairs(k, w, ps[1..], off + |head|)
  }

  /** A dict entry is aligned like a structure. */
  function MarshalPair(k: Complete, w: Complete, p: Pair, off: nat): seq<byte>
    decreases p, 0
  {
    var key := Padded(off, 8, Marshal(k, p.key, off + Gap(off, 8)));
    key + Marshal(w, p.value, off + |key|)
  }

  function MarshalFields(cs: seq<Complete>, xs: seq<Datum>, off: nat): seq<byte>
    decreases xs, 0
  {
    if xs == [] || cs == [] then [] else
    var head := Marshal(cs[0], xs[0], off);
    head + MarshalFields(cs[1..], xs[1..], off + |head|)
  }

  // ----- what the streams marshal, in these terms -----

  function DatumOf(t: Type, v: Value): Datum
    requires WellFormed(t) && HasType(v, t)
    decreases t, 1, 0
  {
    match t
    case TBool => Number(if v.b then 1 else 0)
    case TInt(size, _) => Number(if size == 1 then Unsigned(v.n, 1) else v.n)
    case TUnixFd(_) => Number(Unsigned(v.n, 4))
    case TRanged(_, _, _) => Number(v.n)
    case TDouble(_) => Number(v.word)
    case TString(_) => Characters(v.chars)
    case TVersion => Record([Number(v.major), Number(v.minor)])
    case TBytes => Items(Numbers(v.bytes))
    case TStruct(ts) => Record(DataOfFields(ts, v.fields))
    case TArray(_) => Items(DataOfElems(t, v.elems))
    case TMap(_, _) => Pairs(DataOfEntries(t, v.entries))
    case TVariant(isDBus, alts) =>
      var u := Alternative(alts, v.index);
      var held := Held(Erase(u), DatumOf(u, v.held));
      if isDBus then held else Record([Number(v.index), held])
  }

  function Numbers(bs: seq<byte>): (ds: seq<Datum>)
    ensures |ds| == |bs|
  {
    if bs == [] then [] else [Number(bs[0])] + Numbers(bs[1..])
  }

  function DataOfFields(ts: seq<Type>, vs: seq<Value>): (ds: seq<Datum>)
    requires (forall i | 0 <= i < |ts| :: WellFormed(ts[i])) && FieldsHaveType(vs, ts)
    ensures |ds| == |ts|
    decreases ts, 0, 0
  {
    if ts == [] then [] else [DatumOf(ts[0], vs[0])] + DataOfFields(ts[1..], vs[1..])
  }

  function DataOfElems(t: Type, vs: seq<Value>): (ds: seq<Datum>)
    requires t.TArray? && WellFormed(t) && ElemsFit(t, vs)
    ensures |ds| == |vs|
    decreases t, 0, |vs|
  {
    if vs == [] then [] else [DatumOf(t.elem, vs[0])] + DataOfElems(t, vs[1..])
  }

  function DataOfEntries(t: Type, es: seq<Entry>): (ps: seq<Pair>)
    requires t.TMap? && WellFormed(t) && EntriesFit(t, es)
    ensures |ps| == |es|
    decreases t, 0, |es|
  {
    if es == [] then [] else
    [Pair(DatumOf(t.key, es[0].key), DatumOf(t.value, es[0].value))] + DataOfEntries(t, es[1..])
  }

  /** Arrays of D-Bus variants and of ranged integers are aligned as the Specification does not know it. */
  predicate Standard(t: Type)
  {
    match t
    case TStruct(ts) => forall i | 0 <= i < |ts| :: Standard(ts[i])
    case TArray(e) => Standard(e) && !e.TRanged? && !(e.TVariant? && e.isDBus)
    case TMap(k, w) => Standard(k) && Standard(w)
    case TVariant(_, alts) => forall i | 0 <= i < |alts| :: Standard(alts[i])
    case _ => true
  }

  /** Lengths that fit: those of strings in 32 bits with the NUL, those of signatures in 8. */
  predicate Sized(t: Type, v: Value)
    requires HasType(v, t)
    decreases t
  {
    match t
    case TString(_) => |v.chars| < 0xFFFF_FFFF
    case TStruct(ts) => FieldsSized(ts, v.fields)
    case TArray(e) => forall i | 0 <= i < |v.elems| :: Sized(e, v.elems[i])
    case TMap(k, w) => forall i | 0 <= i < |v.entries| :: Sized(k, v.entries[i].key) && Sized(w, v.entries[i].value)
    case TVariant(_, alts) =>
      var u := Alternative(alts, v.index); |Sig(u)| <= 255 && Sized(u, v.held)
    case _ => true
  }

  predicate FieldsSized(ts: seq<Type>, vs: seq<Value>)
    requires FieldsHaveType(vs, ts)
    decreases ts
  {
    ts == [] || (Sized(ts[0], vs[0]) && FieldsSized(ts[1..], vs[1..]))
  }

  // ----- words -----

  lemma PadIsGap(off: nat, b: nat)
    requires Boundary(b)
    ensures PadLen(off, b) == Gap(off, b)
  {
    MaskForms(off, b);
    if b == 8 {} else if b == 4 {} else if b == 2 {}
  }

  lemma NextByte(n: nat, i: nat)
    requires i < 7
    ensures n / Place(i + 1) == n / 256 / Place(i)
  {
    if i == 0 {} else if i == 1 {} else if i == 2 {} else if i == 3 {} else if i == 4 {} else if i == 5 {}
  }

  lemma {:induction false} LittleIs(n: nat, size: nat)
    requires size <= 8
    ensures Little(n, size) == LittleEndian(n, size)
  {
    hide Place;
    if size > 0 {
      LittleIs(n / 256, size - 1);
      FirstPlace();
      forall i | 0 < i < size ensures Little(n, size)[i] == LittleEndian(n, size)[i] {
        assert Little(n, size)[i] == Little(n / 256, size - 1)[i - 1];
        NextByte(n, i - 1);
      }
    }
  }

  lemma FirstPlace()
    ensures Place(0) == 1
  {
  }

  lemma Powers()
    ensures Pow256(1) == 0x100 && Pow256(2) == 0x1_0000 && Pow256(4) == 0x1_0000_0000
    ensures Pow256(8) == 0x1_0000_0000_0000_0000
  {
    assert Pow256(0) == 1;
    assert Pow256(3) == 0x100_0000 && Pow256(5) == 0x100_0000_0000;
    assert Pow256(6) == 0x1_0000_0000_0000 && Pow256(7) == 0x100_0000_0000_0000;
  }

  lemma AtLeast(m: nat, x: int)
    requires x >= 1
    ensures m * x >= m
  {
    assert m * (x - 1) >= 0;
  }

  /** A multiple of the divisor goes through the division. */
  lemma QuotientOfSum(n: int, m: nat, k: int)
    requires m > 0
    ensures (n + m * k) / m == n / m + k
  {
    var q, r := n / m + k, n % m;
    var u, w := (n + m * k) / m, (n + m * k) % m;
    assert m * q == m * (n / m) + m * k;
    assert m * (u - q) == r - w;
    if u > q {
      AtLeast(m, u - q);
    } else if u < q {
      AtLeast(m, q - u);
    }
  }

  /** 256 to the power of the size, over the place of a byte of it, is a multiple of 256. */
  function Above(size: nat, i: nat): nat
    requires size in {1, 2, 4, 8} && i < size
  {
    Place(size - 1 - i)
  }

  lemma PowerIs(size: nat, i: nat)
    requires size in {1, 2, 4, 8} && i < size
    ensures Pow256(size) == Place(i) * (256 * Above(size, i)) && Place(i) > 0
  {
    Powers();
  }

  /** Adding what the word can hold changes no byte of it. */
  lemma ByteOfComplement(n: int, size: nat, i: nat)
    requires size in {1, 2, 4, 8} && i < size
    ensures (n + Pow256(size)) / Place(i) % 256 == n / Place(i) % 256
  {
    hide Place, Above, Pow256;
    PowerIs(size, i);
    QuotientOfSum(n, Place(i), 256 * Above(size, i));
    QuotientOfSum(n / Place(i), 256, Above(size, i));
  }

  lemma WordConforms(n: int, size: nat, off: nat)
    requires size in {1, 2, 4, 8} && (InRange(n, size, true) || InRange(n, size, false))
    ensures EncWord(Unsigned(n, size), size, off) == Padded(off, size, LittleEndian(n, size))
  {
    hide Place, Mask, PadLen, Gap, Little;
    PadIsGap(off, size);
    LittleIs(Unsigned(n, size), size);
    forall i | 0 <= i < size ensures LittleEndian(Unsigned(n, size), size)[i] == LittleEndian(n, size)[i] {
      if n < 0 {
        ByteOfComplement(n, size, i);
      }
    }
    assert LittleEndian(Unsigned(n, size), size) == LittleEndian(n, size);
  }

  lemma CodeOfInt(size: nat, signed: bool)
    requires WellFormed(TInt(size, signed))
    ensures var c := IntCode(size, signed); CodeSize(c) == size && CodeAlignment(c) == size
  {
  }

  lemma StringConforms(s: seq<byte>, off: nat)
    requires |s| < 0xFFFF_FFFF
    ensures EncString(s, off) == Padded(off, 4, LittleEndian(|s|, 4) + s + [0])
  {
    hide Place, Mask, PadLen, Gap, Little, LittleEndian;
    PadIsGap(off, 4);
    LittleIs(|s|, 4);
    assert (s + [0])[..|s| + 1] == s + [0];
    Assoc(Pad(off, 4), Little(|s|, 4), s + [0]);
    Assoc(Little(|s|, 4), s, [0]);
  }

  lemma SignatureConforms(t: Type)
    requires WellFormed(t) && |Sig(t)| <= 255
    ensures EncSignature(Sig(t)) == LittleEndian(|Print(Erase(t))|, 1) + Ascii(Print(Erase(t))) + [0]
  {
    hide Sig, Print, Ascii;
    SigIsPrint(t);
    var s := Sig(t);
    assert (Ascii(s) + [0])[..|s| + 1] == Ascii(s) + [0];
    assert LittleEndian(|s|, 1) == [|s|] by {
      FirstPlace();
    }
    Assoc([|s|], Ascii(s), [0]);
  }

  /** Where the bytes of an array begin. */
  lemma StartConforms(e: Type, off: nat)
    requires WellFormed(e)
    ensures var start := off + Gap(off, 4) + 4;
            && DataStart(off, ElementBoundary(e)) == Up(start, ElementBoundary(e))
            && Up(off, 4) + 4 == start
            && (Up(start, ElementBoundary(e)) == start + Gap(start, Alignment(Erase(e))) <==>
                  !(e.TRanged? || (e.TVariant? && e.isDBus)) || start % 8 == 0)
  {
    hide Mask, PadLen, Gap, Alignment, Erase;
    var start := off + Gap(off, 4) + 4;
    PadIsGap(off, 4);
    WordGaps(off);
    PadIsGap(start, ElementBoundary(e));
    AlignmentOf(e);
  }

  /** Behind a length word, only a boundary of 8 may need padding. */
  lemma WordGaps(off: nat)
    ensures var start := off + Gap(off, 4) + 4;
            Gap(start, 1) == Gap(start, 2) == Gap(start, 4) == 0 && (Gap(start, 8) == 0 <==> start % 8 == 0)
  {
    var start := off + Gap(off, 4) + 4;
    assert start % 4 == 0;
  }

  lemma AlignmentOf(e: Type)
    requires WellFormed(e)
    ensures Alignment(Erase(e)) ==
            match e
            case TInt(size, _) => size
            case TDouble(_) => 8
            case TVersion => 8
            case TStruct(_) => 8
            case TVariant(isDBus, _) => if isDBus then 1 else 8
            case _ => 4
  {
  }

  // ----- conformance -----

  lemma ArrayConforms(e: Complete, data: seq<byte>, b: nat, off: nat)
    requires Boundary(b)
    requires var start := off + Gap(off, 4) + 4; Up(start, b) == start + Gap(start, Alignment(e))
    ensures var start := off + Gap(off, 4) + 4;
            EncArray(data, b, off) == Padded(off, 4, LittleEndian(|data|, 4) + Padded(start, Alignment(e), data))
  {
    hide Mask, PadLen, Gap, Little, LittleEndian, Place, Alignment;
    PadIsGap(off, 4);
    var start := off + Gap(off, 4) + 4;
    LengthConforms(|data|);
    assert Pad(start, b) == Zeros(Gap(start, Alignment(e)));
    Assoc(Zeros(Gap(off, 4)), LittleEndian(|data|, 4), Pad(start, b));
    Assoc(Zeros(Gap(off, 4)) + LittleEndian(|data|, 4), Pad(start, b), data);
    Assoc(Zeros(Gap(off, 4)), LittleEndian(|data|, 4), Pad(start, b) + data);
  }

  /** Of a length that does not fit, both keep the lower 32 bits. */
  lemma LengthConforms(n: nat)
    ensures Little(Low32(n), 4) == LittleEndian(n, 4)
  {
    hide Little;
    LittleIs(n % 0x1_0000_0000, 4);
    Powers();
    forall i | 0 <= i < 4 ensures LittleEndian(n % 0x1_0000_0000, 4)[i] == LittleEndian(n, 4)[i] {
      var r, q := n % 0x1_0000_0000, n / 0x1_0000_0000;
      LowByte(r, q, i);
    }
    assert LittleEndian(n % 0x1_0000_0000, 4) == LittleEndian(n, 4);
  }

  lemma LowByte(r: nat, q: nat, i: nat)
    requires i < 4
    ensures (r + 0x1_0000_0000 * q) / Place(i) % 256 == r / Place(i) % 256
  {
    PowerIs(4, i);
    Powers();
    var m := 256 * Above(4, i) * q;
    assert 0x1_0000_0000 * q == Place(i) * m;
    QuotientOfSum(r, Place(i), m);
    assert m == 256 * (Above(4, i) * q);
    QuotientOfSum(r / Place(i), 256, Above(4, i) * q);
  }

  lemma PlainConforms(t: Type, v: Value, off: nat)
    requires !t.TStruct? && !t.TArray? && !t.TMap? && !t.TVariant? && !t.TVersion? && !t.TBytes?
    requires WellFormed(t) && HasType(v, t) && Sized(t, v)
    ensures Enc(t, v, off) == Marshal(Erase(t), DatumOf(t, v), off)
  {
    hide Mask, PadLen, EncWord, EncString, LittleEndian, Padded, CodeSize, CodeAlignment;
    Powers();
    match t
    case TBool => WordConforms(if v.b then 1 else 0, 4, off); Codes();
    case TInt(size, signed) =>
      CodeOfInt(size, signed);
      WordConforms(v.n, size, off);
      WordConforms(Unsigned(v.n, size), size, off);
    case TUnixFd(_) => WordConforms(Unsigned(v.n, 4), 4, off); Codes();
    case TRanged(_, _, _) => WordConforms(v.n, 4, off); Codes();
    case TDouble(_) => WordConforms(v.word, 8, off); Codes();
    case TString(_) => StringConforms(v.chars, off);
  }

  lemma Codes()
    ensures CodeSize('b') == CodeSize('h') == CodeSize('i') == CodeSize('u') == 4 && CodeSize('d') == 8
    ensures CodeAlignment('b') == CodeAlignment('h') == CodeAlignment('i') == CodeAlignment('u') == 4
    ensures CodeAlignment('d') == 8 && CodeSize('y') == CodeAlignment('y') == 1
  {
  }

  lemma {:induction false} BytesConform(bs: seq<byte>, off: nat)
    ensures MarshalItems(Code('y'), Numbers(bs), off) == bs
  {
    hide CodeSize, CodeAlignment, LittleEndian, Place, Padded;
    if bs != [] {
      ByteConforms(bs[0], off);
      BytesConform(bs[1..], off + 1);
      assert Numbers(bs)[1..] == Numbers(bs[1..]);
    }
  }

  lemma ByteConforms(b: byte, off: nat)
    ensures Marshal(Code('y'), Number(b), off) == [b]
  {
    hide Gap, LittleEndian;
    Codes();
    NoGap(off);
    OneByte(b);
  }

  lemma NoGap(off: nat)
    ensures Gap(off, 1) == 0
  {
  }

  lemma OneByte(b: byte)
    ensures LittleEndian(b, 1) == [b]
  {
  }

  lemma VersionConforms(v: Value, off: nat)
    requires HasType(v, TVersion)
    ensures Enc(TVersion, v, off) == Marshal(Erase(TVersion), DatumOf(TVersion, v), off)
  {
    hide Mask, PadLen, EncWord, LittleEndian, CodeSize, CodeAlignment, Gap;
    Powers();
    Codes();
    PadIsGap(off, 8);
    var at := Up(off, 8);
    WordConforms(v.major, 4, at);
    WordConforms(v.minor, 4, at + 4);
    var major, minor := EncWord(v.major, 4, at), EncWord(v.minor, 4, at + 4);
    assert |major| == 4 by {
      AlignedWord(v.major, at);
    }
    var d, e := Number(v.major), Number(v.minor);
    assert Marshal(Code('u'), d, at) == major && Marshal(Code('u'), e, at + 4) == minor;
    PairOfFields(Code('u'), Code('u'), d, e, at);
    Assoc(Pad(off, 8), major, minor);
  }

  lemma AlignedWord(n: nat, at: nat)
    requires Mask(at, 8) == 0
    ensures |EncWord(n, 4, at)| == 4
  {
  }

  lemma PairOfFields(a: Complete, b: Complete, d: Datum, e: Datum, off: nat)
    ensures var first := Marshal(a, d, off);
            MarshalFields([a, b], [d, e], off) == first + Marshal(b, e, off + |first|)
  {
    hide Marshal;
    assert [a, b][1..] == [b] && [d, e][1..] == [e];
    assert MarshalFields([b], [e], off + |Marshal(a, d, off)|) == Marshal(b, e, off + |Marshal(a, d, off)|) + [];
  }

  /**
    Every value whose lengths fit, of every type without an array of D-Bus variants or of ranged integers, is written as the
    Specification marshals it, at every offset.
   */
  lemma {:induction false} Conforms(t: Type, v: Value, off: nat)
    requires WellFormed(t) && HasType(v, t) && Sized(t, v) && Standard(t)
    ensures Enc(t, v, off) == Marshal(Erase(t), DatumOf(t, v), off)
    decreases t, 3, 0
  {
    hide Mask, PadLen, Gap, EncArray, EncFields, EncElems, EncEntries, MarshalFields, MarshalItems, MarshalPairs, Padded;
    match t
    case TStruct(ts) =>
      PadIsGap(off, 8);
      PaddedIs(off, 8, EncFields(ts, v.fields, Up(off, 8)));
      FieldsConform(ts, v.fields, Up(off, 8));
    case TArray(e) => VectorConforms(t, v.elems, off);
    case TMap(_, _) => MapConforms(t, v.entries, off);
    case TVariant(_, _) => VariantConforms(t, v, off);
    case TVersion => VersionConforms(v, off);
    case TBytes =>
      var start := off + Gap(off, 4) + 4;
      StartConforms(TInt(1, false), off);
      ArrayConforms(Code('y'), v.bytes, 1, off);
      BytesConform(v.bytes, start + Gap(start, Alignment(Code('y'))));
    case _ => PlainConforms(t, v, off);
  }

  lemma PaddedIs(off: nat, b: nat, bytes: seq<byte>)
    requires Boundary(b)
    ensures Padded(off, b, bytes) == Pad(off, b) + bytes && Up(off, b) == off + Gap(off, b)
  {
    PadIsGap(off, b);
  }

  lemma {:induction false} FieldsConform(ts: seq<Type>, vs: seq<Value>, off: nat)
    requires (forall i | 0 <= i < |ts| :: WellFormed(ts[i]) && Standard(ts[i]))
    requires FieldsHaveType(vs, ts) && FieldsSized(ts, vs)
    ensures EncFields(ts, vs, off) == MarshalFields(EraseAll(ts), DataOfFields(ts, vs), off)
    decreases ts, 0, 0
  {
    hide Enc, Marshal, DatumOf, Erase, WellFormed, Standard, HasType, Sized;
    if ts != [] {
      var head := Enc(ts[0], vs[0], off);
      Conforms(ts[0], vs[0], off);
      FieldsConform(ts[1..], vs[1..], off + |head|);
      assert EraseAll(ts)[1..] == EraseAll(ts[1..]) && DataOfFields(ts, vs)[1..] == DataOfFields(ts[1..], vs[1..]);
    }
  }

  lemma VectorConforms(t: Type, vs: seq<Value>, off: nat)
    requires t.TArray? && WellFormed(t) && Standard(t) && HasType(VArray(vs), t) && Sized(t, VArray(vs))
    ensures Enc(t, VArray(vs), off) == Marshal(Erase(t), DatumOf(t, VArray(vs)), off)
    decreases t, 2, |vs|
  {
    hide Mask, PadLen, Gap, EncArray, EncElems, MarshalItems, Padded, Alignment;
    var e := t.elem;
    var start := off + Gap(off, 4) + 4;
    StartConforms(e, off);
    ElemsConform(t, vs, DataStart(off, ElementBoundary(e)));
    ArrayConforms(Erase(e), EncElems(t, vs, DataStart(off, ElementBoundary(e))), ElementBoundary(e), off);
  }

  lemma {:induction false} ElemsConform(t: Type, vs: seq<Value>, off: nat)
    requires t.TArray? && WellFormed(t) && Standard(t) && ElemsFit(t, vs)
    requires forall i | 0 <= i < |vs| :: Sized(t.elem, vs[i])
    ensures EncElems(t, vs, off) == MarshalItems(Erase(t.elem), DataOfElems(t, vs), off)
    decreases t, 1, |vs|
  {
    hide Enc, Marshal;
    if vs != [] {
      var head := Enc(t.elem, vs[0], off);
      Conforms(t.elem, vs[0], off);
      ElemsConform(t, vs[1..], off + |head|);
      assert DataOfElems(t, vs)[1..] == DataOfElems(t, vs[1..]);
    }
  }

  lemma MapConforms(t: Type, es: seq<Entry>, off: nat)
    requires t.TMap? && WellFormed(t) && Standard(t) && HasType(VMap(es), t) && Sized(t, VMap(es))
    ensures Enc(t, VMap(es), off) == Marshal(Erase(t), DatumOf(t, VMap(es)), off)
    decreases t, 2, |es|
  {
    hide Mask, PadLen, Gap, EncArray, EncEntries, MarshalPairs, Padded;
    var start := off + Gap(off, 4) + 4;
    var s := TStruct([TBool]);
    StartConforms(s, off);
    AlignmentOf(s);
    ElemsOfStructs(off);
    EntriesConform(t, es, DataStart(off, 8));
    ArrayConforms(Erase(s), EncEntries(t, es, DataStart(off, 8)), 8, off);
  }

  lemma ElemsOfStructs(off: nat)
    ensures WellFormed(TStruct([TBool])) && ElementBoundary(TStruct([TBool])) == 8
  {
  }

  lemma {:induction false} EntriesConform(t: Type, es: seq<Entry>, off: nat)
    requires t.TMap? && WellFormed(t) && Standard(t) && EntriesFit(t, es)
    requires forall i | 0 <= i < |es| :: Sized(t.key, es[i].key) && Sized(t.value, es[i].value)
    ensures EncEntries(t, es, off) == MarshalPairs(Erase(t.key), Erase(t.value), DataOfEntries(t, es), off)
    decreases t, 1, |es|
  {
    hide Enc, Marshal, Gap, Mask, PadLen, Padded, DatumOf, Erase, HasType, Sized;
    if es != [] {
      var head := EncEntry(t, es[0], off);
      var k := Pad(off, 8) + Enc(t.key, es[0].key, Up(off, 8));
      PaddedIs(off, 8, Enc(t.key, es[0].key, Up(off, 8)));
      Conforms(t.key, es[0].key, Up(off, 8));
      Conforms(t.value, es[0].value, off + |k|);
      EntriesConform(t, es[1..], off + |head|);
      assert DataOfEntries(t, es)[1..] == DataOfEntries(t, es[1..]);
    }
  }

  lemma VariantConforms(t: Type, v: Value, off: nat)
    requires t.TVariant? && WellFormed(t) && Standard(t) && HasType(v, t) && Sized(t, v)
    ensures Enc(t, v, off) == Marshal(Erase(t), DatumOf(t, v), off)
    decreases t, 2, 0
  {
    hide Mask, PadLen, Gap, Enc, Padded, EncSignature, Ascii, LittleEndian, Sig, Print;
    var u := Alternative(t.alternatives, v.index);
    var at := off + |VariantFront(t.isDBus, v.index, off)|;
    var sig := EncSignature(Sig(u));
    SignatureConforms(u);
    Conforms(u, v.held, at + |sig|);
    HeldConforms(t, v, off, sig);
    var held := Held(Erase(u), DatumOf(u, v.held));
    assert Marshal(Code('v'), held, at) == sig + Enc(u, v.held, at + |sig|);
    if !t.isDBus {
      IndexConforms(v.index, held, sig + Enc(u, v.held, at + |sig|), off);
    }
  }

  /** A plain variant is a structure of its index and a variant. */
  lemma IndexConforms(index: nat, held: Datum, bytes: seq<byte>, off: nat)
    requires index < 256 && bytes == Marshal(Code('v'), held, off + |VariantFront(false, index, off)|)
    ensures VariantFront(false, index, off) + bytes
         == Marshal(Struct([Code('y'), Code('v')]), Record([Number(index), held]), off)
  {
    hide Mask, PadLen, Gap, Padded;
    PadIsGap(off, 8);
    PaddedIs(off, 8, [index] + bytes);
    ByteConforms(index, Up(off, 8));
    PairOfFields(Code('y'), Code('v'), Number(index), held, Up(off, 8));
    Assoc(Pad(off, 8), [index], bytes);
  }

  lemma HeldConforms(t: Type, v: Value, off: nat, sig: seq<byte>)
    requires t.TVariant? && WellFormed(t) && HasType(v, t)
    requires sig == EncSignature(Sig(Alternative(t.alternatives, v.index)))
    ensures var front := VariantFront(t.isDBus, v.index, off);
            var u := Alternative(t.alternatives, v.index);
            Enc(t, v, off) == front + (sig + Enc(u, v.held, off + |front| + |sig|))
  {
    var front := VariantFront(t.isDBus, v.index, off);
    var u := Alternative(t.alternatives, v.index);
    Assoc(front, sig, Enc(u, v.held, off + |front| + |sig|));
  }

  // ----- what is written is a value of the signature -----

  predicate InCode(c: char, n: int)
  {
    && CodeSize(c) > 0 && (c == 'b' ==> n == 0 || n == 1)
    && if CodeSigned(c) then 0 <= 2 * n + Pow256(CodeSize(c)) && 2 * n < Pow256(CodeSize(c))
       else 0 <= n < Pow256(CodeSize(c))
  }

  /** The value is one of the single complete type: its numbers are within the range of their codes. */
  predicate Fits(c: Complete, d: Datum)
    decreases d, 1
  {
    match (c, d)
    case (Code(ch), Number(n)) => InCode(ch, n)
    case (Code(ch), Characters(_)) => ch == 's' || ch == 'o'
    case (Code(ch), Held(e, x)) => ch == 'v' && Legal(e) && |Print(e)| <= 255 && Fits(e, x)
    case (Array(e), Items(xs)) => forall i | 0 <= i < |xs| :: Fits(e, xs[i])
    case (Dict(k, w), Pairs(ps)) => forall i | 0 <= i < |ps| :: PairFits(k, w, ps[i])
    case (Struct(cs), Record(xs)) => |cs| == |xs| && forall i | 0 <= i < |xs| :: Fits(cs[i], xs[i])
    case _ => false
  }

  predicate PairFits(k: Complete, w: Complete, p: Pair)
    decreases p, 0
  {
    Fits(k, p.key) && Fits(w, p.value)
  }

  /** The code of an integer has its size, and its sign, except that there is one code for bytes. */
  lemma IntegerCodes(size: nat, signed: bool)
    requires WellFormed(TInt(size, signed))
    ensures var s := Sig(TInt(size, signed));
            |s| == 1 && CodeSize(s[0]) == CodeAlignment(s[0]) == size && (CodeSigned(s[0]) <==> signed && size > 1)
  {
  }

  lemma PlainFits(t: Type, v: Value)
    requires !t.TStruct? && !t.TArray? && !t.TMap? && !t.TVariant?
    requires WellFormed(t) && HasType(v, t)
    ensures Fits(Erase(t), DatumOf(t, v))
  {
    hide Numbers, InCode, IntCode, Unsigned, Pow256;
    Powers();
    match t
    case TBool => NumbersFit(v.b, 0, 0, 0, 0);
    case TInt(size, signed) => IntegerFits(size, signed, v.n);
    case TUnixFd(signed) => NumbersFit(true, Unsigned(v.n, 4), 0, 0, 0);
    case TRanged(_, _, _) => NumbersFit(true, 0, v.n, 0, 0);
    case TDouble(_) => NumbersFit(true, 0, 0, v.word, 0);
    case TVersion =>
      NumbersFit(true, 0, 0, 0, v.major);
      NumbersFit(true, 0, 0, 0, v.minor);
    case TBytes =>
      forall i | 0 <= i < |v.bytes| ensures Fits(Code('y'), Numbers(v.bytes)[i]) {
        NumbersAt(v.bytes, i);
        IndexFits(v.bytes[i]);
      }
    case _ =>
  }

  lemma NumbersFit(b: bool, h: nat, i: int, d: nat, u: nat)
    requires h < Pow256(4) && InRange(i, 4, true) && d < Pow256(8) && u < 0x1_0000_0000
    ensures InCode('b', if b then 1 else 0) && InCode('h', h) && InCode('i', i) && InCode('d', d) && InCode('u', u)
  {
    Powers();
  }

  lemma IntegerFits(size: nat, signed: bool, n: int)
    requires WellFormed(TInt(size, signed)) && InRange(n, size, signed)
    ensures InCode(IntCode(size, signed), if size == 1 then Unsigned(n, 1) else n)
  {
    Powers();
  }

  lemma {:induction false} NumbersAt(bs: seq<byte>, i: nat)
    requires i < |bs|
    ensures Numbers(bs)[i] == Number(bs[i])
  {
    if i > 0 {
      NumbersAt(bs[1..], i - 1);
    }
  }

  /** Whatever is written under a signature is a value of that signature. */
  lemma {:induction false} DatumFits(t: Type, v: Value)
    requires WellFormed(t) && HasType(v, t) && Sized(t, v)
    ensures Fits(Erase(t), DatumOf(t, v))
    decreases t, 2, 0
  {
    hide InCode, Print, Legal, Sig, FieldsSized, FieldsHaveType, DistinctKeys, Numbers, Unsigned, InRange;
    match t
    case TStruct(ts) => FieldsFit(ts, v.fields);
    case TArray(_) => ElemsAllFit(t, v.elems);
    case TMap(_, _) => EntriesAllFit(t, v.entries);
    case TVariant(isDBus, alts) =>
      var u := Alternative(alts, v.index);
      DatumFits(u, v.held);
      SigIsPrint(u);
      IndexFits(v.index);
    case _ => PlainFits(t, v);
  }

  lemma IndexFits(n: nat)
    requires n < 256
    ensures InCode('y', n)
  {
    Powers();
  }

  lemma {:induction false} FieldsFit(ts: seq<Type>, vs: seq<Value>)
    requires (forall i | 0 <= i < |ts| :: WellFormed(ts[i])) && FieldsHaveType(vs, ts) && FieldsSized(ts, vs)
    ensures forall i | 0 <= i < |ts| :: Fits(EraseAll(ts)[i], DataOfFields(ts, vs)[i])
    decreases ts, 0, 0
  {
    hide Fits;
    if ts != [] {
      DatumFits(ts[0], vs[0]);
      FieldsFit(ts[1..], vs[1..]);
      assert EraseAll(ts)[1..] == EraseAll(ts[1..]) && DataOfFields(ts, vs)[1..] == DataOfFields(ts[1..], vs[1..]);
      forall i | 0 < i < |ts| ensures Fits(EraseAll(ts)[i], DataOfFields(ts, vs)[i]) {
        assert EraseAll(ts)[i] == EraseAll(ts)[1..][i - 1] && DataOfFields(ts, vs)[i] == DataOfFields(ts, vs)[1..][i - 1];
      }
    }
  }

  lemma {:induction false} ElemsAllFit(t: Type, vs: seq<Value>)
    requires t.TArray? && WellFormed(t) && ElemsFit(t, vs) && forall i | 0 <= i < |vs| :: Sized(t.elem, vs[i])
    ensures forall i | 0 <= i < |vs| :: Fits(Erase(t.elem), DataOfElems(t, vs)[i])
    decreases t, 1, |vs|
  {
    hide Fits;
    if vs != [] {
      DatumFits(t.elem, vs[0]);
      ElemsAllFit(t, vs[1..]);
      assert DataOfElems(t, vs)[1..] == DataOfElems(t, vs[1..]);
      forall i | 0 < i < |vs| ensures Fits(Erase(t.elem), DataOfElems(t, vs)[i]) {
        assert DataOfElems(t, vs)[i] == DataOfElems(t, vs)[1..][i - 1];
      }
    }
  }

  lemma {:induction false} EntriesAllFit(t: Type, es: seq<Entry>)
    requires t.TMap? && WellFormed(t) && EntriesFit(t, es)
    requires forall i | 0 <= i < |es| :: Sized(t.key, es[i].key) && Sized(t.value, es[i].value)
    ensures forall i | 0 <= i < |es| :: PairFits(Erase(t.key), Erase(t.value), DataOfEntries(t, es)[i])
    decreases t, 1, |es|
  {
    hide Fits;
    if es != [] {
      DatumFits(t.key, es[0].key);
      DatumFits(t.value, es[0].value);
      EntriesAllFit(t, es[1..]);
      assert DataOfEntries(t, es)[1..] == DataOfEntries(t, es[1..]);
      forall i | 0 < i < |es| ensures PairFits(Erase(t.key), Erase(t.value), DataOfEntries(t, es)[i]) {
        assert DataOfEntries(t, es)[i] == DataOfEntries(t, es)[1..][i - 1];
      }
    }
  }

  // ----- instances -----

  /** The text that is emitted for each kind of type. */
  lemma Signatures()
    ensures Sig(TBool) == "b" && Sig(TDouble(false)) == Sig(TDouble(true)) == "d" && Sig(TUnixFd(true)) == "h"
    ensures Sig(TString(false)) == "s" && Sig(TString(true)) == "o" && Sig(TBytes) == "ay" && Sig(TVersion) == "(uu)"
    ensures Sig(TInt(1, true)) == Sig(TInt(1, false)) == "y"
    ensures Sig(TInt(2, true)) == "n" && Sig(TInt(2, false)) == "q"
    ensures Sig(TInt(4, true)) == "i" && Sig(TInt(4, false)) == "u"
    ensures Sig(TInt(8, true)) == "x" && Sig(TInt(8, false)) == "t"
    ensures forall alts :: Sig(TVariant(true, alts)) == "v" && Sig(TVariant(false, alts)) == "(yv)"
    ensures Sig(TMap(TInt(4, false), TArray(TString(false)))) == "a{uas}"
    ensures Sig(TStruct([TBool, TStruct([TInt(8, true)])])) == "(b(x))"
  {
    SigOfStruct();
  }

  lemma SigOfStruct()
    ensures SigFields([TInt(8, true)]) == "x" && SigFields([TBool, TStruct([TInt(8, true)])]) == "b(x)"
  {
    assert [TInt(8, true)][1..] == [];
    var inner := TStruct([TInt(8, true)]);
    assert [TBool, inner][1..] == [inner] && [inner][1..] == [];
    assert Sig(inner) == "(x)";
    assert SigFields([inner]) == "(x)" + "";
  }

  /** A vector with one structure that holds a 1: the padding before the structure is not part of the length. */
  lemma StructVector()
    ensures var t, v := TArray(TStruct([TInt(4, true)])), VArray([VStruct([VInt(1)])]);
            HasType(v, t) && Enc(t, v, 0) == [4, 0, 0, 0, 0, 0, 0, 0, 1, 0, 0, 0]
  {
    hide Mask, PadLen, Enc, EncFields;
    var e, x := TStruct([TInt(4, true)]), VStruct([VInt(1)]);
    var t := TArray(e);
    OneField(1, 8);
    assert EncElems(t, [x], 8) == Enc(e, x, 8) + [];
    Words(4);
    OneVector(t, VArray([x]), 0, [1, 0, 0, 0]);
  }

  lemma Words(n: byte)
    ensures Little(n, 4) == [n, 0, 0, 0]
  {
    assert Little(0, 0) == [] && Little(0, 1) == [0] && Little(0, 2) == [0, 0] && Little(0, 3) == [0, 0, 0];
  }

  lemma OneField(n: byte, off: nat)
    requires off % 8 == 0
    ensures var e, x := TStruct([TInt(4, true)]), VStruct([VInt(n)]);
            HasType(x, e) && Enc(e, x, off) == [n, 0, 0, 0]
  {
    hide Mask, PadLen;
    Powers();
    PadIsGap(off, 8);
    PadIsGap(off, 4);
    Words(n);
    var i, w := TInt(4, true), VInt(n);
    assert [i][1..] == [] && [w][1..] == [];
    assert FieldsHaveType([w], [i]);
    assert Enc(i, w, off) == [n, 0, 0, 0];
    assert EncFields([i], [w], off) == [n, 0, 0, 0] + EncFields([], [], off + 4);
  }

  lemma OneVector(t: Type, v: Value, off: nat, data: seq<byte>)
    requires t.TArray? && t.elem.TStruct? && WellFormed(t) && HasType(v, t) && |data| == 4 && off == 0
    requires EncElems(t, v.elems, 8) == data
    ensures Enc(t, v, off) == [4, 0, 0, 0, 0, 0, 0, 0] + data
  {
    hide Mask, PadLen, EncArray, EncElems, DataStart;
    ArrayBytes(data, off);
    StartAt8(off);
  }

  lemma StartAt8(off: nat)
    requires off == 0
    ensures DataStart(off, 8) == 8
  {
  }

  lemma ArrayBytes(data: seq<byte>, off: nat)
    requires (|data| == 4 || |data| == 0) && off == 0
    ensures EncArray(data, 8, off) == [|data|, 0, 0, 0] + [0, 0, 0, 0] + data
  {
    hide Mask, PadLen, Little;
    PadIsGap(off, 4);
    PadIsGap(4, 8);
    Words(|data|);
    assert Zeros(0) + [|data|, 0, 0, 0] == [|data|, 0, 0, 0];
    assert Zeros(4) == [0, 0, 0, 0];
  }

  /** The writer aligns the elements of a vector of D-Bus variants, where the Specification does not. */
  lemma VariantVector()
    ensures var t, v := TArray(TVariant(true, [TBool])), VArray([]);
            && HasType(v, t) && Enc(t, v, 0) == [0, 0, 0, 0, 0, 0, 0, 0]
            && Marshal(Erase(t), DatumOf(t, v), 0) == [0, 0, 0, 0]
  {
    hide Enc, Marshal;
    EmptyVector(TArray(TVariant(true, [TBool])), VArray([]), 0);
  }

  lemma EmptyVector(t: Type, v: Value, off: nat)
    requires t.TArray? && WellFormed(t) && HasType(v, t) && t.elem.TVariant? && t.elem.isDBus && v.elems == [] && off == 0
    ensures Enc(t, v, off) == [0, 0, 0, 0, 0, 0, 0, 0]
    ensures Marshal(Erase(t), DatumOf(t, v), off) == [0, 0, 0, 0]
  {
    hide Mask, PadLen, EncArray, DataStart;
    ArrayBytes([], off);
    EmptyItems(Code('v'), off);
  }

  lemma EmptyItems(e: Complete, off: nat)
    requires e == Code('v') && off == 0
    ensures Marshal(Array(e), Items([]), off) == [0, 0, 0, 0]
  {
    hide LittleEndian, Gap, Padded, Alignment, MarshalItems;
    NoGaps();
    NoItems(e);
    EmptyArray();
  }

  lemma NoItems(e: Complete)
    ensures forall off :: MarshalItems(e, [], off) == []
  {
  }

  lemma EmptyArray()
    ensures Padded(0, 4, LittleEndian(0, 4) + Padded(4, 1, [])) == [0, 0, 0, 0]
  {
    hide LittleEndian, Gap;
    LittleIs(0, 4);
    Words(0);
    NoGaps();
    assert Padded(4, 1, []) == Zeros(0) + [] == [];
    assert LittleEndian(0, 4) + [] == [0, 0, 0, 0];
    assert Padded(0, 4, [0, 0, 0, 0]) == Zeros(0) + [0, 0, 0, 0] == [0, 0, 0, 0];
  }

  lemma NoGaps()
    ensures Gap(0, 4) == 0 && Gap(4, 1) == 0 && Alignment(Code('v')) == 1
  {
  }
}
