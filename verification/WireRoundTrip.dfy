/**
  Reading back what was written: the decoder inverts the encoder at every offset, for every type and every
  iteration order of the maps, exactly for the values that `Clean` describes.
 */
module WireRoundTrip {
  import opened Common
  import opened WireTypes
  import opened WireFormat
  import opened WireErrors
  import opened WireOutput
  import opened WireInput
  import Signature

  /** The held alternative's signature fits its length byte, and no earlier alternative has the same. */
  predicate Distinguished(alts: seq<Type>, index: nat)
    requires 1 <= index <= |alts|
  {
    && |Signature.Sig(Alternative(alts, index))| <= 255
    && forall j | 0 <= j < |alts| - index :: Signature.Sig(alts[j]) != Signature.Sig(Alternative(alts, index))
  }

  /** What a writer can check: strings without NUL, D-Bus variants whose alternative its signature identifies. */
  predicate Clean(v: Value, t: Type)
    requires HasType(v, t)
    decreases t
  {
    match t
    case TString(_) => 0 !in v.chars && |v.chars| < 0xFFFF_FFFF
    case TRanged(min, max, initial) => min <= initial <= max
    case TStruct(ts) => CleanFields(v.fields, ts)
    case TArray(e) => forall i | 0 <= i < |v.elems| :: Clean(v.elems[i], e)
    case TMap(k, w) => forall i | 0 <= i < |v.entries| :: Clean(v.entries[i].key, k) && Clean(v.entries[i].value, w)
    case TVariant(isDBus, alts) =>
      (isDBus ==> Distinguished(alts, v.index)) && Clean(v.held, Alternative(alts, v.index))
    case _ => true
  }

  predicate CleanFields(vs: seq<Value>, ts: seq<Type>)
    requires FieldsHaveType(vs, ts)
    decreases ts
  {
    ts == [] || (Clean(vs[0], ts[0]) && CleanFields(vs[1..], ts[1..]))
  }

  /** `bs` stands in the body at `pos`. */
  predicate At(body: seq<byte>, pos: nat, bs: seq<byte>)
  {
    pos + |bs| <= |body| && body[pos..pos + |bs|] == bs
  }

  lemma AtSplit(body: seq<byte>, pos: nat, a: seq<byte>, b: seq<byte>)
    requires At(body, pos, a + b)
    ensures At(body, pos, a) && At(body, pos + |a|, b)
  {
    var ab := body[pos..pos + |a + b|];
    assert body[pos..pos + |a|] == ab[..|a|] == a;
    assert body[pos + |a|..pos + |a| + |b|] == ab[|a|..] == b;
  }

  lemma WordBack(n: nat, size: nat, body: seq<byte>, cur: nat)
    requires Boundary(size) && n < Pow256(size) && |body| < 0x8000_0000
    requires At(body, cur, EncWord(n, size, cur))
    ensures InBody(body, cur) && DecWord(size, body, cur) == Ok(n, Up(cur, size) + size)
  {
    hide Mask, PadLen;
    AtSplit(body, cur, Pad(cur, size), Little(n, size));
    LittleRoundTrip(n, size);
  }

  lemma {:induction false} CStringBack(s: seq<byte>, body: seq<byte>, cur: nat)
    requires 0 !in s && At(body, cur, s + [0])
    ensures CString(body, cur) == s
  {
    if s == [] {
      assert body[cur] == (s + [0])[0];
    } else {
      assert s + [0] == [s[0]] + (s[1..] + [0]);
      AtSplit(body, cur, [s[0]], s[1..] + [0]);
      assert body[cur] == [s[0]][0];
      CStringBack(s[1..], body, cur + 1);
    }
  }

  lemma EncStringShape(s: seq<byte>, cur: nat)
    requires |s| < 0xFFFF_FFFF
    ensures EncString(s, cur) == EncWord(|s|, 4, cur) + (s + [0])
  {
    hide EncWord;
    assert (s + [0])[..|s| + 1] == s + [0];
  }

  lemma StringBack(s: seq<byte>, body: seq<byte>, cur: nat)
    requires 0 !in s && |s| < 0xFFFF_FFFF && |body| < 0x8000_0000
    requires At(body, cur, EncString(s, cur))
    ensures InBody(body, cur) && DecString(body, cur) == Ok(s, cur + |EncString(s, cur)|)
  {
    hide Mask, PadLen, DecWord, EncWord, CString;
    var text := s + [0];
    EncStringShape(s, cur);
    AtSplit(body, cur, EncWord(|s|, 4, cur), text);
    PowersOf256();
    WordBack(|s|, 4, body, cur);
    WordLength(|s|, 4, cur);
    CStringBack(s, body, cur + |EncWord(|s|, 4, cur)|);
  }

  lemma PowersOf256()
    ensures Pow256(1) == 0x100 && Pow256(2) == 0x1_0000 && Pow256(4) == 0x1_0000_0000
  {
    assert Pow256(0) == 1;
    assert Pow256(3) == 0x100_0000;
  }

  lemma SignatureBack(sig: string, body: seq<byte>, cur: nat)
    requires |body| < 0x8000_0000 && At(body, cur, EncSignature(sig))
    ensures InBody(body, cur)
    ensures var d := DecSignature(body, cur);
            && d.Ok? && d.next == cur + |EncSignature(sig)|
            && (|sig| <= 255 ==> d.value == Ascii(sig))
  {
    hide Mask, PadLen, DecWord, EncWord;
    var len := |sig| % 256;
    var text := (Ascii(sig) + [0])[..len + 1];
    AtSplit(body, cur, [len], text);
    PowersOf256();
    OneByte(len, cur);
    WordBack(len, 1, body, cur);
    assert body[cur + 1..cur + 1 + (len + 1)] == text;
    assert |sig| <= 255 ==> text[..len] == Ascii(sig);
  }

  lemma {:induction false} SigIsAscii(t: Type)
    requires WellFormed(t)
    ensures forall c | c in Signature.Sig(t) :: c < 128 as char
    decreases t, 1
  {
    match t
    case TStruct(ts) => SigFieldsAreAscii(ts);
    case TArray(e) => SigIsAscii(e);
    case TMap(k, w) => SigIsAscii(k); SigIsAscii(w);
    case _ =>
  }

  lemma {:induction false} SigFieldsAreAscii(ts: seq<Type>)
    requires forall i | 0 <= i < |ts| :: WellFormed(ts[i])
    ensures forall c | c in Signature.SigFields(ts) :: c < 128 as char
    decreases ts, 0
  {
    if ts != [] {
      SigIsAscii(ts[0]);
      SigFieldsAreAscii(ts[1..]);
    }
  }

  /** A signature comes back as the characters that were written. */
  lemma TextOfAscii(t: Type)
    requires WellFormed(t)
    ensures Text(Ascii(Signature.Sig(t))) == Signature.Sig(t)
  {
    hide Signature.Sig;
    SigIsAscii(t);
    AsciiIsText(Signature.Sig(t));
  }

  lemma AsciiIsText(s: string)
    requires forall c | c in s :: c as nat < 256
    ensures Text(Ascii(s)) == s
  {
    forall i | 0 <= i < |s| ensures Text(Ascii(s))[i] == s[i] {
      assert s[i] in s;
    }
  }

  /** On the wire the first alternative with the writer's signature is the writer's, if it is distinguished. */
  lemma FindsWriter(alts: seq<Type>, index: nat)
    requires forall i | 0 <= i < |alts| :: WellFormed(alts[i])
    requires 1 <= index <= |alts| && Distinguished(alts, index)
    ensures Signature.FirstMatch(Text(Ascii(Signature.Sig(Alternative(alts, index)))), alts) == |alts| - index
  {
    TextOfAscii(Alternative(alts, index));
  }

  // ----- clean values come back -----

  lemma {:induction false} Back(t: Type, v: Value, body: seq<byte>, cur: nat)
    requires WellFormed(t) && HasType(v, t) && Clean(v, t) && |body| < 0x8000_0000
    requires At(body, cur, Enc(t, v, cur))
    ensures InBody(body, cur) && Dec(t, body, cur) == Ok(v, cur + |Enc(t, v, cur)|)
    decreases t, 3, 0
  {
    hide Mask, PadLen, DecWord, EncWord, DecSignature, EncString, EncArray, EncFields, DecFields, VariantHead,
         DecVariant, DecDBusVariant, DecVector, DecMap, EncElems, EncEntries, InRange;
    match t
    case TStruct(ts) =>
      AtSplit(body, cur, Pad(cur, 8), EncFields(ts, v.fields, Up(cur, 8)));
      FieldsBack(ts, v.fields, body, Up(cur, 8));
    case TArray(_) => VectorBack(t, v.elems, body, cur);
    case TMap(_, _) => MapBack(t, v.entries, body, cur);
    case TVariant(_, _) => VariantBack(t, v, body, cur);
    case _ => PlainBack(t, v, body, cur);
  }

  lemma PlainBack(t: Type, v: Value, body: seq<byte>, cur: nat)
    requires !t.TStruct? && !t.TArray? && !t.TMap? && !t.TVariant?
    requires WellFormed(t) && HasType(v, t) && Clean(v, t) && |body| < 0x8000_0000
    requires At(body, cur, Enc(t, v, cur))
    ensures InBody(body, cur) && Dec(t, body, cur) == Ok(v, cur + |Enc(t, v, cur)|)
  {
    hide Mask, PadLen, DecWord, EncWord, EncString, EncArray, InRange;
    PowersOf256();
    match t
    case TBool => WordBack(if v.b then 1 else 0, 4, body, cur); WordLength(if v.b then 1 else 0, 4, cur);
    case TInt(size, signed) =>
      WordBack(Unsigned(v.n, size), size, body, cur);
      WordLength(Unsigned(v.n, size), size, cur);
      SignedRoundTrip(v.n, size, signed);
    case TUnixFd(signed) =>
      WordBack(Unsigned(v.n, 4), 4, body, cur);
      WordLength(Unsigned(v.n, 4), 4, cur);
      SignedRoundTrip(v.n, 4, signed);
    case TRanged(_, _, _) =>
      WordBack(Unsigned(v.n, 4), 4, body, cur);
      WordLength(Unsigned(v.n, 4), 4, cur);
      SignedRoundTrip(v.n, 4, true);
    case TDouble(_) => WordBack(v.word, 8, body, cur); WordLength(v.word, 8, cur);
    case TString(_) => StringBack(v.chars, body, cur);
    case TVersion => VersionBack(v, body, cur);
    case TBytes => BytesBack(v.bytes, body, cur);
  }

  lemma WordLength(n: nat, size: nat, cur: nat)
    requires Boundary(size)
    ensures cur + |EncWord(n, size, cur)| == Up(cur, size) + size
  {
  }

  lemma VersionBack(v: Value, body: seq<byte>, cur: nat)
    requires HasType(v, TVersion) && |body| < 0x8000_0000 && At(body, cur, Enc(TVersion, v, cur))
    ensures InBody(body, cur) && DecVersion(body, cur) == Ok(v, cur + |Enc(TVersion, v, cur)|)
  {
    hide Mask, PadLen, DecWord, EncWord;
    PowersOf256();
    var at := Up(cur, 8);
    var pad, major, minor := Pad(cur, 8), EncWord(v.major, 4, at), EncWord(v.minor, 4, at + 4);
    AtSplit(body, cur, pad + major, minor);
    AtSplit(body, cur, pad, major);
    UpOfAligned(cur, 4);
    WordLength(v.major, 4, at);
    WordLength(v.minor, 4, at + 4);
    WordBack(v.major, 4, body, at);
    WordBack(v.minor, 4, body, at + 4);
  }

  /** An array's length and padding come back; what is left is its bytes. */
  lemma ArrayHead(data: seq<byte>, b: nat, body: seq<byte>, cur: nat)
    requires Boundary(b) && |body| < 0x8000_0000 && At(body, cur, EncArray(data, b, cur))
    ensures InBody(body, cur) && DecWord(4, body, cur) == Ok(|data|, Up(cur, 4) + 4)
    ensures At(body, DataStart(cur, b), data)
    ensures cur + |EncArray(data, b, cur)| == DataStart(cur, b) + |data|
  {
    hide Mask, PadLen, DecWord, EncWord;
    PowersOf256();
    var length, gap := EncWord(Low32(|data|), 4, cur), Pad(Up(cur, 4) + 4, b);
    AtSplit(body, cur, length + gap, data);
    AtSplit(body, cur, length, gap);
    WordLength(Low32(|data|), 4, cur);
    WordBack(|data|, 4, body, cur);
  }

  lemma BytesBack(bytes: seq<byte>, body: seq<byte>, cur: nat)
    requires |body| < 0x8000_0000 && At(body, cur, EncArray(bytes, 1, cur))
    ensures InBody(body, cur) && DecBytes(body, cur) == Ok(bytes, cur + |EncArray(bytes, 1, cur)|)
  {
    hide PadLen, DecWord, EncWord, EncArray;
    ArrayHead(bytes, 1, body, cur);
    assert DataStart(cur, 1) == Up(cur, 4) + 4 by {
      UpOfAligned(Up(cur, 4) + 4, 1);
    }
  }

  lemma {:induction false} FieldsBack(ts: seq<Type>, vs: seq<Value>, body: seq<byte>, cur: nat)
    requires (forall i | 0 <= i < |ts| :: WellFormed(ts[i])) && FieldsHaveType(vs, ts) && CleanFields(vs, ts)
    requires |body| < 0x8000_0000 && At(body, cur, EncFields(ts, vs, cur)) && InBody(body, cur)
    ensures DecFields(ts, body, cur) == Ok(vs, cur + |EncFields(ts, vs, cur)|)
    decreases ts, 0, 0
  {
    hide Mask, PadLen, Dec, Enc;
    if ts != [] {
      var head := Enc(ts[0], vs[0], cur);
      AtSplit(body, cur, head, EncFields(ts[1..], vs[1..], cur + |head|));
      Back(ts[0], vs[0], body, cur);
      FieldsBack(ts[1..], vs[1..], body, cur + |head|);
      assert [vs[0]] + vs[1..] == vs;
    }
  }

  lemma VectorBack(t: Type, vs: seq<Value>, body: seq<byte>, cur: nat)
    requires t.TArray? && WellFormed(t) && ElemsFit(t, vs) && |body| < 0x8000_0000
    requires forall i | 0 <= i < |vs| :: Clean(vs[i], t.elem)
    requires var b := ElementBoundary(t.elem); At(body, cur, EncArray(EncElems(t, vs, DataStart(cur, b)), b, cur))
    ensures InBody(body, cur)
    ensures var b := ElementBoundary(t.elem);
            DecVector(t, body, cur) == Ok(vs, cur + |EncArray(EncElems(t, vs, DataStart(cur, b)), b, cur)|)
    decreases t, 2, 0
  {
    hide Mask, PadLen, Up, Dec, Enc, DecWord, EncArray, ElementBoundary;
    var b := ElementBoundary(t.elem);
    var start := DataStart(cur, b);
    var data := EncElems(t, vs, start);
    ArrayHead(data, b, body, cur);
    ElemsBack(t, vs, body, start, start, |data|, []);
    assert [] + vs == vs;
  }

  lemma {:induction false} ElemsBack(t: Type, vs: seq<Value>, body: seq<byte>, cur: nat, start: nat, size: nat,
                                     acc: seq<Value>)
    requires t.TArray? && WellFormed(t) && ElemsFit(t, vs) && |body| < 0x8000_0000 && InBody(body, cur) && start <= cur
    requires forall i | 0 <= i < |vs| :: Clean(vs[i], t.elem)
    requires At(body, cur, EncElems(t, vs, cur)) && start + size == cur + |EncElems(t, vs, cur)|
    ensures DecElems(t, body, cur, start, size, acc) == Ok(acc + vs, cur + |EncElems(t, vs, cur)|)
    decreases t, 1, |vs|
  {
    hide Mask, PadLen, Up, Dec, Enc;
    if vs == [] {
      assert acc + vs == acc;
    } else {
      var head := Enc(t.elem, vs[0], cur);
      AtSplit(body, cur, head, EncElems(t, vs[1..], cur + |head|));
      Back(t.elem, vs[0], body, cur);
      ElemsBack(t, vs[1..], body, cur + |head|, start, size, acc + [vs[0]]);
      assert acc + [vs[0]] + vs[1..] == acc + vs;
    }
  }

  lemma MapBack(t: Type, es: seq<Entry>, body: seq<byte>, cur: nat)
    requires t.TMap? && WellFormed(t) && EntriesFit(t, es) && DistinctKeys(es) && |body| < 0x8000_0000
    requires forall i | 0 <= i < |es| :: Clean(es[i].key, t.key) && Clean(es[i].value, t.value)
    requires At(body, cur, EncArray(EncEntries(t, es, DataStart(cur, 8)), 8, cur))
    ensures InBody(body, cur)
    ensures DecMap(t, body, cur) == Ok(es, cur + |EncArray(EncEntries(t, es, DataStart(cur, 8)), 8, cur)|)
    decreases t, 2, 0
  {
    hide Mask, PadLen, Up, Dec, Enc, EncEntries, DecEntries, DecWord, EncArray, HasType, WellFormed, Clean;
    var start := DataStart(cur, 8);
    var data := EncEntries(t, es, start);
    ArrayHead(data, 8, body, cur);
    assert [] + es == es;
    AtInBody(body, start, data);
    EntriesBack(t, es, body, start, start, |data|, []);
    assert DecEntries(t, body, start, start, |data|, []) == Ok(es, start + |data|);
  }

  lemma EntryBack(t: Type, e: Entry, body: seq<byte>, cur: nat)
    requires t.TMap? && WellFormed(t) && HasType(e.key, t.key) && HasType(e.value, t.value)
    requires Clean(e.key, t.key) && Clean(e.value, t.value)
    requires |body| < 0x8000_0000 && InBody(body, cur) && At(body, cur, EncEntry(t, e, cur))
    ensures InBody(body, Up(cur, 8)) && Dec(t.key, body, Up(cur, 8)).Ok?
    ensures var k := Dec(t.key, body, Up(cur, 8));
            k.value == e.key && Dec(t.value, body, k.next) == Ok(e.value, cur + |EncEntry(t, e, cur)|)
    decreases t, 0, 0
  {
    hide Mask, PadLen, Dec, Enc;
    var pad, k := Pad(cur, 8), Enc(t.key, e.key, Up(cur, 8));
    var w := Enc(t.value, e.value, cur + |pad + k|);
    AtSplit(body, cur, pad + k, w);
    AtSplit(body, cur, pad, k);
    Back(t.key, e.key, body, Up(cur, 8));
    Back(t.value, e.value, body, cur + |pad + k|);
  }

  lemma {:induction false} EntriesBack(t: Type, es: seq<Entry>, body: seq<byte>, cur: nat, start: nat, size: nat,
                                       acc: seq<Entry>)
    requires t.TMap? && WellFormed(t) && EntriesFit(t, es) && |body| < 0x8000_0000 && InBody(body, cur) && start <= cur
    requires forall i | 0 <= i < |es| :: Clean(es[i].key, t.key) && Clean(es[i].value, t.value)
    requires DistinctKeys(acc + es) && DistinctKeys(acc)
    requires At(body, cur, EncEntries(t, es, cur)) && start + size == cur + |EncEntries(t, es, cur)|
    ensures DecEntries(t, body, cur, start, size, acc) == Ok(acc + es, cur + |EncEntries(t, es, cur)|)
    decreases t, 1, |es|
  {
    hide Mask, PadLen, Up, Dec, Enc, EncEntry, Insert, HasType, WellFormed, Clean, DistinctKeys;
    if es == [] {
      assert acc + es == acc;
    } else {
      var head := EncEntry(t, es[0], cur);
      AtSplit(body, cur, head, EncEntries(t, es[1..], cur + |head|));
      EntryBack(t, es[0], body, cur);
      InsertNew(acc, es);
      EntriesBack(t, es[1..], body, cur + |head|, start, size, acc + [es[0]]);
      assert acc + [es[0]] + es[1..] == acc + es;
    }
  }

  lemma InsertNew(acc: seq<Entry>, es: seq<Entry>)
    requires es != [] && DistinctKeys(acc + es) && DistinctKeys(acc)
    ensures Insert(acc, es[0].key, es[0].value) == acc + [es[0]]
    ensures DistinctKeys(acc + [es[0]] + es[1..])
  {
    assert acc + [es[0]] + es[1..] == acc + es;
    forall i | 0 <= i < |acc|
      ensures acc[i].key != es[0].key
    {
      assert (acc + es)[i] == acc[i] && (acc + es)[|acc|] == es[0];
    }
  }

  lemma VariantBack(t: Type, v: Value, body: seq<byte>, cur: nat)
    requires t.TVariant? && WellFormed(t) && HasType(v, t) && Clean(v, t) && |body| < 0x8000_0000
    requires At(body, cur, Enc(t, v, cur))
    ensures InBody(body, cur)
    ensures (if t.isDBus then DecDBusVariant(t, body, cur) else DecVariant(t, body, cur)) == Ok(v, cur + |Enc(t, v, cur)|)
    decreases t, 2, 0
  {
    hide Mask, PadLen, DecWord, EncWord, DecSignature, VariantHead, DecDBusVariant, DecVariant, Distinguished, Dec,
         At, Enc, Clean;
    VariantIsParts(t, v, cur);
    CleanVariant(t, v);
    var alt, head := Alternative(t.alternatives, v.index), VariantHead(t, v, cur);
    AtSplit(body, cur, head, Enc(alt, v.held, cur + |head|));
    Back(alt, v.held, body, cur + |head|);
    HeadBack(t, v, body, cur);
    if t.isDBus {
      DBusVariantRead(t, v, body, cur);
    } else {
      VariantRead(t, v, body, cur);
    }
  }

  lemma CleanVariant(t: Type, v: Value)
    requires t.TVariant? && WellFormed(t) && HasType(v, t) && Clean(v, t)
    ensures WellFormed(Alternative(t.alternatives, v.index)) && Clean(v.held, Alternative(t.alternatives, v.index))
    ensures t.isDBus ==> Distinguished(t.alternatives, v.index)
    ensures t.isDBus ==> |Signature.Sig(Alternative(t.alternatives, v.index))| <= 255
  {
  }

  lemma VariantIsParts(t: Type, v: Value, cur: nat)
    requires t.TVariant? && WellFormed(t) && HasType(v, t)
    ensures WellFormed(Alternative(t.alternatives, v.index)) && HasType(v.held, Alternative(t.alternatives, v.index))
    ensures var head := VariantHead(t, v, cur);
            Enc(t, v, cur) == head + Enc(Alternative(t.alternatives, v.index), v.held, cur + |head|)
  {
    hide VariantHead;
  }

  lemma HeadBack(t: Type, v: Value, body: seq<byte>, cur: nat)
    requires t.TVariant? && WellFormed(t) && HasType(v, t) && |body| < 0x8000_0000 && At(body, cur, VariantHead(t, v, cur))
    ensures InBody(body, cur) && (!t.isDBus ==> At(body, Up(cur, 8), [v.index]))
    ensures var sig := Signature.Sig(Alternative(t.alternatives, v.index));
            var start := if t.isDBus then cur else Up(cur, 8) + 1;
            && InBody(body, start)
            && DecSignature(body, start).Ok?
            && DecSignature(body, start).next == cur + |VariantHead(t, v, cur)|
            && (|sig| <= 255 ==> DecSignature(body, start).value == Ascii(sig))
  {
    hide Mask, PadLen, DecSignature, EncSignature, At;
    var sig := Signature.Sig(Alternative(t.alternatives, v.index));
    var front := VariantFront(t.isDBus, v.index, cur);
    AtSplit(body, cur, front, EncSignature(sig));
    SignatureBack(sig, body, cur + |front|);
    if t.isDBus {
      assert front == [];
    } else {
      AtSplit(body, cur, Pad(cur, 8), [v.index]);
    }
    AtInBody(body, cur, front);
  }

  lemma AtInBody(body: seq<byte>, pos: nat, bs: seq<byte>)
    requires |body| < 0x8000_0000 && At(body, pos, bs)
    ensures InBody(body, pos) && InBody(body, pos + |bs|)
  {
    hide Mask, PadLen;
  }

  lemma DBusVariantRead(t: Type, v: Value, body: seq<byte>, cur: nat)
    requires t.TVariant? && WellFormed(t) && HasType(v, t) && Distinguished(t.alternatives, v.index) && InBody(body, cur)
    requires var s := DecSignature(body, cur);
             s.Ok? && s.value == Ascii(Signature.Sig(Alternative(t.alternatives, v.index)))
    requires Dec(Alternative(t.alternatives, v.index), body, DecSignature(body, cur).next).Ok?
    ensures var held := Dec(Alternative(t.alternatives, v.index), body, DecSignature(body, cur).next);
            DecDBusVariant(t, body, cur) == Ok(VVariant(v.index, held.value), held.next)
  {
    hide DecSignature, Signature.FirstMatch, Dec, Text;
    FindsWriter(t.alternatives, v.index);
  }

  lemma VariantRead(t: Type, v: Value, body: seq<byte>, cur: nat)
    requires t.TVariant? && WellFormed(t) && HasType(v, t) && |body| < 0x8000_0000 && InBody(body, cur)
    requires At(body, Up(cur, 8), [v.index])
    requires DecSignature(body, Up(cur, 8) + 1).Ok?
    requires Dec(Alternative(t.alternatives, v.index), body, DecSignature(body, Up(cur, 8) + 1).next).Ok?
    ensures var held := Dec(Alternative(t.alternatives, v.index), body, DecSignature(body, Up(cur, 8) + 1).next);
            DecVariant(t, body, cur) == Ok(VVariant(v.index, held.value), held.next)
  {
    hide Mask, PadLen, DecWord, EncWord, DecSignature, Dec;
    PowersOf256();
    OneByte(v.index, Up(cur, 8));
    WordBack(v.index, 1, body, Up(cur, 8));
  }

  // ----- only clean values come back -----

  /** Whatever a body holds, a well-typed value that is read from it is clean. */
  lemma {:induction false} ReadIsClean(t: Type, body: seq<byte>, cur: nat)
    requires WellFormed(t) && InBody(body, cur)
    requires Dec(t, body, cur).Ok? && HasType(Dec(t, body, cur).value, t)
    ensures Clean(Dec(t, body, cur).value, t)
    decreases t, 2, 0
  {
    hide Mask, PadLen, Up, DecWord, DecSignature, DecDBusVariant, DecVariant;
    match t
    case TString(_) => CStringFits(body, cur);
    case TStruct(ts) => FieldsAreClean(ts, body, Skip(cur, body, 8));
    case TArray(e) =>
      var size := DecWord(4, body, cur);
      var start := Skip(size.next, body, ElementBoundary(e));
      ElemsAreClean(t, body, start, start, size.value, []);
    case TMap(_, _) =>
      var size := DecWord(4, body, cur);
      var start := Skip(size.next, body, 8);
      EntriesAreClean(t, body, start, start, size.value, []);
    case TVariant(isDBus, _) =>
      if isDBus {
        DBusVariantIsClean(t, body, cur);
      } else {
        VariantIsClean(t, body, cur);
      }
    case _ =>
  }

  lemma DBusVariantIsClean(t: Type, body: seq<byte>, cur: nat)
    requires t.TVariant? && t.isDBus && WellFormed(t) && InBody(body, cur)
    requires DecDBusVariant(t, body, cur).Ok? && HasType(DecDBusVariant(t, body, cur).value, t)
    ensures Clean(DecDBusVariant(t, body, cur).value, t)
    decreases t, 1, 0
  {
    hide Mask, PadLen, Up, DecWord, DecSignature, Dec;
    var alts := t.alternatives;
    var sig := DecSignature(body, cur);
    var i := Signature.FirstMatch(Text(sig.value), alts);
    ReadIsClean(alts[i], body, sig.next);
  }

  lemma VariantIsClean(t: Type, body: seq<byte>, cur: nat)
    requires t.TVariant? && !t.isDBus && WellFormed(t) && InBody(body, cur)
    requires DecVariant(t, body, cur).Ok? && HasType(DecVariant(t, body, cur).value, t)
    ensures Clean(DecVariant(t, body, cur).value, t)
    decreases t, 1, 0
  {
    hide Mask, PadLen, Up, DecWord, DecSignature, Dec;
    var index := DecWord(1, body, Skip(cur, body, 8));
    var sig := DecSignature(body, index.next);
    ReadIsClean(Alternative(t.alternatives, index.value), body, sig.next);
  }

  lemma CStringFits(body: seq<byte>, cur: nat)
    requires InBody(body, cur) && DecString(body, cur).Ok?
    ensures 0 !in DecString(body, cur).value && |DecString(body, cur).value| < 0xFFFF_FFFF
  {
    CStringBounded(body, DecWord(4, body, cur).next);
  }

  lemma {:induction false} CStringBounded(body: seq<byte>, cur: nat)
    ensures |CString(body, cur)| <= |body|
    ensures cur <= |body| ==> |CString(body, cur)| <= |body| - cur
    decreases |body| - cur
  {
    if cur < |body| && body[cur] != 0 {
      CStringBounded(body, cur + 1);
    }
  }

  lemma {:induction false} FieldsAreClean(ts: seq<Type>, body: seq<byte>, cur: nat)
    requires (forall i | 0 <= i < |ts| :: WellFormed(ts[i])) && InBody(body, cur)
    requires DecFields(ts, body, cur).Ok? && FieldsHaveType(DecFields(ts, body, cur).value, ts)
    ensures CleanFields(DecFields(ts, body, cur).value, ts)
    decreases ts, 0, 0
  {
    hide Mask, PadLen, Up, Dec;
    if ts != [] {
      var vs := DecFields(ts, body, cur).value;
      var f := Dec(ts[0], body, cur);
      assert vs[0] == f.value && vs[1..] == DecFields(ts[1..], body, f.next).value;
      ReadIsClean(ts[0], body, cur);
      FieldsAreClean(ts[1..], body, f.next);
    }
  }

  lemma {:induction false} ElemsAreClean(t: Type, body: seq<byte>, cur: nat, start: nat, size: nat, acc: seq<Value>)
    requires t.TArray? && WellFormed(t) && InBody(body, cur) && start <= cur
    requires ElemsFit(t, acc) && forall i | 0 <= i < |acc| :: Clean(acc[i], t.elem)
    requires var d := DecElems(t, body, cur, start, size, acc); d.Ok? && ElemsFit(t, d.value)
    ensures forall v | v in DecElems(t, body, cur, start, size, acc).value :: HasType(v, t.elem) && Clean(v, t.elem)
    decreases t, 1, Up(|body|, 8) - cur
  {
    hide Mask, PadLen, Up, Dec;
    if size > cur - start {
      var e := Dec(t.elem, body, cur);
      ElemsGrow(t, body, e.next, start, size, acc + [e.value]);
      var all := DecElems(t, body, cur, start, size, acc).value;
      assert all[|acc|] == (acc + [e.value])[|acc|];
      ReadIsClean(t.elem, body, cur);
      ElemsAreClean(t, body, e.next, start, size, acc + [e.value]);
    }
  }

  lemma {:induction false} ElemsGrow(t: Type, body: seq<byte>, cur: nat, start: nat, size: nat, acc: seq<Value>)
    requires t.TArray? && WellFormed(t) && InBody(body, cur) && start <= cur
    requires DecElems(t, body, cur, start, size, acc).Ok?
    ensures acc <= DecElems(t, body, cur, start, size, acc).value
    decreases Up(|body|, 8) - cur
  {
    hide Mask, PadLen, Up, Dec;
    if size > cur - start {
      var e := Dec(t.elem, body, cur);
      ElemsGrow(t, body, e.next, start, size, acc + [e.value]);
    }
  }

  lemma {:induction false} EntriesAreClean(t: Type, body: seq<byte>, cur: nat, start: nat, size: nat, acc: seq<Entry>)
    requires t.TMap? && WellFormed(t) && InBody(body, cur) && start <= cur && DistinctKeys(acc)
    requires EntriesFit(t, acc)
    requires forall i | 0 <= i < |acc| :: Clean(acc[i].key, t.key) && Clean(acc[i].value, t.value)
    requires var d := DecEntries(t, body, cur, start, size, acc); d.Ok? && EntriesFit(t, d.value)
    ensures forall e | e in DecEntries(t, body, cur, start, size, acc).value ::
              HasType(e.key, t.key) && HasType(e.value, t.value) && Clean(e.key, t.key) && Clean(e.value, t.value)
    decreases t, 1, Up(|body|, 8) - cur
  {
    hide Mask, PadLen, Up, Dec, HasType, Clean;
    if size > cur - start {
      var k := Dec(t.key, body, Skip(cur, body, 8));
      var w := Dec(t.value, body, k.next);
      var grown := Insert(acc, k.value, w.value);
      EntriesGrow(t, body, w.next, start, size, grown);
      if grown != acc {
        var all := DecEntries(t, body, cur, start, size, acc).value;
        assert all[|acc|] == grown[|acc|] == Entry(k.value, w.value);
        ReadIsClean(t.key, body, Skip(cur, body, 8));
        ReadIsClean(t.value, body, k.next);
      }
      EntriesAreClean(t, body, w.next, start, size, grown);
    }
  }

  lemma {:induction false} EntriesGrow(t: Type, body: seq<byte>, cur: nat, start: nat, size: nat, acc: seq<Entry>)
    requires t.TMap? && WellFormed(t) && InBody(body, cur) && start <= cur && DistinctKeys(acc)
    requires DecEntries(t, body, cur, start, size, acc).Ok?
    ensures acc <= DecEntries(t, body, cur, start, size, acc).value
    decreases Up(|body|, 8) - cur
  {
    hide Mask, PadLen, Up, Dec;
    if size > cur - start {
      var k := Dec(t.key, body, Skip(cur, body, 8));
      var w := Dec(t.value, body, k.next);
      EntriesGrow(t, body, w.next, start, size, Insert(acc, k.value, w.value));
    }
  }

  // ----- the round trip -----

  /**
    Writing a value at any offset of a message body and reading it at that offset gives the value back and leaves
    the reader exactly behind it, if and only if the value is clean.
   */
  lemma RoundTrip(t: Type, v: Value, before: seq<byte>, after: seq<byte>)
    requires WellFormed(t) && HasType(v, t)
    requires |before + Enc(t, v, |before|) + after| < 0x8000_0000
    ensures var bs := Enc(t, v, |before|);
            var body := before + bs + after;
            && InBody(body, |before|)
            && (Dec(t, body, |before|) == Ok(v, |before| + |bs|) <==> Clean(v, t))
  {
    hide Mask, PadLen, Dec, Enc;
    var bs := Enc(t, v, |before|);
    var body := before + bs + after;
    assert At(body, |before|, bs);
    if Clean(v, t) {
      Back(t, v, body, |before|);
    }
    if Dec(t, body, |before|) == Ok(v, |before| + |bs|) {
      ReadIsClean(t, body, |before|);
    }
  }

  /**
    The arguments of a message, written to a new stream and read from its payload: they come back, without an error on
    either side, if and only if they are clean and within their ranges, and then nothing of the payload is left over.
   */
  method SendAndReceive(ts: seq<Type>, vs: seq<Value>) returns (ok: bool, received: seq<Value>, left: int)
    requires (forall i | 0 <= i < |ts| :: WellFormed(ts[i])) && FieldsHaveType(vs, ts)
    requires |EncFields(ts, vs, 0)| < 0x8000_0000
    ensures ok && received == vs <==> CleanFields(vs, ts) && FieldsWithin(ts, vs)
    ensures ok && received == vs ==> left == 0
  {
    hide Mask, PadLen, Up, Dec, Enc, EncFields, DecFields, FieldsHaveType, CleanFields, FieldsWithin, LeftByFields;
    var output := new DBusOutputStream();
    output.WriteFields(ts, vs);
    if output.errorOccurred {
      return false, [], 0;
    }
    ghost var bytes := EncFields(ts, vs, 0);
    assert output.payload == bytes;
    var input := new DBusInputStream(output.payload);
    received := input.ReadFields(ts);
    ok, left := !input.error, |input.body| - input.current;
    if CleanFields(vs, ts) {
      FieldsBack(ts, vs, input.body, 0);
    }
    if ok && received == vs {
      FieldsAreClean(ts, input.body, 0);
    }
  }

  // ----- what comes back of values that are not clean -----

  /** The value as the writer leaves it in a payload of its own is read as another one, with nothing left over. */
  ghost predicate ReadAs(t: Type, v: Value, w: Value)
    requires WellFormed(t) && HasType(v, t)
  {
    var bs := Enc(t, v, 0);
    InBody(bs, 0) && Dec(t, bs, 0) == Ok(w, |bs|)
  }

  /** A string is cut off at its first NUL. */
  lemma StringIsCut(a: seq<byte>, b: seq<byte>)
    requires 0 !in a && |a| + |b| < 0x7FFF_FF00
    ensures ReadAs(TString(false), VString(a + [0] + b), VString(a))
  {
    hide Mask, PadLen, DecWord, EncWord, CString;
    var s := a + [0] + b;
    var bs := EncString(s, 0);
    var length := EncWord(|s|, 4, 0);
    EncStringShape(s, 0);
    PowersOf256();
    WordLength(|s|, 4, 0);
    assert At(bs, 0, length);
    WordBack(|s|, 4, bs, 0);
    assert bs == length + (a + [0]) + (b + [0]);
    assert At(bs, |length|, a + [0]);
    CStringBack(a, bs, |length|);
  }

  /** A signed byte that a D-Bus variant holds comes back as the unsigned one that the variant may hold as well. */
  lemma SignedByteChangesSides(n: int)
    requires InRange(n, 1, true)
    ensures var t, v := TVariant(true, [TInt(1, false), TInt(1, true)]), VVariant(1, VInt(n));
            && WellFormed(t) && HasType(v, t)
            && ReadAs(t, v, VVariant(2, VInt(Unsigned(n, 1))))
  {
    hide Mask, PadLen, DecWord, EncWord, DecSignature, EncSignature;
    var alts := [TInt(1, false), TInt(1, true)];
    var t, v := TVariant(true, alts), VVariant(1, VInt(n));
    var head := EncSignature("y");
    assert Signature.Sig(Alternative(alts, 1)) == "y" == Signature.Sig(alts[0]);
    assert VariantHead(t, v, 0) == head;
    var bs := head + EncWord(Unsigned(n, 1), 1, |head|);
    assert |head| == 3 by {
      EncodedY();
    }
    PowersOf256();
    WordLength(Unsigned(n, 1), 1, |head|);
    OneByte(Unsigned(n, 1), |head|);
    assert At(bs, 0, head) && At(bs, |head|, EncWord(Unsigned(n, 1), 1, |head|));
    SignatureBack("y", bs, 0);
    TextOfAscii(TInt(1, false));
    WordBack(Unsigned(n, 1), 1, bs, |head|);
  }

  lemma EncodedY()
    ensures |EncSignature("y")| == 3
  {
  }

  /** The reader refuses a word that is cut short ... */
  lemma WordIsComplete(size: nat, signed: bool, body: seq<byte>, cur: nat)
    requires InBody(body, cur) && WellFormed(TInt(size, signed))
    ensures Dec(TInt(size, signed), body, cur).Ok? <==> Up(cur, size) + size <= |body|
  {
    hide Mask, PadLen;
  }

  /** ... a boolean above 1 ... */
  lemma BooleanIsChecked(body: seq<byte>, cur: nat)
    requires InBody(body, cur)
    ensures var w := DecWord(4, body, cur); Dec(TBool, body, cur).Ok? <==> w.Ok? && w.value <= 1
  {
    hide Mask, PadLen, DecWord;
  }

  /** ... and a D-Bus variant with the signature of no alternative. */
  lemma SignatureIsKnown(t: Type, body: seq<byte>, cur: nat)
    requires t.TVariant? && t.isDBus && WellFormed(t) && InBody(body, cur) && Dec(t, body, cur).Ok?
    ensures var s := DecSignature(body, cur);
            s.Ok? && exists j :: 0 <= j < |t.alternatives| && Signature.Sig(t.alternatives[j]) == Text(s.value)
  {
    hide Mask, PadLen, Text, Signature.Sig, DecSignature, Signature.FirstMatch;
    var s := DecSignature(body, cur);
    var j := Signature.FirstMatch(Text(s.value), t.alternatives);
    assert j < |t.alternatives|;
  }

  /** Of two entries with equal keys, the first one counts. */
  lemma FirstEntryCounts(entries: seq<Entry>, k: Value, w: Value)
    requires DistinctKeys(entries)
    ensures entries <= Insert(entries, k, w)
    ensures (exists i | 0 <= i < |entries| :: entries[i].key == k) ==> Insert(entries, k, w) == entries
    ensures (forall i | 0 <= i < |entries| :: entries[i].key != k) ==>
              Insert(entries, k, w) == entries + [Entry(k, w)]
  {
  }

  /** The reader accepts any integer for a ranged one, provided that the value before was within the range. */
  lemma RangeIsNotRead(min: int, max: int, initial: int, body: seq<byte>, cur: nat)
    requires WellFormed(TRanged(min, max, initial)) && InBody(body, cur)
    ensures var r, w := Dec(TRanged(min, max, initial), body, cur), DecWord(4, body, cur);
            && (r.Ok? <==> w.Ok? && min <= initial <= max)
            && (r.Ok? ==> r == Ok(VInt(Signed(w.value, 4, true)), w.next))
  {
  }

  /** A concrete string that does not come back. */
  lemma UncleanString()
    ensures var t, v := TString(false), VString([65, 0, 66]);
            HasType(v, t) && ReadAs(t, v, VString([65]))
  {
    hide Dec, Enc, ReadAs;
    assert [65] + [0] + [66] == [65, 0, 66];
    StringIsCut([65], [66]);
  }

  /** A concrete variant that does not come back. */
  lemma UncleanVariant()
    ensures var t, v := TVariant(true, [TInt(1, false), TInt(1, true)]), VVariant(1, VInt(-1));
            WellFormed(t) && HasType(v, t) && ReadAs(t, v, VVariant(2, VInt(255)))
  {
    hide Dec, Enc, ReadAs;
    PowersOf256();
    SignedByteChangesSides(-1);
  }

  /** A concrete integer out of its range that is read without an error. */
  lemma OutOfRangeIsRead()
    ensures Dec(TRanged(0, 9, 0), [100, 0, 0, 0], 0) == Ok(VInt(100), 4)
  {
    hide Mask, PadLen, DecWord, EncWord, Dec;
    PowersOf256();
    HundredBack();
    RangeIsNotRead(0, 9, 0, [100, 0, 0, 0], 0);
  }

  lemma HundredBack()
    ensures InBody([100, 0, 0, 0], 0) && DecWord(4, [100, 0, 0, 0], 0) == Ok(100, 4)
  {
    hide DecWord;
    PowersOf256();
    assert Little(100, 4) == [100] + Little(0, 3);
    LittleZero(3);
    assert EncWord(100, 4, 0) == Little(100, 4) == [100, 0, 0, 0];
    WordBack(100, 4, [100, 0, 0, 0], 0);
  }

  // ----- relocation -----

  lemma SameResidue(a: nat, b: nat, n: nat, k: nat)
    requires Boundary(k) && a % 8 == b % 8
    ensures (a + n) % 8 == (b + n) % 8
    ensures PadLen(a, k) == PadLen(b, k)
  {
    var d := a / 8 - b / 8;
    assert a == b + 8 * d;
    Remainder(a + n, 8, (b + n) / 8 + d, (b + n) % 8);
    if k == 2 {
      Remainder(a, 2, b / 2 + 4 * d, b % 2);
    } else if k == 4 {
      Remainder(a, 4, b / 4 + 2 * d, b % 4);
    }
    assert Mask(a, k) == Mask(b, k);
  }

  /** An encoding depends on its offset modulo 8 only. */
  lemma {:induction false} Relocate(t: Type, v: Value, a: nat, b: nat)
    requires WellFormed(t) && HasType(v, t) && a % 8 == b % 8
    ensures Enc(t, v, a) == Enc(t, v, b)
    decreases t, 3, 0
  {
    hide Mask, PadLen, EncWord, EncArray, EncSignature, EncString, Pow256, InRange;
    match t
    case TBool => RelocateWord(if v.b then 1 else 0, 4, a, b);
    case TInt(size, _) => RelocateWord(Unsigned(v.n, size), size, a, b);
    case TUnixFd(_) => RelocateWord(Unsigned(v.n, 4), 4, a, b);
    case TRanged(_, _, _) => RelocateWord(Unsigned(v.n, 4), 4, a, b);
    case TDouble(_) => RelocateWord(v.word, 8, a, b);
    case TString(_) => RelocateString(v.chars, a, b);
    case TVersion =>
      SameResidue(a, b, PadLen(a, 8), 8);
      RelocateWord(v.major, 4, Up(a, 8), Up(b, 8));
      SameResidue(Up(a, 8), Up(b, 8), 4, 8);
      RelocateWord(v.minor, 4, Up(a, 8) + 4, Up(b, 8) + 4);
    case TStruct(ts) =>
      SameResidue(a, b, PadLen(a, 8), 8);
      RelocateFields(ts, v.fields, Up(a, 8), Up(b, 8));
    case TBytes => RelocateArray(v.bytes, 1, a, b);
    case TArray(e) =>
      var k := ElementBoundary(e);
      RelocateArray(EncElems(t, v.elems, DataStart(a, k)), k, a, b);
      RelocateElems(t, v.elems, DataStart(a, k), DataStart(b, k));
    case TMap(_, _) =>
      RelocateArray(EncEntries(t, v.entries, DataStart(a, 8)), 8, a, b);
      RelocateEntries(t, v.entries, DataStart(a, 8), DataStart(b, 8));
    case TVariant(_, _) => RelocateVariant(t, v, a, b);
  }

  lemma RelocateWord(n: nat, size: nat, a: nat, b: nat)
    requires a % 8 == b % 8 && Boundary(size)
    ensures EncWord(n, size, a) == EncWord(n, size, b)
  {
    hide Mask, PadLen;
    SameResidue(a, b, 0, size);
  }

  lemma RelocateString(s: seq<byte>, a: nat, b: nat)
    requires a % 8 == b % 8
    ensures EncString(s, a) == EncString(s, b)
  {
    hide EncWord;
    RelocateWord(Low32(|s|), 4, a, b);
  }

  lemma RelocateVariant(t: Type, v: Value, a: nat, b: nat)
    requires t.TVariant? && WellFormed(t) && HasType(v, t) && a % 8 == b % 8
    ensures Enc(t, v, a) == Enc(t, v, b)
    decreases t, 2, 0
  {
    hide Mask, PadLen, VariantHead;
    var head := VariantHead(t, v, a);
    assert head == VariantHead(t, v, b) by {
      RelocateHead(t, v, a, b);
    }
    SameResidue(a, b, |head|, 8);
    Relocate(Alternative(t.alternatives, v.index), v.held, a + |head|, b + |head|);
  }

  lemma RelocateHead(t: Type, v: Value, a: nat, b: nat)
    requires t.TVariant? && WellFormed(t) && HasType(v, t) && a % 8 == b % 8
    ensures VariantHead(t, v, a) == VariantHead(t, v, b)
  {
    hide Mask, PadLen, EncSignature;
    SameResidue(a, b, 0, 8);
  }

  lemma RelocateArray(data: seq<byte>, k: nat, a: nat, b: nat)
    requires Boundary(k) && a % 8 == b % 8
    ensures DataStart(a, k) % 8 == DataStart(b, k) % 8
    ensures EncArray(data, k, a) == EncArray(data, k, b)
  {
    hide Mask, PadLen, EncWord;
    RelocateWord(Low32(|data|), 4, a, b);
    var n := PadLen(a, 4) + 4;
    SameResidue(a, b, n, 4);
    assert Up(a, 4) + 4 == a + n && Up(b, 4) + 4 == b + n;
    SameResidue(a + n, b + n, PadLen(a + n, k), k);
  }

  lemma {:induction false} RelocateFields(ts: seq<Type>, vs: seq<Value>, a: nat, b: nat)
    requires (forall i | 0 <= i < |ts| :: WellFormed(ts[i])) && FieldsHaveType(vs, ts) && a % 8 == b % 8
    ensures EncFields(ts, vs, a) == EncFields(ts, vs, b)
    decreases ts, 0, 0
  {
    hide Mask, PadLen, Enc;
    if ts != [] {
      Relocate(ts[0], vs[0], a, b);
      var n := |Enc(ts[0], vs[0], a)|;
      SameResidue(a, b, n, 8);
      RelocateFields(ts[1..], vs[1..], a + n, b + n);
    }
  }

  lemma {:induction false} RelocateElems(t: Type, vs: seq<Value>, a: nat, b: nat)
    requires t.TArray? && WellFormed(t) && ElemsFit(t, vs) && a % 8 == b % 8
    ensures EncElems(t, vs, a) == EncElems(t, vs, b)
    decreases t, 1, |vs|
  {
    hide Mask, PadLen, Enc;
    if vs != [] {
      Relocate(t.elem, vs[0], a, b);
      var n := |Enc(t.elem, vs[0], a)|;
      SameResidue(a, b, n, 8);
      RelocateElems(t, vs[1..], a + n, b + n);
    }
  }

  lemma RelocateEntry(t: Type, e: Entry, a: nat, b: nat)
    requires t.TMap? && WellFormed(t) && HasType(e.key, t.key) && HasType(e.value, t.value) && a % 8 == b % 8
    ensures EncEntry(t, e, a) == EncEntry(t, e, b)
    decreases t, 0, 0
  {
    hide Mask, PadLen, Enc;
    SameResidue(a, b, PadLen(a, 8), 8);
    Relocate(t.key, e.key, Up(a, 8), Up(b, 8));
    var k := |Pad(a, 8) + Enc(t.key, e.key, Up(a, 8))|;
    SameResidue(a, b, k, 8);
    Relocate(t.value, e.value, a + k, b + k);
  }

  lemma {:induction false} RelocateEntries(t: Type, es: seq<Entry>, a: nat, b: nat)
    requires t.TMap? && WellFormed(t) && EntriesFit(t, es) && a % 8 == b % 8
    ensures EncEntries(t, es, a) == EncEntries(t, es, b)
    decreases t, 1, |es|
  {
    hide Mask, PadLen, Enc, EncEntry;
    if es != [] {
      RelocateEntry(t, es[0], a, b);
      var n := |EncEntry(t, es[0], a)|;
      SameResidue(a, b, n, 8);
      RelocateEntries(t, es[1..], a + n, b + n);
    }
  }
}
