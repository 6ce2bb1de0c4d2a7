/**
  The D-Bus marshalling format as pure functions: an encoder for a value at an offset, and a decoder that
  follows the reader's control flow on arbitrary bodies.
 */
module WireFormat {
  import opened Common
  import opened WireTypes
  import Signature

  // ----- alignment -----

  predicate Boundary(b: nat) { b in {1, 2, 4, 8} }

  /** `x & (b - 1)` for a boundary `b`. */
  function Mask(x: nat, b: nat): (m: nat)
    requires Boundary(b)
    ensures m < b && m <= x
  {
    if b == 1 then 0 else if b == 2 then x % 2 else if b == 4 then x % 4 else x % 8
  }

  /** Bytes of padding the writer appends. */
  function PadLen(off: nat, b: nat): (n: nat)
    requires Boundary(b)
    ensures n < b && Mask(off + n, b) == 0
  {
    Mask((b - 1) - Mask(off, b) + 1, b)
  }

  function Up(off: nat, b: nat): (up: nat)
    requires Boundary(b)
    ensures off <= up < off + b && Mask(up, b) == 0
  {
    off + PadLen(off, b)
  }

  function Zeros(n: nat): (z: seq<byte>)
    ensures |z| == n && forall i | 0 <= i < n :: z[i] == 0
  {
    seq(n, _ => 0)
  }

  function Pad(off: nat, b: nat): (z: seq<byte>)
    requires Boundary(b)
    ensures |z| == PadLen(off, b)
  {
    Zeros(PadLen(off, b))
  }

  /** The reader's rounding; its complemented 32-bit mask also clears the upper half of a 64-bit position. */
  function ReaderAlign(cur: nat, b: nat): nat
    requires Boundary(b)
  {
    Low32(cur + (b - 1) - Mask(cur + (b - 1), b))
  }

  /** A remainder is the only one that fits: `x == k * q + r` fixes `x % k`. */
  lemma Remainder(x: int, k: nat, q: int, r: int)
    requires k in {2, 4, 8} && x == k * q + r && 0 <= r < k
    ensures x % k == r
  {
    if k == 8 {
      assert 8 * (x / 8 - q) == r - x % 8;
    } else if k == 4 {
      assert 4 * (x / 4 - q) == r - x % 4;
    } else {
      assert 2 * (x / 2 - q) == r - x % 2;
    }
  }

  lemma MaskForms(x: nat, b: nat)
    requires Boundary(b)
    ensures PadLen(x, b) == if Mask(x, b) == 0 then 0 else b - Mask(x, b)
    ensures Mask(x + (b - 1), b) == if Mask(x, b) == 0 then b - 1 else Mask(x, b) - 1
  {
    if b > 1 {
      var q, r := x / b, x % b;
      if r == 0 {
        Remainder(x + (b - 1), b, q, b - 1);
        Remainder(b, b, 1, 0);
      } else {
        Remainder(x + (b - 1), b, q + 1, r - 1);
        Remainder(b - r, b, 0, b - r);
      }
    }
  }

  /** Writer and reader skip the same padding although they compute it by different formulas. */
  lemma AlignmentsAgree(cur: nat, b: nat)
    requires Boundary(b)
    ensures ReaderAlign(cur, b) == Up(cur, b) <==> Up(cur, b) < 0x1_0000_0000
  {
    MaskForms(cur, b);
    var up := cur + (b - 1) - Mask(cur + (b - 1), b);
    assert up == Up(cur, b);
  }

  /** Rounding up does not leave a region that ends on a boundary of 8. */
  lemma UpWithin(cur: nat, b: nat, end: nat)
    requires Boundary(b) && Mask(end, 8) == 0 && cur <= end
    ensures Up(cur, b) <= end
  {
    MaskForms(cur, b);
    if b == 8 {
      assert end - cur >= (8 - cur % 8) % 8;
    } else if b == 4 {
      assert end - cur >= (4 - cur % 4) % 4;
    } else if b == 2 {
      assert end - cur >= cur % 2;
    }
  }

  lemma UpOfAligned(off: nat, b: nat)
    requires Boundary(b)
    ensures Mask(off, b) == 0 ==> Up(off, b) == off
    ensures b == 4 ==> Up(Up(off, 8), b) == Up(off, 8)
  {
  }

  // ----- words -----

  /** Little-endian bytes, as a little-endian host leaves them in memory. */
  function Little(n: nat, size: nat): (bs: seq<byte>)
    ensures |bs| == size
  {
    if size == 0 then [] else [n % 256] + Little(n / 256, size - 1)
  }

  function FromLittle(bs: seq<byte>): (n: nat)
    ensures n < Pow256(|bs|)
  {
    if bs == [] then 0 else bs[0] + 256 * FromLittle(bs[1..])
  }

  lemma {:induction false} LittleRoundTrip(n: nat, size: nat)
    requires n < Pow256(size)
    ensures FromLittle(Little(n, size)) == n
  {
    if size > 0 {
      LittleRoundTrip(n / 256, size - 1);
      assert Little(n, size)[1..] == Little(n / 256, size - 1);
    }
  }

  /** Two's complement. */
  function Unsigned(n: int, size: nat): (u: nat)
    requires InRange(n, size, true) || InRange(n, size, false)
    ensures u < Pow256(size)
  {
    if n < 0 then n + Pow256(size) else n
  }

  function Signed(u: nat, size: nat, signed: bool): (n: int)
    requires u < Pow256(size)
    ensures InRange(n, size, signed)
  {
    if signed && 2 * u >= Pow256(size) then u - Pow256(size) else u
  }

  lemma SignedRoundTrip(n: int, size: nat, signed: bool)
    requires InRange(n, size, signed)
    ensures Signed(Unsigned(n, size), size, signed) == n
  {
  }

  // ----- encoder -----

  /** Boundary of the first element of an array with these elements; 1 where the code does not align. */
  function ElementBoundary(t: Type): (b: nat)
    ensures Boundary(b)
  {
    match t
    case TInt(size, _) => if size == 8 then 8 else 1
    case TRanged(_, _, _) => 8
    case TDouble(_) => 8
    case TVersion => 8
    case TStruct(_) => 8
    case TMap(_, _) => 4
    case TVariant(_, _) => 8
    case _ => 1
  }

  function EncWord(n: nat, size: nat, off: nat): seq<byte>
    requires Boundary(size)
  {
    Pad(off, size) + Little(n, size)
  }

  /** The characters up to a 32-bit length, with the terminating NUL. */
  function EncString(s: seq<byte>, off: nat): seq<byte>
  {
    var len := Low32(|s|);
    if (s + [0])[len] != 0 then [] else EncWord(len, 4, off) + (s + [0])[..Low32(len + 1)]
  }

  function Ascii(s: string): (bs: seq<byte>)
    ensures |bs| == |s|
    ensures forall i | 0 <= i < |s| :: bs[i] == s[i] as nat % 256
  {
    seq(|s|, i requires 0 <= i < |s| => s[i] as nat % 256)
  }

  function EncSignature(sig: string): seq<byte>
  {
    var len := |sig| % 256;
    [len] + (Ascii(sig) + [0])[..len + 1]
  }

  /** Offset at which the bytes of an array begin. */
  function DataStart(off: nat, b: nat): nat
    requires Boundary(b)
  {
    Up(Up(off, 4) + 4, b)
  }

  /** An array: its byte length, the padding of the first element, which the length does not count, the bytes. */
  function EncArray(data: seq<byte>, b: nat, off: nat): seq<byte>
    requires Boundary(b)
  {
    EncWord(Low32(|data|), 4, off) + Pad(Up(off, 4) + 4, b) + data
  }

  /** A plain variant is aligned and starts with its index; both kinds then name the type of the held value. */
  function VariantFront(isDBus: bool, index: nat, off: nat): seq<byte>
    requires index < 256
  {
    if isDBus then [] else Pad(off, 8) + [index]
  }

  function VariantHead(t: Type, v: Value, off: nat): seq<byte>
    requires t.TVariant? && WellFormed(t) && HasType(v, t)
  {
    VariantFront(t.isDBus, v.index, off) + EncSignature(Signature.Sig(Alternative(t.alternatives, v.index)))
  }

  function Enc(t: Type, v: Value, off: nat): seq<byte>
    requires WellFormed(t) && HasType(v, t)
    decreases t, 2, 0
  {
    match t
    case TBool => EncWord(if v.b then 1 else 0, 4, off)
    case TInt(size, _) => EncWord(Unsigned(v.n, size), size, off)
    case TUnixFd(_) => EncWord(Unsigned(v.n, 4), 4, off)
    case TRanged(_, _, _) => EncWord(Unsigned(v.n, 4), 4, off)
    case TDouble(_) => EncWord(v.word, 8, off)
    case TString(_) => EncString(v.chars, off)
    case TVersion => Pad(off, 8) + EncWord(v.major, 4, Up(off, 8)) + EncWord(v.minor, 4, Up(off, 8) + 4)
    case TBytes => EncArray(v.bytes, 1, off)
    case TStruct(ts) => Pad(off, 8) + EncFields(ts, v.fields, Up(off, 8))
    case TArray(e) => EncArray(EncElems(t, v.elems, DataStart(off, ElementBoundary(e))), ElementBoundary(e), off)
    case TMap(_, _) => EncArray(EncEntries(t, v.entries, DataStart(off, 8)), 8, off)
    case TVariant(_, alts) =>
      var head := VariantHead(t, v, off);
      head + Enc(Alternative(alts, v.index), v.held, off + |head|)
  }

  function EncFields(ts: seq<Type>, vs: seq<Value>, off: nat): seq<byte>
    requires (forall i | 0 <= i < |ts| :: WellFormed(ts[i])) && FieldsHaveType(vs, ts)
    decreases ts, 0, 0
  {
    if ts == [] then [] else
    var head := Enc(ts[0], vs[0], off);
    head + EncFields(ts[1..], vs[1..], off + |head|)
  }

  predicate ElemsFit(t: Type, vs: seq<Value>)
    requires t.TArray?
  {
    forall i | 0 <= i < |vs| :: HasType(vs[i], t.elem)
  }

  function EncElems(t: Type, vs: seq<Value>, off: nat): seq<byte>
    requires t.TArray? && WellFormed(t) && ElemsFit(t, vs)
    decreases t, 1, |vs|
  {
    if vs == [] then [] else
    var head := Enc(t.elem, vs[0], off);
    head + EncElems(t, vs[1..], off + |head|)
  }

  predicate EntriesFit(t: Type, es: seq<Entry>)
    requires t.TMap?
  {
    forall i | 0 <= i < |es| :: HasType(es[i].key, t.key) && HasType(es[i].value, t.value)
  }

  /** A dict entry starts on a boundary of 8. */
  function EncEntry(t: Type, e: Entry, off: nat): seq<byte>
    requires t.TMap? && WellFormed(t) && HasType(e.key, t.key) && HasType(e.value, t.value)
    decreases t, 0, 0
  {
    var k := Pad(off, 8) + Enc(t.key, e.key, Up(off, 8));
    k + Enc(t.value, e.value, off + |k|)
  }

  function EncEntries(t: Type, es: seq<Entry>, off: nat): seq<byte>
    requires t.TMap? && WellFormed(t) && EntriesFit(t, es)
    decreases t, 1, |es|
  {
    if es == [] then [] else
    var head := EncEntry(t, es[0], off);
    head + EncEntries(t, es[1..], off + |head|)
  }

  // ----- decoder -----

  datatype Decoded<+T> = Ok(value: T, next: nat) | Err

  predicate InBody(body: seq<byte>, cur: nat)
  {
    |body| < 0x8000_0000 && cur <= Up(|body|, 8)
  }

  /** What can be said of every successful read: it moves forward, past the end by padding at most. */
  predicate Progress<T>(r: Decoded<T>, body: seq<byte>, cur: nat)
  {
    r.Ok? ==> cur < r.next <= Up(|body|, 8)
  }

  function ReadRaw(body: seq<byte>, cur: nat, n: nat): Decoded<seq<byte>>
  {
    if cur + n > |body| then Err else Ok(body[cur..cur + n], cur + n)
  }

  function Skip(cur: nat, body: seq<byte>, b: nat): (next: nat)
    requires Boundary(b) && InBody(body, cur)
    ensures next == Up(cur, b) && InBody(body, next)
  {
    hide Mask, PadLen;
    AlignmentsAgree(cur, b);
    UpWithin(cur, b, Up(|body|, 8));
    ReaderAlign(cur, b)
  }

  function DecWord(size: nat, body: seq<byte>, cur: nat): (r: Decoded<nat>)
    requires Boundary(size) && InBody(body, cur)
    ensures r.Ok? ==> r.value < Pow256(size) && r.next == Up(cur, size) + size <= |body|
  {
    var raw := ReadRaw(body, Skip(cur, body, size), size);
    if raw.Err? then Err else Ok(FromLittle(raw.value), raw.next)
  }

  /** The bytes from `cur` to the first NUL. */
  function CString(body: seq<byte>, cur: nat): (s: seq<byte>)
    ensures 0 !in s
    decreases |body| - cur
  {
    if cur >= |body| || body[cur] == 0 then [] else [body[cur]] + CString(body, cur + 1)
  }

  function DecString(body: seq<byte>, cur: nat): (r: Decoded<seq<byte>>)
    requires InBody(body, cur)
    ensures Progress(r, body, cur)
  {
    var len := DecWord(4, body, cur);
    if len.Err? then Err else
    var raw := ReadRaw(body, len.next, Low32(len.value + 1));
    if raw.Err? then Err else Ok(CString(body, len.next), raw.next)
  }

  /** A length byte, that many characters and a NUL that is not looked at. */
  function DecSignature(body: seq<byte>, cur: nat): (r: Decoded<seq<byte>>)
    requires InBody(body, cur)
    ensures Progress(r, body, cur)
    ensures r.Ok? ==> |r.value| < 256
  {
    var len := DecWord(1, body, cur);
    if len.Err? then Err else
    var raw := ReadRaw(body, len.next, len.value + 1);
    if raw.Err? then Err else Ok(raw.value[..len.value], raw.next)
  }

  /** `unordered_map::insert` keeps the entry that is already there. */
  function Insert(entries: seq<Entry>, k: Value, w: Value): (r: seq<Entry>)
    requires DistinctKeys(entries)
    ensures DistinctKeys(r)
  {
    if exists i | 0 <= i < |entries| :: entries[i].key == k then entries else entries + [Entry(k, w)]
  }

  /** `std::string(raw, signatureLength)`: the bytes as characters. */
  function Text(bs: seq<byte>): (s: string)
    ensures |s| == |bs|
  {
    seq(|bs|, i requires 0 <= i < |bs| => bs[i] as char)
  }

  function DecVersion(body: seq<byte>, cur: nat): (r: Decoded<Value>)
    requires InBody(body, cur)
    ensures Progress(r, body, cur)
  {
    hide Mask, PadLen;
    var major := DecWord(4, body, Skip(cur, body, 8));
    if major.Err? then Err else
    var minor := DecWord(4, body, major.next);
    if minor.Err? then Err else Ok(VVersion(major.value, minor.value), minor.next)
  }

  function DecBytes(body: seq<byte>, cur: nat): (r: Decoded<seq<byte>>)
    requires InBody(body, cur)
    ensures Progress(r, body, cur)
  {
    var size := DecWord(4, body, cur);
    if size.Err? then Err else ReadRaw(body, size.next, size.value)
  }

  function Dec(t: Type, body: seq<byte>, cur: nat): (r: Decoded<Value>)
    requires WellFormed(t) && InBody(body, cur)
    ensures Progress(r, body, cur)
    decreases t, 3, 0
  {
    hide Mask, PadLen;
    match t
    case TBool =>
      var w := DecWord(4, body, cur);
      if w.Err? || w.value > 1 then Err else Ok(VBool(w.value != 0), w.next)
    case TInt(size, signed) =>
      var w := DecWord(size, body, cur);
      if w.Err? then Err else Ok(VInt(Signed(w.value, size, signed)), w.next)
    case TUnixFd(signed) =>
      var w := DecWord(4, body, cur);
      if w.Err? then Err else Ok(VInt(Signed(w.value, 4, signed)), w.next)
    case TRanged(min, max, initial) =>
      var w := DecWord(4, body, cur);
      if w.Err? || !(min <= initial <= max) then Err else Ok(VInt(Signed(w.value, 4, true)), w.next)
    case TDouble(_) =>
      var w := DecWord(8, body, cur);
      if w.Err? then Err else Ok(VDouble(w.value), w.next)
    case TString(_) =>
      var s := DecString(body, cur);
      if s.Err? then Err else Ok(VString(s.value), s.next)
    case TVersion => DecVersion(body, cur)
    case TBytes =>
      var data := DecBytes(body, cur);
      if data.Err? then Err else Ok(VBytes(data.value), data.next)
    case TStruct(ts) =>
      var fs := DecFields(ts, body, Skip(cur, body, 8));
      if fs.Err? then Err else Ok(VStruct(fs.value), fs.next)
    case TArray(_) =>
      var es := DecVector(t, body, cur);
      if es.Err? then Err else Ok(VArray(es.value), es.next)
    case TMap(_, _) =>
      var es := DecMap(t, body, cur);
      if es.Err? then Err else Ok(VMap(es.value), es.next)
    case TVariant(isDBus, _) =>
      if isDBus then DecDBusVariant(t, body, cur) else DecVariant(t, body, cur)
  }

  /** The length, the padding of the first element, the elements. */
  function DecVector(t: Type, body: seq<byte>, cur: nat): (r: Decoded<seq<Value>>)
    requires t.TArray? && WellFormed(t) && InBody(body, cur)
    ensures Progress(r, body, cur)
    decreases t, 2, 0
  {
    hide Mask, PadLen;
    var size := DecWord(4, body, cur);
    if size.Err? then Err else
    var start := Skip(size.next, body, ElementBoundary(t.elem));
    DecElems(t, body, start, start, size.value, [])
  }

  function DecMap(t: Type, body: seq<byte>, cur: nat): (r: Decoded<seq<Entry>>)
    requires t.TMap? && WellFormed(t) && InBody(body, cur)
    ensures Progress(r, body, cur)
    decreases t, 2, 0
  {
    hide Mask, PadLen;
    var size := DecWord(4, body, cur);
    if size.Err? then Err else
    var start := Skip(size.next, body, 8);
    DecEntries(t, body, start, start, size.value, [])
  }

  function DecDBusVariant(t: Type, body: seq<byte>, cur: nat): (r: Decoded<Value>)
    requires t.TVariant? && WellFormed(t) && InBody(body, cur)
    ensures Progress(r, body, cur)
    decreases t, 2, 0
  {
    var alts := t.alternatives;
    var sig := DecSignature(body, cur);
    if sig.Err? then Err else
    var i := Signature.FirstMatch(Text(sig.value), alts);
    if i == |alts| then Err else
    var held := Dec(alts[i], body, sig.next);
    if held.Err? then Err else Ok(VVariant(|alts| - i, held.value), held.next)
  }

  function DecVariant(t: Type, body: seq<byte>, cur: nat): (r: Decoded<Value>)
    requires t.TVariant? && WellFormed(t) && InBody(body, cur)
    ensures Progress(r, body, cur)
    decreases t, 2, 0
  {
    hide Mask, PadLen;
    var alts := t.alternatives;
    var index := DecWord(1, body, Skip(cur, body, 8));
    if index.Err? then Err else
    var sig := DecSignature(body, index.next);
    if sig.Err? then Err else
    if 1 <= index.value <= |alts| then
      var held := Dec(Alternative(alts, index.value), body, sig.next);
      if held.Err? then Err else Ok(VVariant(index.value, held.value), held.next)
    else Ok(VNoVariant(index.value), sig.next)
  }

  function DecFields(ts: seq<Type>, body: seq<byte>, cur: nat): (r: Decoded<seq<Value>>)
    requires (forall i | 0 <= i < |ts| :: WellFormed(ts[i])) && InBody(body, cur)
    ensures r.Ok? ==> cur <= r.next <= Up(|body|, 8) && (ts != [] ==> cur < r.next)
    decreases ts, 0, 0
  {
    if ts == [] then Ok([], cur) else
    var f := Dec(ts[0], body, cur);
    if f.Err? then Err else
    var fs := DecFields(ts[1..], body, f.next);
    if fs.Err? then Err else Ok([f.value] + fs.value, fs.next)
  }

  /** The element loop, with the elements read so far. */
  function DecElems(t: Type, body: seq<byte>, cur: nat, start: nat, size: nat, acc: seq<Value>): (r: Decoded<seq<Value>>)
    requires t.TArray? && WellFormed(t) && InBody(body, cur) && start <= cur
    ensures r.Ok? ==> cur <= r.next <= Up(|body|, 8) && start + size <= r.next
    decreases t, 1, Up(|body|, 8) - cur
  {
    hide Mask, PadLen;
    if size <= cur - start then Ok(acc, cur) else
    var e := Dec(t.elem, body, cur);
    if e.Err? then Err else DecElems(t, body, e.next, start, size, acc + [e.value])
  }

  function DecEntries(t: Type, body: seq<byte>, cur: nat, start: nat, size: nat, acc: seq<Entry>): (r: Decoded<seq<Entry>>)
    requires t.TMap? && WellFormed(t) && InBody(body, cur) && start <= cur && DistinctKeys(acc)
    ensures r.Ok? ==> cur <= r.next <= Up(|body|, 8) && start + size <= r.next && DistinctKeys(r.value)
    decreases t, 1, Up(|body|, 8) - cur
  {
    hide Mask, PadLen;
    if size <= cur - start then Ok(acc, cur) else
    var k := Dec(t.key, body, Skip(cur, body, 8));
    if k.Err? then Err else
    var w := Dec(t.value, body, k.next);
    if w.Err? then Err else DecEntries(t, body, w.next, start, size, Insert(acc, k.value, w.value))
  }
}
