/**
  The writer: it appends to its payload, leaves a placeholder for every array length, remembers positions on a
  stack and patches the length afterwards. Every write refines the encoder of `WireFormat`.
 */
module WireOutput {
  import opened Common
  import opened WireTypes
  import opened WireFormat
  import opened WireErrors
  import Signature

  class DBusOutputStream {
    var payload: seq<byte>
    var positions: seq<nat>
    var errorOccurred: bool

    constructor ()
      ensures payload == [] && positions == [] && !errorOccurred && Valid()
    {
      payload, positions, errorOccurred := [], [], false;
    }

    /** Remembered positions lie inside the payload. */
    ghost predicate Valid()
      reads this
    {
      forall i | 0 <= i < |positions| :: positions[i] <= |payload|
    }

    /** What holds after any write, even on a stream that has an error: nothing remembered is lost. */
    twostate predicate Grown()
      reads this
    {
      && Valid()
      && old(positions) <= positions
      && |old(payload)| <= |payload|
    }

    /**
      What writing a value does: it sets the error when the value is not within its ranges, leaves some positions
      behind, and without an error appends the bytes.
     */
    twostate predicate Did(within: bool, left: nat, bs: seq<byte>)
      reads this
    {
      && Grown()
      && errorOccurred == (old(errorOccurred) || !within)
      && |positions| == |old(positions)| + left
      && (!errorOccurred ==> Wrote(bs))
    }

    /** What holds after a write of `bs` on a stream without error. */
    twostate predicate Wrote(bs: seq<byte>)
      reads this
    {
      payload == old(payload) + bs && positions == old(positions)
    }

    method SetError()
      modifies this`errorOccurred
      ensures errorOccurred
    {
      errorOccurred := true;
    }

    method Raw(data: seq<byte>)
      requires Valid()
      modifies this`payload
      ensures Valid() && payload == old(payload) + data
    {
      payload := payload + data;
    }

    method Align(b: nat)
      requires Valid() && Boundary(b)
      modifies this`payload
      ensures Valid() && payload == old(payload) + Pad(|old(payload)|, b)
    {
      var mask := b - 1;
      var necessary := Mask(mask - Mask(|payload|, b) + 1, b);
      Raw(Zeros(necessary));
    }

    method PushPosition()
      requires Valid()
      modifies this`positions
      ensures Valid() && positions == old(positions) + [|payload|]
    {
      positions := positions + [|payload|];
    }

    method PopPosition() returns (p: nat)
      requires Valid() && positions != []
      modifies this`positions
      ensures Valid() && old(positions) == positions + [p] && p <= |payload|
    {
      p := positions[|positions| - 1];
      positions := positions[..|positions| - 1];
    }

    /** `std::string::replace` at a position inside the payload. */
    method RawAt(data: seq<byte>, p: nat)
      requires Valid() && p <= |payload|
      modifies this`payload
      ensures Valid() && |payload| >= |old(payload)|
      ensures p + |data| <= |old(payload)| ==>
                payload == old(payload)[..p] + data + old(payload)[p + |data|..]
    {
      var to := if p + |data| <= |payload| then p + |data| else |payload|;
      payload := payload[..p] + data + payload[to..];
    }

    method Word(n: nat, size: nat)
      requires Valid() && Boundary(size)
      modifies this`payload
      ensures Valid() && payload == old(payload) + EncWord(n, size, |old(payload)|)
    {
      if size > 1 {
        Align(size);
      }
      ghost var aligned := payload;
      Raw(Little(n, size));
      assert size == 1 ==> Pad(|old(payload)|, 1) == [];
      assert payload == old(payload) + Pad(|old(payload)|, size) + Little(n, size);
      Assoc(old(payload), Pad(|old(payload)|, size), Little(n, size));
    }

    method WriteString(s: seq<byte>)
      requires Valid()
      modifies this`payload
      ensures Valid() && payload == old(payload) + EncString(s, |old(payload)|)
    {
      var length := Low32(|s|);
      if (s + [0])[length] == 0 {
        Word(length, 4);
        Raw((s + [0])[..Low32(length + 1)]);
        Assoc(old(payload), EncWord(length, 4, |old(payload)|), (s + [0])[..Low32(length + 1)]);
      }
    }

    method WriteSignature(sig: string)
      requires Valid()
      modifies this`payload
      ensures Valid() && payload == old(payload) + EncSignature(sig)
    {
      var wireLength := |sig| % 256;
      Raw([wireLength]);
      Raw((Ascii(sig) + [0])[..wireLength + 1]);
      Assoc(old(payload), [wireLength], (Ascii(sig) + [0])[..wireLength + 1]);
    }

    method Placeholder()
      requires Valid()
      modifies this`payload, this`positions
      ensures Valid() && positions == old(positions) + [Up(|old(payload)|, 4)]
      ensures payload == old(payload) + Pad(|old(payload)|, 4) + Zeros(4)
    {
      Align(4);
      PushPosition();
      UpOfAligned(|payload|, 4);
      LittleZero(4);
      Word(0, 4);
      assert Pad(Up(|old(payload)|, 4), 4) == [];
      assert EncWord(0, 4, Up(|old(payload)|, 4)) == Zeros(4);
    }

    /** The part of every array and map before its first element. */
    method BeginArray(b: nat)
      requires Valid() && Boundary(b)
      modifies this`payload, this`positions
      ensures Grown()
      ensures |payload| == DataStart(|old(payload)|, b)
      ensures positions == old(positions) + [Up(|old(payload)|, 4)] + [|payload|]
      ensures payload == old(payload) + Pad(|old(payload)|, 4) + Zeros(4) + Pad(Up(|old(payload)|, 4) + 4, b)
    {
      Placeholder();
      if b > 1 {
        Align(b);
      }
      assert b == 1 ==> Pad(Up(|old(payload)|, 4) + 4, b) == [];
      PushPosition();
    }

    /** Pops both positions and patches the length. */
    method EndArray()
      requires Valid() && |positions| >= 2
      modifies this`payload, this`positions
      ensures Valid() && |payload| >= |old(payload)|
      ensures positions == old(positions)[..|old(positions)| - 2]
      ensures var p, start := old(positions)[|old(positions)| - 2], old(positions)[|old(positions)| - 1];
              p + 4 <= |old(payload)| ==>
                payload == old(payload)[..p] + Little(Low32(|old(payload)| - start), 4) + old(payload)[p + 4..]
    {
      var start := PopPosition();
      var length := Low32(|payload| - start);
      var p := PopPosition();
      RawAt(Little(length, 4), p);
    }

    method WriteValue(t: Type, v: Value)
      requires Valid() && WellFormed(t) && HasType(v, t)
      modifies this
      ensures Did(Within(t, v), LeftBehind(t, v, old(errorOccurred)), Enc(t, v, |old(payload)|))
      decreases t, 3
    {
      hide Mask, PadLen, Up, Pad, EncWord, Little, InRange, Low32, Zeros;
      match t
      case TBool => Word(if v.b then 1 else 0, 4);
      case TInt(size, _) => Word(Unsigned(v.n, size), size);
      case TUnixFd(_) => Word(Unsigned(v.n, 4), 4);
      case TRanged(min, max, _) => WriteRanged(min, max, v.n);
      case TDouble(_) => Word(v.word, 8);
      case TString(_) => WriteString(v.chars);
      case TVersion => WriteVersion(v.major, v.minor);
      case TBytes => WriteByteBuffer(v.bytes);
      case TStruct(ts) => WriteStruct(ts, v.fields);
      case TArray(_) => WriteVector(t, v.elems);
      case TMap(_, _) => WriteMap(t, v.entries);
      case TVariant(_, _) => WriteVariant(t, v);
    }

    /** A value out of its range is not written. */
    method WriteRanged(min: int, max: int, n: int)
      requires Valid() && InRange(n, 4, true)
      modifies this`payload, this`errorOccurred
      ensures Did(min <= n <= max, 0, EncWord(Unsigned(n, 4), 4, |old(payload)|))
    {
      if min <= n <= max {
        Word(Unsigned(n, 4), 4);
      } else {
        SetError();
      }
    }

    method WriteVersion(major: nat, minor: nat)
      requires Valid()
      modifies this`payload
      ensures Valid() && payload == old(payload) + Pad(|old(payload)|, 8)
        + EncWord(major, 4, Up(|old(payload)|, 8)) + EncWord(minor, 4, Up(|old(payload)|, 8) + 4)
    {
      Align(8);
      UpOfAligned(|old(payload)|, 4);
      Word(major, 4);
      Word(minor, 4);
    }

    /** The length is already aligned when it is written. */
    method WriteByteBuffer(bytes: seq<byte>)
      requires Valid()
      modifies this`payload
      ensures Valid() && payload == old(payload) + EncArray(bytes, 1, |old(payload)|)
    {
      ghost var off, pad, length := |payload|, Pad(|payload|, 4), Little(Low32(|bytes|), 4);
      Align(4);
      Word(Low32(|bytes|), 4);
      AlignedWord(Low32(|bytes|), Up(off, 4));
      assert payload == old(payload) + pad + length;
      Raw(bytes);
      ByteBuffer(old(payload), bytes);
    }

    method WriteStruct(ts: seq<Type>, fields: seq<Value>)
      requires Valid() && WellFormed(TStruct(ts)) && FieldsHaveType(fields, ts)
      modifies this
      ensures Did(FieldsWithin(ts, fields), LeftByFields(ts, fields, old(errorOccurred)),
                  Enc(TStruct(ts), VStruct(fields), |old(payload)|))
      decreases ts, 1
    {
      hide Mask, PadLen;
      Align(8);
      WriteFields(ts, fields);
      if !errorOccurred {
        Assoc(old(payload), Pad(|old(payload)|, 8), EncFields(ts, fields, Up(|old(payload)|, 8)));
      }
    }

    /** The fields in declared order; an error does not stop them. */
    method WriteFields(ts: seq<Type>, fields: seq<Value>)
      requires Valid() && (forall i | 0 <= i < |ts| :: WellFormed(ts[i])) && FieldsHaveType(fields, ts)
      modifies this
      ensures Did(FieldsWithin(ts, fields), LeftByFields(ts, fields, old(errorOccurred)),
                  EncFields(ts, fields, |old(payload)|))
      decreases ts, 0
    {
      hide Mask, PadLen, Up, Enc, HasType, WellFormed, Within, LeftBehind;
      if ts != [] {
        WriteValue(ts[0], fields[0]);
        ghost var mid := payload;
        WriteFields(ts[1..], fields[1..]);
        if !errorOccurred {
          var head := Enc(ts[0], fields[0], |old(payload)|);
          Assoc(old(payload), head, EncFields(ts[1..], fields[1..], |mid|));
        }
      }
    }

    /** The element loop, which an error breaks off. */
    method WriteElements(t: Type, elems: seq<Value>)
      requires Valid() && t.TArray? && WellFormed(t) && ElemsFit(t, elems)
      modifies this
      ensures Did(ElemsWithin(t, elems), LeftByElems(t, elems, old(errorOccurred)), EncElems(t, elems, |old(payload)|))
      decreases t, 0
    {
      hide Mask, PadLen, Up, Pad, Enc, HasType, Within, LeftBehind;
      ghost var head, stack, failed := payload, positions, errorOccurred;
      ghost var data := EncElems(t, elems, |head|);
      for i := 0 to |elems|
        invariant Valid() && stack <= positions && |head| <= |payload| && errorOccurred == failed
        invariant ElemsWithin(t, elems) <==> ElemsWithin(t, elems[i..])
        invariant |positions| + LeftByElems(t, elems[i..], failed) == |stack| + LeftByElems(t, elems, failed)
        invariant failed ==> i == 0
        invariant !failed ==> positions == stack && payload + EncElems(t, elems[i..], |payload|) == head + data
      {
        ghost var before := payload;
        FirstOfElems(t, elems[i..]);
        WriteValue(t.elem, elems[i]);
        if errorOccurred {
          return;
        }
        assert elems[i..][0] == elems[i] && elems[i..][1..] == elems[i + 1..];
        Assoc(before, Enc(t.elem, elems[i], |before|), EncElems(t, elems[i + 1..], |payload|));
      }
      assert elems[|elems|..] == [];
    }

    method WriteVector(t: Type, elems: seq<Value>)
      requires Valid() && t.TArray? && WellFormed(t) && HasType(VArray(elems), t)
      modifies this
      ensures Did(Within(t, VArray(elems)), LeftBehind(t, VArray(elems), old(errorOccurred)),
                  Enc(t, VArray(elems), |old(payload)|))
      decreases t, 1
    {
      hide Mask, PadLen;
      hide Up, Pad, Enc, EncElems, EncArray, EncWord, HasType, WellFormed, Little, ElementBoundary;
      EncOfVector(t, elems, |payload|);
      var b := ElementBoundary(t.elem);
      BeginArray(b);
      ghost var data := EncElems(t, elems, |payload|);
      WriteElements(t, elems);
      ghost var full := payload;
      EndArray();
      if !errorOccurred {
        PatchedArray(old(payload), data, b, full, Up(|old(payload)|, 4));
      }
    }

    method WriteEntry(t: Type, e: Entry)
      requires Valid() && t.TMap? && WellFormed(t) && HasType(e.key, t.key) && HasType(e.value, t.value)
      modifies this
      ensures Did(EntryWithin(t, e), LeftByEntry(t, e, old(errorOccurred)), EncEntry(t, e, |old(payload)|))
      decreases t, 0
    {
      hide Mask, PadLen, Enc, HasType, Within, LeftBehind;
      Align(8);
      WriteValue(t.key, e.key);
      ghost var mid := payload;
      WriteValue(t.value, e.value);
      if !errorOccurred {
        var before, k := old(payload), Enc(t.key, e.key, Up(|old(payload)|, 8));
        Assoc(before, Pad(|before|, 8), k);
        Assoc(before, Pad(|before|, 8) + k, Enc(t.value, e.value, |mid|));
      }
    }

    method WriteEntries(t: Type, entries: seq<Entry>)
      requires Valid() && t.TMap? && WellFormed(t) && EntriesFit(t, entries)
      modifies this
      ensures Did(EntriesWithin(t, entries), LeftByEntries(t, entries, old(errorOccurred)),
                  EncEntries(t, entries, |old(payload)|))
      decreases t, 1
    {
      hide Mask, PadLen, Up, Pad, Enc, EncEntry, HasType, WellFormed, EntryWithin, LeftByEntry;
      ghost var head, stack, failed := payload, positions, errorOccurred;
      ghost var data := EncEntries(t, entries, |head|);
      for i := 0 to |entries|
        invariant Valid() && stack <= positions && |head| <= |payload| && errorOccurred == failed
        invariant EntriesWithin(t, entries) <==> EntriesWithin(t, entries[i..])
        invariant |positions| + LeftByEntries(t, entries[i..], failed) == |stack| + LeftByEntries(t, entries, failed)
        invariant failed ==> i == 0
        invariant !failed ==> positions == stack && payload + EncEntries(t, entries[i..], |payload|) == head + data
      {
        ghost var before := payload;
        FirstOfEntries(t, entries[i..]);
        WriteEntry(t, entries[i]);
        if errorOccurred {
          return;
        }
        assert entries[i..][0] == entries[i] && entries[i..][1..] == entries[i + 1..];
        Assoc(before, EncEntry(t, entries[i], |before|), EncEntries(t, entries[i + 1..], |payload|));
      }
      assert entries[|entries|..] == [];
    }

    /** On an error the map returns at once and leaves its positions on the stack. */
    method WriteMap(t: Type, entries: seq<Entry>)
      requires Valid() && t.TMap? && WellFormed(t) && HasType(VMap(entries), t)
      modifies this
      ensures Did(Within(t, VMap(entries)), LeftBehind(t, VMap(entries), old(errorOccurred)),
                  Enc(t, VMap(entries), |old(payload)|))
      decreases t, 2
    {
      hide Mask, PadLen;
      hide Up, Pad, Enc, EncEntries, EncArray, EncWord, HasType, WellFormed, Little, DistinctKeys;
      EncOfMap(t, entries, |payload|);
      BeginArray(8);
      ghost var data := EncEntries(t, entries, |payload|);
      WriteEntries(t, entries);
      if errorOccurred && entries != [] {
        return;
      }
      ghost var full := payload;
      EndArray();
      if !errorOccurred {
        PatchedArray(old(payload), data, 8, full, Up(|old(payload)|, 4));
      }
    }

    method WriteVariantFront(isDBus: bool, index: nat)
      requires Valid() && index < 256
      modifies this`payload
      ensures Valid() && payload == old(payload) + VariantFront(isDBus, index, |old(payload)|)
    {
      hide Mask, PadLen, EncWord;
      if isDBus {
        Align(1);
        UpOfAligned(|old(payload)|, 1);
        assert Pad(|old(payload)|, 1) == [];
      } else {
        Align(8);
        OneByte(index, |payload|);
        Word(index, 1);
      }
    }

    method WriteVariantHead(t: Type, v: Value)
      requires Valid() && t.TVariant? && WellFormed(t) && HasType(v, t)
      modifies this`payload
      ensures Valid() && payload == old(payload) + VariantHead(t, v, |old(payload)|)
    {
      hide EncSignature, VariantFront;
      WriteVariantFront(t.isDBus, v.index);
      var typeOutput := new Signature.DBusTypeOutputStream();
      typeOutput.WriteType(Alternative(t.alternatives, v.index));
      ghost var sig := Signature.Sig(Alternative(t.alternatives, v.index));
      assert typeOutput.signature == sig;
      WriteSignature(typeOutput.signature);
      Assoc(old(payload), VariantFront(t.isDBus, v.index, |old(payload)|), EncSignature(sig));
    }

    method WriteVariant(t: Type, v: Value)
      requires Valid() && t.TVariant? && WellFormed(t) && HasType(v, t)
      modifies this
      ensures Did(Within(t, v), LeftBehind(t, v, old(errorOccurred)), Enc(t, v, |old(payload)|))
      decreases t, 1
    {
      hide Mask, PadLen, VariantHead;
      WriteVariantHead(t, v);
      WriteValue(Alternative(t.alternatives, v.index), v.held);
      if !errorOccurred {
        var head := VariantHead(t, v, |old(payload)|);
        Assoc(old(payload), head, Enc(Alternative(t.alternatives, v.index), v.held, |old(payload)| + |head|));
      }
    }
  }

  lemma FirstOfElems(t: Type, vs: seq<Value>)
    requires t.TArray? && ElemsFit(t, vs) && vs != []
    ensures ElemsWithin(t, vs) <==> Within(t.elem, vs[0]) && ElemsWithin(t, vs[1..])
  {
    hide Within, HasType;
    assert forall i | 1 <= i < |vs| :: vs[i] == vs[1..][i - 1];
  }

  lemma FirstOfEntries(t: Type, es: seq<Entry>)
    requires t.TMap? && EntriesFit(t, es) && es != []
    ensures EntriesWithin(t, es) <==> EntryWithin(t, es[0]) && EntriesWithin(t, es[1..])
  {
    hide EntryWithin, HasType;
    assert forall i | 1 <= i < |es| :: es[i] == es[1..][i - 1];
  }

  lemma {:induction false} LittleZero(size: nat)
    ensures Little(0, size) == Zeros(size)
  {
    if size > 0 {
      LittleZero(size - 1);
    }
  }

  lemma EncOfVector(t: Type, elems: seq<Value>, off: nat)
    requires t.TArray? && WellFormed(t) && HasType(VArray(elems), t)
    ensures ElemsFit(t, elems)
    ensures var b := ElementBoundary(t.elem);
            Enc(t, VArray(elems), off) == EncArray(EncElems(t, elems, DataStart(off, b)), b, off)
  {
  }

  lemma EncOfMap(t: Type, entries: seq<Entry>, off: nat)
    requires t.TMap? && WellFormed(t) && HasType(VMap(entries), t)
    ensures EntriesFit(t, entries)
    ensures Enc(t, VMap(entries), off) == EncArray(EncEntries(t, entries, DataStart(off, 8)), 8, off)
  {
  }

  lemma OneByte(n: nat, off: nat)
    requires n < 256
    ensures EncWord(n, 1, off) == [n] && Up(off, 1) == off
  {
    assert Pad(off, 1) == [];
    assert Little(n, 1) == [n % 256] + Little(n / 256, 0);
  }

  lemma AlignedWord(n: nat, off: nat)
    requires Mask(off, 4) == 0
    ensures EncWord(n, 4, off) == Little(n, 4)
  {
    UpOfAligned(off, 4);
    assert Pad(off, 4) == [];
  }

  lemma ByteBuffer(before: seq<byte>, bytes: seq<byte>)
    ensures before + Pad(|before|, 4) + Little(Low32(|bytes|), 4) + bytes == before + EncArray(bytes, 1, |before|)
  {
    var pad, length := Pad(|before|, 4), Little(Low32(|bytes|), 4);
    var gap := Pad(Up(|before|, 4) + 4, 1);
    assert gap == [];
    assert EncArray(bytes, 1, |before|) == pad + length + gap + bytes;
    assert pad + length + gap == pad + length;
  }

  /** Patching the placeholder turns head and data into the encoded array. */
  lemma PatchedArray(before: seq<byte>, data: seq<byte>, b: nat, full: seq<byte>, p: nat)
    requires Boundary(b) && p == Up(|before|, 4)
    requires full == before + Pad(|before|, 4) + Zeros(4) + Pad(p + 4, b) + data
    ensures full[..p] + Little(Low32(|data|), 4) + full[p + 4..] == before + EncArray(data, b, |before|)
  {
    Patch(before, Pad(|before|, 4), Zeros(4), Little(Low32(|data|), 4), Pad(p + 4, b), data, full, p, p + 4);
  }

  lemma Patch(before: seq<byte>, pad: seq<byte>, hole: seq<byte>, length: seq<byte>, gap: seq<byte>, data: seq<byte>,
              full: seq<byte>, p: nat, q: nat)
    requires |hole| == |length| && p == |before| + |pad| && q == p + |hole|
    requires full == before + pad + hole + gap + data
    ensures full[..p] + length + full[q..] == before + (pad + length + gap + data)
  {
    assert full[..p] == before + pad;
    assert full[q..] == gap + data;
  }
}
