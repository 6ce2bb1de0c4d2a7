/**
  The reader: a position in a message body, an error mark and two stacks for the arrays being read. On any body
  every read terminates, keeps both stacks and the position bound, and without an error refines the decoder.
 */
module WireInput {
  import opened Common
  import opened WireTypes
  import opened WireFormat
  import Signature

  /** Without an earlier error, a read ends as a pure decoder says. */
  ghost predicate Follows<T>(hadError: bool, hasError: bool, next: nat, d: Decoded<T>, v: T)
  {
    hadError || (hasError == d.Err? && (d.Ok? ==> v == d.value && next == d.next))
  }

  class DBusInputStream {
    const body: seq<byte>
    var current: nat
    var error: bool
    var sizes: seq<nat>
    var positions: seq<nat>

    /** A message body length is a non-negative `int`. */
    constructor (message: seq<byte>)
      requires |message| < 0x8000_0000
      ensures Valid() && body == message && current == 0 && !error && sizes == [] && positions == []
    {
      body, current, error, sizes, positions := message, 0, false, [], [];
    }

    ghost predicate Valid()
      reads this
    {
      InBody(body, current)
    }

    /** What every read keeps, with or without an error. */
    twostate predicate Kept()
      reads this
    {
      && Valid()
      && old(current) <= current
      && sizes == old(sizes)
      && positions == old(positions)
      && (old(error) ==> error)
    }

    method SetError()
      modifies this`error
      ensures error
    {
      error := true;
    }

    method Align(b: nat)
      requires Valid() && Boundary(b)
      modifies this`current
      ensures Valid() && current == Up(old(current), b)
    {
      current := Skip(current, body, b);
    }

    method Raw(n: nat) returns (data: seq<byte>)
      requires Valid()
      modifies this`current, this`error
      ensures Kept() && Follows(old(error), error, current, ReadRaw(body, old(current), n), data)
    {
      if current + n > |body| {
        SetError();
        return [];
      }
      data := body[current..current + n];
      current := current + n;
    }

    /** `_readValue`: on an error the variable keeps its initial content. */
    method Word(size: nat, initial: nat) returns (w: nat)
      requires Valid() && Boundary(size)
      modifies this`current, this`error
      ensures Kept() && Follows(old(error), error, current, DecWord(size, body, old(current)), w)
      ensures error ==> w == initial
      ensures w == initial || w < Pow256(size)
    {
      hide Mask, PadLen;
      if size > 1 {
        Align(size);
      }
      assert size == 1 ==> Up(current, 1) == current;
      var raw := Raw(size);
      w := if error then initial else FromLittle(raw);
    }

    method PushSize(size: nat)
      modifies this`sizes
      ensures sizes == old(sizes) + [size]
    {
      sizes := sizes + [size];
    }

    method PushPosition()
      modifies this`positions
      ensures positions == old(positions) + [current]
    {
      positions := positions + [current];
    }

    method PopBoth()
      requires sizes != [] && positions != []
      modifies this`sizes, this`positions
      ensures sizes == old(sizes)[..|old(sizes)| - 1] && positions == old(positions)[..|old(positions)| - 1]
    {
      sizes := sizes[..|sizes| - 1];
      positions := positions[..|positions| - 1];
    }

    method ReadString() returns (s: seq<byte>)
      requires Valid()
      modifies this`current, this`error
      ensures Kept() && Follows(old(error), error, current, DecString(body, old(current)), s)
    {
      var length := Word(4, 0);
      ghost var data := current;
      var start := current;
      var _ := Raw(Low32(length + 1));
      s := if error then [] else CString(body, start);
    }

    /** `skipSignature`, and the signature itself for a D-Bus variant. */
    method ReadSignature() returns (sig: seq<byte>)
      requires Valid()
      modifies this`current, this`error
      ensures Kept() && Follows(old(error), error, current, DecSignature(body, old(current)), sig)
    {
      hide Mask, PadLen, Up, DecWord;
      var length := Word(1, 0);
      var raw := Raw(length + 1);
      sig := if error then [] else raw[..length];
    }

    method ReadVersion() returns (v: Value)
      requires Valid()
      modifies this`current, this`error
      ensures Kept() && Follows(old(error), error, current, DecVersion(body, old(current)), v)
    {
      hide Mask, PadLen, Up, DecWord;
      Align(8);
      var major := Word(4, 0);
      var minor := Word(4, 0);
      v := VVersion(major, minor);
    }

    method ReadByteBuffer() returns (data: seq<byte>)
      requires Valid()
      modifies this`current, this`error
      ensures Kept() && Follows(old(error), error, current, DecBytes(body, old(current)), data)
    {
      hide Mask, PadLen, Up, DecWord;
      var size := Word(4, 0);
      data := Raw(size);
    }

    method ReadValue(t: Type) returns (v: Value)
      requires Valid() && WellFormed(t)
      modifies this
      ensures Kept() && Follows(old(error), error, current, Dec(t, body, old(current)), v)
      decreases t, 3
    {
      hide Mask, PadLen, Up;
      match t
      case TBool =>
        var w := Word(4, 2);
        if w > 1 {
          SetError();
        }
        v := VBool(w != 0);
      case TInt(size, signed) =>
        var w := Word(size, 0);
        v := VInt(Signed(w, size, signed));
      case TUnixFd(signed) =>
        var w := Word(4, 0);
        v := VInt(Signed(w, 4, signed));
      case TRanged(min, max, initial) =>
        v := ReadRanged(min, max, initial);
      case TDouble(_) =>
        var w := Word(8, 0);
        v := VDouble(w);
      case TString(_) =>
        var s := ReadString();
        v := VString(s);
      case TVersion =>
        v := ReadVersion();
      case TBytes =>
        var data := ReadByteBuffer();
        v := VBytes(data);
      case TStruct(ts) =>
        Align(8);
        var fields := ReadFields(ts);
        v := VStruct(fields);
      case TArray(_) =>
        var elems := ReadVector(t);
        v := VArray(elems);
      case TMap(_, _) =>
        var entries := ReadMap(t);
        v := VMap(entries);
      case TVariant(_, _) =>
        v := ReadVariant(t);
    }

    /** It is the value before that is checked, not the one that was read. */
    method ReadRanged(min: int, max: int, initial: int) returns (v: Value)
      requires Valid() && WellFormed(TRanged(min, max, initial))
      modifies this`current, this`error
      ensures Kept() && Follows(old(error), error, current, Dec(TRanged(min, max, initial), body, old(current)), v)
    {
      hide Mask, PadLen, Up, DecWord;
      var w := Word(4, 0);
      if !(min <= initial <= max) {
        SetError();
      }
      v := VInt(if error then initial else Signed(w, 4, true));
    }

    /** The fields in declared order; an error does not stop them. */
    method ReadFields(ts: seq<Type>) returns (fields: seq<Value>)
      requires Valid() && forall i | 0 <= i < |ts| :: WellFormed(ts[i])
      modifies this
      ensures Kept() && Follows(old(error), error, current, DecFields(ts, body, old(current)), fields)
      decreases ts, 0
    {
      hide Mask, PadLen, Up;
      if ts == [] {
        return [];
      }
      var f := ReadValue(ts[0]);
      var fs := ReadFields(ts[1..]);
      fields := [f] + fs;
    }

    method ReadVector(t: Type) returns (elems: seq<Value>)
      requires Valid() && t.TArray? && WellFormed(t)
      modifies this
      ensures Kept() && Follows(old(error), error, current, DecVector(t, body, old(current)), elems)
      decreases t, 2
    {
      hide Mask, PadLen, Up, Dec, DecWord;
      var size := Word(4, 0);
      PushSize(size);
      Align(ElementBoundary(t.elem));
      PushPosition();
      ghost var start, failed := current, error;
      elems := [];
      while sizes[|sizes| - 1] > current - positions[|positions| - 1]
        invariant Valid() && old(current) <= start <= current && error == failed
        invariant sizes == old(sizes) + [size] && positions == old(positions) + [start]
        invariant DecElems(t, body, current, start, size, elems) == DecElems(t, body, start, start, size, [])
        decreases Up(|body|, 8) - current
      {
        ghost var before := current;
        var e := ReadValue(t.elem);
        if error {
          break;
        }
        elems := elems + [e];
      }
      PopBoth();
    }

    method ReadMap(t: Type) returns (entries: seq<Entry>)
      requires Valid() && t.TMap? && WellFormed(t)
      modifies this
      ensures Kept() && Follows(old(error), error, current, DecMap(t, body, old(current)), entries)
      decreases t, 2
    {
      hide Mask, PadLen, Up, Dec, DecWord, Insert;
      var size := Word(4, 0);
      PushSize(size);
      Align(8);
      PushPosition();
      ghost var start, failed := current, error;
      entries := [];
      while sizes[|sizes| - 1] > current - positions[|positions| - 1]
        invariant Valid() && old(current) <= start <= current && error == failed && DistinctKeys(entries)
        invariant sizes == old(sizes) + [size] && positions == old(positions) + [start]
        invariant
          DecEntries(t, body, current, start, size, entries) == DecEntries(t, body, start, start, size, [])
        decreases Up(|body|, 8) - current
      {
        Align(8);
        var k := ReadValue(t.key);
        var w := ReadValue(t.value);
        if error {
          break;
        }
        entries := Insert(entries, k, w);
      }
      PopBoth();
    }

    method ReadVariant(t: Type) returns (v: Value)
      requires Valid() && t.TVariant? && WellFormed(t)
      modifies this
      ensures Kept() && Follows(old(error), error, current, Dec(t, body, old(current)), v)
      decreases t, 2
    {
      hide Mask, PadLen, Up, DecWord, DecSignature, Signature.FirstMatch, Signature.Sig, Text;
      var alts := t.alternatives;
      var index: nat;
      if t.isDBus {
        var sig := ReadSignature();
        if error {
          return VNoVariant(0);
        }
        var success;
        success, index := Signature.SelectAlternative(Text(sig), alts);
        if !success {
          SetError();
          return VNoVariant(0);
        }
      } else {
        Align(8);
        index := Word(1, 0);
        var _ := ReadSignature();
      }
      if 1 <= index <= |alts| {
        var held := ReadValue(Alternative(alts, index));
        v := VVariant(index, held);
      } else {
        v := VNoVariant(index);
      }
    }
  }
}
