/**
  The chunking output buffer: whatever the sizes of the writes, the converted bytes that are passed on are, in order,
  the conversion of everything that was written.
 */
module BufferedWriter {
  import opened Common
  import opened Utf8
  import opened Transcoding
  import opened Chunking

  /** The encodings that output can have; `char_t` is UTF-8 and the machine is little-endian. */
  datatype Target = ToUtf8 | ToUtf16(big: bool) | ToUtf32(big: bool) | ToLatin1

  function EncodingOf(t: Target): Encoding
  {
    match t
    case ToUtf8 => Utf8
    case ToUtf16(_) => Utf16
    case ToUtf32(_) => Utf32
    case ToLatin1 => Latin1
  }

  // ----- bytes of units -----

  function UnitBytes(t: Target, u: nat): seq<byte>
  {
    match t
    case ToUtf16(big) =>
      if big then [u / 0x100 % 0x100, u % 0x100] else [u % 0x100, u / 0x100 % 0x100]
    case ToUtf32(big) =>
      var a, b, c, d := u % 0x100, u / 0x100 % 0x100, u / 0x1_0000 % 0x100, u / 0x100_0000 % 0x100;
      if big then [d, c, b, a] else [a, b, c, d]
    case _ => [u % 0x100]
  }

  function Serial(t: Target, us: seq<nat>): seq<byte>
  {
    if us == [] then [] else UnitBytes(t, us[0]) + Serial(t, us[1..])
  }

  lemma {:induction false} SerialConcat(t: Target, a: seq<nat>, b: seq<nat>)
    ensures Serial(t, a + b) == Serial(t, a) + Serial(t, b)
  {
    hide UnitBytes;
    if a == [] {
      assert a + b == b;
    } else {
      SerialConcat(t, a[1..], b);
      assert (a + b)[1..] == a[1..] + b && (a + b)[0] == a[0];
      Assoc(UnitBytes(t, a[0]), Serial(t, a[1..]), Serial(t, b));
    }
  }

  /** The target in the byte order of the machine. */
  function Native(t: Target): Target
  {
    match t
    case ToUtf16(_) => ToUtf16(false)
    case ToUtf32(_) => ToUtf32(false)
    case _ => t
  }

  predicate FitsUnit(t: Target, u: nat)
  {
    match t
    case ToUtf16(_) => u < 0x1_0000
    case ToUtf32(_) => u < 0x1_0000_0000
    case _ => u < 0x100
  }

  /** `endian_swap` of one unit, when the byte orders differ. */
  function Swapped(t: Target, u: nat): nat
    requires FitsUnit(t, u)
  {
    match t
    case ToUtf16(big) => if big then Swap16(u) else u
    case ToUtf32(big) => if big then Swap32(u) else u
    case _ => u
  }

  lemma SwappedBytes(t: Target, u: nat)
    requires FitsUnit(t, u)
    ensures UnitBytes(Native(t), Swapped(t, u)) == UnitBytes(t, u)
  {
    hide Swap32;
    match t
    case ToUtf16(true) => TwoDigits(u / 0x100, u % 0x100);
    case ToUtf32(true) => SwappedFour(u);
    case _ =>
  }

  lemma SwappedFour(u: u32)
    ensures UnitBytes(ToUtf32(false), Swap32(u)) == UnitBytes(ToUtf32(true), u)
  {
    var a, b, c, d := u / 0x100_0000, u / 0x1_0000 % 0x100, u / 0x100 % 0x100, u % 0x100;
    FourDigits(a, b, c, d);
    assert a == u / 0x100_0000 % 0x100;
    assert Swap32(u) == d * 0x100_0000 + c * 0x1_0000 + b * 0x100 + a;
  }

  lemma TwoDigits(a: nat, b: nat)
    requires a < 0x100 && b < 0x100
    ensures (b * 0x100 + a) % 0x100 == a && (b * 0x100 + a) / 0x100 == b
  {
  }

  lemma FourDigits(a: nat, b: nat, c: nat, d: nat)
    requires a < 0x100 && b < 0x100 && c < 0x100 && d < 0x100
    ensures var v := d * 0x100_0000 + c * 0x1_0000 + b * 0x100 + a;
            v % 0x100 == a && v / 0x100 % 0x100 == b && v / 0x1_0000 % 0x100 == c && v / 0x100_0000 % 0x100 == d
  {
    var v := d * 0x100_0000 + c * 0x1_0000 + b * 0x100 + a;
    LastDigit(v, d * 0x1_0000 + c * 0x100 + b, a);
    LastDigit(v / 0x100, d * 0x100 + c, b);
    LastDigit(v / 0x100 / 0x100, d, c);
    assert v / 0x1_0000 == v / 0x100 / 0x100 && v / 0x100_0000 == v / 0x100 / 0x100 / 0x100;
  }

  lemma LastDigit(v: nat, rest: nat, digit: nat)
    requires v == rest * 0x100 + digit && digit < 0x100
    ensures v % 0x100 == digit && v / 0x100 == rest
  {
  }

  lemma {:induction false} SwappedSerial(t: Target, us: seq<nat>, vs: seq<nat>)
    requires |us| == |vs|
    requires forall i | 0 <= i < |us| :: FitsUnit(t, us[i]) && vs[i] == Swapped(t, us[i])
    ensures Serial(Native(t), vs) == Serial(t, us)
  {
    hide UnitBytes, Swapped, FitsUnit, Native;
    if us != [] {
      SwappedBytes(t, us[0]);
      SwappedSerial(t, us[1..], vs[1..]);
    }
  }

  // ----- conversion -----

  /** What `data` becomes in the output. */
  function Conversion(t: Target, data: seq<byte>): seq<byte>
  {
    if t.ToUtf8? then data else Serial(t, Units(EncodingOf(t), Codes8(data)))
  }

  function Smalls(bs: seq<byte>): (cs: seq<Code>)
    ensures |cs| == |bs| && Decodable(cs) && forall i | 0 <= i < |cs| :: cs[i] == Small(bs[i])
  {
    seq(|bs|, i requires 0 <= i < |bs| => Small(bs[i]))
  }

  lemma {:induction false} SingleBytes(us: seq<nat>)
    requires forall i | 0 <= i < |us| :: us[i] < 0x100
    ensures Serial(ToLatin1, us) == us
  {
    if us != [] {
      SingleBytes(us[1..]);
      assert [us[0]] + us[1..] == us;
    }
  }

  /** Text of characters below 256 goes out in Latin-1 byte for byte. */
  lemma Latin1Back(bs: seq<byte>)
    ensures Conversion(ToLatin1, Transcoding.ToUtf8(Smalls(bs))) == bs
  {
    hide Codes8, Units, Serial, Transcoding.ToUtf8;
    var cs := Smalls(bs);
    Utf8Back(cs);
    if bs == [] {
      NoUnits(cs);
    } else {
      OneUnitEach(cs, 0);
    }
    forall i | 0 <= i < |cs| ensures Units(Latin1, cs)[i] == bs[i] {
      OneUnitEach(cs, i);
    }
    assert Units(Latin1, cs) == bs;
    SingleBytes(bs);
  }

  lemma NoUnits(cs: seq<Code>)
    requires cs == []
    ensures Units(Latin1, cs) == []
  {
  }

  lemma ConversionConcat(t: Target, a: seq<byte>, b: seq<byte>)
    requires !Straddles(a, b)
    ensures Conversion(t, a + b) == Conversion(t, a) + Conversion(t, b)
  {
    hide Straddles, Codes8, Units, Serial;
    if !t.ToUtf8? {
      CutsCleanly(a, b);
      UnitsConcat(EncodingOf(t), Codes8(a), Codes8(b));
      SerialConcat(t, Units(EncodingOf(t), Codes8(a)), Units(EncodingOf(t), Codes8(b)));
    }
  }

  lemma NothingConverted(t: Target)
    ensures Conversion(t, []) == []
  {
  }

  /** A round of the decoder gives no more units than it consumes, and units that fit. */
  lemma RoundFits(t: Target, s: seq<byte>)
    requires !t.ToUtf8? && s != [] && Next8(s).codes != []
    ensures var us := UnitsOf(EncodingOf(t), Next8(s).codes[0]);
            |us| <= Next8(s).size && forall i | 0 <= i < |us| :: FitsUnit(t, us[i])
  {
    var c := Next8(s).codes[0];
    assert c.Big? ==> c.ch < 0x20_0000;
  }

  lemma {:induction false} ConversionFits(t: Target, s: seq<byte>)
    requires !t.ToUtf8?
    ensures var us := Units(EncodingOf(t), Codes8(s));
            |us| <= |s| && forall i | 0 <= i < |us| :: FitsUnit(t, us[i])
    decreases |s|
  {
    hide Next8, UnitsOf, FitsUnit, EncodingOf;
    if s != [] {
      var d := Next8(s);
      ConversionFits(t, s[d.size..]);
      OneRound(s);
      if d.codes != [] {
        RoundFits(t, s);
        assert Codes8(s)[0] == d.codes[0] && Codes8(s)[1..] == Codes8(s[d.size..]);
      } else {
        assert Codes8(s) == Codes8(s[d.size..]);
      }
    }
  }

  // ----- the record of a run -----

  function Flatten(parts: seq<seq<byte>>): seq<byte>
  {
    if parts == [] then [] else Flatten(parts[..|parts| - 1]) + parts[|parts| - 1]
  }

  function Converted(t: Target, chunks: seq<seq<byte>>): (calls: seq<seq<byte>>)
    ensures |calls| == |chunks|
  {
    seq(|chunks|, i requires 0 <= i < |chunks| => Conversion(t, chunks[i]))
  }

  lemma FlattenMore(parts: seq<seq<byte>>, part: seq<byte>)
    ensures Flatten(parts + [part]) == Flatten(parts) + part
  {
    assert (parts + [part])[..|parts|] == parts;
  }

  lemma ConvertedMore(t: Target, chunks: seq<seq<byte>>, chunk: seq<byte>)
    ensures Converted(t, chunks + [chunk]) == Converted(t, chunks) + [Conversion(t, chunk)]
  {
  }

  /**
    Everything written, cut into the chunks that were passed on and the part still pending. `aligned` says that no
    write continued a sequence begun before it, `wellFormed` that every write was well-formed UTF-8.
   */
  datatype Log = Log(chunks: seq<seq<byte>>, pending: seq<byte>, history: seq<byte>, aligned: bool, wellFormed: bool)

  const EMPTY := Log([], [], [], true, true)

  ghost predicate Consistent(t: Target, log: Log)
  {
    && (forall i | 0 <= i < |log.chunks| :: log.chunks[i] != [])
    && Flatten(log.chunks) + log.pending == log.history
    && (log.aligned ==>
          Flatten(Converted(t, log.chunks)) + Conversion(t, log.pending) == Conversion(t, log.history))
    && (log.wellFormed ==>
          log.aligned && WellFormed8(log.pending) && forall i | 0 <= i < |log.chunks| :: WellFormed8(log.chunks[i]))
  }

  ghost function Append(log: Log, data: seq<byte>): Log
  {
    Log(log.chunks, log.pending + data, log.history + data,
        log.aligned && !Straddles(log.history, data), log.wellFormed && WellFormed8(data))
  }

  /** The first `n` pending bytes are passed on. */
  ghost function Pass(log: Log, n: nat): Log
    requires n <= |log.pending|
  {
    log.(chunks := log.chunks + [log.pending[..n]], pending := log.pending[n..])
  }

  lemma AppendKeeps(t: Target, log: Log, data: seq<byte>)
    requires Consistent(t, log)
    ensures Consistent(t, Append(log, data))
  {
    hide WellFormed8, Straddles, Conversion, Flatten;
    var next := Append(log, data);
    Assoc(Flatten(log.chunks), log.pending, data);
    if log.wellFormed && WellFormed8(data) {
      WellFormedNeverStraddles(log.history, data);
      WellFormedConcat(log.pending, data);
    }
    if next.aligned {
      if Straddles(log.pending, data) {
        SuffixStraddles(Flatten(log.chunks), log.pending, data);
      }
      ConversionConcat(t, log.history, data);
      ConversionConcat(t, log.pending, data);
      Assoc(Flatten(Converted(t, log.chunks)), Conversion(t, log.pending), Conversion(t, data));
    }
  }

  lemma PassKeeps(t: Target, log: Log, n: nat)
    requires Consistent(t, log) && 0 < n <= |log.pending| && !Straddles(log.pending[..n], log.pending[n..])
    requires WellFormed8(log.pending) ==> WellFormed8(log.pending[..n]) && WellFormed8(log.pending[n..])
    ensures Consistent(t, Pass(log, n))
  {
    hide WellFormed8, Straddles, Conversion, Flatten, Converted;
    var a, b := log.pending[..n], log.pending[n..];
    assert a + b == log.pending;
    FlattenMore(log.chunks, a);
    Assoc(Flatten(log.chunks), a, b);
    ConvertedMore(t, log.chunks, a);
    FlattenMore(Converted(t, log.chunks), Conversion(t, a));
    ConversionConcat(t, a, b);
    Assoc(Flatten(Converted(t, log.chunks)), Conversion(t, a), Conversion(t, b));
  }

  lemma PassAllKeeps(t: Target, log: Log)
    requires Consistent(t, log) && log.pending != []
    ensures Consistent(t, Pass(log, |log.pending|)) && Pass(log, |log.pending|).pending == []
  {
    hide WellFormed8, Straddles, Consistent;
    var n := |log.pending|;
    assert log.pending[..n] == log.pending && log.pending[n..] == [];
    LeadIsNoTail(log.pending, []);
    NothingIsWellFormed();
    PassKeeps(t, log, n);
  }

  // ----- `xml_buffered_writer` -----

  /** The `xml_writer` that output is passed on to; each call is remembered. */
  class XmlWriter {
    var calls: seq<seq<byte>>

    constructor ()
      ensures calls == []
    {
      calls := [];
    }

    method Write(data: seq<byte>)
      modifies this
      ensures calls == old(calls) + [data]
    {
      calls := calls + [data];
    }
  }

  class XmlBufferedWriter {
    const writer: XmlWriter
    const target: Target
    const capacity: nat
    const buffer: array<byte>
    const scratch: array<nat>
    var bufsize: nat
    ghost const before: seq<seq<byte>>
    ghost var log: Log

    /** `bufcapacity` is at least 8; the scratch space holds four bytes for every character of the buffer. */
    ghost predicate Shape()
      reads this
    {
      && 8 <= capacity == buffer.Length && bufsize <= capacity
      && scratch.Length == ScratchUnits(target, capacity)
    }

    ghost predicate Valid()
      reads this, writer, buffer
    {
      && Shape()
      && log.pending == buffer[..bufsize]
      && writer.calls == before + Converted(target, log.chunks)
      && Consistent(target, log)
    }

    constructor (writer: XmlWriter, target: Target, capacity: nat)
      requires capacity >= 8
      ensures Valid() && this.writer == writer && this.target == target && this.capacity == capacity
      ensures fresh(buffer) && fresh(scratch)
      ensures log == EMPTY && before == writer.calls
    {
      this.writer, this.target, this.capacity := writer, target, capacity;
      buffer := new byte[capacity];
      scratch := new nat[ScratchUnits(target, capacity)];
      bufsize := 0;
      before := writer.calls;
      log := EMPTY;
      new;
      NothingConverted(target);
      NothingIsWellFormed();
    }

    /** `convert_buffer`: the conversion of a chunk fits the scratch space; the result is a number of units. */
    method ConvertBuffer(data: seq<byte>) returns (n: nat)
      requires Shape() && !target.ToUtf8? && |data| <= capacity
      modifies scratch
      ensures n <= scratch.Length && Serial(Native(target), scratch[..n]) == Conversion(target, data)
    {
      hide Units, Codes8, Serial, FitsUnit, EncodingOf;
      ConversionFits(target, data);
      var address: nat := *;
      var tr := new Traits(EncodingOf(target), true, scratch, 0);
      DecodeUtf8Block(data, address, tr);
      n := tr.result;
      ghost var us := Units(EncodingOf(target), Codes8(data));
      assert scratch[..n] == scratch[0..n] == us;
      SwapUnits(scratch, n, target);
      SwappedSerial(target, us, scratch[..n]);
    }

    /** `flush(data, size)`. */
    method FlushData(data: seq<byte>)
      requires Shape() && (target.ToUtf8? || |data| <= capacity)
      modifies writer, scratch
      ensures writer.calls == if data == [] then old(writer.calls) else old(writer.calls) + [Conversion(target, data)]
    {
      hide Serial, Codes8, Units;
      if data == [] { return; }
      if target.ToUtf8? {
        writer.Write(data);
      } else {
        var n := ConvertBuffer(data);
        writer.Write(Serial(Native(target), scratch[..n]));
      }
    }

    /** `flush()`, which is also all that the destructor does. */
    method Flush()
      requires Valid()
      modifies this`bufsize, this`log, writer, scratch
      ensures Valid() && bufsize == 0
      ensures log.history == old(log.history) && log.aligned == old(log.aligned) && log.wellFormed == old(log.wellFormed)
      ensures log.aligned ==> Flatten(writer.calls[|before|..]) == Conversion(target, log.history)
      ensures target.ToUtf8? ==> Flatten(writer.calls[|before|..]) == log.history
    {
      hide Consistent, Conversion, Flatten, Converted;
      FlushData(buffer[..bufsize]);
      if log.pending != [] {
        PassAllKeeps(target, log);
        ConvertedMore(target, log.chunks, log.pending);
        assert log.pending[..|log.pending|] == log.pending;
        Assoc(before, Converted(target, log.chunks), [Conversion(target, log.pending)]);
        log := Pass(log, |log.pending|);
      }
      bufsize := 0;
      Behind(before, Converted(target, log.chunks), writer.calls);
      Delivered(target, log);
    }

    /** `write(data, length)`. */
    method Write(data: seq<byte>)
      requires Valid()
      modifies this`bufsize, this`log, writer, buffer, scratch
      ensures Valid()
      ensures Extends(old(log), log, data)
    {
      hide Consistent, Conversion, Flatten, Converted, Straddles, WellFormed8;
      var rest := data;
      if bufsize + |data| > capacity {
        Flush();
        assert log.pending == [];
        AppendKeeps(target, log, data);
        log := Append(log, data);
        assert log.pending == data;
        if |data| > capacity {
          if target.ToUtf8? {
            PassAllKeeps(target, log);
            ConvertedMore(target, log.chunks, data);
            assert data[..|data|] == data;
            writer.Write(data);
            assert Conversion(target, data) == data by {
              NativeIsUnchanged(target, data);
            }
            log := Pass(log, |data|);
            assert buffer[..bufsize] == [];
            return;
          }
          rest := WriteChunks(data);
        }
        bufsize := 0;
        CopyIn(rest);
      } else {
        AppendKeeps(target, log, data);
        CopyIn(rest);
        log := Append(log, data);
      }
    }

    /** The loop over chunks that leaves a tail for the buffer. */
    method WriteChunks(data: seq<byte>) returns (rest: seq<byte>)
      requires Shape() && !target.ToUtf8? && |data| > capacity && log.pending == data
      requires Consistent(target, log) && writer.calls == before + Converted(target, log.chunks)
      modifies this`log, writer, scratch
      ensures |rest| <= capacity && log.pending == rest
      ensures Consistent(target, log) && writer.calls == before + Converted(target, log.chunks)
      ensures log.history == old(log.history) && log.aligned == old(log.aligned) && log.wellFormed == old(log.wellFormed)
    {
      hide Consistent, Conversion, Converted, Straddles, WellFormed8;
      rest := data;
      while |rest| > capacity
        invariant log.pending == rest
        invariant Consistent(target, log) && writer.calls == before + Converted(target, log.chunks)
        invariant log.history == old(log.history) && log.aligned == old(log.aligned)
        invariant log.wellFormed == old(log.wellFormed)
      {
        var n := GetValidLength(rest, capacity);
        FlushData(rest[..n]);
        PassKeeps(target, log, n);
        ConvertedMore(target, log.chunks, rest[..n]);
        log := Pass(log, n);
        rest := rest[n..];
      }
    }

    /** `write(d0)` to `write(d0, .., d5)`. */
    method WriteCharacters(d: seq<byte>)
      requires Valid() && 1 <= |d| <= 6
      modifies this`bufsize, this`log, writer, buffer, scratch
      ensures Valid()
      ensures Extends(old(log), log, d)
    {
      hide Consistent, Conversion, Flatten, Converted, Straddles, WellFormed8;
      if bufsize + |d| > capacity {
        Flush();
      }
      AppendKeeps(target, log, d);
      CopyIn(d);
      log := Append(log, d);
    }

    /** `memcpy` to the end of the buffer. */
    method CopyIn(data: seq<byte>)
      requires bufsize + |data| <= buffer.Length
      modifies this`bufsize, buffer
      ensures bufsize == old(bufsize) + |data| && buffer[..bufsize] == old(buffer[..bufsize]) + data
    {
      for i := 0 to |data|
        invariant bufsize == old(bufsize) && buffer[..bufsize] == old(buffer[..bufsize])
        invariant buffer[bufsize..bufsize + i] == data[..i]
      {
        buffer[bufsize + i] := data[i];
      }
      assert buffer[..bufsize + |data|] == buffer[..bufsize] + buffer[bufsize..bufsize + |data|];
      bufsize := bufsize + |data|;
    }
  }

  /** What a write does to the record: the flags say whether all of this was as it should be. */
  ghost predicate Extends(old_: Log, log: Log, data: seq<byte>)
  {
    && log.history == old_.history + data
    && log.aligned == (old_.aligned && !Straddles(old_.history, data))
    && log.wellFormed == (old_.wellFormed && WellFormed8(data))
  }

  function ScratchUnits(t: Target, capacity: nat): nat
  {
    match t
    case ToUtf16(_) => 2 * capacity
    case ToUtf32(_) => capacity
    case _ => 4 * capacity
  }

  lemma Behind<T>(a: seq<T>, b: seq<T>, s: seq<T>)
    requires s == a + b
    ensures s[|a|..] == b
  {
  }

  lemma Delivered(t: Target, log: Log)
    requires Consistent(t, log) && log.pending == []
    ensures log.aligned ==> Flatten(Converted(t, log.chunks)) == Conversion(t, log.history)
    ensures t.ToUtf8? ==> Flatten(Converted(t, log.chunks)) == log.history
  {
    NothingConverted(t);
    if t.ToUtf8? {
      Unconverted(t, log.chunks);
    }
  }

  /** Without a conversion, chunks are passed on as they are, wherever they were cut. */
  lemma {:induction false} Unconverted(t: Target, chunks: seq<seq<byte>>)
    requires t.ToUtf8?
    ensures Converted(t, chunks) == chunks
  {
    if chunks != [] {
      Unconverted(t, chunks[1..]);
      NativeIsUnchanged(t, chunks[0]);
    }
  }

  lemma NativeIsUnchanged(t: Target, data: seq<byte>)
    requires t.ToUtf8?
    ensures Conversion(t, data) == data
  {
  }

  /** `convert_utf_endian_swap` in place. */
  method SwapUnits(units: array<nat>, n: nat, t: Target)
    requires n <= units.Length && forall i | 0 <= i < n :: FitsUnit(t, units[i])
    modifies units
    ensures forall i | 0 <= i < n :: FitsUnit(t, old(units[i])) && units[i] == Swapped(t, old(units[i]))
  {
    hide FitsUnit, Swapped;
    for i := 0 to n
      invariant forall k | 0 <= k < i :: units[k] == Swapped(t, old(units[k]))
      invariant forall k | i <= k < n :: units[k] == old(units[k])
    {
      units[i] := Swapped(t, units[i]);
    }
  }
}
