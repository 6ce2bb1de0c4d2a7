/**
  Where UTF-8 data may be cut: converting the parts gives the conversion of the whole exactly when no sequence
  straddles the cut. The byte order and the unit width of the output are added here.
 */
module Chunking {
  import opened Common
  import opened Utf8
  import opened Transcoding

  // ----- cutting -----

  /** The length that a lead byte announces. */
  function Announced(lead: byte): (n: nat)
    ensures 1 <= n <= 4
  {
    if 0xC0 <= lead < 0xE0 then 2 else if 0xE0 <= lead < 0xF0 then 3 else if 0xF0 <= lead < 0xF8 then 4 else 1
  }

  predicate AllFollow(s: seq<byte>)
  {
    forall i | 0 <= i < |s| :: Follows(s[i])
  }

  /** `a` ends in `k` bytes that begin a sequence, which the first bytes of `b` complete. */
  predicate StraddlesBy(a: seq<byte>, b: seq<byte>, k: nat)
  {
    && 1 <= k <= |a|
    && var n := Announced(a[|a| - k]);
       k < n <= k + |b| && AllFollow(a[|a| - k + 1..]) && AllFollow(b[..n - k])
  }

  predicate Straddles(a: seq<byte>, b: seq<byte>)
  {
    exists k | 1 <= k <= 3 :: StraddlesBy(a, b, k)
  }

  lemma AllFollowIs(s: seq<byte>, n: nat)
    requires 1 <= n <= 4 && n <= |s|
    ensures AllFollow(s[1..n]) <==> (n >= 2 ==> Follows(s[1])) && (n >= 3 ==> Follows(s[2])) && (n >= 4 ==> Follows(s[3]))
  {
    hide Follows;
    var tails := s[1..n];
    if n >= 2 { assert tails[0] == s[1]; }
    if n >= 3 { assert tails[1] == s[2]; }
    if n >= 4 { assert tails[2] == s[3]; }
  }

  lemma TailInside(s: seq<byte>, n: nat, p: nat)
    requires 0 < p < n <= |s| && AllFollow(s[1..n])
    ensures Follows(s[p])
  {
    assert s[1..n][p - 1] == s[p];
  }

  /** A round of the decoder consumes what its lead announces, or one byte. */
  lemma RoundIs(s: seq<byte>)
    requires s != []
    ensures var n := Announced(s[0]);
            if n <= |s| && AllFollow(s[1..n]) then
              Next8(s).size == n && (n > 1 ==> Next8(s).codes != [])
            else Next8(s) == Decoded([], 1)
  {
    hide Follows, AllFollow;
    var n := Announced(s[0]);
    if n <= |s| {
      AllFollowIs(s, n);
    }
  }

  /** A round that ends within `a` does not depend on what follows `a`. */
  lemma RoundWithin(a: seq<byte>, b: seq<byte>)
    requires a != [] && Next8(a + b).size <= |a|
    ensures Next8(a) == Next8(a + b)
  {
    var n := Announced(a[0]);
    var s := a + b;
    RoundIs(s);
    RoundIs(a);
    if n <= |s| && AllFollow(s[1..n]) {
      assert a[1..n] == s[1..n];
    } else if n <= |a| {
      assert a[1..n] == s[1..n];
    }
  }

  lemma {:induction false} LoneTails(s: seq<byte>)
    requires AllFollow(s)
    ensures Codes8(s) == []
  {
    if s != [] {
      LoneTails(s[1..]);
    }
  }

  lemma {:induction false} LoneTailsDropped(a: seq<byte>, b: seq<byte>)
    requires AllFollow(a)
    ensures Codes8(a + b) == Codes8(b)
  {
    if a == [] {
      assert a + b == b;
    } else {
      LoneTailsDropped(a[1..], b);
      assert (a + b)[1..] == a[1..] + b;
    }
  }

  lemma InsideRound(s: seq<byte>, p: nat)
    requires s != [] && 0 < p < Next8(s).size
    ensures Follows(s[p])
  {
    hide Follows;
  }

  lemma WholeStraddles(a: seq<byte>, b: seq<byte>)
    requires a != []
    ensures Next8(a + b).size > |a| ==> |a| <= 3 && StraddlesBy(a, b, |a|)
    ensures StraddlesBy(a, b, |a|) ==> Next8(a + b).size == Announced(a[0]) > |a|
  {
    hide Next8;
    var s := a + b;
    var n := Announced(a[0]);
    RoundIs(s);
    if |a| < n <= |s| {
      assert s[1..n] == a[1..] + b[..n - |a|];
      AllFollowParts(a[1..], b[..n - |a|]);
    }
  }

  lemma AllFollowParts(a: seq<byte>, b: seq<byte>)
    ensures AllFollow(a + b) <==> AllFollow(a) && AllFollow(b)
  {
    if AllFollow(a + b) {
      assert forall i | 0 <= i < |a| :: a[i] == (a + b)[i];
      assert forall i | 0 <= i < |b| :: b[i] == (a + b)[|a| + i];
    }
  }

  /** Both parts of a straddling sequence are lost when it is cut. */
  lemma CutSequenceIsLost(a: seq<byte>, b: seq<byte>)
    requires a != [] && Next8(a + b).size > |a|
    ensures StraddlesBy(a, b, |a|) && |a| <= 3
    ensures |Codes8(a + b)| == |Codes8(a)| + |Codes8(b)| + 1
  {
    hide Next8, Codes8, Announced;
    WholeStraddles(a, b);
    var s := a + b;
    var n := Announced(a[0]);
    FirstPartIsLost(a, n);
    LoneTailsDropped(b[..n - |a|], b[n - |a|..]);
    assert b[..n - |a|] + b[n - |a|..] == b;
    RoundIs(s);
    assert s[n..] == b[n - |a|..];
    OneRound(s);
  }

  lemma FirstPartIsLost(a: seq<byte>, n: nat)
    requires a != [] && |a| < n == Announced(a[0]) && AllFollow(a[1..])
    ensures Codes8(a) == []
  {
    hide Next8, Announced, AllFollow;
    RoundIs(a);
    LoneTails(a[1..]);
  }

  lemma OneRound(s: seq<byte>)
    requires s != []
    ensures Codes8(s) == Next8(s).codes + Codes8(s[Next8(s).size..])
  {
    hide Next8;
  }

  lemma StraddleStays(a: seq<byte>, b: seq<byte>, k: nat)
    requires a != [] && StraddlesBy(a, b, k) && Next8(a + b).size <= |a|
    ensures StraddlesBy(a[Next8(a + b).size..], b, k)
  {
    hide Next8;
    var s := a + b;
    var z := Next8(s).size;
    if k == |a| {
      WholeStraddles(a, b);
      assert false;
    } else if |a| - k < z {
      InsideRound(s, |a| - k);
      assert false;
    }
    assert a[z..][|a| - z - k + 1..] == a[|a| - k + 1..];
  }

  lemma StraddleWas(a: seq<byte>, b: seq<byte>, z: nat, k: nat)
    requires z <= |a| && StraddlesBy(a[z..], b, k)
    ensures StraddlesBy(a, b, k)
  {
    assert a[z..][|a| - z - k + 1..] == a[|a| - k + 1..];
  }

  /** Data may be cut, without changing what it decodes to, exactly where no sequence straddles the cut. */
  lemma {:induction false} CutsCleanly(a: seq<byte>, b: seq<byte>)
    ensures Codes8(a + b) == Codes8(a) + Codes8(b) <==> !Straddles(a, b)
    decreases |a|
  {
    hide Next8, StraddlesBy;
    if a == [] {
      NothingStraddles(b);
      assert a + b == b;
    } else if Next8(a + b).size > |a| {
      CutSequenceIsLost(a, b);
    } else {
      var z := Next8(a + b).size;
      RoundWithin(a, b);
      CutsCleanly(a[z..], b);
      assert (a + b)[z..] == a[z..] + b;
      StraddlesAlike(a, b, z);
      SamePrefix(Next8(a).codes, Codes8(a[z..] + b), Codes8(a[z..]), Codes8(b));
    }
  }

  lemma NothingStraddles(b: seq<byte>)
    ensures !Straddles([], b) && Codes8([]) == []
  {
  }

  lemma StraddlesAlike(a: seq<byte>, b: seq<byte>, z: nat)
    requires a != [] && z == Next8(a + b).size <= |a|
    ensures Straddles(a, b) <==> Straddles(a[z..], b)
  {
    hide StraddlesBy, Next8;
    if Straddles(a, b) {
      var k :| 1 <= k <= 3 && StraddlesBy(a, b, k);
      StraddleStays(a, b, k);
    }
    if Straddles(a[z..], b) {
      var k :| 1 <= k <= 3 && StraddlesBy(a[z..], b, k);
      StraddleWas(a, b, z, k);
    }
  }

  lemma SamePrefix<T>(p: seq<T>, s: seq<T>, a: seq<T>, b: seq<T>)
    ensures p + s == p + a + b <==> s == a + b
  {
    assert p + a + b == p + (a + b);
    if p + s == p + (a + b) {
      assert s == (p + s)[|p|..] == (p + (a + b))[|p|..] == a + b;
    }
  }

  /** A suffix straddles only where the whole does. */
  lemma SuffixStraddles(front: seq<byte>, a: seq<byte>, b: seq<byte>)
    requires Straddles(a, b)
    ensures Straddles(front + a, b)
  {
    var k :| 1 <= k <= 3 && StraddlesBy(a, b, k);
    assert (front + a)[|front|..] == a;
    StraddleWas(front + a, b, |front|, k);
  }

  // ----- `get_valid_length` -----

  /** The last position within four of the end that holds no continuation byte, or the end. */
  method GetValidLength(data: seq<byte>, length: nat) returns (n: nat)
    requires 4 < length <= |data|
    ensures 0 < n <= length <= n + 4 && !Straddles(data[..n], data[n..])
    ensures WellFormed8(data) ==> WellFormed8(data[..n]) && WellFormed8(data[n..])
  {
    hide WellFormed8, Straddles;
    for i := 1 to 5
      invariant forall j | length - i < j < length :: Follows(data[j])
    {
      if !Follows(data[length - i]) {
        CutBeforeLead(data, length - i);
        return length - i;
      }
    }
    CutAfterTails(data, length);
    return length;
  }

  lemma CutBeforeLead(data: seq<byte>, n: nat)
    requires n < |data| && !Follows(data[n])
    ensures !Straddles(data[..n], data[n..])
    ensures WellFormed8(data) ==> WellFormed8(data[..n]) && WellFormed8(data[n..])
  {
    hide WellFormed8;
    LeadIsNoTail(data[..n], data[n..]);
    if WellFormed8(data) {
      WellFormedParts(data, n);
    }
  }

  lemma LeadIsNoTail(a: seq<byte>, b: seq<byte>)
    requires b == [] || !Follows(b[0])
    ensures !Straddles(a, b)
  {
    forall k | 1 <= k <= 3 ensures !StraddlesBy(a, b, k) {
      if StraddlesBy(a, b, k) {
        assert false;
      }
    }
  }

  /** Well-formed data straddles nothing that comes before it. */
  lemma WellFormedNeverStraddles(a: seq<byte>, b: seq<byte>)
    requires WellFormed8(b)
    ensures !Straddles(a, b)
  {
    LeadIsNoTail(a, b);
  }

  lemma CutAfterTails(data: seq<byte>, n: nat)
    requires 4 <= n <= |data| && forall j | n - 4 <= j < n :: Follows(data[j])
    ensures !Straddles(data[..n], data[n..]) && !WellFormed8(data)
  {
    hide WellFormed8;
    var a := data[..n];
    forall k | 1 <= k <= 3 ensures !StraddlesBy(a, data[n..], k) {
      assert Follows(data[n - k]) && a[n - k] == data[n - k];
    }
    if WellFormed8(data) {
      FourTails(data, n);
      assert false;
    }
  }

  /** The first sequence of well-formed data; what follows begins with no continuation byte. */
  lemma WellFormedFirst(s: seq<byte>)
    requires s != []
    ensures WellFormed8(s) ==>
              var z := Announced(s[0]);
              !Follows(s[0]) && z <= |s| && AllFollow(s[1..z]) && WellFormed8(s[z..])
  {
    hide AllFollow;
    var z := Announced(s[0]);
    if z <= |s| {
      AllFollowIs(s, z);
    }
  }

  lemma {:induction false} FourTails(s: seq<byte>, n: nat)
    requires 4 <= n <= |s| && forall j | n - 4 <= j < n :: Follows(s[j])
    ensures !WellFormed8(s)
    decreases |s|
  {
    hide WellFormed8;
    if WellFormed8(s) {
      WellFormedFirst(s);
      var z := Announced(s[0]);
      var rest := s[z..];
      assert n >= 5;
      if n - 4 >= z {
        assert forall j | n - z - 4 <= j < n - z :: Follows(rest[j]) by {
          forall j | n - z - 4 <= j < n - z ensures Follows(rest[j]) {
            assert Follows(s[j + z]);
          }
        }
        FourTails(rest, n - z);
      } else {
        assert Follows(s[z]) && rest[0] == s[z];
        WellFormedFirst(rest);
      }
      assert false;
    }
  }

  lemma {:induction false} WellFormedParts(s: seq<byte>, n: nat)
    requires WellFormed8(s) && n < |s| && !Follows(s[n])
    ensures WellFormed8(s[..n]) && WellFormed8(s[n..])
    decreases |s|
  {
    hide WellFormed8;
    WellFormedFirst(s);
    var z := Announced(s[0]);
    if n == 0 {
      assert s[n..] == s;
      NothingIsWellFormed();
    } else if n < z {
      TailInside(s, z, n);
      assert false;
    } else {
      assert s[z..][n - z] == s[n];
      WellFormedParts(s[z..], n - z);
      assert s[z..][n - z..] == s[n..];
      var a := s[..n];
      assert s[z..][..n - z] == a[z..];
      SameFirst(s, a);
    }
  }

  /** What `WellFormed8` asks of the first sequence. */
  predicate FirstIsWellFormed(s: seq<byte>)
    requires s != []
  {
    || s[0] < 0x80
    || (|s| >= 2 && 0xC2 <= s[0] < 0xE0 && Follows(s[1]))
    || (|s| >= 3 && 0xE0 <= s[0] < 0xF0 && Follows(s[1]) && Follows(s[2])
        && (s[0] == 0xE0 ==> s[1] >= 0xA0) && (s[0] == 0xED ==> s[1] < 0xA0))
    || (|s| >= 4 && 0xF0 <= s[0] < 0xF5 && Follows(s[1]) && Follows(s[2]) && Follows(s[3])
        && (s[0] == 0xF0 ==> s[1] >= 0x90) && (s[0] == 0xF4 ==> s[1] < 0x90))
  }

  lemma FirstAndRest(s: seq<byte>)
    requires s != []
    ensures FirstIsWellFormed(s) ==> Announced(s[0]) <= |s|
    ensures WellFormed8(s) <==> FirstIsWellFormed(s) && WellFormed8(s[Announced(s[0])..])
  {
  }

  lemma FirstWithin(a: seq<byte>, s: seq<byte>)
    requires a != [] && a <= s && Announced(a[0]) <= |a|
    ensures FirstIsWellFormed(a) <==> FirstIsWellFormed(s)
  {
    assert forall i | 0 <= i < |a| :: a[i] == s[i];
  }

  lemma SameFirst(s: seq<byte>, a: seq<byte>)
    requires WellFormed8(s) && a != [] && a <= s
    requires Announced(s[0]) <= |a| && WellFormed8(a[Announced(s[0])..])
    ensures WellFormed8(a)
  {
    hide WellFormed8, FirstIsWellFormed, Announced;
    assert a[0] == s[0];
    FirstAndRest(s);
    FirstAndRest(a);
    FirstWithin(a, s);
  }

  lemma {:induction false} WellFormedConcat(a: seq<byte>, b: seq<byte>)
    requires WellFormed8(a) && WellFormed8(b)
    ensures WellFormed8(a + b)
    decreases |a|
  {
    hide WellFormed8;
    if a == [] {
      assert a + b == b;
    } else {
      WellFormedFirst(a);
      var z := Announced(a[0]);
      WellFormedConcat(a[z..], b);
      LongerFirst(a, a + b, z);
    }
  }

  lemma LongerFirst(a: seq<byte>, s: seq<byte>, z: nat)
    requires WellFormed8(a) && a != [] && a <= s && z == Announced(a[0]) <= |a| && WellFormed8(a[z..] + s[|a|..])
    ensures WellFormed8(s)
  {
    hide WellFormed8, FirstIsWellFormed, Announced;
    assert a[0] == s[0];
    FirstAndRest(s);
    FirstAndRest(a);
    FirstWithin(a, s);
    assert s[z..] == a[z..] + s[|a|..];
  }
}
