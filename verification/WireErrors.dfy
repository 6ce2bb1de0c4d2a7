/**
  What an error does to a write: which values set it, and what is left on the writer's stack of positions. A vector pops
  two positions whatever happens; a map that meets an error returns without popping its two.
 */
module WireErrors {
  import opened WireTypes
  import opened WireFormat

  // ----- which values set the error -----

  /** Every ranged integer is within its range; any other value sets the error of the stream it is written to. */
  predicate Within(t: Type, v: Value)
    requires HasType(v, t)
    decreases t
  {
    match t
    case TRanged(min, max, _) => min <= v.n <= max
    case TStruct(ts) => FieldsWithin(ts, v.fields)
    case TArray(e) => forall i | 0 <= i < |v.elems| :: Within(e, v.elems[i])
    case TMap(k, w) => forall i | 0 <= i < |v.entries| :: Within(k, v.entries[i].key) && Within(w, v.entries[i].value)
    case TVariant(_, alts) => Within(Alternative(alts, v.index), v.held)
    case _ => true
  }

  predicate FieldsWithin(ts: seq<Type>, vs: seq<Value>)
    requires FieldsHaveType(vs, ts)
    decreases ts
  {
    ts == [] || (Within(ts[0], vs[0]) && FieldsWithin(ts[1..], vs[1..]))
  }

  predicate ElemsWithin(t: Type, vs: seq<Value>)
    requires t.TArray? && ElemsFit(t, vs)
  {
    forall i | 0 <= i < |vs| :: Within(t.elem, vs[i])
  }

  predicate EntryWithin(t: Type, e: Entry)
    requires t.TMap? && HasType(e.key, t.key) && HasType(e.value, t.value)
  {
    Within(t.key, e.key) && Within(t.value, e.value)
  }

  predicate EntriesWithin(t: Type, es: seq<Entry>)
    requires t.TMap? && EntriesFit(t, es)
  {
    forall i | 0 <= i < |es| :: EntryWithin(t, es[i])
  }

  // ----- what is left on the stack -----

  /** The positions left behind by writing a value to a stream; `failed` says that it has an error already. */
  function LeftBehind(t: Type, v: Value, failed: bool): (n: nat)
    requires HasType(v, t)
    decreases t, 2, 0
  {
    match t
    case TStruct(ts) => LeftByFields(ts, v.fields, failed)
    case TArray(_) => LeftByElems(t, v.elems, failed)
    case TMap(_, _) =>
      LeftByEntries(t, v.entries, failed) + if v.entries == [] || (!failed && EntriesWithin(t, v.entries)) then 0 else 2
    case TVariant(_, alts) => LeftBehind(Alternative(alts, v.index), v.held, failed)
    case _ => 0
  }

  /** An error does not stop the fields. */
  function LeftByFields(ts: seq<Type>, vs: seq<Value>, failed: bool): nat
    requires FieldsHaveType(vs, ts)
    decreases ts, 0, 0
  {
    if ts == [] then 0 else
    LeftBehind(ts[0], vs[0], failed) + LeftByFields(ts[1..], vs[1..], failed || !Within(ts[0], vs[0]))
  }

  /** An error stops the elements after the one that it was met in. */
  function LeftByElems(t: Type, vs: seq<Value>, failed: bool): nat
    requires t.TArray? && ElemsFit(t, vs)
    decreases t, 1, |vs|
  {
    if vs == [] then 0 else
    LeftBehind(t.elem, vs[0], failed) + if failed || !Within(t.elem, vs[0]) then 0 else LeftByElems(t, vs[1..], false)
  }

  function LeftByEntry(t: Type, e: Entry, failed: bool): nat
    requires t.TMap? && HasType(e.key, t.key) && HasType(e.value, t.value)
    decreases t, 0, 0
  {
    LeftBehind(t.key, e.key, failed) + LeftBehind(t.value, e.value, failed || !Within(t.key, e.key))
  }

  function LeftByEntries(t: Type, es: seq<Entry>, failed: bool): nat
    requires t.TMap? && EntriesFit(t, es)
    decreases t, 1, |es|
  {
    if es == [] then 0 else
    LeftByEntry(t, es[0], failed) + if failed || !EntryWithin(t, es[0]) then 0 else LeftByEntries(t, es[1..], false)
  }

  // ----- when the stack is restored -----

  /** A map with entries is begun when the value is written to a stream that has an error already. */
  predicate ReachesMap(t: Type, v: Value)
    requires HasType(v, t)
    decreases t
  {
    match t
    case TStruct(ts) => FieldsReachMap(ts, v.fields)
    case TArray(e) => v.elems != [] && ReachesMap(e, v.elems[0])
    case TMap(_, _) => v.entries != []
    case TVariant(_, alts) => ReachesMap(Alternative(alts, v.index), v.held)
    case _ => false
  }

  predicate FieldsReachMap(ts: seq<Type>, vs: seq<Value>)
    requires FieldsHaveType(vs, ts)
    decreases ts
  {
    ts != [] && (ReachesMap(ts[0], vs[0]) || FieldsReachMap(ts[1..], vs[1..]))
  }

  /** The value sets the error while a map is being written, or a map with entries is begun after that. */
  predicate Abandons(t: Type, v: Value)
    requires HasType(v, t) && !Within(t, v)
    decreases t, 1, 0
  {
    match t
    case TStruct(ts) => FieldsAbandon(ts, v.fields)
    case TArray(_) => ElemsAbandon(t, v.elems)
    case TMap(_, _) => true
    case TVariant(_, alts) => Abandons(Alternative(alts, v.index), v.held)
    case _ => false
  }

  predicate FieldsAbandon(ts: seq<Type>, vs: seq<Value>)
    requires FieldsHaveType(vs, ts) && !FieldsWithin(ts, vs)
    decreases ts, 0, 0
  {
    if Within(ts[0], vs[0]) then FieldsAbandon(ts[1..], vs[1..])
    else Abandons(ts[0], vs[0]) || FieldsReachMap(ts[1..], vs[1..])
  }

  predicate ElemsAbandon(t: Type, vs: seq<Value>)
    requires t.TArray? && ElemsFit(t, vs) && !ElemsWithin(t, vs)
    decreases t, 0, |vs|
  {
    if Within(t.elem, vs[0]) then ElemsAbandon(t, vs[1..]) else Abandons(t.elem, vs[0])
  }

  /**
    The stack of positions is restored if and only if no map with entries is being written when the error is met, and
    none is begun on a stream that has it.
   */
  lemma {:induction false} StackRestored(t: Type, v: Value, failed: bool)
    requires HasType(v, t)
    ensures LeftBehind(t, v, failed) == 0
       <==> if failed then !ReachesMap(t, v) else Within(t, v) || !Abandons(t, v)
    decreases t, 2, 0
  {
    match t
    case TStruct(ts) => FieldsRestored(ts, v.fields, failed);
    case TArray(e) =>
      if failed {
        if v.elems != [] {
          StackRestored(e, v.elems[0], true);
        }
      } else {
        ElemsRestored(t, v.elems);
      }
    case TMap(_, _) =>
      if !failed && EntriesWithin(t, v.entries) {
        EntriesRestored(t, v.entries);
      }
    case TVariant(_, alts) => StackRestored(Alternative(alts, v.index), v.held, failed);
    case _ =>
  }

  lemma {:induction false} FieldsRestored(ts: seq<Type>, vs: seq<Value>, failed: bool)
    requires FieldsHaveType(vs, ts)
    ensures LeftByFields(ts, vs, failed) == 0
       <==> if failed then !FieldsReachMap(ts, vs) else FieldsWithin(ts, vs) || !FieldsAbandon(ts, vs)
    decreases ts, 0, 0
  {
    if ts != [] {
      StackRestored(ts[0], vs[0], failed);
      FieldsRestored(ts[1..], vs[1..], failed || !Within(ts[0], vs[0]));
    }
  }

  lemma {:induction false} ElemsRestored(t: Type, vs: seq<Value>)
    requires t.TArray? && ElemsFit(t, vs)
    ensures LeftByElems(t, vs, false) == 0 <==> ElemsWithin(t, vs) || !ElemsAbandon(t, vs)
    decreases t, 1, |vs|
  {
    hide LeftBehind;
    if vs != [] {
      StackRestored(t.elem, vs[0], false);
      if Within(t.elem, vs[0]) {
        ElemsRestored(t, vs[1..]);
      }
    }
  }

  lemma {:induction false} EntriesRestored(t: Type, es: seq<Entry>)
    requires t.TMap? && EntriesFit(t, es) && EntriesWithin(t, es)
    ensures LeftByEntries(t, es, false) == 0
    decreases t, 1, |es|
  {
    if es != [] {
      StackRestored(t.key, es[0].key, false);
      StackRestored(t.value, es[0].value, false);
      EntriesRestored(t, es[1..]);
    }
  }

  /** A map that meets an error loses two positions at least; a vector by itself none. */
  lemma MapsLoseTwo(t: Type, v: Value, failed: bool)
    requires t.TMap? && HasType(v, t) && v.entries != [] && (failed || !Within(t, v))
    ensures LeftBehind(t, v, failed) >= 2
  {
  }

  /**
    Positions that are lost: those of a map with one entry on a stream that has an error, of a map whose value is out of
    its range, and of the maps in a vector, although the vector pops two.
   */
  lemma LostPositions()
    ensures var t, v := TMap(TBool, TBool), VMap([Entry(VBool(true), VBool(true))]);
            HasType(v, t) && LeftBehind(t, v, true) == 2 && LeftBehind(TArray(t), VArray([v]), true) == 2
    ensures var t, v := TMap(TBool, TRanged(0, 9, 0)), VMap([Entry(VBool(true), VInt(10))]);
            HasType(v, t) && LeftBehind(t, v, false) == 2 && LeftBehind(TArray(t), VArray([v]), false) == 2
    ensures var t, v := TArray(TRanged(0, 9, 0)), VArray([VInt(10), VInt(10)]);
            HasType(v, t) && !Within(t, v) && LeftBehind(t, v, false) == 0
  {
    assert Pow256(4) == 256 * (256 * (256 * (256 * Pow256(0))));
    assert !Within(TRanged(0, 9, 0), [VInt(10), VInt(10)][0]);
    LostByOne(TBool, VBool(true), true);
    LostByOne(TRanged(0, 9, 0), VInt(10), false);
  }

  lemma LostByOne(w: Type, v: Value, failed: bool)
    requires HasType(v, w) && LeftBehind(w, v, failed) == 0 && (failed || !Within(w, v))
    ensures var t, m := TMap(TBool, w), VMap([Entry(VBool(true), v)]);
            HasType(m, t) && LeftBehind(t, m, failed) == 2 && LeftBehind(TArray(t), VArray([m]), failed) == 2
  {
    var t, es := TMap(TBool, w), [Entry(VBool(true), v)];
    assert LeftByEntry(t, es[0], failed) == 0;
    assert LeftByEntries(t, es, failed) == 0;
    if !failed {
      assert !EntryWithin(t, es[0]);
    }
    assert LeftBehind(t, VMap(es), failed) == 2;
    assert LeftByElems(TArray(t), [VMap(es)], failed) == 2;
  }
}
