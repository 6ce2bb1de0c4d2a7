/**
  Signal handlers and the match rules that are held for them: a rule is counted once for each signature that has
  handlers, an object manager rule once for each handler, and libdbus is asked for each rule once. Calls of libdbus succeed.
 */
module MatchRules {

  /** `DBusSignalMatchRuleTuple` */
  datatype Rule = Rule(objectPath: string, interfaceName: string, memberName: string)

  /** `DBusSignalHandlerPath`, which adds the signature. */
  datatype Path = Path(rule: Rule, signature: string)

  /** Signal handlers are compared by address. */
  type Handler = nat

  /** What libdbus is asked to match. */
  datatype Match = Signal(rule: Rule) | ObjectManager(busName: string)

  /** The signatures of a rule that have handlers. */
  ghost function Signatures(handlers: map<Path, set<Handler>>, r: Rule): set<Path>
  {
    set p | p in handlers && p.rule == r
  }

  /** Each rule is there for its signatures, and counts them. */
  ghost predicate RulesExact(handlers: map<Path, set<Handler>>, rules: map<Rule, nat>)
  {
    forall r :: (r in rules <==> Signatures(handlers, r) != {})
                && (r in rules ==> rules[r] == |Signatures(handlers, r)|)
  }

  lemma SignatureAdded(handlers: map<Path, set<Handler>>, p: Path, hs: set<Handler>)
    requires p !in handlers
    ensures forall r :: Signatures(handlers[p := hs], r)
                        == if r == p.rule then Signatures(handlers, r) + {p} else Signatures(handlers, r)
    ensures p !in Signatures(handlers, p.rule)
  {
  }

  lemma SignatureRemoved(handlers: map<Path, set<Handler>>, p: Path)
    requires p in handlers
    ensures forall r :: Signatures(handlers - {p}, r)
                        == if r == p.rule then Signatures(handlers, r) - {p} else Signatures(handlers, r)
    ensures p in Signatures(handlers, p.rule)
  {
  }

  lemma SignaturesKept(handlers: map<Path, set<Handler>>, p: Path, hs: set<Handler>)
    requires p in handlers
    ensures forall r :: Signatures(handlers[p := hs], r) == Signatures(handlers, r)
  {
  }

  lemma OneMore(handlers: map<Path, set<Handler>>, rules: map<Rule, nat>, p: Path, hs: set<Handler>)
    requires RulesExact(handlers, rules) && p !in handlers
    ensures RulesExact(handlers[p := hs], rules[p.rule := if p.rule in rules then rules[p.rule] + 1 else 1])
  {
    SignatureAdded(handlers, p, hs);
    hide Signatures;
    var before := Signatures(handlers, p.rule);
    assert |before + {p}| == |before| + 1;
    if p.rule !in rules {
      assert before == {};
    }
  }

  lemma OneLess(handlers: map<Path, set<Handler>>, rules: map<Rule, nat>, p: Path)
    requires RulesExact(handlers, rules) && p in handlers
    ensures p.rule in rules && rules[p.rule] >= 1
    ensures RulesExact(handlers - {p}, if rules[p.rule] > 1 then rules[p.rule := rules[p.rule] - 1] else rules - {p.rule})
  {
    SignatureRemoved(handlers, p);
    hide Signatures;
    var before := Signatures(handlers, p.rule);
    assert |before - {p}| == |before| - 1;
    if |before| == 1 {
      assert before - {p} == {};
    }
  }

  lemma SameSignatures(handlers: map<Path, set<Handler>>, rules: map<Rule, nat>, p: Path, hs: set<Handler>)
    requires RulesExact(handlers, rules) && p in handlers
    ensures RulesExact(handlers[p := hs], rules)
  {
    SignaturesKept(handlers, p, hs);
    hide Signatures;
  }

  /** An object manager rule counts the handlers of its bus name. */
  ghost predicate OmExact(omHandlers: map<string, seq<Handler>>, omRules: map<string, nat>)
  {
    && omRules.Keys == omHandlers.Keys
    && forall b | b in omRules :: omRules[b] == |omHandlers[b]| && omHandlers[b] != []
  }

  function Count(connected: bool, rules: set<Rule>, names: set<string>): nat
  {
    if connected then |rules| + |names| else 0
  }

  /** While connected, exactly the rules are matched, but for those that were added as a filter only. */
  ghost predicate BusExact(matched: set<Match>, connected: bool, rules: set<Rule>, filterOnly: set<Rule>, names: set<string>)
  {
    && filterOnly <= rules
    && (forall m: Match :: m in matched <==>
          connected && match m case Signal(r) => r in rules && r !in filterOnly case ObjectManager(b) => b in names)
  }

  lemma NothingMatched(matched: set<Match>, rules: set<Rule>, filterOnly: set<Rule>, names: set<string>)
    requires BusExact(matched, false, rules, filterOnly, names)
    ensures matched == {} && BusExact({}, true, {}, {}, {}) && Count(true, {}, {}) == 0 == Count(false, rules, names)
  {
    forall m | m in matched ensures false {
    }
  }

  lemma RuleAdded(matched: set<Match>, connected: bool, rules: set<Rule>, filterOnly: set<Rule>, names: set<string>, r: Rule)
    requires BusExact(matched, connected, rules, filterOnly, names) && r !in rules
    ensures !connected ==> BusExact(matched, connected, rules + {r}, filterOnly, names)
    ensures BusExact(matched + {Signal(r)}, true, rules + {r}, filterOnly, names) || !connected
    ensures BusExact(matched, true, rules + {r}, filterOnly + {r}, names) || !connected
    ensures Count(connected, rules + {r}, names) == Count(connected, rules, names) + (if connected then 1 else 0)
  {
  }

  lemma RuleRemoved(matched: set<Match>, connected: bool, rules: set<Rule>, filterOnly: set<Rule>,
                    names: set<string>, r: Rule)
    requires BusExact(matched, connected, rules, filterOnly, names) && r in rules
    ensures BusExact(matched - {Signal(r)}, connected, rules - {r}, filterOnly - {r}, names)
    ensures !connected ==> matched - {Signal(r)} == matched
    ensures Count(connected, rules, names) == Count(connected, rules - {r}, names) + (if connected then 1 else 0)
  {
  }

  lemma NameAdded(matched: set<Match>, connected: bool, rules: set<Rule>, filterOnly: set<Rule>, names: set<string>,
                  b: string)
    requires BusExact(matched, connected, rules, filterOnly, names) && b !in names
    ensures BusExact(if connected then matched + {ObjectManager(b)} else matched, connected, rules, filterOnly, names + {b})
    ensures Count(connected, rules, names + {b}) == Count(connected, rules, names) + (if connected then 1 else 0)
  {
  }

  lemma NameRemoved(matched: set<Match>, connected: bool, rules: set<Rule>, filterOnly: set<Rule>,
                    names: set<string>, b: string)
    requires BusExact(matched, connected, rules, filterOnly, names) && b in names
    ensures BusExact(if connected then matched - {ObjectManager(b)} else matched, connected, rules, filterOnly, names - {b})
    ensures Count(connected, rules, names) == Count(connected, rules, names - {b}) + (if connected then 1 else 0)
  {
  }

  lemma SameKeys(omHandlers: map<string, seq<Handler>>, omRules: map<string, nat>)
    requires OmExact(omHandlers, omRules)
    ensures omRules.Keys == omHandlers.Keys
    ensures forall b :: b in omRules <==> b in omHandlers
  {
  }

  lemma OmGrows(omHandlers: map<string, seq<Handler>>, omRules: map<string, nat>, b: string, h: Handler)
    requires OmExact(omHandlers, omRules)
    ensures var hs := if b in omHandlers then omHandlers[b] else [];
            OmExact(omHandlers[b := hs + [h]], omRules[b := if b in omRules then omRules[b] + 1 else 1])
  {
  }

  lemma OmShrinks(omHandlers: map<string, seq<Handler>>, omRules: map<string, nat>, b: string, rest: seq<Handler>)
    requires OmExact(omHandlers, omRules) && b in omHandlers && |rest| == |omHandlers[b]| - 1
    ensures b in omRules && omRules[b] > 0
    ensures rest == [] ==> OmExact(omHandlers - {b}, omRules - {b}) && omRules[b] == 1
    ensures rest != [] ==> OmExact(omHandlers[b := rest], omRules[b := omRules[b] - 1]) && omRules[b] > 1
  {
  }

  class DBusConnection {
    var connected: bool
    var handlers: map<Path, set<Handler>>          // dbusSignalHandlers_
    var rules: map<Rule, nat>                      // dbusSignalMatchRulesMap_
    var omHandlers: map<string, seq<Handler>>      // dbusOMSignalHandlers_, by bus name
    var omRules: map<string, nat>                  // dbusOMSignalMatchRulesMap_
    var count: nat                                 // libdbusSignalMatchRulesCount_

    /** What is matched on the bus, and the rules that were counted without being matched. */
    ghost var matched: set<Match>
    ghost var filterOnly: set<Rule>

    ghost predicate Valid()
      reads this
    {
      && (forall p | p in handlers :: handlers[p] != {})
      && RulesExact(handlers, rules)
      && OmExact(omHandlers, omRules)
      && count == Count(connected, rules.Keys, omRules.Keys)
      && BusExact(matched, connected, rules.Keys, filterOnly, omRules.Keys)
    }

    function Listening(p: Path): set<Handler>
      reads this
    {
      if p in handlers then handlers[p] else {}
    }

    function OmListening(b: string): seq<Handler>
      reads this
    {
      if b in omHandlers then omHandlers[b] else []
    }

    constructor ()
      ensures Valid() && !connected && handlers == map[] && omHandlers == map[]
    {
      connected, handlers, rules, omHandlers, omRules, count := false, map[], map[], map[], map[], 0;
      matched, filterOnly := {}, {};
    }

    /** `addLibdbusSignalMatchRule(matchRule)` */
    method AddMatch(m: Match)
      modifies this`count, this`matched
      ensures count == old(count) + 1 && matched == old(matched) + {m}
    {
      matched := matched + {m};
      count := count + 1;
    }

    /** `removeLibdbusSignalMatchRule(matchRule)` */
    method RemoveMatch(m: Match)
      modifies this`count, this`matched
      ensures old(count) == 0 ==> count == 0 && matched == old(matched)
      ensures old(count) > 0 ==> count == old(count) - 1 && matched == old(matched) - {m}
    {
      if count == 0 { return; }
      matched := matched - {m};
      count := count - 1;
    }

    /** `addLibdbusSignalMatchRule(objectPath, interfaceName, memberName, justAddFilter)` */
    method AddRule(r: Rule, justAddFilter: bool)
      modifies this`rules, this`count, this`matched, this`filterOnly
      ensures rules == old(rules)[r := if r in old(rules) then old(rules)[r] + 1 else 1]
      ensures count == if r !in old(rules) && connected then old(count) + 1 else old(count)
      ensures matched == if r !in old(rules) && connected && !justAddFilter then old(matched) + {Signal(r)} else old(matched)
      ensures filterOnly == if r !in old(rules) && connected && justAddFilter then old(filterOnly) + {r} else old(filterOnly)
    {
      if r in rules {
        rules := rules[r := rules[r] + 1];
        return;
      }
      rules := rules[r := 1];
      if connected {
        if !justAddFilter {
          matched := matched + {Signal(r)};
        } else {
          filterOnly := filterOnly + {r};
        }
        count := count + 1;
      }
    }

    /** `addSignalMemberHandler`; `alive` says that the weak pointer could be locked. */
    method AddSignalMemberHandler(p: Path, h: Handler, alive: bool, justAddFilter: bool) returns (token: Path)
      requires Valid()
      modifies this
      ensures Valid() && token == p && connected == old(connected)
      ensures Listening(p) == if alive then old(Listening(p)) + {h} else old(Listening(p))
      ensures forall q | q != p :: Listening(q) == old(Listening(q))
      ensures omHandlers == old(omHandlers)
      ensures filterOnly == old(filterOnly)
                            + (if alive && p !in old(handlers) && p.rule !in old(rules) && connected && justAddFilter
                               then {p.rule} else {})
    {
      hide RulesExact, OmExact, BusExact, Count;
      if alive && p !in handlers {
        NewRule(p, h, justAddFilter);
      } else if alive {
        SameSignatures(handlers, rules, p, handlers[p] + {h});
        handlers := handlers[p := handlers[p] + {h}];
      }
      return p;
    }

    method NewRule(p: Path, h: Handler, justAddFilter: bool)
      requires Valid() && p !in handlers
      modifies this
      ensures Valid() && connected == old(connected) && handlers == old(handlers)[p := {h}] && omHandlers == old(omHandlers)
      ensures filterOnly == old(filterOnly) + (if p.rule !in old(rules) && connected && justAddFilter then {p.rule} else {})
    {
      hide Signatures, RulesExact, OmExact, BusExact, Count;
      OneMore(handlers, rules, p, {h});
      if p.rule !in rules {
        RuleAdded(matched, connected, rules.Keys, filterOnly, omRules.Keys, p.rule);
      } else {
        assert rules.Keys + {p.rule} == rules.Keys;
      }
      AddRule(p.rule, justAddFilter);
      assert rules.Keys == old(rules.Keys) + {p.rule};
      handlers := handlers[p := {h}];
    }

    /** `removeSignalMemberHandler`: says whether the last handler has gone. */
    method RemoveSignalMemberHandler(p: Path, h: Handler) returns (last: bool)
      requires Valid()
      modifies this
      ensures Valid() && connected == old(connected)
      ensures last <==> old(Listening(p)) == {h}
      ensures forall q :: Listening(q) == if q == p then old(Listening(q)) - {h} else old(Listening(q))
      ensures omHandlers == old(omHandlers)
    {
      hide RulesExact, OmExact, BusExact, Count;
      last := false;
      if p in handlers && h in handlers[p] {
        var rest := handlers[p] - {h};
        last := rest == {};
        if last {
          assert handlers[p] == {h};
          LastOfRule(p);
        } else {
          SameSignatures(handlers, rules, p, rest);
          handlers := handlers[p := rest];
        }
      }
    }

    /** The end of `removeSignalMemberHandler` and `removeLibdbusSignalMatchRule`: the rule is always found. */
    method LastOfRule(p: Path)
      requires Valid() && p in handlers
      modifies this
      ensures Valid() && connected == old(connected) && handlers == old(handlers) - {p} && omHandlers == old(omHandlers)
    {
      hide Signatures, RulesExact, OmExact, BusExact, Count;
      OneLess(handlers, rules, p);
      handlers := handlers - {p};
      if rules[p.rule] > 1 {
        rules := rules[p.rule := rules[p.rule] - 1];
        assert rules.Keys == old(rules.Keys);
        return;
      }
      RuleRemoved(matched, connected, rules.Keys, filterOnly, omRules.Keys, p.rule);
      if connected {
        RemoveMatch(Signal(p.rule));
      }
      rules := rules - {p.rule};
      filterOnly := filterOnly - {p.rule};
    }

    /** `addObjectManagerSignalMemberHandler` */
    method AddObjectManagerSignalMemberHandler(b: string, h: Handler, alive: bool) returns (ok: bool)
      requires Valid()
      modifies this
      ensures Valid() && connected == old(connected) && handlers == old(handlers)
      ensures ok <==> |b| >= 2
      ensures OmListening(b) == if ok && alive then old(OmListening(b)) + [h] else old(OmListening(b))
      ensures forall c | c != b :: OmListening(c) == old(OmListening(c))
    {
      hide RulesExact, OmExact, BusExact, Count;
      if |b| < 2 { return false; }
      if alive {
        OmGrows(omHandlers, omRules, b, h);
        SameKeys(omHandlers, omRules);
        if b !in omRules {
          NameAdded(matched, connected, rules.Keys, filterOnly, omRules.Keys, b);
          if connected {
            AddMatch(ObjectManager(b));
          }
          omRules := omRules[b := 0];
        }
        omRules := omRules[b := omRules[b] + 1];
        assert omRules.Keys == old(omRules.Keys) + {b};
        assert b in old(omRules) ==> old(omRules.Keys) + {b} == old(omRules.Keys);
        assert omRules == old(omRules)[b := if b in old(omRules) then old(omRules)[b] + 1 else 1];
        omHandlers := omHandlers[b := OmListening(b) + [h]];
      }
      return true;
    }

    /** `removeObjectManagerSignalMemberHandler`; a count that is found is never 0. */
    method RemoveObjectManagerSignalMemberHandler(b: string, h: Handler) returns (ok: bool, ghost at: nat)
      requires Valid()
      modifies this
      ensures Valid() && connected == old(connected) && handlers == old(handlers)
      ensures ok <==> b != "" && (old(OmListening(b)) == [] || h in old(OmListening(b)))
      ensures h in old(OmListening(b)) && ok ==>
                && at < |old(OmListening(b))| && old(OmListening(b))[at] == h && h !in old(OmListening(b))[..at]
                && OmListening(b) == old(OmListening(b))[..at] + old(OmListening(b))[at + 1..]
      ensures h !in old(OmListening(b)) || !ok ==> OmListening(b) == old(OmListening(b))
      ensures forall c | c != b :: OmListening(c) == old(OmListening(c))
    {
      hide RulesExact, BusExact, Count;
      at := 0;
      if b == "" { return false, 0; }
      if b !in omRules { return true, 0; }
      var i := FindHandler(omHandlers[b], h);
      if i == |omHandlers[b]| { return false, 0; }
      assert omRules[b] > 0;
      RemoveOm(b, i);
      return true, i;
    }

    method RemoveOm(b: string, i: nat)
      requires Valid() && b in omRules && b in omHandlers && i < |omHandlers[b]|
      modifies this
      ensures Valid() && connected == old(connected) && handlers == old(handlers)
      ensures OmListening(b) == old(omHandlers[b])[..i] + old(omHandlers[b])[i + 1..]
      ensures forall c | c != b :: OmListening(c) == old(OmListening(c))
    {
      hide RulesExact, OmExact, BusExact, Count;
      SameKeys(omHandlers, omRules);
      var rest := omHandlers[b][..i] + omHandlers[b][i + 1..];
      OmShrinks(omHandlers, omRules, b, rest);
      ghost var before := omRules;
      omRules := omRules[b := omRules[b] - 1];
      if omRules[b] == 0 {
        NameRemoved(matched, connected, rules.Keys, filterOnly, before.Keys, b);
        assert omRules - {b} == before - {b};
        if connected {
          RemoveMatch(ObjectManager(b));
        }
        omRules := omRules - {b};
        assert rest == [];
        omHandlers := omHandlers - {b};
      } else {
        assert omRules.Keys == before.Keys;
        omHandlers := omHandlers[b := rest];
      }
    }

    /** The first loop of `initLibdbusSignalFilterAfterConnect`. */
    method MatchSignals()
      requires BusExact(matched, true, {}, {}, {}) && count == Count(true, {}, {})
      modifies this`count, this`matched
      ensures BusExact(matched, true, rules.Keys, {}, {}) && count == Count(true, rules.Keys, {})
    {
      hide BusExact, Count;
      var todo := rules.Keys;
      assert rules.Keys - todo == {};
      while todo != {}
        invariant todo <= rules.Keys
        invariant BusExact(matched, true, rules.Keys - todo, {}, {}) && count == Count(true, rules.Keys - todo, {})
        decreases |todo|
      {
        var r :| r in todo;
        RuleAdded(matched, true, rules.Keys - todo, {}, {}, r);
        assert rules.Keys - (todo - {r}) == rules.Keys - todo + {r};
        AddMatch(Signal(r));
        todo := todo - {r};
      }
      assert rules.Keys - todo == rules.Keys;
    }

    /** The second loop of `initLibdbusSignalFilterAfterConnect`. */
    method MatchNames()
      requires BusExact(matched, true, rules.Keys, {}, {}) && count == Count(true, rules.Keys, {})
      modifies this`count, this`matched
      ensures BusExact(matched, true, rules.Keys, {}, omRules.Keys) && count == Count(true, rules.Keys, omRules.Keys)
    {
      hide BusExact, Count;
      var names := omRules.Keys;
      assert omRules.Keys - names == {};
      while names != {}
        invariant names <= omRules.Keys
        invariant BusExact(matched, true, rules.Keys, {}, omRules.Keys - names)
        invariant count == Count(true, rules.Keys, omRules.Keys - names)
        decreases |names|
      {
        var b :| b in names;
        NameAdded(matched, true, rules.Keys, {}, omRules.Keys - names, b);
        assert omRules.Keys - (names - {b}) == omRules.Keys - names + {b};
        AddMatch(ObjectManager(b));
        names := names - {b};
      }
      assert omRules.Keys - names == omRules.Keys;
    }

    /** `connect`: every rule is matched, also those that had been added as a filter only. */
    method Connect()
      requires Valid()
      modifies this
      ensures Valid() && connected && handlers == old(handlers) && omHandlers == old(omHandlers)
      ensures !old(connected) ==> filterOnly == {}
    {
      hide RulesExact, OmExact, BusExact, Count;
      if connected { return; }
      NothingMatched(matched, rules.Keys, filterOnly, omRules.Keys);
      connected, filterOnly := true, {};
      MatchSignals();
      MatchNames();
    }

    /** The part of `disconnect` that concerns rules; a closed bus forgets all matches. */
    method Disconnect()
      requires Valid()
      modifies this
      ensures Valid() && !connected && handlers == old(handlers) && omHandlers == old(omHandlers)
    {
      hide RulesExact, OmExact;
      if connected {
        if count > 0 {
          count := 0;
        }
        connected, matched := false, {};
      }
    }
  }

  method FindHandler(hs: seq<Handler>, h: Handler) returns (i: nat)
    ensures i <= |hs| && h !in hs[..i] && (i < |hs| ==> hs[i] == h)
  {
    i := 0;
    while i < |hs| && hs[i] != h
      invariant i <= |hs| && h !in hs[..i]
    {
      i := i + 1;
    }
  }
}
