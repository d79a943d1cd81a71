/**
 * The objects around the debouncers: FaultConditionState, the keyed FaultConditionEngine
 * (services/control/fault/fault_condition_engine.cpp) and the rule table of FaultRuntimeMapper.
 */
module FaultConditions {
  import opened Debounce

  /** services/control/fault/fault_condition_state.h. */
  class FaultConditionState {
    var rawOn: bool
    var rawClear: bool
    var confirmedOn: bool
    var rawOnSinceMs: nat
    var rawClearSinceMs: nat
    var lastUpdateMs: nat
    var lastChangeMs: nat
    var assertDelayMs: nat
    var clearDelayMs: nat
    var changedLastUpdate: bool
    var lastChangeToOn: bool

    function Value(): Condition
      reads this
    {
      Condition(confirmedOn, rawOn, rawOnSinceMs, rawClear, rawClearSinceMs)
    }

    function Configured(): Delays
      reads this
    {
      Delays(assertDelayMs, clearDelayMs)
    }

    constructor ()
      ensures Value() == RESET && Configured() == Delays(0, 0)
    {
      rawOn, rawClear, confirmedOn := false, false, false;
      rawOnSinceMs, rawClearSinceMs, lastUpdateMs, lastChangeMs := 0, 0, 0, 0;
      assertDelayMs, clearDelayMs := 0, 0;
      changedLastUpdate, lastChangeToOn := false, false;
    }

    /** The state as a table entry holds it. */
    constructor Of(c: Condition)
      ensures Value() == c
    {
      confirmedOn, rawOn, rawOnSinceMs := c.on, c.rawOn, c.rawOnSince;
      rawClear, rawClearSinceMs := c.rawClear, c.rawClearSince;
      lastUpdateMs, lastChangeMs, assertDelayMs, clearDelayMs := 0, 0, 0, 0;
      changedLastUpdate, lastChangeToOn := false, false;
    }

    method Configure(assertDelay: nat, clearDelay: nat)
      modifies this`assertDelayMs, this`clearDelayMs
      ensures Configured() == Delays(assertDelay, clearDelay) && Value() == old(Value())
    {
      assertDelayMs := assertDelay;
      clearDelayMs := clearDelay;
    }

    method Reset()
      modifies this
      ensures Value() == RESET && Configured() == old(Configured())
    {
      rawOn, rawClear, confirmedOn := false, false, false;
      rawOnSinceMs, rawClearSinceMs, lastUpdateMs, lastChangeMs := 0, 0, 0, 0;
      changedLastUpdate, lastChangeToOn := false, false;
    }

    method Update(rawNow: bool, nowMs: nat) returns (changed: bool)
      modifies this
      ensures Value() == Debounce.Update(old(Value()), old(Configured()), rawNow, nowMs)
      ensures Configured() == old(Configured()) && changed == (confirmedOn != old(confirmedOn))
    {
      changed := UpdateWithClear(rawNow, !rawNow, nowMs);
    }

    method UpdateWithClear(assertNow: bool, clearNow: bool, nowMs: nat) returns (changed: bool)
      modifies this
      ensures Value() == Debounce.UpdateWithClear(old(Value()), old(Configured()), assertNow, clearNow, nowMs)
      ensures Configured() == old(Configured())
      ensures changed == changedLastUpdate == (confirmedOn != old(confirmedOn))
      ensures lastUpdateMs == nowMs
      ensures lastChangeMs == if changed then nowMs else old(lastChangeMs)
      ensures lastChangeToOn == if changed then confirmedOn else old(lastChangeToOn)
    {
      changedLastUpdate := false;
      lastUpdateMs := nowMs;
      if !confirmedOn {
        WhileOff(assertNow, nowMs);
      } else {
        WhileOn(assertNow, clearNow, nowMs);
      }
      return changedLastUpdate;
    }

    /** The branch of an unconfirmed condition. */
    method WhileOff(assertNow: bool, nowMs: nat)
      requires !confirmedOn && !changedLastUpdate
      modifies this
      ensures Value() == Debounce.UpdateWithClear(old(Value()), old(Configured()), assertNow, false, nowMs)
      ensures Configured() == old(Configured()) && lastUpdateMs == old(lastUpdateMs)
      ensures changedLastUpdate == confirmedOn
      ensures lastChangeMs == (if confirmedOn then nowMs else old(lastChangeMs))
      ensures lastChangeToOn == (confirmedOn || old(lastChangeToOn))
    {
      rawClear := false;
      rawClearSinceMs := 0;
      if assertNow {
        if !rawOn {
          rawOn := true;
          rawOnSinceMs := nowMs;
        }
        var heldMs := if nowMs >= rawOnSinceMs then nowMs - rawOnSinceMs else 0;
        if assertDelayMs == 0 || heldMs >= assertDelayMs {
          confirmedOn := true;
          lastChangeMs := nowMs;
          changedLastUpdate := true;
          lastChangeToOn := true;
          rawClear := false;
          rawClearSinceMs := 0;
        }
      } else {
        rawOn := false;
        rawOnSinceMs := 0;
      }
    }

    /** The branch of a confirmed condition. */
    method WhileOn(assertNow: bool, clearNow: bool, nowMs: nat)
      requires confirmedOn && !changedLastUpdate
      modifies this
      ensures Value() == Debounce.UpdateWithClear(old(Value()), old(Configured()), assertNow, clearNow, nowMs)
      ensures Configured() == old(Configured()) && lastUpdateMs == old(lastUpdateMs)
      ensures changedLastUpdate == !confirmedOn
      ensures lastChangeMs == (if confirmedOn then old(lastChangeMs) else nowMs)
      ensures lastChangeToOn == (confirmedOn && old(lastChangeToOn))
    {
      rawOn := assertNow;
      if !assertNow {
        rawOnSinceMs := 0;
      }
      if clearNow {
        if !rawClear {
          rawClear := true;
          rawClearSinceMs := nowMs;
        }
        var heldMs := if nowMs >= rawClearSinceMs then nowMs - rawClearSinceMs else 0;
        if clearDelayMs == 0 || heldMs >= clearDelayMs {
          confirmedOn := false;
          lastChangeMs := nowMs;
          changedLastUpdate := true;
          lastChangeToOn := false;
          rawOn := false;
          rawOnSinceMs := 0;
          rawClear := false;
          rawClearSinceMs := 0;
        }
      } else {
        rawClear := false;
        rawClearSinceMs := 0;
      }
    }
  }

  // ---- The keyed engine ------------------------------------------------------------------

  /** A key never updated reads as a reset condition. */
  function At<K>(states: map<K, Condition>, key: K): Condition {
    if key in states then states[key] else RESET
  }

  datatype Keyed<K> = Keyed(key: K, assertNow: bool, clearNow: bool, delays: Delays)

  function Step<K>(c: Condition, u: Keyed<K>, now: nat): Condition {
    UpdateWithClear(c, u.delays, u.assertNow, u.clearNow, now)
  }

  /** One keyed update, for any way of updating a condition. */
  function Apply<K>(step: (Condition, Keyed<K>, nat) -> Condition, states: map<K, Condition>, u: Keyed<K>, now: nat)
    : map<K, Condition>
  {
    states[u.key := step(At(states, u.key), u, now)]
  }

  function ApplyFour<K>(step: (Condition, Keyed<K>, nat) -> Condition, states: map<K, Condition>,
                        a: Keyed<K>, b: Keyed<K>, c: Keyed<K>, d: Keyed<K>, now: nat)
    : map<K, Condition>
  {
    Apply(step, Apply(step, Apply(step, Apply(step, states, a, now), b, now), c, now), d, now)
  }

  /** The source's table holds FaultConditionState values under their keys, configured anew at
      every update; an entry here is the part of the value that decides the output. */
  class FaultConditionEngine<K(==)> {
    var states: map<K, Condition>

    constructor ()
      ensures states == map[]
    {
      states := map[];
    }

    method UpdateCondition(key: K, rawNow: bool, nowMs: nat, d: Delays) returns (changed: bool)
      modifies this
      ensures states == Apply(Step, old(states), Keyed(key, rawNow, !rawNow, d), nowMs)
      ensures changed == (At(states, key).on != At(old(states), key).on)
    {
      changed := UpdateConditionWithClear(key, rawNow, !rawNow, nowMs, d);
    }

    method UpdateConditionWithClear(key: K, assertNow: bool, clearNow: bool, nowMs: nat, d: Delays)
      returns (changed: bool)
      modifies this
      ensures states == Apply(Step, old(states), Keyed(key, assertNow, clearNow, d), nowMs)
      ensures changed == (At(states, key).on != At(old(states), key).on)
    {
      var st := new FaultConditionState.Of(At(states, key));
      st.Configure(d.toOn, d.toOff);
      changed := st.UpdateWithClear(assertNow, clearNow, nowMs);
      states := states[key := st.Value()];
    }

    /** resetCondition: a key that is in the table starts over, others are not touched. */
    method ResetCondition(key: K)
      modifies this
      ensures states == if key in old(states) then old(states)[key := RESET] else old(states)
    {
      if key in states {
        var st := new FaultConditionState.Of(states[key]);
        st.Reset();
        states := states[key := st.Value()];
      }
    }

    /** A key never updated is not confirmed. */
    method GetConfirmed(key: K) returns (on: bool)
      ensures on == At(states, key).on
    {
      if key !in states {
        return false;
      }
      return states[key].on;
    }
  }

  // ---- Rule debouncing -------------------------------------------------------------------

  datatype Rule = Rule(source: string, signal: string, instance: nat, code: nat)

  /** Sources whose raw faults are debounced; all others pass through. */
  predicate Debounced(r: Rule) {
    r.source in ["ups", "air", "smoke", "gas"]
  }

  predicate IsOfflineSignal(r: Rule) {
    match r.source
    case "ups" => r.signal in ["offline", "runtime_offline", "ups_offline", "ups_comm_fault"]
    case "air" => r.signal in ["offline", "runtime_offline", "air_offline", "aircon_comm_fault", "air_comm_fault"]
    case "smoke" => r.signal in ["tss_offline", "smoke_offline", "tss_comm_fault", "smoke_comm_fault"]
    case "gas" => r.signal in ["gas_offline", "cgs_comm_fault", "gas_comm_fault"]
    case _ => false
  }

  function Policy(r: Rule): Delays {
    if IsOfflineSignal(r) then Delays(3000, 0) else Delays(3000, 1000)
  }

  /** The names under which the four devices report that they are offline. */
  const OFFLINE_NAMES: set<(string, string)> := {
    ("ups", "offline"), ("ups", "runtime_offline"), ("ups", "ups_offline"), ("ups", "ups_comm_fault"),
    ("air", "offline"), ("air", "runtime_offline"), ("air", "air_offline"), ("air", "aircon_comm_fault"),
    ("air", "air_comm_fault"),
    ("smoke", "tss_offline"), ("smoke", "smoke_offline"), ("smoke", "tss_comm_fault"), ("smoke", "smoke_comm_fault"),
    ("gas", "gas_offline"), ("gas", "cgs_comm_fault"), ("gas", "gas_comm_fault")}

  /** A device found offline is reported after three seconds and taken back at once; any other fault of
      these devices is taken back after one second. */
  lemma PolicyDelays(r: Rule)
    ensures Policy(r) == Delays(3000, if (r.source, r.signal) in OFFLINE_NAMES then 0 else 1000)
    ensures (r.source, r.signal) in OFFLINE_NAMES ==> Debounced(r)
    ensures Debounced(r) <==> r.source == "ups" || r.source == "air" || r.source == "smoke" || r.source == "gas"
  {}

  function Decimal(n: nat): string {
    if n < 10 then [DIGITS[n]] else Decimal(n / 10) + [DIGITS[n % 10]]
  }

  const DIGITS := "0123456789"

  /** makeDebounceKey_. */
  function Key(r: Rule): string {
    r.source + "|" + r.signal + "|" + Decimal(r.instance) + "|" + Decimal(r.code)
  }

  function DigitValue(c: char): nat {
    if '0' <= c <= '9' then (c - '0') as nat else 0
  }

  function Number(s: string): nat {
    if |s| == 0 then 0 else 10 * Number(s[..|s| - 1]) + DigitValue(s[|s| - 1])
  }

  lemma DigitReads(d: nat)
    requires d < 10
    ensures DigitValue(DIGITS[d]) == d && DIGITS[d] != '|'
  {}

  lemma {:induction false} DigitAppended(s: string, c: char)
    ensures Number(s + [c]) == 10 * Number(s) + DigitValue(c)
  {
    assert (s + [c])[..|s|] == s;
  }

  lemma {:induction false} DecimalReads(n: nat)
    ensures Number(Decimal(n)) == n && '|' !in Decimal(n)
  {
    if n < 10 {
      DigitReads(n);
      DigitAppended([], DIGITS[n]);
      assert [] + [DIGITS[n]] == Decimal(n);
    } else {
      DecimalReads(n / 10);
      DigitReads(n % 10);
      DigitAppended(Decimal(n / 10), DIGITS[n % 10]);
    }
  }

  lemma LastBarSplits(a: string, x: string, b: string, y: string)
    requires a + "|" + x == b + "|" + y && '|' !in x && '|' !in y
    ensures a == b && x == y
  {
    var s := a + "|" + x;
    assert s[|a|] == '|' && s[|b|] == '|';
    assert s[..|a|] == a && s[|a| + 1..] == x;
    assert s[..|b|] == b && s[|b| + 1..] == y;
    assert forall i :: |a| < i < |s| ==> s[i] in x;
    assert forall i :: |b| < i < |s| ==> s[i] in y;
  }

  /** Rules with different codes or instances never share a debounce state; rules whose names
      are free of the separator share one only if they are the same rule. */
  lemma KeysSeparateRules(r: Rule, q: Rule)
    requires Key(r) == Key(q)
    ensures r.code == q.code && r.instance == q.instance
    ensures '|' !in r.signal && '|' !in q.signal ==> r == q
  {
    DecimalReads(r.code);
    DecimalReads(q.code);
    DecimalReads(r.instance);
    DecimalReads(q.instance);
    var r2, q2 := r.source + "|" + r.signal, q.source + "|" + q.signal;
    var r3, q3 := r2 + "|" + Decimal(r.instance), q2 + "|" + Decimal(q.instance);
    LastBarSplits(r3, Decimal(r.code), q3, Decimal(q.code));
    LastBarSplits(r2, Decimal(r.instance), q2, Decimal(q.instance));
    if '|' !in r.signal && '|' !in q.signal {
      LastBarSplits(r.source, r.signal, q.source, q.signal);
    }
  }

  /** FaultRuntimeMapper's table of rule states. */
  class RuleDebouncer {
    var states: map<string, RuleState>

    constructor ()
      ensures states == map[]
    {
      states := map[];
    }

    ghost function At(key: string): RuleState
      reads this
    {
      if key in states then states[key] else FRESH
    }

    method DebounceRule(rule: Rule, rawActive: bool, nowMs: nat) returns (active: bool)
      modifies this
      ensures !Debounced(rule) ==> active == rawActive && states == old(states)
      ensures Debounced(rule) ==>
                var st := Debounce.DebounceRule(old(At(Key(rule))), Policy(rule), rawActive, nowMs);
                states == old(states)[Key(rule) := st] && active == st.output
    {
      if !Debounced(rule) {
        return rawActive;
      }
      var policy := Policy(rule);
      var key := Key(rule);
      var st := if key in states then states[key] else FRESH;

      if !st.initialized {
        st := RuleState(true, rawActive, rawActive && policy.toOn == 0, nowMs);
        states := states[key := st];
        return st.output;
      }
      if st.lastRaw != rawActive {
        st := st.(lastRaw := rawActive, rawSince := nowMs);
      }
      if nowMs < st.rawSince {
        st := st.(rawSince := nowMs);
      }
      var heldMs := nowMs - st.rawSince;
      if rawActive != st.output {
        var needMs := if rawActive then policy.toOn else policy.toOff;
        if needMs == 0 || heldMs >= needMs {
          st := st.(output := rawActive);
        }
      }
      states := states[key := st];
      return st.output;
    }
  }
}
