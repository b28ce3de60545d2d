/** Form-field validation: the element's built-in validity flags merged with
    the validator's rules, into a per-field state or into a verdict with
    de-duplicated hints.

    A JavaScript Map keeps its keys in insertion order; it is modelled as a
    list of entries, where setting a present key keeps its place and setting
    a new key appends it. */
module Validation {
  import opened Wrappers
  import opened Predicates
  import opened Validator

  /** The validity flags read from the element, in this order. */
  const ValidityProperties: seq<ValidityKey> :=
    [BadInput, PatternMismatch, RangeOverflow, RangeUnderflow, TooLong, TooShort, TypeMismatch, ValueMissing]

  // ---------------------------------------------------------------------
  // Insertion-ordered maps

  /** Map.prototype.get. */
  function Get<K(==), V>(m: seq<(K, V)>, k: K): Option<V> {
    if m == [] then None else if m[0].0 == k then Some(m[0].1) else Get(m[1..], k)
  }

  /** Map.prototype.set. */
  function Put<K(==), V>(m: seq<(K, V)>, k: K, v: V): seq<(K, V)> {
    if m == [] then [(k, v)]
    else if m[0].0 == k then [(k, v)] + m[1..]
    else [m[0]] + Put(m[1..], k, v)
  }

  lemma {:induction false} GetPut<K, V>(m: seq<(K, V)>, k: K, v: V, k': K)
    ensures Get(Put(m, k, v), k') == if k' == k then Some(v) else Get(m, k')
  {
    if m != [] && m[0].0 != k {
      GetPut(m[1..], k, v, k');
    }
  }

  /** Setting an absent key appends it. */
  lemma {:induction false} PutAbsent<K, V>(m: seq<(K, V)>, k: K, v: V)
    requires forall i :: 0 <= i < |m| ==> m[i].0 != k
    ensures Put(m, k, v) == m + [(k, v)]
  {
    if m != [] {
      PutAbsent(m[1..], k, v);
    }
  }

  lemma {:induction false} GetAbsent<K, V>(m: seq<(K, V)>, k: K)
    requires forall i :: 0 <= i < |m| ==> m[i].0 != k
    ensures Get(m, k) == None
  {
    if m != [] {
      GetAbsent(m[1..], k);
    }
  }

  lemma {:induction false} GetPresent<K, V>(m: seq<(K, V)>, i: int)
    requires 0 <= i < |m|
    requires forall j :: 0 <= j < i ==> m[j].0 != m[i].0
    ensures Get(m, m[i].0) == Some(m[i].1)
  {
    if i > 0 {
      GetPresent(m[1..], i - 1);
    }
  }

  /** Validity flags by key. */
  type Flags = seq<(ValidityKey, bool)>

  predicate DistinctKeys(m: Flags) {
    forall i, j :: 0 <= i < j < |m| ==> m[i].0 != m[j].0
  }

  /** Map.prototype.delete on flags. */
  function Delete(m: Flags, k: ValidityKey): (r: Flags)
    ensures forall e :: e in r <==> e in m && e.0 != k
  {
    if m == [] then []
    else
      assert forall e :: e in m <==> e == m[0] || e in m[1..];
      (if m[0].0 == k then [] else [m[0]]) + Delete(m[1..], k)
  }

  /** Deleting a key keeps the remaining keys distinct. */
  lemma {:induction false} DeleteKeepsDistinct(m: Flags, k: ValidityKey)
    requires DistinctKeys(m)
    ensures DistinctKeys(Delete(m, k))
  {
    if m != [] {
      assert DistinctKeys(m[1..]) by {
        forall i, j | 0 <= i < j < |m[1..]| ensures m[1..][i].0 != m[1..][j].0 {
          assert m[1..][i] == m[i + 1] && m[1..][j] == m[j + 1];
        }
      }
      DeleteKeepsDistinct(m[1..], k);
      var rest := Delete(m[1..], k);
      forall e | e in rest ensures e.0 != m[0].0 {
        var j :| 0 <= j < |m[1..]| && m[1..][j] == e;
        assert m[j + 1] == e;
      }
    }
  }

  /** The key of a flag is the key of its entry; with distinct keys, reading
      an entry's key gives its flag. */
  lemma GetEntry(m: Flags, e: (ValidityKey, bool))
    requires DistinctKeys(m) && e in m
    ensures Get(m, e.0) == Some(e.1)
  {
    var i :| 0 <= i < |m| && m[i] == e;
    GetPresent(m, i);
  }

  lemma {:induction false} GetMissing(m: Flags, k: ValidityKey)
    requires forall e :: e in m ==> e.0 != k
    ensures Get(m, k) == None
  {
    forall i | 0 <= i < |m| ensures m[i].0 != k {
      assert m[i] in m;
    }
    GetAbsent(m, k);
  }

  // ---------------------------------------------------------------------
  // Built-in validity

  /** A flag of the element's validity state; an absent flag reads false. */
  function Flag(el: Element, k: ValidityKey): bool {
    if k in el.validity then el.validity[k] else false
  }

  /** validateWithBuiltInApi's result: the eight properties in order, each
      with the element's flag. */
  function ApiResult(el: Element): (r: Flags)
    ensures |r| == |ValidityProperties|
    ensures forall i :: 0 <= i < |r| ==> r[i] == (ValidityProperties[i], Flag(el, ValidityProperties[i]))
  {
    seq(|ValidityProperties|, i requires 0 <= i < |ValidityProperties| => (ValidityProperties[i], Flag(el, ValidityProperties[i])))
  }

  lemma ValidityPropertiesDistinct()
    ensures forall i, j :: 0 <= i < j < |ValidityProperties| ==> ValidityProperties[i] != ValidityProperties[j]
  {
  }

  /** The built-in result lists each key once, and holds exactly the eight
      properties with the element's flags. */
  lemma ApiResultFacts(el: Element)
    ensures DistinctKeys(ApiResult(el))
    ensures forall e :: e in ApiResult(el) <==> e.0 in ValidityProperties && e.1 == Flag(el, e.0)
  {
    ValidityPropertiesDistinct();
    var r := ApiResult(el);
    forall e: (ValidityKey, bool) | e.0 in ValidityProperties && e.1 == Flag(el, e.0) ensures e in r {
      var i :| 0 <= i < |ValidityProperties| && ValidityProperties[i] == e.0;
      assert r[i] == e;
    }
  }

  /** validateWithBuiltInApi. */
  method ValidateWithBuiltInApi(el: Element) returns (result: Flags)
    ensures result == ApiResult(el)
  {
    ValidityPropertiesDistinct();
    result := [];
    var i := 0;
    while i < |ValidityProperties|
      invariant 0 <= i <= |ValidityProperties|
      invariant result == ApiResult(el)[..i]
    {
      var prop := ValidityProperties[i];
      PutAbsent(result, prop, Flag(el, prop));
      result := Put(result, prop, Flag(el, prop));
      i := i + 1;
    }
  }

  // ---------------------------------------------------------------------
  // Merging rule outcomes with the built-in flags

  /** Some failing rule names this validity type, so the built-in flag for
      it is dropped. */
  predicate Overridden(fail: seq<Rule>, k: ValidityKey) {
    exists r :: r in fail && r.validityType == Some(k)
  }

  /** The built-in flags left after each failing rule with a validity type
      deletes its key. */
  function Overrides(api: Flags, fail: seq<Rule>): Flags {
    if fail == [] then api
    else
      var before := Overrides(api, fail[..|fail| - 1]);
      var rule := fail[|fail| - 1];
      if rule.validityType.Some? then Delete(before, rule.validityType.value) else before
  }

  /** A flag survives the overrides exactly when no failing rule names its
      key. */
  lemma {:induction false} OverridesKeep(api: Flags, fail: seq<Rule>)
    ensures forall e :: e in Overrides(api, fail) <==> e in api && !Overridden(fail, e.0)
  {
    if fail != [] {
      var rule := fail[|fail| - 1];
      var prefix := fail[..|fail| - 1];
      assert fail == prefix + [rule];
      OverridesKeep(api, prefix);
      assert forall k :: Overridden(fail, k) <==> Overridden(prefix, k) || rule.validityType == Some(k);
    }
  }

  lemma {:induction false} OverridesKeepDistinct(api: Flags, fail: seq<Rule>)
    requires DistinctKeys(api)
    ensures DistinctKeys(Overrides(api, fail))
  {
    if fail != [] {
      var rule := fail[|fail| - 1];
      OverridesKeepDistinct(api, fail[..|fail| - 1]);
      if rule.validityType.Some? {
        DeleteKeepsDistinct(Overrides(api, fail[..|fail| - 1]), rule.validityType.value);
      }
    }
  }

  /** The keys of a field's validation state: a rule, or a validity key. */
  datatype FieldKey = RuleKey(rule: Rule) | ApiKey(key: ValidityKey)

  type FieldState = seq<(FieldKey, bool)>

  /** Each failing rule recorded as false, in order. */
  function RecordFailures(fail: seq<Rule>): FieldState {
    if fail == [] then []
    else Put(RecordFailures(fail[..|fail| - 1]), RuleKey(fail[|fail| - 1]), false)
  }

  /** Each remaining built-in flag copied, in order. */
  function CopyFlags(result: FieldState, api: Flags): FieldState {
    if api == [] then result
    else
      var e := api[|api| - 1];
      Put(CopyFlags(result, api[..|api| - 1]), ApiKey(e.0), e.1)
  }

  /** Each passing rule recorded as true unless it has a validity type whose
      key is already in the state. */
  function RecordPasses(result: FieldState, ok: seq<Rule>): FieldState {
    if ok == [] then result
    else
      var before := RecordPasses(result, ok[..|ok| - 1]);
      var r := ok[|ok| - 1];
      if r.validityType.None? || Get(before, ApiKey(r.validityType.value)).None? then Put(before, RuleKey(r), true)
      else before
  }

  /** getValidationStateForFormField's result for the element, given the
      rules the value fails and passes. */
  function FieldStateOf(el: Element, fail: seq<Rule>, ok: seq<Rule>): FieldState {
    RecordPasses(CopyFlags(RecordFailures(fail), Overrides(ApiResult(el), fail)), ok)
  }

  /** getValidationStateForFormField's first loop: the failing rules delete
      their keys from the built-in flags and are recorded as false. */
  method MergeFailures(api: Flags, fail: seq<Rule>) returns (remaining: Flags, failed: FieldState)
    ensures remaining == Overrides(api, fail)
    ensures failed == RecordFailures(fail)
  {
    remaining, failed := api, [];
    var i := 0;
    while i < |fail|
      invariant 0 <= i <= |fail|
      invariant remaining == Overrides(api, fail[..i])
      invariant failed == RecordFailures(fail[..i])
    {
      var r := fail[i];
      assert fail[..i + 1][..i] == fail[..i];
      if r.validityType.Some? {
        remaining := Delete(remaining, r.validityType.value);
      }
      failed := Put(failed, RuleKey(r), false);
      i := i + 1;
    }
    assert fail[..|fail|] == fail;
  }

  /** The second loop: the remaining flags are copied in. */
  method MergeFlags(state: FieldState, api: Flags) returns (result: FieldState)
    ensures result == CopyFlags(state, api)
  {
    result := state;
    var j := 0;
    while j < |api|
      invariant 0 <= j <= |api|
      invariant result == CopyFlags(state, api[..j])
    {
      assert api[..j + 1][..j] == api[..j];
      result := Put(result, ApiKey(api[j].0), api[j].1);
      j := j + 1;
    }
    assert api[..|api|] == api;
  }

  /** The third loop: the passing rules are recorded unless their key is
      already present. */
  method MergePasses(state: FieldState, ok: seq<Rule>) returns (result: FieldState)
    ensures result == RecordPasses(state, ok)
  {
    result := state;
    var k := 0;
    while k < |ok|
      invariant 0 <= k <= |ok|
      invariant result == RecordPasses(state, ok[..k])
    {
      var r := ok[k];
      assert ok[..k + 1][..k] == ok[..k];
      if r.validityType.None? || Get(result, ApiKey(r.validityType.value)).None? {
        result := Put(result, RuleKey(r), true);
      }
      k := k + 1;
    }
    assert ok[..|ok|] == ok;
  }

  /** getValidationStateForFormField. */
  method GetValidationStateForFormField(el: Element, validator: Validator) returns (result: FieldState)
    ensures result == FieldStateOf(el, validator.FindNonMatchingRules(el.name, el.value),
                                   validator.FindMatchingRules(el.name, el.value))
  {
    var fail := validator.FindNonMatchingRules(el.name, el.value);
    var ok := validator.FindMatchingRules(el.name, el.value);
    var resultFromApi := ValidateWithBuiltInApi(el);
    var remaining, failed := MergeFailures(resultFromApi, fail);
    result := MergeFlags(failed, remaining);
    result := MergePasses(result, ok);
  }

  lemma {:induction false} RecordFailuresGet(fail: seq<Rule>, key: FieldKey)
    ensures Get(RecordFailures(fail), key) == if key.RuleKey? && key.rule in fail then Some(false) else None
  {
    if fail != [] {
      var prefix := fail[..|fail| - 1];
      assert fail == prefix + [fail[|fail| - 1]];
      RecordFailuresGet(prefix, key);
      GetPut(RecordFailures(prefix), RuleKey(fail[|fail| - 1]), false, key);
    }
  }

  lemma {:induction false} CopyFlagsGet(result: FieldState, api: Flags, key: FieldKey)
    requires DistinctKeys(api)
    ensures key.RuleKey? ==> Get(CopyFlags(result, api), key) == Get(result, key)
    ensures key.ApiKey? ==>
      Get(CopyFlags(result, api), key) == if Get(api, key.key).Some? then Get(api, key.key) else Get(result, key)
  {
    if api != [] {
      var prefix := api[..|api| - 1];
      var e := api[|api| - 1];
      assert api == prefix + [e];
      assert DistinctKeys(prefix);
      CopyFlagsGet(result, prefix, key);
      GetPut(CopyFlags(result, prefix), ApiKey(e.0), e.1, key);
      if key.ApiKey? {
        if key.key == e.0 {
          GetAbsent(prefix, e.0);
          GetPresent(api, |api| - 1);
        } else {
          GetSnocOther(prefix, e, key.key);
        }
      }
    }
  }

  lemma {:induction false} GetSnocOther<K, V>(m: seq<(K, V)>, e: (K, V), k: K)
    requires e.0 != k
    ensures Get(m + [e], k) == Get(m, k)
  {
    if m != [] {
      assert (m + [e])[1..] == m[1..] + [e];
      GetSnocOther(m[1..], e, k);
    }
  }

  lemma {:induction false} RecordPassesGet(result: FieldState, ok: seq<Rule>, key: FieldKey)
    ensures key.ApiKey? ==> Get(RecordPasses(result, ok), key) == Get(result, key)
    ensures key.RuleKey? ==>
      Get(RecordPasses(result, ok), key) == if key.rule in ok && (key.rule.validityType.None? || Get(result, ApiKey(key.rule.validityType.value)).None?)
      then Some(true) else Get(result, key)
  {
    if ok != [] {
      var prefix := ok[..|ok| - 1];
      var r := ok[|ok| - 1];
      assert ok == prefix + [r];
      RecordPassesGet(result, prefix, key);
      var before := RecordPasses(result, prefix);
      if r.validityType.Some? {
        RecordPassesGet(result, prefix, ApiKey(r.validityType.value));
      }
      if r.validityType.None? || Get(before, ApiKey(r.validityType.value)).None? {
        GetPut(before, RuleKey(r), true, key);
      }
    }
  }

  /** What getValidationStateForFormField records: each failing rule as
      false; each of the eight flags not overridden by a failing rule, with
      its value; each passing rule as true exactly when it has no validity
      type or its key is not in the state (a type outside the eight, or one a
      failing rule overrode). */
  lemma {:induction false} FieldStateMeaning(el: Element, fail: seq<Rule>, ok: seq<Rule>, r: Rule, k: ValidityKey)
    requires forall x :: x in fail ==> x !in ok
    ensures Get(FieldStateOf(el, fail, ok), ApiKey(k)) ==
      if k in ValidityProperties && !Overridden(fail, k) then Some(Flag(el, k)) else None
    ensures r in fail ==> Get(FieldStateOf(el, fail, ok), RuleKey(r)) == Some(false)
    ensures r in ok ==>
      Get(FieldStateOf(el, fail, ok), RuleKey(r)) ==
        if r.validityType.None? || r.validityType.value !in ValidityProperties || Overridden(fail, r.validityType.value)
        then Some(true) else None
    ensures r !in fail && r !in ok ==> Get(FieldStateOf(el, fail, ok), RuleKey(r)) == None
  {
    ApiResultFacts(el);
    OverridesKeepDistinct(ApiResult(el), fail);
    var api := Overrides(ApiResult(el), fail);
    var failed := RecordFailures(fail);
    var copied := CopyFlags(failed, api);
    ApiFlagsAfterOverrides(el, fail, k);
    RecordFailuresGet(fail, ApiKey(k));
    CopyFlagsGet(failed, api, ApiKey(k));
    RecordPassesGet(copied, ok, ApiKey(k));
    RecordFailuresGet(fail, RuleKey(r));
    CopyFlagsGet(failed, api, RuleKey(r));
    RecordPassesGet(copied, ok, RuleKey(r));
    if r.validityType.Some? {
      var t := r.validityType.value;
      ApiFlagsAfterOverrides(el, fail, t);
      RecordFailuresGet(fail, ApiKey(t));
      CopyFlagsGet(failed, api, ApiKey(t));
    }
  }

  /** After the overrides, a key reads its element flag exactly when it is
      one of the eight and no failing rule overrode it. */
  lemma ApiFlagsAfterOverrides(el: Element, fail: seq<Rule>, k: ValidityKey)
    ensures Get(Overrides(ApiResult(el), fail), k) ==
      if k in ValidityProperties && !Overridden(fail, k) then Some(Flag(el, k)) else None
  {
    ApiResultFacts(el);
    OverridesKeepDistinct(ApiResult(el), fail);
    OverridesKeep(ApiResult(el), fail);
    var api := Overrides(ApiResult(el), fail);
    if k in ValidityProperties && !Overridden(fail, k) {
      GetEntry(api, (k, Flag(el, k)));
    } else {
      GetMissing(api, k);
    }
  }

  /** With the validator's invariant, no rule the value fails shares a
      passing rule's validity type: it would have the same field and type,
      which makes it the same rule. */
  lemma {:induction false} NoFailingRuleShares(el: Element, v: Validator, r: Rule)
    requires v.Valid()
    requires r in v.FindMatchingRules(el.name, el.value)
    requires r.validityType.Some?
    ensures !Overridden(v.FindNonMatchingRules(el.name, el.value), r.validityType.value)
  {
    var fail := v.FindNonMatchingRules(el.name, el.value);
    var j :| 0 <= j < |v.rules| && v.rules[j] == r;
    forall x | x in fail ensures x.validityType != r.validityType {
      var i :| 0 <= i < |v.rules| && v.rules[i] == x;
      assert x.test(el.value) != r.test(el.value);
      assert !SameKey(v.rules[i], v.rules[j]) && !SameKey(v.rules[j], v.rules[i]);
    }
  }

  /** So a passing rule whose validity type is one of the eight is never
      recorded: its key is always in the state already. */
  lemma {:induction false} PassingTypedRuleHidden(el: Element, v: Validator, r: Rule)
    requires v.Valid()
    requires r in v.FindMatchingRules(el.name, el.value)
    requires r.validityType.Some? && r.validityType.value in ValidityProperties
    ensures Get(FieldStateOf(el, v.FindNonMatchingRules(el.name, el.value), v.FindMatchingRules(el.name, el.value)), RuleKey(r)) == None
  {
    var fail := v.FindNonMatchingRules(el.name, el.value);
    var ok := v.FindMatchingRules(el.name, el.value);
    NoFailingRuleShares(el, v, r);
    forall x | x in fail ensures x !in ok {
    }
    FieldStateMeaning(el, fail, ok, r, r.validityType.value);
  }

  // ---------------------------------------------------------------------
  // Verdict with hints

  /** The hint for a raised built-in flag: the mapped hint, or the key's
      name when the map has none. */
  function HintFor(hintMap: map<ValidityKey, Element -> string>, k: ValidityKey, el: Element): string {
    if k in hintMap then hintMap[k](el) else KeyName(k)
  }

  /** The failing rules' hints, in order. */
  function RuleHints(fail: seq<Rule>, el: Element): (hints: seq<string>)
    ensures |hints| == |fail|
    ensures forall i :: 0 <= i < |fail| ==> hints[i] == fail[i].hint(el)
  {
    if fail == [] then [] else RuleHints(fail[..|fail| - 1], el) + [fail[|fail| - 1].hint(el)]
  }

  /** The hints of the raised flags, in order. */
  function ApiHints(api: Flags, hintMap: map<ValidityKey, Element -> string>, el: Element): (hints: seq<string>)
    ensures forall h :: h in hints <==> exists e :: e in api && e.1 && h == HintFor(hintMap, e.0, el)
  {
    if api == [] then []
    else
      var e := api[|api| - 1];
      var prefix := api[..|api| - 1];
      assert api == prefix + [e];
      ApiHints(prefix, hintMap, el) + (if e.1 then [HintFor(hintMap, e.0, el)] else [])
  }

  /** No flag left in the list is raised. */
  predicate NoneRaised(api: Flags) {
    forall e :: e in api ==> !e.1
  }

  /** [...new Set(s)]: each element once, at its first occurrence. */
  function Dedup<T(==,!new)>(s: seq<T>): (d: seq<T>)
    ensures forall x :: x in d <==> x in s
    ensures forall i, j :: 0 <= i < j < |d| ==> d[i] != d[j]
  {
    if s == [] then []
    else
      var prefix := s[..|s| - 1];
      var d := Dedup(prefix);
      assert s == prefix + [s[|s| - 1]];
      if s[|s| - 1] in d then d else d + [s[|s| - 1]]
  }

  /** The elements of Dedup(s) appear in the order of their first
      occurrences in s. */
  lemma {:induction false} DedupKeepsFirstOccurrenceOrder<T(!new)>(s: seq<T>)
    ensures forall i, j :: 0 <= i < j < |Dedup(s)| ==> IndexOf(s, Dedup(s)[i]) < IndexOf(s, Dedup(s)[j])
  {
    if s != [] {
      var prefix := s[..|s| - 1];
      var x := s[|s| - 1];
      assert s == prefix + [x];
      DedupKeepsFirstOccurrenceOrder(prefix);
      var d := Dedup(prefix);
      forall y | y in prefix ensures IndexOf(s, y) == IndexOf(prefix, y) {
        IndexOfExtend(prefix, x, y);
      }
      if x !in d {
        assert x !in prefix;
        IndexOfExtend(prefix, x, x);
        assert IndexOf(s, x) == |prefix|;
      }
    }
  }

  lemma {:induction false} IndexOfExtend<T>(s: seq<T>, x: T, y: T)
    requires y in s + [x]
    ensures y in s ==> IndexOf(s + [x], y) == IndexOf(s, y)
    ensures y !in s ==> IndexOf(s + [x], y) == |s|
  {
    if s != [] && s[0] != y {
      assert (s + [x])[1..] == s[1..] + [x];
      IndexOfExtend(s[1..], x, y);
    }
  }

  /** validateFormField's verdict and hints for the element, given the rules
      its value fails. */
  function VerdictOf(el: Element, fail: seq<Rule>, hintMap: map<ValidityKey, Element -> string>): (bool, seq<string>) {
    var api := Overrides(ApiResult(el), fail);
    (|fail| == 0 && NoneRaised(api), Dedup(RuleHints(fail, el) + ApiHints(api, hintMap, el)))
  }

  /** validateFormField's first loop: the failing rules delete their keys
      from the built-in flags and contribute their hints. */
  method GatherRuleHints(api: Flags, fail: seq<Rule>, el: Element) returns (remaining: Flags, hints: seq<string>)
    ensures remaining == Overrides(api, fail)
    ensures hints == RuleHints(fail, el)
  {
    remaining, hints := api, [];
    var i := 0;
    while i < |fail|
      invariant 0 <= i <= |fail|
      invariant remaining == Overrides(api, fail[..i])
      invariant hints == RuleHints(fail[..i], el)
    {
      var r := fail[i];
      assert fail[..i + 1][..i] == fail[..i];
      if r.validityType.Some? {
        remaining := Delete(remaining, r.validityType.value);
      }
      hints := hints + [r.hint(el)];
      i := i + 1;
    }
    assert fail[..|fail|] == fail;
  }

  /** The second loop: each raised flag clears the verdict and contributes
      its hint. */
  method GatherApiHints(api: Flags, hintMap: map<ValidityKey, Element -> string>, el: Element)
    returns (noneRaised: bool, hints: seq<string>)
    ensures noneRaised <==> NoneRaised(api)
    ensures hints == ApiHints(api, hintMap, el)
  {
    noneRaised, hints := true, [];
    var j := 0;
    while j < |api|
      invariant 0 <= j <= |api|
      invariant noneRaised <==> NoneRaised(api[..j])
      invariant hints == ApiHints(api[..j], hintMap, el)
    {
      var (k, v) := api[j];
      assert api[..j + 1] == api[..j] + [(k, v)];
      assert api[..j + 1][..j] == api[..j];
      noneRaised := noneRaised && !v;
      if v {
        hints := hints + [HintFor(hintMap, k, el)];
      }
      j := j + 1;
    }
    assert api[..|api|] == api;
  }

  /** validateFormField. */
  method ValidateFormField(el: Element, validator: Validator, hintMap: map<ValidityKey, Element -> string>)
    returns (isValid: bool, hints: seq<string>)
    ensures (isValid, hints) == VerdictOf(el, validator.FindNonMatchingRules(el.name, el.value), hintMap)
  {
    var resultFromApi := ValidateWithBuiltInApi(el);
    var fail := validator.FindNonMatchingRules(el.name, el.value);
    var remaining, ruleHints := GatherRuleHints(resultFromApi, fail, el);
    var noneRaised, apiHints := GatherApiHints(remaining, hintMap, el);
    isValid := |fail| == 0 && noneRaised;
    hints := Dedup(ruleHints + apiHints);
  }

  /** The verdict is valid exactly when no rule fails and every raised
      built-in flag is overridden by a failing rule. */
  lemma {:induction false} VerdictValidity(el: Element, fail: seq<Rule>, hintMap: map<ValidityKey, Element -> string>)
    ensures VerdictOf(el, fail, hintMap).0 <==>
      |fail| == 0 && forall k :: k in ValidityProperties && Flag(el, k) ==> Overridden(fail, k)
  {
    ApiResultFacts(el);
    var api := Overrides(ApiResult(el), fail);
    OverridesKeep(ApiResult(el), fail);
    forall k | k in ValidityProperties && !Overridden(fail, k) ensures (k, Flag(el, k)) in api {
    }
  }

  /** The hints are the failing rules' hints and those of the raised flags
      no failing rule overrode, each once. */
  lemma {:induction false} VerdictHints(el: Element, fail: seq<Rule>, hintMap: map<ValidityKey, Element -> string>)
    ensures forall r :: r in fail ==> r.hint(el) in VerdictOf(el, fail, hintMap).1
    ensures forall k :: k in ValidityProperties && Flag(el, k) && !Overridden(fail, k) ==>
      HintFor(hintMap, k, el) in VerdictOf(el, fail, hintMap).1
    ensures forall h :: h in VerdictOf(el, fail, hintMap).1 ==>
      || (exists r :: r in fail && h == r.hint(el))
      || (exists k :: k in ValidityProperties && Flag(el, k) && !Overridden(fail, k) && h == HintFor(hintMap, k, el))
  {
    ApiResultFacts(el);
    var api := Overrides(ApiResult(el), fail);
    OverridesKeep(ApiResult(el), fail);
    var ruleHints := RuleHints(fail, el);
    var apiHints := ApiHints(api, hintMap, el);
    forall r | r in fail ensures r.hint(el) in ruleHints {
      var i :| 0 <= i < |fail| && fail[i] == r;
      assert ruleHints[i] == r.hint(el);
    }
    forall k | k in ValidityProperties && Flag(el, k) && !Overridden(fail, k) ensures HintFor(hintMap, k, el) in apiHints {
      assert (k, Flag(el, k)) in api;
    }
    forall h | h in ruleHints + apiHints
      ensures || (exists r :: r in fail && h == r.hint(el))
              || (exists k :: k in ValidityProperties && Flag(el, k) && !Overridden(fail, k) && h == HintFor(hintMap, k, el))
    {
      if h in ruleHints {
        var i :| 0 <= i < |ruleHints| && ruleHints[i] == h;
        assert fail[i] in fail;
      } else {
        var e :| e in api && e.1 && h == HintFor(hintMap, e.0, el);
        assert e.0 in ValidityProperties && Flag(el, e.0) && !Overridden(fail, e.0);
      }
    }
  }
}
