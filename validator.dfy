/** The frontend's rule registry: rules pair a field name with a predicate,
    a hint and optionally one of the element validity keys, and a validator
    keeps the rules and the outcome of its last validation. */
module Validator {
  import opened Wrappers
  import opened Predicates

  /** The keys of a form control's ValidityState. */
  datatype ValidityKey =
    | BadInput | CustomError | PatternMismatch | RangeOverflow | RangeUnderflow
    | StepMismatch | TooLong | TooShort | TypeMismatch | Valid | ValueMissing

  function KeyName(k: ValidityKey): string {
    match k
    case BadInput => "badInput"
    case CustomError => "customError"
    case PatternMismatch => "patternMismatch"
    case RangeOverflow => "rangeOverflow"
    case RangeUnderflow => "rangeUnderflow"
    case StepMismatch => "stepMismatch"
    case TooLong => "tooLong"
    case TooShort => "tooShort"
    case TypeMismatch => "typeMismatch"
    case Valid => "valid"
    case ValueMissing => "valueMissing"
  }

  /** A form control as the validation layer sees it: its name, its current
      value and the flags of its validity state (a missing flag is absent). */
  datatype Element = Element(name: string, value: Value, validity: map<ValidityKey, bool>)

  /** A rule. Rules are objects: removal finds a rule by identity. */
  class Rule {
    const field: string
    const validityType: Option<ValidityKey>
    const test: Value -> bool
    const hint: Element -> string

    constructor (field: string, validityType: Option<ValidityKey>, test: Value -> bool, hint: Element -> string)
      ensures this.field == field && this.validityType == validityType
      ensures this.test == test && this.hint == hint
    {
      this.field := field;
      this.validityType := validityType;
      this.test := test;
      this.hint := hint;
    }
  }

  datatype Error = Error(message: string)

  function DuplicateRule(field: string, validityType: ValidityKey): Error {
    Error("Rule already exists for field '" + field + "' and validityType '" + KeyName(validityType) + "'")
  }

  // ---------------------------------------------------------------------
  // Sequences of rules

  /** Array.prototype.filter. */
  function Filter<T>(s: seq<T>, keep: T -> bool): (r: seq<T>)
    ensures |r| <= |s|
    ensures forall x :: x in r ==> x in s && keep(x)
    ensures forall x :: x in s && keep(x) ==> x in r
    ensures multiset(r) <= multiset(s)
  {
    if s == [] then []
    else
      assert s == [s[0]] + s[1..];
      (if keep(s[0]) then [s[0]] else []) + Filter(s[1..], keep)
  }

  /** Filtering by two predicates that never both hold, and together hold
      exactly where a third does, splits the third's filter between them. */
  lemma {:induction false} FilterSplits<T>(s: seq<T>, whole: T -> bool, part: T -> bool, rest: T -> bool)
    requires forall x :: whole(x) <==> part(x) || rest(x)
    requires forall x :: !(part(x) && rest(x))
    ensures multiset(Filter(s, part)) + multiset(Filter(s, rest)) == multiset(Filter(s, whole))
  {
    if s != [] {
      FilterSplits(s[1..], whole, part, rest);
    }
  }

  lemma {:induction false} FilterKeepsNone<T>(s: seq<T>, keep: T -> bool)
    requires forall i :: 0 <= i < |s| ==> !keep(s[i])
    ensures Filter(s, keep) == []
  {
    if s != [] {
      FilterKeepsNone(s[1..], keep);
    }
  }

  /** When no two positions are both kept, the filter keeps at most one
      element. */
  lemma {:induction false} FilterKeepsAtMostOne<T>(s: seq<T>, keep: T -> bool)
    requires forall i, j :: 0 <= i < j < |s| && keep(s[i]) ==> !keep(s[j])
    ensures |Filter(s, keep)| <= 1
  {
    if s != [] {
      if keep(s[0]) {
        FilterKeepsNone(s[1..], keep);
      } else {
        FilterKeepsAtMostOne(s[1..], keep);
      }
    }
  }

  /** Array.prototype.indexOf: the first position holding x, or -1. */
  function IndexOf<T(==)>(s: seq<T>, x: T): (i: int)
    ensures -1 <= i < |s|
    ensures i == -1 <==> x !in s
    ensures 0 <= i ==> s[i] == x && x !in s[..i]
  {
    if s == [] then -1
    else if s[0] == x then 0
    else
      var j := IndexOf(s[1..], x);
      assert s[1..] == s[1..|s|];
      if j == -1 then -1
      else
        assert s[..j + 1] == [s[0]] + s[1..][..j];
        j + 1
  }

  /** Two rules share a field and the same validity type. */
  predicate SameKey(a: Rule, b: Rule) {
    a.validityType.Some? && a.field == b.field && a.validityType == b.validityType
  }

  /** The registry invariant: no two rules with a validity type share the
      field and the type. */
  predicate UniqueKeys(rules: seq<Rule>) {
    forall i, j :: 0 <= i < j < |rules| ==> !SameKey(rules[i], rules[j])
  }

  /** Some rule has this field and this validity type. */
  predicate Taken(rules: seq<Rule>, field: string, validityType: ValidityKey) {
    exists r :: r in rules && r.field == field && r.validityType == Some(validityType)
  }

  function HasKey(field: string, validityType: ValidityKey): Rule -> bool {
    (r: Rule) => r.field == field && r.validityType == Some(validityType)
  }

  function OfField(field: string): Rule -> bool {
    (r: Rule) => r.field == field
  }

  function WithOutcome(field: string, value: Value, outcome: bool): Rule -> bool {
    (r: Rule) => r.field == field && r.test(value) == outcome
  }

  function InForm(formData: map<string, Value>, outcome: bool): Rule -> bool {
    (r: Rule) => r.field in formData && r.test(formData[r.field]) == outcome
  }

  /** Appending a rule whose key is free keeps the keys unique; a rule
      without a validity type is always free. */
  lemma AppendKeepsUniqueKeys(rules: seq<Rule>, rule: Rule)
    requires UniqueKeys(rules)
    requires rule.validityType.Some? ==> !Taken(rules, rule.field, rule.validityType.value)
    ensures UniqueKeys(rules + [rule])
  {
    var s := rules + [rule];
    forall i, j | 0 <= i < j < |s|
      ensures !SameKey(s[i], s[j])
    {
      if j == |rules| {
        assert s[i] in rules;
      }
    }
  }

  /** Removing one position keeps the keys unique. */
  lemma RemoveKeepsUniqueKeys(rules: seq<Rule>, k: int)
    requires UniqueKeys(rules) && 0 <= k < |rules|
    ensures UniqueKeys(rules[..k] + rules[k + 1..])
  {
    var s := rules[..k] + rules[k + 1..];
    forall i, j | 0 <= i < j < |s|
      ensures !SameKey(s[i], s[j])
    {
      var i' := if i < k then i else i + 1;
      var j' := if j < k then j else j + 1;
      assert s[i] == rules[i'] && s[j] == rules[j'];
    }
  }

  /** With unique keys a (field, validity type) pair selects at most one rule. */
  lemma {:induction false} AtMostOneRulePerKey(rules: seq<Rule>, field: string, validityType: ValidityKey)
    requires UniqueKeys(rules)
    ensures |Filter(rules, HasKey(field, validityType))| <= 1
  {
    var key := HasKey(field, validityType);
    forall i, j | 0 <= i < j < |rules| && key(rules[i])
      ensures !key(rules[j])
    {
      assert !SameKey(rules[i], rules[j]);
    }
    FilterKeepsAtMostOne(rules, key);
  }

  // ---------------------------------------------------------------------

  class Validator {
    var rules: seq<Rule>
    var matchingRules: seq<Rule>
    var nonMatchingRules: seq<Rule>

    constructor ()
      ensures rules == [] && matchingRules == [] && nonMatchingRules == []
    {
      rules, matchingRules, nonMatchingRules := [], [], [];
    }

    predicate Valid()
      reads this
    {
      UniqueKeys(rules)
    }

    /** The rules for a field with the given validity type. */
    function FindByFieldAndValidityType(field: string, validityType: ValidityKey): (found: seq<Rule>)
      reads this
      ensures forall r :: r in found ==> r in rules && r.field == field && r.validityType == Some(validityType)
      ensures forall r :: r in rules && r.field == field && r.validityType == Some(validityType) ==> r in found
      ensures |found| > 0 <==> Taken(rules, field, validityType)
    {
      var found := Filter(rules, HasKey(field, validityType));
      assert |found| > 0 ==> found[0] in found;
      found
    }

    /** add: builds a new rule and registers it with addRule; a validity type
        already used for the field throws. */
    method Add(field: string, test: Value -> bool, hint: Element -> string, validityType: Option<ValidityKey>)
      returns (thrown: Option<Error>)
      modifies this`rules
      ensures thrown.Some? <==> validityType.Some? && Taken(old(rules), field, validityType.value)
      ensures thrown.Some? ==> rules == old(rules) && thrown.value == DuplicateRule(field, validityType.value)
      ensures thrown.None? ==>
        && |rules| == |old(rules)| + 1 && rules[..|old(rules)|] == old(rules)
        && fresh(rules[|old(rules)|])
        && rules[|old(rules)|].field == field && rules[|old(rules)|].validityType == validityType
        && rules[|old(rules)|].test == test && rules[|old(rules)|].hint == hint
      ensures old(Valid()) ==> Valid()
    {
      if validityType.Some? && |FindByFieldAndValidityType(field, validityType.value)| > 0 {
        return Some(DuplicateRule(field, validityType.value));
      }
      var r := new Rule(field, validityType, test, hint);
      thrown := AddRule(r);
    }

    /** addRule: appends the rule unless its validity type is already used
        for its field, which throws and leaves the rules as they were. */
    method AddRule(rule: Rule) returns (thrown: Option<Error>)
      modifies this`rules
      ensures thrown.Some? <==> rule.validityType.Some? && Taken(old(rules), rule.field, rule.validityType.value)
      ensures thrown.Some? ==> rules == old(rules) && thrown.value == DuplicateRule(rule.field, rule.validityType.value)
      ensures thrown.None? ==> rules == old(rules) + [rule]
      ensures old(Valid()) ==> Valid()
    {
      if rule.validityType.Some? && |FindByFieldAndValidityType(rule.field, rule.validityType.value)| > 0 {
        return Some(DuplicateRule(rule.field, rule.validityType.value));
      }
      if Valid() {
        AppendKeepsUniqueKeys(rules, rule);
      }
      rules := rules + [rule];
      thrown := None;
    }

    /** removeRule: removes the first occurrence of the rule and answers
        true, or answers false and changes nothing when it is absent. */
    method RemoveRule(rule: Rule) returns (removed: bool)
      modifies this`rules
      ensures removed <==> rule in old(rules)
      ensures !removed ==> rules == old(rules)
      ensures removed ==>
        var k := IndexOf(old(rules), rule);
        rules == old(rules)[..k] + old(rules)[k + 1..]
      ensures multiset(rules) == multiset(old(rules)) - multiset{rule}
      ensures old(Valid()) ==> Valid()
    {
      var idx := IndexOf(rules, rule);
      if idx == -1 {
        return false;
      }
      var before, after := rules[..idx], rules[idx + 1..];
      assert rules == before + [rule] + after;
      assert multiset(rules) == multiset(before) + multiset{rule} + multiset(after);
      if Valid() {
        RemoveKeepsUniqueKeys(rules, idx);
      }
      rules := before + after;
      removed := true;
    }

    method Clear()
      modifies this
      ensures rules == [] && matchingRules == [] && nonMatchingRules == []
    {
      matchingRules := [];
      nonMatchingRules := [];
      rules := [];
    }

    /** The rules consulted for a value: for "" only the field's valueMissing
        rules, otherwise every rule. */
    function FindRelevantRules(field: string, value: Value): (relevant: seq<Rule>)
      reads this
      ensures value == Text("") ==> forall r :: r in relevant ==> r in rules && r.field == field && r.validityType == Some(ValueMissing)
      ensures value == Text("") ==> forall r :: r in rules && r.field == field && r.validityType == Some(ValueMissing) ==> r in relevant
      ensures value != Text("") ==> relevant == rules
    {
      if value == Text("") then FindByFieldAndValidityType(field, ValueMissing) else rules
    }

    /** The relevant rules for the field that the value passes. */
    function FindMatchingRules(field: string, value: Value): (ok: seq<Rule>)
      reads this
      ensures forall r :: r in ok ==> r in FindRelevantRules(field, value) && r.field == field && r.test(value)
      ensures forall r :: r in FindRelevantRules(field, value) && r.field == field && r.test(value) ==> r in ok
    {
      Filter(FindRelevantRules(field, value), WithOutcome(field, value, true))
    }

    /** The relevant rules for the field that the value fails. */
    function FindNonMatchingRules(field: string, value: Value): (fail: seq<Rule>)
      reads this
      ensures forall r :: r in fail ==> r in FindRelevantRules(field, value) && r.field == field && !r.test(value)
      ensures forall r :: r in FindRelevantRules(field, value) && r.field == field && !r.test(value) ==> r in fail
    {
      Filter(FindRelevantRules(field, value), WithOutcome(field, value, false))
    }

    /** validate: records the passing and failing rules for the field and
        answers whether none failed. */
    method Validate(field: string, value: Value) returns (ok: bool)
      modifies this`matchingRules, this`nonMatchingRules
      ensures matchingRules == FindMatchingRules(field, value)
      ensures nonMatchingRules == FindNonMatchingRules(field, value)
      ensures ok <==> forall r :: r in FindRelevantRules(field, value) && r.field == field ==> r.test(value)
    {
      matchingRules := FindMatchingRules(field, value);
      nonMatchingRules := FindNonMatchingRules(field, value);
      ok := |nonMatchingRules| == 0;
      if !ok {
        assert nonMatchingRules[0] in nonMatchingRules;
      }
    }

    /** validateAll: every rule whose field the form data has is checked
        against that field's value; answers whether none failed. */
    method ValidateAll(formData: map<string, Value>) returns (ok: bool)
      modifies this`matchingRules, this`nonMatchingRules
      ensures forall r :: r in matchingRules <==> r in rules && r.field in formData && r.test(formData[r.field])
      ensures forall r :: r in nonMatchingRules <==> r in rules && r.field in formData && !r.test(formData[r.field])
      ensures matchingRules == Filter(rules, InForm(formData, true))
      ensures nonMatchingRules == Filter(rules, InForm(formData, false))
      ensures ok <==> forall r :: r in rules && r.field in formData ==> r.test(formData[r.field])
    {
      matchingRules := Filter(rules, InForm(formData, true));
      nonMatchingRules := Filter(rules, InForm(formData, false));
      ok := |nonMatchingRules| == 0;
      if !ok {
        assert nonMatchingRules[0] in nonMatchingRules;
      }
    }

    /** The passing rules of the last validation, narrowed to a field when one
        is given (an empty name counts as none). */
    function GetMatchingRules(field: Option<string>): (r: seq<Rule>)
      reads this
      ensures field.Some? && field.value != "" ==> forall x :: x in r ==> x in matchingRules && x.field == field.value
      ensures field.Some? && field.value != "" ==> forall x :: x in matchingRules && x.field == field.value ==> x in r
      ensures field.None? || field.value == "" ==> r == matchingRules
    {
      if field.Some? && field.value != "" then Filter(matchingRules, OfField(field.value)) else matchingRules
    }

    function GetNonMatchingRules(field: Option<string>): (r: seq<Rule>)
      reads this
      ensures field.Some? && field.value != "" ==> forall x :: x in r ==> x in nonMatchingRules && x.field == field.value
      ensures field.Some? && field.value != "" ==> forall x :: x in nonMatchingRules && x.field == field.value ==> x in r
      ensures field.None? || field.value == "" ==> r == nonMatchingRules
    {
      if field.Some? && field.value != "" then Filter(nonMatchingRules, OfField(field.value)) else nonMatchingRules
    }

    function GetRules(): (r: seq<Rule>)
      reads this
      ensures r == rules
    {
      rules
    }
  }

  // ---------------------------------------------------------------------
  // Properties of validation

  /** The passing and the failing rules split the relevant rules of the
      field between them, counting repeated rules. */
  lemma {:induction false} ValidatePartitions(v: Validator, field: string, value: Value)
    ensures multiset(v.FindMatchingRules(field, value)) + multiset(v.FindNonMatchingRules(field, value))
         == multiset(Filter(v.FindRelevantRules(field, value), OfField(field)))
  {
    FilterSplits(v.FindRelevantRules(field, value), OfField(field),
                 WithOutcome(field, value, true), WithOutcome(field, value, false));
  }

  /** For the empty string only the field's valueMissing rule counts, and
      with unique keys there is at most one. */
  lemma {:induction false} EmptyValueConsultsValueMissingOnly(v: Validator, field: string)
    requires v.Valid()
    ensures forall r :: r in v.FindMatchingRules(field, Text("")) + v.FindNonMatchingRules(field, Text("")) ==>
      r.field == field && r.validityType == Some(ValueMissing)
    ensures |v.FindRelevantRules(field, Text(""))| <= 1
  {
    AtMostOneRulePerKey(v.rules, field, ValueMissing);
  }

  /** validateAll splits exactly the rules whose field the form has. */
  lemma {:induction false} ValidateAllPartitions(rules: seq<Rule>, formData: map<string, Value>)
    ensures multiset(Filter(rules, InForm(formData, true))) + multiset(Filter(rules, InForm(formData, false)))
         == multiset(Filter(rules, (r: Rule) => r.field in formData))
  {
    FilterSplits(rules, (r: Rule) => r.field in formData, InForm(formData, true), InForm(formData, false));
  }
}
