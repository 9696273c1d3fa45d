/**
  The request validator as the message handler uses it: for each attribute in
  turn, its rules in the order written, with the framework's rules for which
  rules run at all and when an attribute's remaining rules are skipped.
*/
module Validation {
  import opened Values

  /** The rules the message handler uses. */
  datatype Rule = RequiredWithout(other: string) | Max(limit: nat) | IsString

  /** One failed rule of one attribute. */
  datatype Failure = Failure(attribute: string, rule: Rule)

  /** Attribute names with their rules, in the order they are written. */
  type RuleSet = seq<(string, seq<Rule>)>

  /** An implicit rule runs even when the attribute is absent or blank. */
  predicate IsImplicit(rule: Rule)
  {
    rule.RequiredWithout?
  }

  /** Whether the rule runs: a rule that is not implicit is skipped for an
      attribute that is absent or holds a blank string. */
  predicate IsValidatable(input: Input, attribute: string, rule: Rule)
  {
    var v := Get(input, attribute);
    if v.Str? && IsBlank(v.text) then IsImplicit(rule)
    else attribute in input || IsImplicit(rule)
  }

  /** Whether the rule holds of the attribute's value. */
  predicate Passes(input: Input, attribute: string, rule: Rule)
  {
    var v := Get(input, attribute);
    match rule
    case RequiredWithout(other) => Required(Get(input, other)) || Required(v)
    case Max(limit) => Size(v) <= limit
    case IsString => v.Str?
  }

  predicate Fails(input: Input, attribute: string, rule: Rule)
  {
    IsValidatable(input, attribute, rule) && !Passes(input, attribute, rule)
  }

  /** Whether an implicit rule before position `i` fails, so that the rules
      from `i` on are not run. */
  predicate StopsBefore(input: Input, attribute: string, rules: seq<Rule>, i: int)
  {
    exists j :: 0 <= j < i && j < |rules| && IsImplicit(rules[j]) && Fails(input, attribute, rules[j])
  }

  /** The failures of one attribute: each rule that runs and fails, in order,
      stopping after the first failed implicit rule. */
  function CheckAttribute(input: Input, attribute: string, rules: seq<Rule>): (fs: seq<Failure>)
    ensures forall f :: f in fs ==> f.attribute == attribute && f.rule in rules && Fails(input, attribute, f.rule)
    ensures fs == [] <==> forall r :: r in rules ==> !Fails(input, attribute, r)
    ensures rules != [] && Fails(input, attribute, rules[0]) ==> fs[0] == Failure(attribute, rules[0])
    ensures forall i :: 0 <= i < |fs| && IsImplicit(fs[i].rule) ==> i == |fs| - 1
    ensures forall i :: 0 <= i < |rules| && Fails(input, attribute, rules[i]) && !StopsBefore(input, attribute, rules, i) ==>
      Failure(attribute, rules[i]) in fs
  {
    if rules == [] then []
    else
      var rule := rules[0];
      if Fails(input, attribute, rule) then
        [Failure(attribute, rule)] + (if IsImplicit(rule) then [] else CheckAttribute(input, attribute, rules[1..]))
      else
        CheckAttribute(input, attribute, rules[1..])
  }

  /** All failures, attribute by attribute; the input is valid when there are none. */
  function Validate(input: Input, ruleSet: RuleSet): (fs: seq<Failure>)
    ensures fs == [] <==>
      forall i, r :: 0 <= i < |ruleSet| && r in ruleSet[i].1 ==> !Fails(input, ruleSet[i].0, r)
  {
    if ruleSet == [] then []
    else CheckAttribute(input, ruleSet[0].0, ruleSet[0].1) + Validate(input, ruleSet[1..])
  }
}
