/** The rule-string validation of the set_rules command. */
module RuleStrings {

  /** str.upper on ASCII letters. Python's upper maps no other character to
      'R' or 'L', so this choice cannot change which strings are accepted. */
  function UpperChar(c: char): char {
    if 'a' <= c <= 'z' then (c as int - 32) as char else c
  }

  function Upper(s: string): (r: string)
    ensures |r| == |s| && forall i :: 0 <= i < |s| ==> r[i] == UpperChar(s[i])
  {
    seq(|s|, i requires 0 <= i < |s| => UpperChar(s[i]))
  }

  /** A stored rule string that set_rules would produce: only 'R' and 'L'. */
  predicate IsRuleString(s: string) {
    forall i :: 0 <= i < |s| ==> s[i] == 'R' || s[i] == 'L'
  }

  /** do_set_rules: the rules held after the command. The argument is
      upper-cased and stored when its set of characters is within {R, L};
      otherwise the current rules stay. */
  function SetRules(current: string, arg: string): (r: string)
    ensures (forall i :: 0 <= i < |arg| ==> arg[i] in "RrLl") ==>
              |r| == |arg| && forall i :: 0 <= i < |arg| ==> r[i] == (if arg[i] in "Rr" then 'R' else 'L')
    ensures !(forall i :: 0 <= i < |arg| ==> arg[i] in "RrLl") ==> r == current
    ensures r == current || IsRuleString(r)
  {
    var up := Upper(arg);
    var symbols := set c | c in up;
    assert forall i :: 0 <= i < |arg| ==> up[i] in symbols;
    if symbols <= {'R', 'L'} then up else current
  }

  /** A valid rule string is stored unchanged, whatever was held before;
      so applying the same command twice is the same as applying it once. */
  lemma ValidRulesStoredVerbatim(current: string, rules: string)
    requires IsRuleString(rules)
    ensures SetRules(current, rules) == rules
    ensures SetRules(SetRules(current, rules), rules) == SetRules(current, rules)
  {
    assert forall i :: 0 <= i < |rules| ==> rules[i] in "RrLl";
    assert |SetRules(current, rules)| == |rules|;
  }
}
