/**
 * The parts of the phloc-css object model that the selector rewrite touches.
 *
 * A stylesheet is a sequence of top-level rules. The rewrite never adds,
 * removes or reorders rules, selectors or declarations, so the rule tree is
 * an immutable value; only the member list of each selector is changed in
 * place, so a selector is an object with a mutable member list.
 */
module PhlocCss {

  /** One member of a selector, as phloc stores it. */
  datatype Member =
    | Simple(value: string)      // element name, class, id, pseudo or raw text
    | NonSimple(text: string)    // combinator, attribute matcher, :not(...), function-like

  /** A declaration of a style rule; the rewrite never looks at it. */
  datatype Declaration = Declaration(property: string, expression: string, important: bool)

  /** A top-level rule; a media rule owns a nested list of top-level rules. */
  datatype Rule =
    | Media(queries: seq<string>, rules: seq<Rule>)
    | Style(selectors: seq<Selector>, declarations: seq<Declaration>)
    | OtherAtRule(text: string)

  /** A selector: an ordered list of members, edited in place. */
  class Selector {
    var members: seq<Member>

    constructor (initial: seq<Member>)
      ensures members == initial
    {
      members := initial;
    }

    function MemberCount(): (n: nat)
      reads this
      ensures n == |members|
    {
      |members|
    }

    function MemberAtIndex(i: nat): (m: Member)
      reads this
      requires i < |members|
      ensures m == members[i]
    {
      members[i]
    }

    /** Inserts `m` so that it becomes member `index`, shifting the rest right. */
    method AddMember(index: nat, m: Member)
      requires index <= |members|
      modifies this
      ensures members == old(members)[..index] + [m] + old(members)[index..]
    {
      members := members[..index] + [m] + members[index..];
    }
  }

  /** Every selector object reachable from a list of rules, media bodies included. */
  ghost function Selectors(rules: seq<Rule>): set<Selector>
    decreases rules
  {
    if rules == [] then {}
    else Selectors(rules[..|rules| - 1]) + RuleSelectors(rules[|rules| - 1])
  }

  /** Every selector object reachable from one rule. */
  ghost function RuleSelectors(rule: Rule): set<Selector>
    decreases rule
  {
    match rule
    case Media(_, inner) => Selectors(inner)
    case Style(selectors, _) => set s | s in selectors
    case OtherAtRule(_) => {}
  }

  /**
   * No selector object occurs twice in the tree: a freshly parsed stylesheet
   * gives every selector of every rule its own object.
   */
  ghost predicate Unshared(rules: seq<Rule>)
    decreases rules
  {
    rules == [] ||
    (Unshared(rules[..|rules| - 1]) &&
     RuleUnshared(rules[|rules| - 1]) &&
     Selectors(rules[..|rules| - 1]) !! RuleSelectors(rules[|rules| - 1]))
  }

  ghost predicate RuleUnshared(rule: Rule)
    decreases rule
  {
    match rule
    case Media(_, inner) => Unshared(inner)
    case Style(selectors, _) =>
      forall i, j :: 0 <= i < j < |selectors| ==> selectors[i] != selectors[j]
    case OtherAtRule(_) => true
  }

  /** The selectors of a prefix of a rule list belong to the whole list, and sharing nothing is inherited. */
  lemma {:induction false} PrefixSelectors(rules: seq<Rule>, k: nat)
    requires k <= |rules|
    ensures Selectors(rules[..k]) <= Selectors(rules)
    ensures Unshared(rules) ==> Unshared(rules[..k])
    decreases |rules|
  {
    if k < |rules| {
      var init := rules[..|rules| - 1];
      assert rules[..k] == init[..k];
      PrefixSelectors(init, k);
    } else {
      assert rules[..k] == rules;
    }
  }

  /** Extending a prefix by one rule adds exactly that rule's selectors. */
  lemma StepSelectors(rules: seq<Rule>, i: nat)
    requires i < |rules|
    ensures Selectors(rules[..i + 1]) == Selectors(rules[..i]) + RuleSelectors(rules[i])
    ensures Unshared(rules[..i + 1]) ==>
      Unshared(rules[..i]) && RuleUnshared(rules[i]) && Selectors(rules[..i]) !! RuleSelectors(rules[i])
  {
    assert rules[..i + 1][..i] == rules[..i];
  }
}
