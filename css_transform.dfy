/**
 * The selector-prefixing rewrite of CssTransform: every selector of every
 * style rule, media bodies included, gains a leading `body /deep/ ` unless it
 * is empty or already starts with the element name `body` or `html`.
 *
 * phloc decides whether a simple member is an element name from its value;
 * that test is not visible here, so it is the parameter `isElementName`.
 */
module CssTransform {
  import opened PhlocCss
  import opened JavaStrings

  /** The two members put in front of a selector: `body`, then the `/deep/` combinator text. */
  const Prefix: seq<Member> := [Simple("body"), Simple(" /deep/ ")]

  /** A member value naming the document root: `body` or `html`, after trimming and lowering. */
  predicate IsRootName(value: string): (b: bool)
    ensures b ==> |Trim(value)| == 4 && value != []
  {
    var name := ToLower(Trim(value));
    name == "body" || name == "html"
  }

  /** A selector whose first member is the element name `body` or `html`. */
  predicate IsRootScoped(members: seq<Member>, isElementName: string -> bool): (b: bool)
    ensures b ==> |members| > 0 && members[0].Simple? && |Trim(members[0].value)| == 4
  {
    |members| > 0 && members[0].Simple? && isElementName(members[0].value) && IsRootName(members[0].value)
  }

  /**
   * The member list one selector has after the rewrite: either its own
   * members, or the same members behind the two-member prefix.
   */
  function Rewritten(members: seq<Member>, isElementName: string -> bool): (r: seq<Member>)
    ensures r == members || r == Prefix + members
  {
    if |members| == 0 || IsRootScoped(members, isElementName) then members else Prefix + members
  }

  // ---------------------------------------------------------------------
  // modifyStyleRules and modifyRules of CssTransform.java.

  /** modifyStyleRules: rewrites each selector of one style rule in place. */
  method ModifyStyleRules(rule: Rule, isElementName: string -> bool)
    requires rule.Style? && RuleUnshared(rule)
    modifies RuleSelectors(rule)
    ensures forall s :: s in RuleSelectors(rule) ==> s.members == Rewritten(old(s.members), isElementName)
  {
    var selectors := rule.selectors;
    for i := 0 to |selectors|
      invariant forall j :: 0 <= j < i ==>
        selectors[j].members == Rewritten(old(selectors[j].members), isElementName)
      invariant forall j :: i <= j < |selectors| ==> selectors[j].members == old(selectors[j].members)
    {
      assert forall j :: 0 <= j < |selectors| && j != i ==> selectors[j] != selectors[i];
      ModifySelector(selectors[i], isElementName);
    }
    forall s | s in RuleSelectors(rule)
      ensures s.members == Rewritten(old(s.members), isElementName)
    {
      var j :| 0 <= j < |selectors| && selectors[j] == s;
    }
  }

  /** The body of the loop in modifyStyleRules: one selector, tested on its member 0. */
  method ModifySelector(selector: Selector, isElementName: string -> bool)
    modifies selector
    ensures selector.members == Rewritten(old(selector.members), isElementName)
  {
    ghost var before := selector.members;
    if selector.MemberCount() > 0 {
      var first := selector.MemberAtIndex(0);
      if first.Simple? {
        if isElementName(first.value) {
          var name := ToLower(Trim(first.value));
          if name == "body" || name == "html" {
            assert IsRootScoped(before, isElementName);
            return;
          }
        }
      }
      assert !IsRootScoped(before, isElementName);
      selector.AddMember(0, Simple(" /deep/ "));
      InsertAtFront(before, Simple(" /deep/ "));
      selector.AddMember(0, Simple("body"));
      InsertAtFront([Simple(" /deep/ ")] + before, Simple("body"));
    }
  }

  /** Inserting at index 0 puts the member in front. */
  lemma InsertAtFront(members: seq<Member>, m: Member)
    ensures members[..0] + [m] + members[0..] == [m] + members
  {
    assert members[..0] == [] && members[0..] == members;
  }

  /** modifyRules: walks a rule list, descending into media bodies at any depth. */
  method ModifyRules(rules: seq<Rule>, isElementName: string -> bool)
    requires Unshared(rules) && forall s :: s in Selectors(rules) ==> allocated(s)
    modifies Selectors(rules)
    ensures forall s :: s in Selectors(rules) ==> s.members == Rewritten(old(s.members), isElementName)
    decreases rules
  {
    for i := 0 to |rules|
      invariant Selectors(rules[..i]) <= Selectors(rules)
      invariant forall s :: s in Selectors(rules[..i]) ==>
        s.members == Rewritten(old(s.members), isElementName)
      invariant forall s :: s in Selectors(rules) && s !in Selectors(rules[..i]) ==>
        s.members == old(s.members)
    {
      PrefixSelectors(rules, i + 1);
      StepSelectors(rules, i);
      var rule := rules[i];
      if rule.Media? {
        ModifyRules(rule.rules, isElementName);
      }
      if rule.Style? {
        ModifyStyleRules(rule, isElementName);
      }
    }
    assert rules[..|rules|] == rules;
  }

  /**
   * Running the rewrite a second time changes nothing, as long as the `body`
   * member it inserts counts as an element name.
   */
  method ModifyRulesTwice(rules: seq<Rule>, isElementName: string -> bool)
    requires Unshared(rules) && forall s :: s in Selectors(rules) ==> allocated(s)
    requires isElementName("body")
    modifies Selectors(rules)
    ensures forall s :: s in Selectors(rules) ==> s.members == Rewritten(old(s.members), isElementName)
  {
    ModifyRules(rules, isElementName);
    label Once:
    ModifyRules(rules, isElementName);
    forall s | s in Selectors(rules)
      ensures Rewritten(Rewritten(old(s.members), isElementName), isElementName)
           == Rewritten(old(s.members), isElementName)
    {
      RewriteIdempotent(old(s.members), isElementName);
    }
  }

  // ---------------------------------------------------------------------
  // What the per-selector rewrite does.

  /** `body` is a root name, so a rewritten selector starts with one. */
  lemma BodyIsRootName()
    ensures IsRootName("body")
  {
    assert TrimStart("body") == "body";
    assert TrimEnd("body") == "body";
    LowerOfLowerCase("body");
  }

  /** Lowering leaves a string without ASCII capitals unchanged. */
  lemma {:induction false} LowerOfLowerCase(w: string)
    requires forall k :: 0 <= k < |w| ==> !('A' <= w[k] <= 'Z')
    ensures ToLower(w) == w
    decreases |w|
  {
    if w != [] {
      LowerOfLowerCase(w[1..]);
      assert w == [w[0]] + w[1..];
    }
  }

  /**
   * A selector is left alone exactly when it is empty or root-scoped;
   * otherwise it is longer by two.
   */
  lemma RewrittenUnchangedIff(members: seq<Member>, isElementName: string -> bool)
    ensures Rewritten(members, isElementName) == members
        <==> |members| == 0 || IsRootScoped(members, isElementName)
  {
  }

  /** A prefixed selector: `body` at 0, the combinator at 1, the old members in order from 2. */
  lemma RewrittenShape(members: seq<Member>, isElementName: string -> bool)
    requires |members| > 0 && !IsRootScoped(members, isElementName)
    ensures var r := Rewritten(members, isElementName);
      |r| == |members| + 2 && r[0] == Simple("body") && r[1] == Simple(" /deep/ ") && r[2..] == members
  {
  }

  /** A first member that is not simple, or not an element name, is always prefixed. */
  lemma NonElementFirstIsPrefixed(members: seq<Member>, isElementName: string -> bool)
    requires |members| > 0
    requires members[0].NonSimple? || !isElementName(members[0].value)
    ensures Rewritten(members, isElementName) == Prefix + members
  {
  }

  /** Rewriting twice is rewriting once when `body` is an element name. */
  lemma RewriteIdempotent(members: seq<Member>, isElementName: string -> bool)
    requires isElementName("body")
    ensures Rewritten(Rewritten(members, isElementName), isElementName) == Rewritten(members, isElementName)
  {
    if |members| > 0 && !IsRootScoped(members, isElementName) {
      BodyIsRootName();
      assert IsRootScoped(Prefix + members, isElementName);
    }
  }

  /** Without that, a second pass would prefix the selector again. */
  lemma RewriteTwiceDoublesPrefix(members: seq<Member>, isElementName: string -> bool)
    requires !isElementName("body")
    requires |members| > 0 && !IsRootScoped(members, isElementName)
    ensures Rewritten(Rewritten(members, isElementName), isElementName) == Prefix + Prefix + members
  {
  }

  // ---------------------------------------------------------------------
  // Which member values name the root.

  /** A root name is `body` or `html`, in any letter case, with blank padding. */
  lemma RootNameIff(value: string)
    ensures IsRootName(value) <==>
      SameIgnoringCase(Trim(value), "body") || SameIgnoringCase(Trim(value), "html")
  {
    LowerOfLowerCase("body");
    LowerOfLowerCase("html");
    ToLowerMatches(Trim(value), "body");
    ToLowerMatches(Trim(value), "html");
  }

  /** Padding `body` or `html`, in any case, with blanks still gives a root name. */
  lemma RootNamePadded(lead: string, word: string, trail: string)
    requires Blank(lead) && Blank(trail)
    requires SameIgnoringCase(word, "body") || SameIgnoringCase(word, "html")
    ensures IsRootName(lead + word + trail)
  {
    assert LowerChar(word[0]) == LowerChar(if SameIgnoringCase(word, "body") then 'b' else 'h');
    assert LowerChar(word[3]) == LowerChar(if SameIgnoringCase(word, "body") then 'y' else 'l');
    TrimPadded(lead, word, trail);
    RootNameIff(lead + word + trail);
  }

  /** `  BODY ` names the root: trimming and lowering are both applied. */
  lemma PaddedUpperBodyIsRootName()
    ensures IsRootName("  BODY ")
  {
    assert "  BODY " == "  " + "BODY" + " ";
    forall k | 0 <= k < 4 ensures LowerChar("BODY"[k]) == LowerChar("body"[k]) {
      if k == 0 {} else if k == 1 {} else if k == 2 {} else {}
    }
    RootNamePadded("  ", "BODY", " ");
  }

  /** `Body` names the root. */
  lemma MixedCaseBodyIsRootName()
    ensures IsRootName("Body")
  {
    assert "Body" == "" + "Body" + "";
    forall k | 0 <= k < 4 ensures LowerChar("Body"[k]) == LowerChar("body"[k]) {
      if k == 0 {} else if k == 1 {} else if k == 2 {} else {}
    }
    RootNamePadded("", "Body", "");
  }

  /** `  html  ` names the root. */
  lemma PaddedHtmlIsRootName()
    ensures IsRootName("  html  ")
  {
    assert "  html  " == "  " + "html" + "  ";
    RootNamePadded("  ", "html", "  ");
  }

  /** A value `trim` leaves alone that is not four chars long is no root name. */
  lemma NotRootNameByLength(value: string)
    requires value != [] && !IsTrimmable(value[0]) && !IsTrimmable(value[|value| - 1])
    requires |value| != 4
    ensures !IsRootName(value)
  {
    assert value == "" + value + "";
    TrimPadded("", value, "");
    RootNameIff(value);
  }

  /** `.body`, `#html` and `bodyx` do not name the root. */
  lemma NonRootNameExamples()
    ensures !IsRootName(".body") && !IsRootName("#html") && !IsRootName("bodyx")
  {
    NotRootNameByLength(".body");
    NotRootNameByLength("#html");
    NotRootNameByLength("bodyx");
  }

  // ---------------------------------------------------------------------
  // Selectors as phloc parses them.

  /** `div.foo` becomes `body /deep/ div.foo`. */
  lemma DivFooIsPrefixed(isElementName: string -> bool)
    requires isElementName("div")
    ensures Rewritten([Simple("div"), Simple(".foo")], isElementName)
         == [Simple("body"), Simple(" /deep/ "), Simple("div"), Simple(".foo")]
  {
    assert ToLower(Trim("div")) == "div" by {
      assert TrimStart("div") == "div";
      assert TrimEnd("div") == "div";
      LowerOfLowerCase("div");
    }
  }

  /** `body .inner` is left alone as a whole: only member 0 is inspected. */
  lemma BodyDescendantIsKept(isElementName: string -> bool, combinator: Member)
    requires isElementName("body")
    ensures Rewritten([Simple("body"), combinator, Simple(".inner")], isElementName)
         == [Simple("body"), combinator, Simple(".inner")]
  {
    BodyIsRootName();
  }
}
