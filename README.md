# csstransform selector rewrite, modelled in Dafny

CssTransform reads a CSS 3.0 stylesheet with phloc-css and writes three
files next to it. The first is the stylesheet minified. The other two are a
"deep" variant, pretty and minified. In the deep variant every selector of
every style rule, including style rules inside media rules at any depth,
is prefixed with `body /deep/ `. Two kinds of selector are left alone:

- an empty selector;
- a selector whose first member is an element name that reads `body` or
  `html` once trimmed and lower-cased.

This project models the part of the program that is its own logic:

- `modifyRules` and `modifyStyleRules`, the in-place rewrite of the rule
  tree (`css_transform.dfy`, module `CssTransform`);
- the output file names `pathname.replaceAll("\\.css", X)` computed in
  `main` (`output_paths.dfy`, module `OutputPaths`);
- the phloc types the rewrite touches (`phloc_css.dfy`, module `PhlocCss`);
- the `java.lang.String` operations it uses: `trim`, `toLowerCase` and
  `replaceAll` with a literal pattern (`java_strings.dfy`, module `JavaStrings`).

Modelling decisions:

- The rule tree is an immutable datatype: `Media(queries, rules)`,
  `Style(selectors, declarations)` or `OtherAtRule`. The Java code never adds,
  removes or reorders rules, selectors or declarations, and never touches
  media queries or other at-rules. In the model this holds by
  construction: `ModifyRules` receives the tree as a value, and its
  `modifies` clause names only selector objects.
- A selector is a class `Selector` with a mutable `members: seq<Member>`.
  It is changed only through `AddMember`, the model of phloc's
  `addMember(index, member)`.
- A member is `Simple(value)` or `NonSimple(text)`. Whether a simple
  member is an element name is decided inside phloc from its value, and
  that code is not visible here. The model therefore takes it as a
  parameter `isElementName: string -> bool`.
- `Rewritten(members, isElementName)` is the specification of one selector:
  its members unchanged, or `[Simple("body"), Simple(" /deep/ ")] + members`.
  Both methods are proved to leave every selector at exactly `Rewritten` of
  its old members.
- `trim` removes chars at or below U+0020 from both ends, as Java's does.
- `toLowerCase` is modelled on ASCII capitals only, char by char. Java's
  version does more, and it depends on the default locale:
  - the Kelvin sign U+212A lowers to `k`;
  - U+0130 lowers to `i` followed by U+0307, so one char becomes two; in a
    Turkish locale it lowers to `i` alone;
  - in a Turkish locale `I` lowers to U+0131 rather than to `i`.

  None of these differences produces or removes a letter of `body` or `html`,
  since neither word holds an `i` or a `k`. So whether the lowered text equals
  `body` or `html` comes out the same in the model as in Java.
- The regular expression `\.css` matches the literal text `.css`, and is
  case-sensitive. None of the replacements `.min.css`, `_deep.css` and
  `_deep.min.css` holds `$` or `\`, so each is inserted literally.
  `ReplaceAll` scans left to right, replaces the leftmost match and resumes
  after it, as `Matcher.replaceAll` does.

Properties proved beyond the per-member contracts below:

- Running the rewrite twice gives what running it once gives, provided the
  inserted `body` member counts as an element name (`RewriteIdempotent`,
  `ModifyRulesTwice`). Without that, a second pass adds a second prefix
  (`RewriteTwiceDoublesPrefix`).
- The output names replace every `.css` in the path, directories included
  (`EveryOccurrenceIsReplaced`): a path made of pieces without `.css`, joined
  by `.css`, comes out as the same pieces joined by `.min.css`, `_deep.css`
  or `_deep.min.css`.
- A path that holds no `.css` gives the input path back three times. So
  `main` would write over its own input file, three times
  (`OutputPathsWithoutExtension`, `OutputPathIsInputIff`).

## Model

| member | source | states |
|---|---|---|
| `PhlocCss.Selector.MemberCount` | src/main/java/csstransform/CssTransform.java:56 | `getMemberCount()` is the number of members of the selector |
| `PhlocCss.Selector.MemberAtIndex` | src/main/java/csstransform/CssTransform.java:57 | `getMemberAtIndex(i)`, for an index below the count, returns the member at index `i` |
| `PhlocCss.Selector.AddMember` | src/main/java/csstransform/CssTransform.java:67-68 | `addMember(index, m)` makes `m` member `index` and shifts the members from `index` on one place right; nothing else in the list changes |
| `CssTransform.ModifyStyleRules` | src/main/java/csstransform/CssTransform.java:53-71 | each selector of the style rule ends with exactly `Rewritten` of its own old members, decided per selector; only that rule's selectors are modified |
| `CssTransform.ModifySelector` | src/main/java/csstransform/CssTransform.java:56-68 | the loop body for one selector: its members end at exactly `Rewritten` of its old members, and only that selector is modified; the `continue` of line 63 is an early return |
| `CssTransform.ModifyRules` | src/main/java/csstransform/CssTransform.java:41-51 | every selector reachable from the rule list, including those in media rules nested at any depth, ends at `Rewritten` of its old members; no other object is modified, and the rule list, its order and kinds are values the method cannot change |
| `CssTransform.ModifyRulesTwice` | src/main/java/csstransform/CssTransform.java:55-70 | applying `modifyRules` twice leaves every selector where one application leaves it, when `body` counts as an element name |
| `CssTransform.IsRootName` | src/main/java/csstransform/CssTransform.java:61-62 | the test `value.trim().toLowerCase()` equals `body` or `html`; when it holds, the trimmed value has four chars and the value is not empty |
| `CssTransform.IsRootScoped` | src/main/java/csstransform/CssTransform.java:56-62 | the selector is non-empty, member 0 is a simple member, an element name, and a root name; when it holds, the trimmed value of member 0 has four chars |
| `CssTransform.Rewritten` | src/main/java/csstransform/CssTransform.java:56-68 | the member list one selector ends with: either its own members, or the same members behind `body` and ` /deep/ `, and no third outcome |
| `CssTransform.RewrittenUnchangedIff` | src/main/java/csstransform/CssTransform.java:56-68 | a selector comes out unchanged if and only if it is empty or its first member is an element name reading `body`/`html` |
| `CssTransform.RewrittenShape` | src/main/java/csstransform/CssTransform.java:67-68 | a prefixed selector is two members longer, has `body` at index 0 and ` /deep/ ` at index 1, and keeps its old members in order from index 2 |
| `CssTransform.NonElementFirstIsPrefixed` | src/main/java/csstransform/CssTransform.java:57-68 | a non-empty selector whose first member is not simple, or is simple but not an element name, is always prefixed |
| `CssTransform.RewriteIdempotent` | src/main/java/csstransform/CssTransform.java:61-68 | rewriting a selector twice equals rewriting it once, given that `body` is an element name |
| `CssTransform.RewriteTwiceDoublesPrefix` | src/main/java/csstransform/CssTransform.java:60-68 | if `body` were not an element name, a second pass would put a second `body /deep/ ` in front |
| `CssTransform.BodyIsRootName` | src/main/java/csstransform/CssTransform.java:61-62 | the value `body` passes the trimmed, lower-cased comparison |
| `CssTransform.RootNameIff` | src/main/java/csstransform/CssTransform.java:61-62 | a value names the root if and only if its trimmed form equals `body` or `html` ignoring ASCII letter case |
| `CssTransform.RootNamePadded` | src/main/java/csstransform/CssTransform.java:61-62 | `body` or `html` in any letter case, padded with blanks (chars at or below U+0020), names the root |
| `CssTransform.PaddedUpperBodyIsRootName` | src/main/java/csstransform/CssTransform.java:61-62 | `"  BODY "` names the root |
| `CssTransform.MixedCaseBodyIsRootName` | src/main/java/csstransform/CssTransform.java:61-62 | `"Body"` names the root |
| `CssTransform.PaddedHtmlIsRootName` | src/main/java/csstransform/CssTransform.java:61-62 | `"  html  "` names the root |
| `CssTransform.NotRootNameByLength` | src/main/java/csstransform/CssTransform.java:61-62 | a non-blank value that trim leaves alone and that is not four chars long is no root name |
| `CssTransform.NonRootNameExamples` | src/main/java/csstransform/CssTransform.java:58-64 | `.body`, `#html` and `bodyx` are not root names, so selectors starting with them are prefixed |
| `CssTransform.DivFooIsPrefixed` | src/main/java/csstransform/CssTransform.java:67-68 | the selector `div.foo` becomes `body /deep/ div.foo` |
| `CssTransform.BodyDescendantIsKept` | src/main/java/csstransform/CssTransform.java:57-64 | `body .inner` is left whole, because only member 0 is inspected |
| `JavaStrings.TrimStart` | src/main/java/csstransform/CssTransform.java:61 | the front half of `trim`: drops the leading run of chars at or below U+0020; never longer than its input |
| `JavaStrings.TrimEnd` | src/main/java/csstransform/CssTransform.java:61 | the back half of `trim`: drops the trailing run of such chars; never longer than its input |
| `JavaStrings.Trim` | src/main/java/csstransform/CssTransform.java:61 | `String.trim()`: never longer than the input, and either empty or starting and ending with a char `trim` keeps |
| `JavaStrings.TrimStartSpec` | src/main/java/csstransform/CssTransform.java:61 | the front half of `trim` keeps a suffix, drops only blanks, and stops at a char it keeps |
| `JavaStrings.TrimEndSpec` | src/main/java/csstransform/CssTransform.java:61 | the back half of `trim` keeps a prefix, drops only blanks, and stops at a char it keeps |
| `JavaStrings.TrimPadded` | src/main/java/csstransform/CssTransform.java:61 | trimming blank padding around a text that neither starts nor ends with a blank gives exactly that text |
| `JavaStrings.TrimRejoins` | src/main/java/csstransform/CssTransform.java:61 | every string is its leading blank run, its trimmed form and its trailing blank run, in that order |
| `JavaStrings.TrimRemovesBlank` | src/main/java/csstransform/CssTransform.java:61 | both runs that `trim` removes consist of blanks only |
| `JavaStrings.LowerChar` | src/main/java/csstransform/CssTransform.java:61 | lowering of one char on the ASCII model: an ASCII capital becomes the lower-case letter at the same alphabet position (`B` to `b`), every other char is kept; the result is never an ASCII capital |
| `JavaStrings.ToLower` | src/main/java/csstransform/CssTransform.java:61 | `toLowerCase()` on the ASCII model: keeps the length of its input |
| `JavaStrings.ToLowerAt` | src/main/java/csstransform/CssTransform.java:61 | the ASCII model of `toLowerCase` lowers char by char: each result char is the lowered input char at the same index (Java's own may change the length, see "Left out") |
| `JavaStrings.ToLowerMatches` | src/main/java/csstransform/CssTransform.java:61-62 | lowering gives a lower-case word if and only if the input is that word ignoring letter case |
| `JavaStrings.ReplaceAll` | src/main/java/csstransform/CssTransform.java:31-34 | `replaceAll` with a literal pattern: a replacement no shorter than the pattern never shortens the text, and one of the same length keeps its length |
| `JavaStrings.ReplaceAllWithoutMatch` | src/main/java/csstransform/CssTransform.java:31-34 | a string in which the pattern does not occur is returned unchanged |
| `JavaStrings.ReplaceAllFirstMatch` | src/main/java/csstransform/CssTransform.java:31-34 | for a pattern whose matches cannot overlap, the leftmost occurrence is replaced and scanning resumes right after it |
| `JavaStrings.ReplaceAllJoin` | src/main/java/csstransform/CssTransform.java:31-34 | pieces without the pattern, joined by a pattern whose matches cannot overlap, come out as the same pieces joined by the replacement: every joint and nothing else is replaced |
| `JavaStrings.ReplaceAllChanges` | src/main/java/csstransform/CssTransform.java:31-34 | a replacement that differs from the pattern at some index changes every string in which the pattern occurs |
| `JavaStrings.ReplaceAllSeparates` | src/main/java/csstransform/CssTransform.java:31-34 | two replacements that differ at some index give different results on every string in which the pattern occurs |
| `OutputPaths.MinifiedPath` | src/main/java/csstransform/CssTransform.java:31 | the name of the minified copy, `pathname.replaceAll("\\.css", ".min.css")`; never shorter than the input path |
| `OutputPaths.DeepPath` | src/main/java/csstransform/CssTransform.java:33 | the name of the rewritten copy, with `_deep.css` in place of `.css`; never shorter than the input path |
| `OutputPaths.DeepMinifiedPath` | src/main/java/csstransform/CssTransform.java:34 | the name of the rewritten minified copy, with `_deep.min.css` in place of `.css`; never shorter than the input path |
| `OutputPaths.ExtensionIsBorderless` | src/main/java/csstransform/CssTransform.java:31 | no proper suffix of `.css` is also a prefix of it, so two matches never overlap |
| `OutputPaths.OutputPathsOfCssFile` | src/main/java/csstransform/CssTransform.java:31-34 | `name.css` gives `name.min.css`, `name_deep.css` and `name_deep.min.css` when the name holds no `.css` |
| `OutputPaths.EveryOccurrenceIsReplaced` | src/main/java/csstransform/CssTransform.java:31-34 | every `.css` is replaced, not only the extension: pieces without `.css` joined by `.css` come out joined by `.min.css`, `_deep.css` and `_deep.min.css`, so `my.cssfiles/site.css` gives `my.min.cssfiles/site.min.css` |
| `OutputPaths.OutputPathsWithoutExtension` | src/main/java/csstransform/CssTransform.java:31-34 | a path holding no `.css` gives the input path for all three outputs |
| `OutputPaths.OutputPathsDistinct` | src/main/java/csstransform/CssTransform.java:31-34 | once `.css` occurs, the input path and the three output paths are four different paths |
| `OutputPaths.OutputPathIsInputIff` | src/main/java/csstransform/CssTransform.java:31-34 | each output path equals the input path if and only if the input holds no `.css` |

## Left out

- `main`'s argument loop, the `File.exists` check and all `System.out` / `System.err` messages are console and file-system I/O (CssTransform.java:22-39). Only the file names it derives are modelled.
- `readCSS30` is a call into phloc's `CSSReader` with charset detection (CssTransform.java:80-89), so it is left out. It returns `null` on a syntax error, and `main` then passes that `null` on. Nothing of this is modelled.
- `writeCSS30` is phloc's `CSSWriter` serialisation, with its charset and header settings, and a file write (CssTransform.java:103-122). These are library calls and I/O, so they are left out.
- The CSS tokenizer, parser and serializer belong to phloc-css and are not part of this model. So no parse/print round trip and no minification property is stated.
- phloc's `isElementName` is not part of this model. It is the parameter `isElementName`, and idempotence is proved under the assumption that it holds of `body`.
- phloc's `addMember` for an index beyond the end of the list is not modelled. `AddMember` requires `index <= |members|`, and the source only ever passes 0.
- `CssTransform.ModifyRules`: requires every selector object to occur once in the tree (`Unshared`), as a parsed stylesheet guarantees. What Java would do with a selector object shared by two rules is not modelled.
- `CssTransform.ModifyStyleRules`: requires likewise that no selector object occurs twice in the rule (`RuleUnshared`). Its only caller, `ModifyRules`, passes a rule of an unshared tree, so the requirement always holds there. What Java would do with one selector object listed twice in a rule is not modelled.
- `CssTransform.ModifyRules`: also requires the selectors to be allocated. This is always true of a tree passed in, and Dafny needs it to speak of their old member lists.
- `JavaStrings.ToLower`: models `toLowerCase` on ASCII letters only and keeps the length. Java's version is locale-dependent. It lowers U+0130 to two chars outside a Turkish locale, and in a Turkish locale lowers `I` to U+0131. It also lowers non-ASCII capitals, such as the Kelvin sign to `k`. None of this changes whether the result equals `body` or `html`, which is the only use made of it (see above).
