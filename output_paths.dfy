/**
 * The names of the three files CssTransform writes for one input path: each
 * is the input path with every ".css" replaced (`pathname.replaceAll("\\.css", X)`).
 */
module OutputPaths {
  import opened JavaStrings

  /** The literal text the regular expression "\\.css" matches. */
  const Extension := ".css"

  /** The minified copy of the stylesheet as read. */
  function MinifiedPath(pathname: string): (r: string)
    ensures |r| >= |pathname|
  {
    ReplaceAll(pathname, Extension, ".min.css")
  }

  /** The rewritten stylesheet, pretty-printed. */
  function DeepPath(pathname: string): (r: string)
    ensures |r| >= |pathname|
  {
    ReplaceAll(pathname, Extension, "_deep.css")
  }

  /** The rewritten stylesheet, minified. */
  function DeepMinifiedPath(pathname: string): (r: string)
    ensures |r| >= |pathname|
  {
    ReplaceAll(pathname, Extension, "_deep.min.css")
  }

  /** Two matches of ".css" never overlap. */
  lemma ExtensionIsBorderless()
    ensures Borderless(Extension)
  {
    forall k | 0 < k < |Extension| ensures Extension[k..] != Extension[..|Extension| - k] {
      assert Extension[k..][0] != Extension[..|Extension| - k][0];
    }
  }

  /** A stylesheet `name.css`, whose name holds no ".css", gets the three conventional names. */
  lemma OutputPathsOfCssFile(name: string)
    requires !Occurs(name, Extension)
    ensures MinifiedPath(name + Extension) == name + ".min.css"
    ensures DeepPath(name + Extension) == name + "_deep.css"
    ensures DeepMinifiedPath(name + Extension) == name + "_deep.min.css"
  {
    ExtensionIsBorderless();
    assert name + Extension == name + Extension + "";
    ReplaceAllFirstMatch(name, Extension, "", ".min.css");
    ReplaceAllFirstMatch(name, Extension, "", "_deep.css");
    ReplaceAllFirstMatch(name, Extension, "", "_deep.min.css");
  }

  /**
   * Every ".css" is replaced, not only the extension: a path made of pieces
   * without ".css", joined by ".css", comes out with each joint renamed. So in
   * `my.cssfiles/site.css` (pieces `my`, `files/site` and the empty one) the
   * directory is renamed as well, and the output would go to a directory
   * `my.min.cssfiles` that need not exist.
   */
  lemma EveryOccurrenceIsReplaced(parts: seq<string>)
    requires forall i :: 0 <= i < |parts| ==> !Occurs(parts[i], Extension)
    ensures MinifiedPath(Join(parts, Extension)) == Join(parts, ".min.css")
    ensures DeepPath(Join(parts, Extension)) == Join(parts, "_deep.css")
    ensures DeepMinifiedPath(Join(parts, Extension)) == Join(parts, "_deep.min.css")
  {
    ExtensionIsBorderless();
    ReplaceAllJoin(parts, Extension, ".min.css");
    ReplaceAllJoin(parts, Extension, "_deep.css");
    ReplaceAllJoin(parts, Extension, "_deep.min.css");
  }

  /** A path without ".css" gives back the input path three times over. */
  lemma OutputPathsWithoutExtension(pathname: string)
    requires !Occurs(pathname, Extension)
    ensures MinifiedPath(pathname) == pathname
    ensures DeepPath(pathname) == pathname
    ensures DeepMinifiedPath(pathname) == pathname
  {
    ReplaceAllWithoutMatch(pathname, Extension, ".min.css");
    ReplaceAllWithoutMatch(pathname, Extension, "_deep.css");
    ReplaceAllWithoutMatch(pathname, Extension, "_deep.min.css");
  }

  /** Once ".css" occurs, the input and the three outputs are four different paths. */
  lemma OutputPathsDistinct(pathname: string)
    requires Occurs(pathname, Extension)
    ensures MinifiedPath(pathname) != pathname
    ensures DeepPath(pathname) != pathname
    ensures DeepMinifiedPath(pathname) != pathname
    ensures MinifiedPath(pathname) != DeepPath(pathname)
    ensures MinifiedPath(pathname) != DeepMinifiedPath(pathname)
    ensures DeepPath(pathname) != DeepMinifiedPath(pathname)
  {
    assert Diverge(".min.css", Extension) by { assert ".min.css"[1] != Extension[1]; }
    assert Diverge("_deep.css", Extension) by { assert "_deep.css"[0] != Extension[0]; }
    assert Diverge("_deep.min.css", Extension) by { assert "_deep.min.css"[0] != Extension[0]; }
    assert Diverge(".min.css", "_deep.css") by { assert ".min.css"[0] != "_deep.css"[0]; }
    assert Diverge(".min.css", "_deep.min.css") by { assert ".min.css"[0] != "_deep.min.css"[0]; }
    assert Diverge("_deep.css", "_deep.min.css") by { assert "_deep.css"[6] != "_deep.min.css"[6]; }
    ReplaceAllChanges(pathname, Extension, ".min.css");
    ReplaceAllChanges(pathname, Extension, "_deep.css");
    ReplaceAllChanges(pathname, Extension, "_deep.min.css");
    ReplaceAllSeparates(pathname, Extension, ".min.css", "_deep.css");
    ReplaceAllSeparates(pathname, Extension, ".min.css", "_deep.min.css");
    ReplaceAllSeparates(pathname, Extension, "_deep.css", "_deep.min.css");
  }

  /** Each output path equals the input path exactly when the input holds no ".css". */
  lemma OutputPathIsInputIff(pathname: string)
    ensures MinifiedPath(pathname) == pathname <==> !Occurs(pathname, Extension)
    ensures DeepPath(pathname) == pathname <==> !Occurs(pathname, Extension)
    ensures DeepMinifiedPath(pathname) == pathname <==> !Occurs(pathname, Extension)
  {
    if Occurs(pathname, Extension) {
      OutputPathsDistinct(pathname);
    } else {
      OutputPathsWithoutExtension(pathname);
    }
  }
}
