/**
 * The predicates that decide which modules and emitted files a build rule
 * applies to: the `vendor` and `react` cache groups of the chunk splitter,
 * the compression plugin's file test and the minifier's test and exclude
 * patterns. Each regular expression is restated as a string predicate.
 */
module Rules {
  import opened Wrappers
  import opened Strings

  /** Files at or below this many bytes are not compressed. */
  const CompressionThreshold: nat := 10240

  /** A compressed copy is kept only when compressed/original is below this. */
  const CompressionMinRatio: real := 0.8

  /** The directory name both cache groups look for. */
  const NodeModules := "node_modules"

  /** The substring the `react` cache group looks for. */
  const ReactMarker := "node_modules/react"

  /** The substring the minifier's `exclude` pattern looks for. */
  const TerserExcludeMarker := "node_module"

  /** The character class `[\\/]`. */
  predicate IsSeparator(c: char) {
    c == '/' || c == '\\'
  }

  /** `/[\\/]node_modules[\\/]/` matches `s` at index `i`. */
  predicate VendorMatchAt(s: string, i: int) {
    0 <= i && i + |NodeModules| + 2 <= |s|
    && IsSeparator(s[i])
    && s[i + 1..i + 1 + |NodeModules|] == NodeModules
    && IsSeparator(s[i + 1 + |NodeModules|])
  }

  /**
   * The `vendor` cache group's test `/[\\/]node_modules[\\/]/`: an
   * unanchored search, trying each start position from the left.
   */
  predicate VendorTest(s: string)
    decreases |s|
  {
    |s| >= |NodeModules| + 2
    && ((IsSeparator(s[0]) && s[1..1 + |NodeModules|] == NodeModules && IsSeparator(s[1 + |NodeModules|]))
        || VendorTest(s[1..]))
  }

  /** The search succeeds exactly when some position matches. */
  lemma {:induction false} VendorTestIff(s: string)
    ensures VendorTest(s) <==> exists i :: VendorMatchAt(s, i)
    decreases |s|
  {
    if |s| >= |NodeModules| + 2 {
      VendorTestIff(s[1..]);
      if VendorTest(s) {
        VendorTestFindsMatch(s);
      }
      if exists i :: VendorMatchAt(s, i) {
        var i :| VendorMatchAt(s, i);
        VendorMatchPasses(s, i);
      }
    }
  }

  /** A successful first step of the search, or a match in the tail, is a match in `s`. */
  lemma VendorTestFindsMatch(s: string)
    requires VendorTest(s)
    requires VendorTest(s[1..]) ==> exists i :: VendorMatchAt(s[1..], i)
    ensures exists i :: VendorMatchAt(s, i)
  {
    if IsSeparator(s[0]) && s[1..1 + |NodeModules|] == NodeModules && IsSeparator(s[1 + |NodeModules|]) {
      assert VendorMatchAt(s, 0);
    } else {
      var i :| VendorMatchAt(s[1..], i);
      VendorMatchShift(s, i);
    }
  }

  /** A match in the tail `s[1..]` at `i` is a match in `s` at `i + 1`. */
  lemma VendorMatchShift(s: string, i: int)
    requires |s| > 0 && VendorMatchAt(s[1..], i)
    ensures VendorMatchAt(s, i + 1)
  {
    assert s[1..][i + 1..i + 1 + |NodeModules|] == s[i + 2..i + 2 + |NodeModules|];
  }

  /** A match at `i > 0` in `s` is a match at `i - 1` in the tail `s[1..]`. */
  lemma VendorMatchUnshift(s: string, i: int)
    requires i > 0 && VendorMatchAt(s, i)
    ensures VendorMatchAt(s[1..], i - 1)
  {
    assert s[1..][i..i + |NodeModules|] == s[i + 1..i + 1 + |NodeModules|];
  }

  /** A match anywhere makes the search succeed, given that it does for the tail. */
  lemma VendorMatchPasses(s: string, i: int)
    requires VendorMatchAt(s, i)
    requires (exists j :: VendorMatchAt(s[1..], j)) ==> VendorTest(s[1..])
    ensures VendorTest(s)
  {
    if i > 0 {
      VendorMatchUnshift(s, i);
    }
  }

  /** Any path with a separator on both sides of `node_modules` is a vendor path. */
  lemma VendorSegment(a: string, c1: char, c2: char, b: string)
    requires IsSeparator(c1) && IsSeparator(c2)
    ensures VendorTest(a + [c1] + NodeModules + [c2] + b)
  {
    var seg := [c1] + NodeModules + [c2];
    var s := a + seg + b;
    assert s == a + [c1] + NodeModules + [c2] + b;
    OccursInConcat(a, seg, b);
    OccursAtSlice(s, seg, |a|, 1, 1 + |NodeModules|);
    assert seg[1..1 + |NodeModules|] == NodeModules;
    assert s[|a|] == s[|a|..|a| + |seg|][0];
    assert s[|a| + 1 + |NodeModules|] == s[|a|..|a| + |seg|][1 + |NodeModules|];
    assert VendorMatchAt(s, |a|);
    VendorTestIff(s);
  }

  /**
   * The `react` cache group's `test(module)`: `module.resource` must be
   * present and non-empty and contain `node_modules/react`. `None` stands
   * for a module without a resource.
   */
  predicate ReactTest(resource: Option<string>) {
    resource.Some? && resource.value != "" && Includes(resource.value, ReactMarker)
  }

  /** The non-empty guard adds nothing: it is a plain substring test. */
  lemma ReactTestIff(resource: Option<string>)
    ensures ReactTest(resource) <==> resource.Some? && exists i :: OccursAt(resource.value, ReactMarker, i)
  {
    if resource.Some? {
      IncludesIff(resource.value, ReactMarker);
      if Includes(resource.value, ReactMarker) {
        var i :| OccursAt(resource.value, ReactMarker, i);
        assert |resource.value| >= |ReactMarker|;
      }
    }
  }

  /** Being a substring test, it also claims `react-dom` and other `react*` packages. */
  lemma ReactClaimsReactDom(s: string)
    requires Includes(s, "node_modules/react-dom")
    ensures ReactTest(Some(s))
  {
    assert OccursAt("node_modules/react-dom", ReactMarker, 0);
    IncludesInfix(s, "node_modules/react-dom", ReactMarker, 0);
  }

  /** A path with no forward slash, such as a Windows path, never matches `react`. */
  lemma ReactMissesBackslashPaths(s: string)
    requires '/' !in s
    ensures !ReactTest(Some(s))
  {
    assert ReactMarker[12] == '/';
    MissingCharExcludes(s, ReactMarker, '/');
  }

  /**
   * The `vendor` test accepts both separators, so a backslash-separated
   * path under `node_modules` is a vendor path that `react` never claims.
   */
  lemma BackslashPathsSplit(a: string, b: string)
    requires '/' !in a && '/' !in b
    ensures VendorTest(a + ['\\'] + NodeModules + ['\\'] + b)
    ensures !ReactTest(Some(a + ['\\'] + NodeModules + ['\\'] + b))
  {
    VendorSegment(a, '\\', '\\', b);
    ReactMissesBackslashPaths(a + ['\\'] + NodeModules + ['\\'] + b);
  }

  /**
   * Every resource the `react` group claims where a separator precedes
   * `node_modules` is also claimed by the `vendor` group.
   */
  lemma ReactWithLeadingSeparatorIsVendor(s: string, c: char)
    requires IsSeparator(c)
    requires Includes(s, [c] + ReactMarker)
    ensures ReactTest(Some(s))
    ensures VendorTest(s)
  {
    var big := [c] + ReactMarker;
    assert OccursAt(big, ReactMarker, 1);
    IncludesInfix(s, big, ReactMarker, 1);
    IncludesOccurs(s, big);
    var i :| OccursAt(s, big, i);
    SeparatedReactIsVendorMatch(s, c, i);
    VendorTestIff(s);
  }

  /** A separator followed by `node_modules/react` is a vendor match where it starts. */
  lemma SeparatedReactIsVendorMatch(s: string, c: char, i: int)
    requires IsSeparator(c)
    requires OccursAt(s, [c] + ReactMarker, i)
    ensures VendorMatchAt(s, i)
  {
    var big := [c] + ReactMarker;
    OccursAtSlice(s, big, i, 1, 1 + |NodeModules|);
    assert s[i] == s[i..i + |big|][0];
    assert s[i + 1 + |NodeModules|] == s[i..i + |big|][1 + |NodeModules|];
  }

  /** Without a separator in front, `react` claims a path that `vendor` does not. */
  lemma ReactWithoutLeadingSeparatorIsNotVendor()
    ensures ReactTest(Some("node_modules/react"))
    ensures !VendorTest("node_modules/react")
  {
    var s := "node_modules/react";
    assert OccursAt(s, ReactMarker, 0);
    OccursAtIncludes(s, ReactMarker, 0);
    VendorTestIff(s);
    forall i
      ensures !VendorMatchAt(s, i)
    {
      if 0 <= i < |s| - |NodeModules| - 1 {
        assert s[i] == s[..5][i] && s[..5] == "node_";
      }
    }
  }

  /**
   * The compression plugin's test `/\.js$|\.json$|\.css/`: a name ending in
   * `.js` or `.json`, or containing `.css` anywhere.
   */
  predicate CompressionTest(name: string) {
    EndsWith(name, ".js") || EndsWith(name, ".json") || Includes(name, ".css")
  }

  /**
   * Source maps: the `.css` alternative is not anchored, so a map is
   * compressed exactly when its name contains `.css`.
   */
  lemma SourceMapCompressedIffCss(stem: string)
    ensures CompressionTest(stem + ".map") <==> Includes(stem + ".map", ".css")
  {
    var s := stem + ".map";
    assert s[|s| - 1] == 'p';
  }

  /** `a.css.map` is compressed, `a.js.map` is not. */
  lemma CompressionOfMaps()
    ensures CompressionTest("a.css.map")
    ensures !CompressionTest("a.js.map")
  {
    CssMapCompressed();
    JsMapNotCompressed();
  }

  /** `a.css.map` is compressed through the unanchored `.css` alternative. */
  lemma CssMapCompressed()
    ensures CompressionTest("a.css.map")
  {
    assert "a.css.map" == "a" + ".css" + ".map";
    OccursInConcat("a", ".css", ".map");
  }

  /** `a.js.map` has no `c`, so only the anchored alternatives could apply, and they do not. */
  lemma JsMapNotCompressed()
    ensures !CompressionTest("a.js.map")
  {
    SourceMapCompressedIffCss("a.js");
    MissingCharExcludes("a.js.map", ".css", 'c');
  }

  /** The minifier's test `/\.(tsx?|jsx?)$/`. */
  predicate TerserTest(name: string) {
    EndsWith(name, ".ts") || EndsWith(name, ".tsx") || EndsWith(name, ".js") || EndsWith(name, ".jsx")
  }

  /** The extensions the minifier's test accepts after the final `.`. */
  const TerserExtensions: set<string> := {"ts", "tsx", "js", "jsx"}

  /** `name` is `stem`, a dot, then `ext`. */
  predicate SplitsAs(name: string, stem: string, ext: string) {
    name == stem + "." + ext
  }

  /**
   * The anchored test `/\.(tsx?|jsx?)$/` holds exactly when the name is
   * some stem, a dot and one of `ts`, `tsx`, `js`, `jsx`.
   */
  lemma TerserTestIff(name: string)
    ensures TerserTest(name) <==> exists stem, ext :: ext in TerserExtensions && SplitsAs(name, stem, ext)
  {
    if TerserTest(name) {
      TerserTestSplits(name);
    }
    if exists stem, ext :: ext in TerserExtensions && SplitsAs(name, stem, ext) {
      var stem, ext :| ext in TerserExtensions && SplitsAs(name, stem, ext);
      SplitsPassTerserTest(name, stem, ext);
    }
  }

  /** A name ending in a dot and `ext` splits as its stem, the dot and `ext`. */
  lemma DotExtensionSplits(name: string, ext: string)
    requires EndsWith(name, "." + ext)
    ensures SplitsAs(name, name[..|name| - |ext| - 1], ext)
  {
    EndsWithSplit(name, "." + ext);
    assert name[..|name| - |ext| - 1] + "." + ext == name[..|name| - |ext| - 1] + ("." + ext);
  }

  /** A name the test accepts splits into a stem and an accepted extension. */
  lemma TerserTestSplits(name: string)
    requires TerserTest(name)
    ensures exists stem, ext :: ext in TerserExtensions && SplitsAs(name, stem, ext)
  {
    if EndsWith(name, ".ts") {
      TsSplits(name);
    } else if EndsWith(name, ".tsx") {
      TsxSplits(name);
    } else if EndsWith(name, ".js") {
      JsSplits(name);
    } else {
      JsxSplits(name);
    }
  }

  /** A name ending in `.ts` splits with extension `ts`. */
  lemma TsSplits(name: string)
    requires EndsWith(name, ".ts")
    ensures exists stem, ext :: ext in TerserExtensions && SplitsAs(name, stem, ext)
  {
    assert "." + "ts" == ".ts";
    DotExtensionSplits(name, "ts");
    assert "ts" in TerserExtensions;
  }

  /** A name ending in `.tsx` splits with extension `tsx`. */
  lemma TsxSplits(name: string)
    requires EndsWith(name, ".tsx")
    ensures exists stem, ext :: ext in TerserExtensions && SplitsAs(name, stem, ext)
  {
    assert "." + "tsx" == ".tsx";
    DotExtensionSplits(name, "tsx");
    assert "tsx" in TerserExtensions;
  }

  /** A name ending in `.js` splits with extension `js`. */
  lemma JsSplits(name: string)
    requires EndsWith(name, ".js")
    ensures exists stem, ext :: ext in TerserExtensions && SplitsAs(name, stem, ext)
  {
    assert "." + "js" == ".js";
    DotExtensionSplits(name, "js");
    assert "js" in TerserExtensions;
  }

  /** A name ending in `.jsx` splits with extension `jsx`. */
  lemma JsxSplits(name: string)
    requires EndsWith(name, ".jsx")
    ensures exists stem, ext :: ext in TerserExtensions && SplitsAs(name, stem, ext)
  {
    assert "." + "jsx" == ".jsx";
    DotExtensionSplits(name, "jsx");
    assert "jsx" in TerserExtensions;
  }

  /** A stem, a dot and an accepted extension pass the test. */
  lemma SplitsPassTerserTest(name: string, stem: string, ext: string)
    requires ext in TerserExtensions && SplitsAs(name, stem, ext)
    ensures TerserTest(name)
  {
    assert name == stem + ("." + ext);
    EndsWithConcat(stem, "." + ext);
    if ext == "ts" {
      assert "." + ext == ".ts";
    } else if ext == "tsx" {
      assert "." + ext == ".tsx";
    } else if ext == "js" {
      assert "." + ext == ".js";
    } else {
      assert "." + ext == ".jsx";
    }
  }

  /** The minifier's exclude pattern `/node_module/`. */
  predicate TerserExclude(name: string) {
    Includes(name, TerserExcludeMarker)
  }

  /**
   * Every string the `vendor` test accepts also matches the minifier's
   * `/node_module/` pattern. This relates two string predicates only: the
   * minifier matches its patterns against emitted asset names, not module
   * resources.
   */
  lemma VendorIsTerserExcluded(s: string)
    requires VendorTest(s)
    ensures TerserExclude(s)
  {
    VendorTestIff(s);
    var i :| VendorMatchAt(s, i);
    assert s[i + 1..i + 1 + |TerserExcludeMarker|] == NodeModules[..|TerserExcludeMarker|];
    OccursAtIncludes(s, TerserExcludeMarker, i + 1);
  }

  /**
   * Every resource the `react` test accepts also matches the minifier's
   * `/node_module/` pattern, as a string; see `VendorIsTerserExcluded`.
   */
  lemma ReactIsTerserExcluded(resource: Option<string>)
    requires ReactTest(resource)
    ensures TerserExclude(resource.value)
  {
    assert OccursAt(ReactMarker, TerserExcludeMarker, 0);
    IncludesInfix(resource.value, ReactMarker, TerserExcludeMarker, 0);
  }

  /**
   * A small observation: a name the minifier's test accepts never ends in
   * `.json`, so compression takes it exactly when it ends in `.js` or
   * contains `.css`.
   */
  lemma TerserNamesCompressed(name: string)
    requires TerserTest(name)
    ensures CompressionTest(name) <==> EndsWith(name, ".js") || Includes(name, ".css")
  {
  }
}
