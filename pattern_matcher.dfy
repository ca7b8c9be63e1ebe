/**
 * The domain-pattern matcher of the background worker: does a navigated URL
 * fall under one of the user's patterns?  The URL parser is a parameter
 * `parseHost` giving the URL's hostname, or None when the URL does not parse.
 */
module PatternMatcher {
  import opened Wrappers
  import opened JsString

  /** ASCII case folding: what the regular-expression flag `i` identifies, on ASCII. */
  function Fold(c: char): char {
    if 'A' <= c <= 'Z' then (c as int - 'A' as int + 'a' as int) as char else c
  }

  /** Characters that folding sends to the same place are line terminators together or not at all. */
  lemma FoldKeepsLineTerminators(c: char, d: char)
    requires Fold(c) == Fold(d)
    ensures IsLineTerminator(c) <==> IsLineTerminator(d)
  {
  }

  /**
   * Whether all of `host` matches the glob `g`, that is the expression
   * `^…$` with flag `i` made by escaping each `.` and turning each `*` into
   * `.*`: a `*` takes any run of characters other than line terminators,
   * every other character stands for itself up to ASCII case.
   */
  predicate GlobMatch(g: string, host: string)
    decreases |g| + |host|
  {
    if g == [] then host == []
    else if g[0] == '*' then
      GlobMatch(g[1..], host) || (host != [] && !IsLineTerminator(host[0]) && GlobMatch(g, host[1..]))
    else
      host != [] && Fold(g[0]) == Fold(host[0]) && GlobMatch(g[1..], host[1..])
  }

  // ---------------------------------------------------------------------
  // Reference meaning of a glob: fill each star with a word.
  // ---------------------------------------------------------------------

  function StarCount(g: string): nat {
    if g == [] then 0 else (if g[0] == '*' then 1 else 0) + StarCount(g[1..])
  }

  lemma {:induction false} StarCountCountsStars(g: string)
    ensures StarCount(g) == 0 <==> '*' !in g
  {
    if g != [] {
      StarCountCountsStars(g[1..]);
      assert g == [g[0]] + g[1..];
    }
  }

  /** `g` with its i-th `*` replaced by `fill[i]`. */
  function Expand(g: string, fill: seq<string>): string
    requires |fill| == StarCount(g)
  {
    if g == [] then []
    else if g[0] == '*' then fill[0] + Expand(g[1..], fill[1..])
    else [g[0]] + Expand(g[1..], fill)
  }

  predicate NoLineTerminator(s: string) {
    forall i :: 0 <= i < |s| ==> !IsLineTerminator(s[i])
  }

  /** One word per star, none holding a line terminator. */
  predicate ValidFill(g: string, fill: seq<string>) {
    |fill| == StarCount(g) && forall i :: 0 <= i < |fill| ==> NoLineTerminator(fill[i])
  }

  predicate SameUpToCase(a: string, b: string) {
    |a| == |b| && forall i :: 0 <= i < |a| ==> Fold(a[i]) == Fold(b[i])
  }

  /** `host` is, up to ASCII case, `g` with every star replaced by some word. */
  ghost predicate GlobInstance(g: string, host: string) {
    exists fill :: ValidFill(g, fill) && SameUpToCase(Expand(g, fill), host)
  }

  lemma {:induction false} StarCountAppend(a: string, b: string)
    ensures StarCount(a + b) == StarCount(a) + StarCount(b)
  {
    if a != [] {
      assert (a + b)[1..] == a[1..] + b;
      StarCountAppend(a[1..], b);
    } else {
      assert a + b == b;
    }
  }

  /** Filling the stars of a concatenation fills each part with its own words. */
  lemma {:induction false} ExpandAppend(a: string, b: string, fa: seq<string>, fb: seq<string>)
    requires |fa| == StarCount(a) && |fb| == StarCount(b)
    ensures StarCount(a + b) == |fa + fb|
    ensures Expand(a + b, fa + fb) == Expand(a, fa) + Expand(b, fb)
  {
    StarCountAppend(a, b);
    if a == [] {
      assert a + b == b && fa + fb == fb;
    } else {
      assert (a + b)[1..] == a[1..] + b;
      if a[0] == '*' {
        assert (fa + fb)[1..] == fa[1..] + fb;
        ExpandAppend(a[1..], b, fa[1..], fb);
      } else {
        ExpandAppend(a[1..], b, fa, fb);
      }
    }
  }

  /** A star-free glob is its own only instance. */
  lemma {:induction false} ExpandLiteral(a: string)
    requires '*' !in a
    ensures StarCount(a) == 0 && Expand(a, []) == a
  {
    if a != [] {
      assert '*' !in a[1..] by { assert forall i :: 0 <= i < |a[1..]| ==> a[1..][i] == a[i + 1]; }
      ExpandLiteral(a[1..]);
    }
  }

  /** Filling the two stars of `*` + lit + `*`. */
  lemma ExpandStarLiteralStar(lit: string, f0: string, f1: string)
    requires '*' !in lit
    ensures StarCount("*" + lit + "*") == 2
    ensures Expand("*" + lit + "*", [f0, f1]) == f0 + lit + f1
  {
    ExpandLiteral(lit);
    ExpandAppend("*", lit, [f0], []);
    assert [f0] + [] == [f0];
    ExpandAppend("*" + lit, "*", [f0], [f1]);
    assert Expand("*", [f0]) == f0 + Expand("", []);
    assert Expand("*", [f1]) == f1 + Expand("", []);
  }

  /** A star may swallow any word free of line terminators. */
  lemma {:induction false} StarAbsorbs(g: string, w: string, x: string)
    requires g != [] && g[0] == '*'
    requires NoLineTerminator(w)
    requires GlobMatch(g[1..], x)
    ensures GlobMatch(g, w + x)
    decreases |w|
  {
    if w == [] {
      assert w + x == x;
    } else {
      StarAbsorbs(g, w[1..], x);
      assert (w + x)[1..] == w[1..] + x;
    }
  }

  /** Every instance of a glob matches it. */
  lemma {:induction false} GlobComplete(g: string, fill: seq<string>, host: string)
    requires ValidFill(g, fill)
    requires SameUpToCase(Expand(g, fill), host)
    ensures GlobMatch(g, host)
    decreases |g|
  {
    if g == [] {
    } else if g[0] == '*' {
      var e := Expand(g[1..], fill[1..]);
      var k := |fill[0]|;
      assert Expand(g, fill) == fill[0] + e;
      assert SameUpToCase(e, host[k..]) by {
        forall i | 0 <= i < |e| ensures Fold(e[i]) == Fold(host[k..][i]) {
          assert (fill[0] + e)[k + i] == e[i];
        }
      }
      assert ValidFill(g[1..], fill[1..]) by {
        forall i | 0 <= i < |fill[1..]| ensures NoLineTerminator(fill[1..][i]) {
          assert fill[1..][i] == fill[i + 1];
        }
      }
      GlobComplete(g[1..], fill[1..], host[k..]);
      assert NoLineTerminator(host[..k]) by {
        forall i | 0 <= i < k ensures !IsLineTerminator(host[..k][i]) {
          assert (fill[0] + e)[i] == fill[0][i];
          FoldKeepsLineTerminators(fill[0][i], host[i]);
        }
      }
      StarAbsorbs(g, host[..k], host[k..]);
      assert host[..k] + host[k..] == host;
    } else {
      var e := Expand(g[1..], fill);
      assert Expand(g, fill) == [g[0]] + e;
      assert SameUpToCase(e, host[1..]) by {
        forall i | 0 <= i < |e| ensures Fold(e[i]) == Fold(host[1..][i]) {
          assert ([g[0]] + e)[i + 1] == e[i];
        }
      }
      GlobComplete(g[1..], fill, host[1..]);
    }
  }

  /** Every host a glob matches is one of its instances. */
  lemma {:induction false} GlobSound(g: string, host: string)
    requires GlobMatch(g, host)
    ensures GlobInstance(g, host)
    decreases |g| + |host|
  {
    if g == [] {
      assert ValidFill(g, []) && SameUpToCase(Expand(g, []), host);
    } else if g[0] == '*' {
      if GlobMatch(g[1..], host) {
        GlobSound(g[1..], host);
        var f :| ValidFill(g[1..], f) && SameUpToCase(Expand(g[1..], f), host);
        var fill := [[]] + f;
        assert fill[1..] == f;
        assert Expand(g, fill) == Expand(g[1..], f);
        assert ValidFill(g, fill) && SameUpToCase(Expand(g, fill), host);
      } else {
        GlobSound(g, host[1..]);
        var f :| ValidFill(g, f) && SameUpToCase(Expand(g, f), host[1..]);
        var fill := [[host[0]] + f[0]] + f[1..];
        assert fill[1..] == f[1..];
        var rest := Expand(g[1..], f[1..]);
        assert Expand(g, f) == f[0] + rest;
        assert Expand(g, fill) == [host[0]] + (f[0] + rest);
        assert ValidFill(g, fill) by {
          forall i | 0 <= i < |fill| ensures NoLineTerminator(fill[i]) {
            if i == 0 {
              forall j | 0 <= j < |fill[0]| ensures !IsLineTerminator(fill[0][j]) {
                if j > 0 { assert fill[0][j] == f[0][j - 1]; }
              }
            } else {
              assert fill[i] == f[i];
            }
          }
        }
        assert SameUpToCase(Expand(g, fill), host) by {
          forall i | 0 <= i < |host| ensures Fold(Expand(g, fill)[i]) == Fold(host[i]) {
            if i > 0 { assert Expand(g, fill)[i] == Expand(g, f)[i - 1]; }
          }
        }
      }
    } else {
      GlobSound(g[1..], host[1..]);
      var f :| ValidFill(g[1..], f) && SameUpToCase(Expand(g[1..], f), host[1..]);
      assert Expand(g, f) == [g[0]] + Expand(g[1..], f);
      assert ValidFill(g, f) && SameUpToCase(Expand(g, f), host) by {
        forall i | 0 <= i < |host| ensures Fold(Expand(g, f)[i]) == Fold(host[i]) {
          if i > 0 { assert Expand(g, f)[i] == Expand(g[1..], f)[i - 1]; }
        }
      }
    }
  }

  /** lit occurs in host at k, up to case, and the characters around it are not line terminators. */
  predicate OccursAt(lit: string, host: string, k: int)
  {
    0 <= k <= |host| - |lit| && SameUpToCase(host[k..k + |lit|], lit)
    && NoLineTerminator(host[..k]) && NoLineTerminator(host[k + |lit|..])
  }

  /** Case-insensitive equality with a three-part word pins down where its middle part sits. */
  lemma SameUpToCaseMiddle(a: string, lit: string, b: string, host: string)
    requires SameUpToCase(a + lit + b, host)
    requires NoLineTerminator(a) && NoLineTerminator(b)
    ensures OccursAt(lit, host, |a|)
  {
    var e := a + lit + b;
    var k := |a|;
    forall i | 0 <= i < |lit| ensures Fold(host[k..k + |lit|][i]) == Fold(lit[i]) {
      assert e[k + i] == lit[i];
    }
    forall i | 0 <= i < k ensures !IsLineTerminator(host[..k][i]) {
      assert e[i] == a[i];
      FoldKeepsLineTerminators(e[i], host[i]);
    }
    var rest := host[k + |lit|..];
    forall i | 0 <= i < |rest| ensures !IsLineTerminator(rest[i]) {
      assert e[k + |lit| + i] == b[i];
      FoldKeepsLineTerminators(e[k + |lit| + i], host[k + |lit| + i]);
    }
  }

  lemma StarLiteralStarSound(lit: string, host: string) returns (k: int)
    requires '*' !in lit
    requires GlobMatch("*" + lit + "*", host)
    ensures OccursAt(lit, host, k)
  {
    var g := "*" + lit + "*";
    GlobSound(g, host);
    var fill :| ValidFill(g, fill) && SameUpToCase(Expand(g, fill), host);
    ExpandStarLiteralStar(lit, [], []);
    assert fill == [fill[0], fill[1]];
    ExpandStarLiteralStar(lit, fill[0], fill[1]);
    assert NoLineTerminator(fill[0]) && NoLineTerminator(fill[1]);
    SameUpToCaseMiddle(fill[0], lit, fill[1], host);
    k := |fill[0]|;
  }

  lemma StarLiteralStarComplete(lit: string, host: string, k: int)
    requires '*' !in lit
    requires OccursAt(lit, host, k)
    ensures GlobMatch("*" + lit + "*", host)
  {
    var g := "*" + lit + "*";
    var fill := [host[..k], host[k + |lit|..]];
    ExpandStarLiteralStar(lit, fill[0], fill[1]);
    assert ValidFill(g, fill);
    var e := Expand(g, fill);
    assert e == host[..k] + lit + host[k + |lit|..];
    forall i | 0 <= i < |host| ensures Fold(e[i]) == Fold(host[i]) {
      if k <= i < k + |lit| {
        assert e[i] == lit[i - k];
        assert host[k..k + |lit|][i - k] == host[i];
      }
    }
    GlobComplete(g, fill, host);
  }

  /** A glob `*` + lit + `*` asks whether lit occurs in the host, up to case, amid characters that are not line terminators. */
  lemma StarLiteralStarRule(lit: string, host: string)
    requires '*' !in lit
    ensures GlobMatch("*" + lit + "*", host) <==> exists k :: OccursAt(lit, host, k)
  {
    if GlobMatch("*" + lit + "*", host) {
      var k := StarLiteralStarSound(lit, host);
    }
    if k :| OccursAt(lit, host, k) {
      StarLiteralStarComplete(lit, host, k);
    }
  }

  /** The glob rule means: `*` is any (possibly empty) word, everything else literal up to case. */
  lemma GlobMatchMeaning(g: string, host: string)
    ensures GlobMatch(g, host) <==> GlobInstance(g, host)
  {
    if GlobMatch(g, host) {
      GlobSound(g, host);
    }
    if GlobInstance(g, host) {
      var fill :| ValidFill(g, fill) && SameUpToCase(Expand(g, fill), host);
      GlobComplete(g, fill, host);
    }
  }

  // ---------------------------------------------------------------------
  // One pattern, and the list of patterns.
  // ---------------------------------------------------------------------

  /**
   * One pattern against a hostname (the callback given to `patterns.some`):
   * the pattern is trimmed and a blank one never matches; a pattern without
   * `*` matches that domain and its subdomains, case-sensitively; a pattern
   * `*.R` that does not end in `.*` matches R and its subdomains; any other
   * pattern with a `*` is a glob over the whole hostname.
   */
  predicate PatternMatches(host: string, pattern: string) {
    TrimmedPatternMatches(host, Trim(pattern))
  }

  /** The three rules, applied to a pattern that is already trimmed. */
  predicate TrimmedPatternMatches(host: string, p: string) {
    if p == "" then false
    else if '*' in p then
      if StartsWith(p, "*.") && !EndsWith(p, ".*") then DomainOrSubdomain(host, p[2..])
      else GlobMatch(p, host)
    else DomainOrSubdomain(host, p)
  }

  /** `patterns.some(...)`: some pattern of the list matches. */
  function SomeMatches(host: string, patterns: seq<string>): (r: bool)
    ensures r <==> exists i :: 0 <= i < |patterns| && PatternMatches(host, patterns[i])
  {
    if patterns == [] then false
    else PatternMatches(host, patterns[0]) || SomeMatches(host, patterns[1..])
  }

  /**
   * `isUrlMatched(url, patterns)`: false for an empty URL, an empty list or
   * a URL that does not parse (the parse error is swallowed); otherwise
   * whether some pattern matches the URL's hostname.
   */
  function IsUrlMatched(parseHost: string -> Option<string>, url: string, patterns: seq<string>): (r: bool)
    ensures url == "" || patterns == [] || parseHost(url).None? ==> !r
    ensures r <==> url != "" && parseHost(url).Some?
                   && exists i :: 0 <= i < |patterns| && PatternMatches(parseHost(url).value, patterns[i])
  {
    if url == "" || |patterns| == 0 then false
    else
      match parseHost(url)
      case None => false
      case Some(host) => SomeMatches(host, patterns)
  }

  /** The same question asked of a set of patterns: no order, no repetition. */
  ghost predicate MatchedBySet(parseHost: string -> Option<string>, url: string, patterns: set<string>) {
    url != "" && parseHost(url).Some? && exists p :: p in patterns && PatternMatches(parseHost(url).value, p)
  }

  /** The answer depends only on which patterns the list holds, not on their order or repetitions. */
  lemma IsUrlMatchedDependsOnlyOnPatternSet(parseHost: string -> Option<string>, url: string, patterns: seq<string>)
    ensures IsUrlMatched(parseHost, url, patterns) == MatchedBySet(parseHost, url, set p | p in patterns)
  {
    if MatchedBySet(parseHost, url, set p | p in patterns) {
      var p :| p in patterns && PatternMatches(parseHost(url).value, p);
      var i :| 0 <= i < |patterns| && patterns[i] == p;
    }
  }

  /** Adding patterns can only turn a non-match into a match. */
  lemma IsUrlMatchedMonotone(parseHost: string -> Option<string>, url: string, patterns: seq<string>, more: seq<string>)
    requires forall p :: p in patterns ==> p in more
    requires IsUrlMatched(parseHost, url, patterns)
    ensures IsUrlMatched(parseHost, url, more)
  {
    IsUrlMatchedDependsOnlyOnPatternSet(parseHost, url, patterns);
    IsUrlMatchedDependsOnlyOnPatternSet(parseHost, url, more);
  }

  // ---------------------------------------------------------------------
  // The three rules, each stated on its own.
  // ---------------------------------------------------------------------

  /** Surrounding whitespace of a pattern is ignored, and a blank pattern matches nothing. */
  lemma PatternIsTrimmedFirst(host: string, pattern: string)
    ensures PatternMatches(host, pattern) == PatternMatches(host, Trim(pattern))
    ensures AllWhitespace(pattern) ==> !PatternMatches(host, pattern)
  {
    var t := Trim(pattern);
    TrimIdempotent(pattern);
    assert PatternMatches(host, t) == TrimmedPatternMatches(host, t);
    if AllWhitespace(pattern) {
      assert t == [];
    }
  }

  /** A pattern without `*` matches the host itself or any subdomain of it, case-sensitively. */
  lemma ExactRule(host: string, pattern: string)
    requires IsTrimmed(pattern) && pattern != "" && '*' !in pattern
    ensures PatternMatches(host, pattern) <==> host == pattern || EndsWith(host, "." + pattern)
  {
  }

  /** `*.R` (not ending in `.*`) matches R itself and any subdomain of R. */
  lemma RootWildcardRule(host: string, root: string)
    requires IsTrimmed("*." + root) && !EndsWith("*." + root, ".*")
    ensures PatternMatches(host, "*." + root) <==> host == root || EndsWith(host, "." + root)
  {
    var p := "*." + root;
    assert '*' in p && StartsWith(p, "*.") && p[2..] == root;
  }

  /**
   * The boundary of a root wildcard: `*.R` matches R and any name, a dot,
   * then R, but not a name that merely ends in the text of R.
   */
  lemma {:induction false} RootWildcardBoundary(x: string, root: string)
    requires IsTrimmed("*." + root) && !EndsWith("*." + root, ".*")
    requires x != [] && x[|x| - 1] != '.'
    ensures PatternMatches(root, "*." + root)
    ensures PatternMatches(x + "." + root, "*." + root)
    ensures !PatternMatches(x + root, "*." + root)
  {
    RootWildcardRule(root, root);
    RootWildcardRule(x + "." + root, root);
    RootWildcardRule(x + root, root);
    assert (x + "." + root)[|x|..] == "." + root;
    assert (x + root)[|x| - 1] != ("." + root)[0];
  }

  /** So `*.R` and the bare `R` match the same hosts when R holds no `*`. */
  lemma RootWildcardSameAsBareRoot(host: string, root: string)
    requires IsTrimmed(root) && root != "" && '*' !in root
    ensures PatternMatches(host, "*." + root) == PatternMatches(host, root)
  {
    var p := "*." + root;
    assert p[0] == '*' && p[|p| - 1] == root[|root| - 1];
    assert p[|p| - 1] != '*';
    RootWildcardRule(host, root);
    ExactRule(host, root);
  }

  /** Any other pattern with a star matches exactly the instances of its glob. */
  lemma GlobRule(host: string, pattern: string)
    requires IsTrimmed(pattern) && '*' in pattern
    requires !(StartsWith(pattern, "*.") && !EndsWith(pattern, ".*"))
    ensures PatternMatches(host, pattern) == GlobMatch(pattern, host)
    ensures PatternMatches(host, pattern) <==> GlobInstance(pattern, host)
  {
    GlobMatchMeaning(pattern, host);
  }

  predicate NoUpperAscii(s: string) {
    forall i :: 0 <= i < |s| ==> !('A' <= s[i] <= 'Z')
  }

  lemma NoUpperInSuffix(s: string, t: string)
    requires NoUpperAscii(s) && EndsWith(s, t)
    ensures NoUpperAscii(t)
  {
    assert forall i :: 0 <= i < |t| ==> t[i] == s[|s| - |t| + i];
  }

  /**
   * The exact and root-wildcard rules compare case-sensitively, so a pattern
   * under them that holds an upper-case ASCII letter matches no hostname
   * free of upper-case letters (and the URL parser lower-cases hostnames).
   */
  lemma UppercasePatternNeverMatchesLowercaseHost(host: string, pattern: string, i: nat)
    requires NoUpperAscii(host) && IsTrimmed(pattern)
    requires i < |pattern| && 'A' <= pattern[i] <= 'Z'
    requires '*' !in pattern || (StartsWith(pattern, "*.") && !EndsWith(pattern, ".*"))
    ensures !PatternMatches(host, pattern)
  {
    var d, j;
    if '*' in pattern {
      d, j := pattern[2..], i - 2;
      assert pattern == "*." + d;
      RootWildcardRule(host, d);
    } else {
      d, j := pattern, i;
      ExactRule(host, pattern);
    }
    assert 0 <= j < |d| && 'A' <= d[j] <= 'Z';
    assert ("." + d)[j + 1] == d[j];
    if EndsWith(host, "." + d) {
      NoUpperInSuffix(host, "." + d);
    }
  }

  /** The pattern `*` matches every hostname (hostnames hold no line terminators). */
  lemma StarMatchesEveryHost(host: string)
    requires NoLineTerminator(host)
    ensures PatternMatches(host, "*")
  {
    assert Trim("*") == "*";
    assert GlobMatch("*"[1..], []);
    StarAbsorbs("*", host, []);
    assert host + [] == host;
  }
}
