/**
 * Boundary cases of the pattern matcher, each proved from the general
 * rules.  Facts about the literal strings themselves are kept in lemmas of
 * their own, apart from the matching goals.
 */
module MatcherExamples {
  import opened JsString
  import opened PatternMatcher

  lemma RootWildcardExampleText()
    ensures IsTrimmed("*." + "example.com") && !EndsWith("*." + "example.com", ".*")
    ensures "*." + "example.com" == "*.example.com"
    ensures "not" + "example.com" == "notexample.com"
    ensures "a" + "." + "example.com" == "a.example.com"
  {
  }

  /** `*.example.com` matches the root and its subdomains, but not a name that merely ends in the root's text. */
  lemma RootWildcardExamples()
    ensures PatternMatches("example.com", "*.example.com")
    ensures PatternMatches("a.example.com", "*.example.com")
    ensures !PatternMatches("notexample.com", "*.example.com")
  {
    RootWildcardExampleText();
    RootWildcardBoundary("not", "example.com");
    RootWildcardBoundary("a", "example.com");
  }

  lemma ExactExampleText()
    ensures IsTrimmed("example.com") && '*' !in "example.com"
    ensures EndsWith("shop.example.com", ".example.com")
    ensures IsTrimmed("Example.com") && '*' !in "Example.com" && "Example.com"[0] == 'E'
    ensures NoUpperAscii("example.com")
  {
  }

  /** A pattern without a star covers subdomains and is compared case-sensitively. */
  lemma ExactExamples()
    ensures PatternMatches("shop.example.com", "example.com")
    ensures !PatternMatches("example.com", "Example.com")
  {
    ExactExampleText();
    ExactRule("shop.example.com", "example.com");
    UppercasePatternNeverMatchesLowercaseHost("example.com", "Example.com", 0);
  }

  lemma StarStarComText()
    ensures IsTrimmed("*." + "*.com") && !EndsWith("*." + "*.com", ".*")
    ensures "*." + "*.com" == "*.*.com"
    ensures EndsWith("x.*.com", ".*.com")
    ensures "a.b.com" != "*.com" && !EndsWith("a.b.com", ".*.com")
  {
    assert "a.b.com"[1..] != ".*.com" by { assert "a.b.com"[2] == 'b'; }
  }

  /**
   * `*.*.com` starts with `*.` and does not end with `.*`, so it is a root
   * wildcard whose root is the text `*.com`, star included.
   */
  lemma StarStarComExamples()
    ensures PatternMatches("*.com", "*.*.com")
    ensures PatternMatches("x.*.com", "*.*.com")
    ensures !PatternMatches("a.b.com", "*.*.com")
  {
    StarStarComText();
    RootWildcardRule("*.com", "*.com");
    RootWildcardRule("x.*.com", "*.com");
    RootWildcardRule("a.b.com", "*.com");
  }

  lemma GlobExampleText()
    ensures IsTrimmed("*.example.*") && '*' in "*.example.*" && EndsWith("*.example.*", ".*")
    ensures "*.example.*" == "*" + ".example." + "*" && '*' !in ".example."
  {
  }

  /** A found occurrence starts with a character equal, up to case, to the first of the literal. */
  lemma OccursAtFirst(lit: string, host: string, k: int)
    requires OccursAt(lit, host, k) && lit != []
    ensures 0 <= k < |host| && Fold(host[k]) == Fold(lit[0])
  {
    assert host[k..k + |lit|][0] == host[k];
  }

  lemma GlobExampleMatchesFirst()
    ensures PatternMatches("a.example.org", "*.example.*")
  {
    GlobExampleText();
    var h := "a.example.org";
    assert h[1..10] == ".example." && NoLineTerminator(h[..1]) && NoLineTerminator(h[10..]);
    assert OccursAt(".example.", h, 1);
    StarLiteralStarRule(".example.", h);
    GlobRule(h, "*.example.*");
  }

  lemma GlobExampleMatchesSecond()
    ensures PatternMatches("A.Example.NET", "*.example.*")
  {
    GlobExampleText();
    var h := "A.Example.NET";
    assert SameUpToCase(h[1..10], ".example.") && NoLineTerminator(h[..1]) && NoLineTerminator(h[10..]);
    assert OccursAt(".example.", h, 1);
    StarLiteralStarRule(".example.", h);
    GlobRule(h, "*.example.*");
  }

  /** `*.example.*` ends with `.*`, so it is a glob: some word, `.example.`, some word, in any case. */
  lemma GlobExampleMatches()
    ensures PatternMatches("a.example.org", "*.example.*")
    ensures PatternMatches("A.Example.NET", "*.example.*")
  {
    GlobExampleMatchesFirst();
    GlobExampleMatchesSecond();
  }

  /** A literal cannot occur where no position of the host starts with its first character, up to case. */
  lemma NoOccurrenceWithoutFirst(lit: string, host: string)
    requires lit != []
    requires forall k :: 0 <= k < |host| ==> Fold(host[k]) != Fold(lit[0]) || k + |lit| > |host|
    ensures forall k :: !OccursAt(lit, host, k)
  {
    forall k | OccursAt(lit, host, k) ensures false {
      OccursAtFirst(lit, host, k);
    }
  }

  lemma GlobExampleMissesShort()
    ensures !PatternMatches("a.example", "*.example.*")
  {
    GlobExampleText();
    NoOccurrenceWithoutFirst(".example.", "a.example");
    StarLiteralStarRule(".example.", "a.example");
    GlobRule("a.example", "*.example.*");
  }

  lemma GlobExampleMissesNoDot()
    ensures !PatternMatches("example.org", "*.example.*")
  {
    GlobExampleText();
    NoOccurrenceWithoutFirst(".example.", "example.org");
    StarLiteralStarRule(".example.", "example.org");
    GlobRule("example.org", "*.example.*");
  }

  /** The literal dots of `*.example.*` must be there: neither `a.example` nor `example.org` matches. */
  lemma GlobExampleMisses()
    ensures !PatternMatches("a.example", "*.example.*")
    ensures !PatternMatches("example.org", "*.example.*")
  {
    GlobExampleMissesShort();
    GlobExampleMissesNoDot();
  }
}
