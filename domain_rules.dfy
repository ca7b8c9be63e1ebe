/**
 * The options page's rules over the configuration, with the page itself
 * stripped away: the validator for a typed-in domain, which entries the
 * list shows, the hidden flag, the address opened for a pattern, and the
 * check applied to a configuration imported as JSON text.
 */
module DomainRules {
  import opened Wrappers
  import opened JsString
  import opened JsonValue
  import opened Configuration
  import opened PatternMatcher

  // ---------------------------------------------------------------------
  // The domain validator
  // ---------------------------------------------------------------------

  /** The longest domain the validator accepts, in UTF-16 code units. */
  const MaxDomainLength: nat := 253

  datatype ValidationError = EmptyDomain | TooLong | BadFormat | ConsecutiveDots

  datatype Validation = Accepted(domain: string) | Rejected(error: ValidationError)

  predicate IsAlnum(c: char) {
    'a' <= c <= 'z' || 'A' <= c <= 'Z' || '0' <= c <= '9'
  }

  predicate IsLabelChar(c: char) {
    IsAlnum(c) || c == '-'
  }

  /** One label: ASCII letters, digits and hyphens, starting and ending with a letter or digit. */
  predicate IsLabel(s: string) {
    |s| > 0 && IsAlnum(s[0]) && IsAlnum(s[|s| - 1]) && forall i :: 0 <= i < |s| ==> IsLabelChar(s[i])
  }

  function FirstDot(s: string): (i: nat)
    requires '.' in s
    ensures i < |s| && s[i] == '.' && '.' !in s[..i]
  {
    if s[0] == '.' then 0 else 1 + FirstDot(s[1..])
  }

  /**
   * Labels joined by single dots, `(L\.)*L`: since a label holds no dot, a
   * dotted word splits at its first dot or not at all.
   */
  predicate IsLabelSequence(s: string)
    decreases |s|
  {
    if '.' in s then
      var i := FirstDot(s);
      IsLabel(s[..i]) && IsLabelSequence(s[i + 1..])
    else
      IsLabel(s)
  }

  /**
   * The validator's pattern: an optional `*.` prefix, dotted labels, an
   * optional `.*` suffix, anchored at both ends.
   */
  predicate MatchesDomainRegex(d: string) {
    || IsLabelSequence(d)
    || (StartsWith(d, "*.") && IsLabelSequence(d[2..]))
    || (EndsWith(d, ".*") && IsLabelSequence(d[..|d| - 2]))
    || (|d| >= 4 && StartsWith(d, "*.") && EndsWith(d, ".*") && IsLabelSequence(d[2..|d| - 2]))
  }

  /** The same language described character by character. */
  predicate DottedLabels(s: string) {
    && s != [] && IsAlnum(s[0]) && IsAlnum(s[|s| - 1])
    && (forall i :: 0 <= i < |s| ==> IsLabelChar(s[i]) || s[i] == '.')
    && (forall i :: 0 <= i < |s| - 1 ==> s[i] == '.' ==> IsAlnum(s[i + 1]))
    && (forall i :: 0 < i < |s| ==> s[i] == '.' ==> IsAlnum(s[i - 1]))
  }

  /** A label, a dot and dotted labels make dotted labels. */
  lemma JoinShape(head: string, tail: string)
    requires IsLabel(head) && DottedLabels(tail)
    ensures DottedLabels(head + ['.'] + tail)
  {
    var s := head + ['.'] + tail;
    var i := |head|;
    forall j | 0 <= j < |s| - 1 ensures s[j] == '.' ==> IsAlnum(s[j + 1]) {
      if j > i {
        assert s[j] == tail[j - i - 1] && s[j + 1] == tail[j - i];
      } else if j < i {
        assert s[j] == head[j];
      }
    }
    forall j | 0 < j < |s| ensures s[j] == '.' ==> IsAlnum(s[j - 1]) {
      if j > i + 1 {
        assert s[j] == tail[j - i - 1] && s[j - 1] == tail[j - i - 2];
      } else if j < i {
        assert s[j] == head[j];
      }
    }
    forall j | 0 <= j < |s| ensures IsLabelChar(s[j]) || s[j] == '.' {
      if j > i {
        assert s[j] == tail[j - i - 1];
      } else if j < i {
        assert s[j] == head[j];
      }
    }
  }

  lemma {:induction false} LabelSequenceHasShape(s: string)
    requires IsLabelSequence(s)
    ensures DottedLabels(s)
    decreases |s|
  {
    if '.' in s {
      var i := FirstDot(s);
      var head, tail := s[..i], s[i + 1..];
      LabelSequenceHasShape(tail);
      assert s == head + ['.'] + tail;
      JoinShape(head, tail);
    }
  }

  lemma {:induction false} ShapeIsLabelSequence(s: string)
    requires DottedLabels(s)
    ensures IsLabelSequence(s)
    decreases |s|
  {
    if '.' in s {
      var i := FirstDot(s);
      var head, tail := s[..i], s[i + 1..];
      assert i > 0;
      assert i < |s| - 1;
      assert IsLabel(head) by {
        forall j | 0 <= j < |head| ensures IsLabelChar(head[j]) {
          assert head[j] in s[..i];
        }
      }
      assert DottedLabels(tail) by {
        forall j | 0 <= j < |tail| ensures IsLabelChar(tail[j]) || tail[j] == '.' {
          assert tail[j] == s[i + 1 + j];
        }
        forall j | 0 <= j < |tail| - 1 ensures tail[j] == '.' ==> IsAlnum(tail[j + 1]) {
          assert tail[j] == s[i + 1 + j];
        }
        forall j | 0 < j < |tail| ensures tail[j] == '.' ==> IsAlnum(tail[j - 1]) {
          assert tail[j] == s[i + 1 + j];
        }
      }
      ShapeIsLabelSequence(tail);
    } else {
      forall j | 0 <= j < |s| ensures IsLabelChar(s[j]) {
        assert s[j] in s;
      }
    }
  }

  /** The recursive grammar and the character-level description agree. */
  lemma LabelSequenceMeaning(s: string)
    ensures IsLabelSequence(s) <==> DottedLabels(s)
  {
    if IsLabelSequence(s) {
      LabelSequenceHasShape(s);
    }
    if DottedLabels(s) {
      ShapeIsLabelSequence(s);
    }
  }

  /**
   * What an accepted domain looks like character by character: letters,
   * digits, hyphens, dots and stars only; no empty label; a star only as a
   * whole first or last label; a hyphen only inside a label.
   */
  predicate DomainShape(d: string) {
    && d != [] && d[0] != '.' && d[|d| - 1] != '.'
    && (forall i :: 0 <= i < |d| ==> IsLabelChar(d[i]) || d[i] == '.' || d[i] == '*')
    && !HasDoubleDot(d)
    && (forall i :: 0 <= i < |d| ==> d[i] == '*' ==> (i == 0 && StartsWith(d, "*.")) || (i == |d| - 1 && EndsWith(d, ".*")))
    && (forall i :: 0 <= i < |d| ==> d[i] == '-' ==> 0 < i < |d| - 1 && IsLabelChar(d[i - 1]) && IsLabelChar(d[i + 1]))
  }

  lemma WrappedAlphabet(p: string, c: string, q: string)
    requires p == "" || p == "*."
    requires q == "" || q == ".*"
    requires DottedLabels(c)
    ensures var d := p + c + q; d != [] && d[0] != '.' && d[|d| - 1] != '.'
    ensures var d := p + c + q; forall i :: 0 <= i < |d| ==> IsLabelChar(d[i]) || d[i] == '.' || d[i] == '*'
  {
    var d := p + c + q;
    var n := |p|;
    assert d[0] != '.' by {
      if p == "" { assert d[0] == c[0]; }
    }
    assert d[|d| - 1] != '.' by {
      if q == "" { assert d[|d| - 1] == c[|c| - 1]; }
    }
    forall i | 0 <= i < |d| ensures IsLabelChar(d[i]) || d[i] == '.' || d[i] == '*' {
      if n <= i < n + |c| {
        assert d[i] == c[i - n];
      } else if i < n {
        assert d[i] == p[i];
      } else {
        assert d[i] == q[i - n - |c|];
      }
    }
  }

  lemma WrappedNoDoubleDot(p: string, c: string, q: string)
    requires p == "" || p == "*."
    requires q == "" || q == ".*"
    requires DottedLabels(c)
    ensures !HasDoubleDot(p + c + q)
  {
    var d := p + c + q;
    var n := |p|;
    forall i | 0 <= i < |d| - 1 ensures !(d[i] == '.' && d[i + 1] == '.') {
      if n <= i < n + |c| - 1 {
        assert d[i] == c[i - n] && d[i + 1] == c[i - n + 1];
      } else if i == n - 1 {
        assert d[i + 1] == c[0];
      } else if i == n + |c| - 1 {
        assert d[i] == c[|c| - 1];
      } else if i < n {
        assert d[i] == p[i];
      } else {
        assert d[i] == q[i - n - |c|];
      }
    }
  }

  lemma WrappedStars(p: string, c: string, q: string)
    requires p == "" || p == "*."
    requires q == "" || q == ".*"
    requires DottedLabels(c)
    ensures var d := p + c + q;
              forall i :: 0 <= i < |d| ==> d[i] == '*' ==> (i == 0 && StartsWith(d, "*.")) || (i == |d| - 1 && EndsWith(d, ".*"))
  {
    var d := p + c + q;
    var n := |p|;
    forall i | 0 <= i < |d| && d[i] == '*'
      ensures (i == 0 && StartsWith(d, "*.")) || (i == |d| - 1 && EndsWith(d, ".*"))
    {
      if i < n {
        assert d[i] == p[i];
        assert i == 0 && d[..2] == p;
      } else if i >= n + |c| {
        assert d[i] == q[i - n - |c|];
        assert i == |d| - 1 && d[|d| - 2..] == q;
      }
    }
  }

  lemma WrappedHyphens(p: string, c: string, q: string)
    requires p == "" || p == "*."
    requires q == "" || q == ".*"
    requires DottedLabels(c)
    ensures var d := p + c + q;
              forall i :: 0 <= i < |d| ==> d[i] == '-' ==> 0 < i < |d| - 1 && IsLabelChar(d[i - 1]) && IsLabelChar(d[i + 1])
  {
    var d := p + c + q;
    var n := |p|;
    forall i | 0 <= i < |d| && d[i] == '-'
      ensures 0 < i < |d| - 1 && IsLabelChar(d[i - 1]) && IsLabelChar(d[i + 1])
    {
      var j := i - n;
      assert c[j] == '-' && d[i] == c[j];
      assert 0 < j < |c| - 1;
      assert d[i - 1] == c[j - 1] && d[i + 1] == c[j + 1];
    }
  }

  /** Dotted labels keep that shape behind an optional `*.` and before an optional `.*`. */
  lemma WrappedShape(p: string, c: string, q: string)
    requires p == "" || p == "*."
    requires q == "" || q == ".*"
    requires DottedLabels(c)
    ensures DomainShape(p + c + q)
  {
    WrappedAlphabet(p, c, q);
    WrappedNoDoubleDot(p, c, q);
    WrappedStars(p, c, q);
    WrappedHyphens(p, c, q);
  }

  lemma PlainShape(d: string)
    requires IsLabelSequence(d)
    ensures DomainShape(d)
  {
    LabelSequenceHasShape(d);
    assert d == "" + d + "";
    WrappedShape("", d, "");
  }

  lemma PrefixedShape(d: string)
    requires StartsWith(d, "*.") && IsLabelSequence(d[2..])
    ensures DomainShape(d)
  {
    LabelSequenceHasShape(d[2..]);
    assert d == "*." + d[2..] + "";
    WrappedShape("*.", d[2..], "");
  }

  lemma SuffixedShape(d: string)
    requires EndsWith(d, ".*") && IsLabelSequence(d[..|d| - 2])
    ensures DomainShape(d)
  {
    LabelSequenceHasShape(d[..|d| - 2]);
    assert d == "" + d[..|d| - 2] + ".*";
    WrappedShape("", d[..|d| - 2], ".*");
  }

  lemma BothWildcardsShape(d: string)
    requires |d| >= 4 && StartsWith(d, "*.") && EndsWith(d, ".*") && IsLabelSequence(d[2..|d| - 2])
    ensures DomainShape(d)
  {
    LabelSequenceHasShape(d[2..|d| - 2]);
    assert d == "*." + d[2..|d| - 2] + ".*";
    WrappedShape("*.", d[2..|d| - 2], ".*");
  }

  /** Every word the validator's pattern accepts has the shape above. */
  lemma RegexShape(d: string)
    requires MatchesDomainRegex(d)
    ensures DomainShape(d)
  {
    if IsLabelSequence(d) {
      PlainShape(d);
    } else if StartsWith(d, "*.") && IsLabelSequence(d[2..]) {
      PrefixedShape(d);
    } else if EndsWith(d, ".*") && IsLabelSequence(d[..|d| - 2]) {
      SuffixedShape(d);
    } else {
      BothWildcardsShape(d);
    }
  }

  /** The checks after the pattern never reject a word the pattern accepts. */
  lemma RegexPassesLaterChecks(d: string)
    requires MatchesDomainRegex(d)
    ensures !HasDoubleDot(d)
    ensures !StartsWith(d, ".") && !EndsWith(d, ".")
  {
    RegexShape(d);
    assert d[..1] == [d[0]];
    assert d[|d| - 1..] == [d[|d| - 1]];
  }

  /**
   * Checks a typed-in domain: it must be a non-empty string, trimmed to at
   * most 253 code units, and match the validator's pattern; the checks for
   * double dots and for a leading or trailing dot that follow never fire.
   */
  function ValidateDomain(input: Json): (r: Validation)
    ensures !input.JString? ==> r == Rejected(EmptyDomain)
    ensures r.Accepted? ==> input.JString? && r.domain == Trim(input.s)
    ensures r.Accepted? ==> 0 < |r.domain| <= MaxDomainLength && MatchesDomainRegex(r.domain)
  {
    if !input.JString? || input.s == "" then Rejected(EmptyDomain)
    else
      var d := Trim(input.s);
      if d == "" then Rejected(EmptyDomain)
      else if Utf16Length(d) > MaxDomainLength then Rejected(TooLong)
      else if !MatchesDomainRegex(d) then Rejected(BadFormat)
      else if HasDoubleDot(d) then Rejected(ConsecutiveDots)
      else if StartsWith(d, ".") && !StartsWith(d, "*.") then Rejected(BadFormat)
      else if EndsWith(d, ".") && !EndsWith(d, ".*") then Rejected(BadFormat)
      else Accepted(d)
  }

  /**
   * Exactly the strings whose trimmed form is non-empty, short enough and
   * matches the pattern are accepted: the later checks are implied by the
   * pattern, so `ConsecutiveDots` is never reported.
   */
  lemma ValidateDomainAccepts(input: Json)
    ensures ValidateDomain(input).Accepted? <==>
              input.JString? && Trim(input.s) != "" && Utf16Length(Trim(input.s)) <= MaxDomainLength
              && MatchesDomainRegex(Trim(input.s))
    ensures ValidateDomain(input) == Rejected(EmptyDomain) <==> !input.JString? || AllWhitespace(input.s)
    ensures ValidateDomain(input) != Rejected(ConsecutiveDots)
  {
    if input.JString? && MatchesDomainRegex(Trim(input.s)) {
      RegexPassesLaterChecks(Trim(input.s));
    }
  }

  /** An accepted domain is dotted labels with an optional `*.` prefix and `.*` suffix. */
  lemma AcceptedDomainShape(input: Json)
    requires ValidateDomain(input).Accepted?
    ensures DomainShape(ValidateDomain(input).domain)
    ensures IsTrimmed(ValidateDomain(input).domain)
  {
    RegexShape(ValidateDomain(input).domain);
  }

  /** A domain without a star, once accepted, is matched exactly or by its subdomains. */
  lemma AcceptedPlainDomainRule(input: Json, host: string)
    requires ValidateDomain(input).Accepted? && '*' !in ValidateDomain(input).domain
    ensures var d := ValidateDomain(input).domain;
              PatternMatches(host, d) <==> host == d || EndsWith(host, "." + d)
  {
    ExactRule(host, ValidateDomain(input).domain);
  }

  /** An accepted `*.R` without a trailing `.*` matches R and its subdomains. */
  lemma AcceptedRootWildcardRule(input: Json, host: string)
    requires ValidateDomain(input).Accepted?
    requires StartsWith(ValidateDomain(input).domain, "*.") && !EndsWith(ValidateDomain(input).domain, ".*")
    ensures var d := ValidateDomain(input).domain;
              PatternMatches(host, d) <==> host == d[2..] || EndsWith(host, "." + d[2..])
  {
    var d := ValidateDomain(input).domain;
    assert d == "*." + d[2..];
    RootWildcardRule(host, d[2..]);
  }

  // ---------------------------------------------------------------------
  // The list the page shows, and the hidden flag
  // ---------------------------------------------------------------------

  /** A pattern is hidden when its flag is exactly `false`; a missing key is not hidden. */
  predicate IsDomainHidden(cfg: Config, d: string) {
    d in cfg.privateDomains && cfg.privateDomains[d] == JBool(false)
  }

  /** The entries of `domains` whose flag is exactly `true`, in order. */
  function ShownWhenLocked(flags: map<string, Json>, domains: seq<string>): (r: seq<string>)
    ensures |r| <= |domains|
    ensures forall d :: d in r <==> d in domains && d in flags && flags[d] == JBool(true)
  {
    if domains == [] then []
    else
      var rest := ShownWhenLocked(flags, domains[1..]);
      var d := domains[0];
      if d in flags && flags[d] == JBool(true) then [d] + rest else rest
  }

  /**
   * The list the page shows, given the patterns in enumeration order: all
   * of them when unlocked, only those flagged `true` when locked.
   */
  function VisibleDomains(cfg: Config, allDomains: seq<string>): (r: seq<string>)
    ensures |r| <= |allDomains|
    ensures forall d :: d in r <==>
              d in allDomains && (cfg.isUnlocked || (d in cfg.privateDomains && cfg.privateDomains[d] == JBool(true)))
  {
    if cfg.isUnlocked then allDomains else ShownWhenLocked(cfg.privateDomains, allDomains)
  }

  /** With the page locked, a hidden pattern is never shown. */
  lemma HiddenNotShownWhenLocked(cfg: Config, allDomains: seq<string>, d: string)
    requires !cfg.isUnlocked && IsDomainHidden(cfg, d)
    ensures d !in VisibleDomains(cfg, allDomains)
  {
  }

  /**
   * When every flag is a boolean, the locked list is exactly the patterns
   * that are not hidden, and the unlocked list is every pattern.
   */
  lemma VisibleMeansNotHidden(cfg: Config, allDomains: seq<string>)
    requires forall d :: d in cfg.privateDomains ==> cfg.privateDomains[d].JBool?
    requires forall d :: d in allDomains <==> d in cfg.privateDomains
    ensures forall d :: d in VisibleDomains(cfg, allDomains) <==>
              d in cfg.privateDomains && (cfg.isUnlocked || !IsDomainHidden(cfg, d))
  {
  }

  /** The flag of d after a hide/unhide toggle: hidden becomes `true`, anything else (missing included) becomes `false`. */
  function ToggledHidden(flags: map<string, Json>, d: string): (r: map<string, Json>)
    ensures r.Keys == flags.Keys + {d}
    ensures r[d].JBool?
    ensures forall k :: k in flags && k != d ==> r[k] == flags[k]
  {
    var hidden := d in flags && flags[d] == JBool(false);
    flags[d := JBool(hidden)]
  }

  /** A toggle flips whether the pattern is hidden. */
  lemma ToggleFlipsHidden(cfg: Config, d: string)
    ensures IsDomainHidden(cfg.(privateDomains := ToggledHidden(cfg.privateDomains, d)), d) <==> !IsDomainHidden(cfg, d)
  {
  }

  /** Toggling twice restores a boolean flag, and leaves any other flag (or a missing key) as `true`. */
  lemma {:induction false} ToggleTwice(flags: map<string, Json>, d: string)
    ensures d in flags && flags[d].JBool? ==> ToggledHidden(ToggledHidden(flags, d), d) == flags
    ensures !(d in flags && flags[d].JBool?) ==> ToggledHidden(ToggledHidden(flags, d), d) == flags[d := JBool(true)]
  {
    var once := ToggledHidden(flags, d);
    var twice := ToggledHidden(once, d);
    if d in flags && flags[d].JBool? {
      assert twice == flags by {
        assert twice[d] == flags[d];
      }
    }
  }

  // ---------------------------------------------------------------------
  // The address opened for a pattern
  // ---------------------------------------------------------------------

  /**
   * The host to open for a pattern: the pattern itself when it has no star,
   * R for `*.R` with no other star, and nothing otherwise (nor for an empty
   * result).
   */
  function VisitTarget(pattern: string): (r: Option<string>)
    ensures '*' !in pattern ==> r == (if pattern == "" then None else Some(pattern))
    ensures '*' in pattern ==> (r.Some? <==> StartsWith(pattern, "*.") && StarCount(pattern) == 1 && |pattern| > 2)
    ensures '*' in pattern && r.Some? ==> r.value == pattern[2..]
    ensures r.Some? ==> r.value != "" && '*' !in r.value
  {
    StarCountCountsStars(pattern);
    var target :=
      if '*' !in pattern then pattern
      else if StartsWith(pattern, "*.") && StarCount(pattern) == 1 then
        (StarCountCountsStars(pattern[1..]);
         assert pattern == [pattern[0]] + pattern[1..];
         assert pattern[2..] == pattern[1..][1..];
         if '*' !in pattern[2..] then pattern[2..] else "")
      else "";
    if target != "" then Some(target) else None
  }

  /** The URL a new tab opens for a pattern, if any. */
  function VisitUrl(pattern: string): (r: Option<string>)
    ensures r.Some? <==> VisitTarget(pattern).Some?
    ensures r.Some? ==> r.value == "http://" + VisitTarget(pattern).value
  {
    match VisitTarget(pattern)
    case Some(host) => Some("http://" + host)
    case None => None
  }

  /** The host opened for a pattern is one the pattern itself matches. */
  lemma VisitTargetIsMatched(pattern: string)
    requires IsTrimmed(pattern) && VisitTarget(pattern).Some?
    ensures PatternMatches(VisitTarget(pattern).value, pattern)
  {
    var t := VisitTarget(pattern).value;
    if '*' !in pattern {
      ExactRule(t, pattern);
    } else {
      assert pattern == "*." + t;
      assert !EndsWith(pattern, ".*") by {
        assert pattern[|pattern| - 1] == t[|t| - 1];
        assert t[|t| - 1] in t;
      }
      RootWildcardRule(t, t);
    }
  }

  // ---------------------------------------------------------------------
  // Importing a configuration from JSON text
  // ---------------------------------------------------------------------

  datatype ImportError = EmptyText | SyntaxError | NotAnObject | IncompleteStructure

  /** The decimal spelling of n differs from that of every smaller index. */
  lemma IndexKeysDistinct(n: nat)
    ensures forall i :: 0 <= i < n ==> NatToString(i) != NatToString(n)
  {
    forall i | 0 <= i < n ensures NatToString(i) != NatToString(n) {
      if NatToString(i) == NatToString(n) {
        NatToStringInjective(i, n);
      }
    }
  }

  /** An array read as an object: its indices, spelled in decimal, are the keys. */
  function ArrayEntries(items: seq<Json>): map<string, Json>
  {
    if items == [] then map[]
    else ArrayEntries(items[..|items| - 1])[NatToString(|items| - 1) := items[|items| - 1]]
  }

  /** Each index of an array read as an object is a key holding its item. */
  lemma {:induction false} ArrayEntriesHoldItems(items: seq<Json>)
    ensures forall i :: 0 <= i < |items| ==> NatToString(i) in ArrayEntries(items) && ArrayEntries(items)[NatToString(i)] == items[i]
  {
    if items != [] {
      var n := |items| - 1;
      var front := items[..n];
      ArrayEntriesHoldItems(front);
      IndexKeysDistinct(n);
      forall i | 0 <= i < n ensures NatToString(i) in ArrayEntries(items) && ArrayEntries(items)[NatToString(i)] == items[i] {
        assert front[i] == items[i];
      }
    }
  }

  /** An array read as an object has no keys besides its indices. */
  lemma {:induction false} ArrayEntriesCount(items: seq<Json>)
    ensures |ArrayEntries(items)| == |items|
  {
    if items != [] {
      var n := |items| - 1;
      ArrayEntriesCount(items[..n]);
      ArrayEntriesHoldItems(items[..n]);
      IndexKeysDistinct(n);
      if NatToString(n) in ArrayEntries(items[..n]) {
        ArrayEntriesOnlyIndices(items[..n], NatToString(n));
      }
    }
  }

  lemma {:induction false} ArrayEntriesOnlyIndices(items: seq<Json>, k: string)
    requires k in ArrayEntries(items)
    ensures exists i :: 0 <= i < |items| && k == NatToString(i)
  {
    var n := |items| - 1;
    if k != NatToString(n) {
      ArrayEntriesOnlyIndices(items[..n], k);
      var i :| 0 <= i < n && k == NatToString(i);
    }
  }

  /** `privateDomains || {}` for a value whose `typeof` is object: null becomes the empty map. */
  function DomainsOrEmpty(v: Json): (r: map<string, Json>)
    requires TypeofObject(v)
    ensures v.JNull? ==> r == map[]
    ensures v.JObject? ==> r == v.members
    ensures v.JArray? ==> r == ArrayEntries(v.items)
  {
    match v
    case JObject(members) => members
    case JArray(items) => ArrayEntries(items)
    case JNull => map[]
  }

  /**
   * The structural check of an imported value and the configuration built
   * from it: an object holding both fields, with `privateDomains` an object,
   * an array or null; `isUnlocked` is read by truthiness.
   */
  function CheckImportedConfig(v: Json): (r: Result<Config, ImportError>)
    ensures r.Success? <==>
              v.JObject? && "isUnlocked" in v.members && "privateDomains" in v.members
              && TypeofObject(v.members["privateDomains"])
    ensures r == Failure(NotAnObject) <==> !v.JObject? && !v.JArray?
    ensures r.Success? ==> r.value.isUnlocked == Truthy(v.members["isUnlocked"])
    ensures r.Success? ==> r.value.privateDomains == DomainsOrEmpty(v.members["privateDomains"])
  {
    if !Truthy(v) || !TypeofObject(v) then Failure(NotAnObject)
    else if !v.JObject? then Failure(IncompleteStructure)
    else if "isUnlocked" !in v.members || "privateDomains" !in v.members
            || !TypeofObject(v.members["privateDomains"]) then Failure(IncompleteStructure)
    else Success(Config(Truthy(v.members["isUnlocked"]), DomainsOrEmpty(v.members["privateDomains"])))
  }

  /** The editor's text, trimmed, parsed by `parseJson` (None for a syntax error), then checked. */
  function ImportConfigText(text: string, parseJson: string -> Option<Json>): (r: Result<Config, ImportError>)
    ensures AllWhitespace(text) ==> r == Failure(EmptyText)
    ensures !AllWhitespace(text) && parseJson(Trim(text)).None? ==> r == Failure(SyntaxError)
    ensures r.Success? <==>
              !AllWhitespace(text) && parseJson(Trim(text)).Some?
              && CheckImportedConfig(parseJson(Trim(text)).value).Success?
    ensures !AllWhitespace(text) && parseJson(Trim(text)).Some? ==> r == CheckImportedConfig(parseJson(Trim(text)).value)
  {
    var t := Trim(text);
    if t == "" then Failure(EmptyText)
    else match parseJson(t)
      case None => Failure(SyntaxError)
      case Some(v) => CheckImportedConfig(v)
  }

  /** The JSON value of a configuration, as the editor shows it. */
  function ConfigToJson(cfg: Config): (v: Json)
    ensures v.JObject? && v.members.Keys == {"isUnlocked", "privateDomains"}
  {
    JObject(map["isUnlocked" := JBool(cfg.isUnlocked), "privateDomains" := JObject(cfg.privateDomains)])
  }

  /** Saving back the configuration the editor showed gives the same configuration. */
  lemma ExportThenImport(cfg: Config)
    ensures CheckImportedConfig(ConfigToJson(cfg)) == Success(cfg)
  {
    var v := ConfigToJson(cfg);
    assert v.members["isUnlocked"] == JBool(cfg.isUnlocked);
    assert v.members["privateDomains"] == JObject(cfg.privateDomains);
  }

  /** `isUnlocked` is read by truthiness: the string "false" unlocks, 0 and null do not. */
  lemma UnlockedByTruthiness(flags: map<string, Json>)
    ensures CheckImportedConfig(JObject(map["isUnlocked" := JString("false"), "privateDomains" := JObject(flags)])).value.isUnlocked
    ensures !CheckImportedConfig(JObject(map["isUnlocked" := JNumber(0.0), "privateDomains" := JNull])).value.isUnlocked
    ensures CheckImportedConfig(JObject(map["isUnlocked" := JNull, "privateDomains" := JNull])).value.privateDomains == map[]
  {
    var a := JObject(map["isUnlocked" := JString("false"), "privateDomains" := JObject(flags)]);
    assert a.members["isUnlocked"] == JString("false") && a.members["privateDomains"] == JObject(flags);
    var b := JObject(map["isUnlocked" := JNumber(0.0), "privateDomains" := JNull]);
    assert b.members["isUnlocked"] == JNumber(0.0) && b.members["privateDomains"] == JNull;
    var c := JObject(map["isUnlocked" := JNull, "privateDomains" := JNull]);
    assert c.members["privateDomains"] == JNull;
  }
}
