/**
 * The options page's state and its handlers, with the page's rendering left
 * out: the configuration it edits in place, the unlock click counter with
 * its reset timer, and a log of the configurations written to storage
 * (each write is also sent to the background worker).
 */
module OptionsPage {
  import opened Wrappers
  import opened JsString
  import opened JsonValue
  import opened Configuration
  import opened DomainRules

  /** Clicks on the version number that toggle the unlock state. */
  const UnlockClicks: nat := 3

  /** Milliseconds after the last click at which the click count is reset. */
  const ClickResetDelay: int := 2000

  datatype AddOutcome =
    | Added(domain: string)
    | NoInput
    | Invalid(error: ValidationError)
    | Duplicate(domain: string)
    | AddSaveFailed

  datatype ImportOutcome = Imported | Cancelled | ImportFailed(error: ImportError) | ImportSaveFailed

  class Page {
    var config: Config
    var clickCount: nat
    /** When the pending click-count reset fires, if one is armed. */
    var resetDue: Option<int>
    var clock: int
    /** Every configuration written to storage, in order. */
    var saved: seq<Config>

    /** The count stays below three, and a reset is armed exactly while clicks are counted. */
    ghost predicate Valid()
      reads this
    {
      && clickCount < UnlockClicks
      && (resetDue.Some? <==> clickCount > 0)
      && (resetDue.Some? ==> clock < resetDue.value <= clock + ClickResetDelay)
    }

    constructor(startTime: int)
      ensures Valid()
      ensures config == DefaultConfig && clickCount == 0 && resetDue == None
      ensures clock == startTime && saved == []
    {
      config := DefaultConfig;
      clickCount := 0;
      resetDue := None;
      clock := startTime;
      saved := [];
    }

    /** Loads the stored configuration (the default when there is none); a failed read keeps the current one. */
    method LoadConfig(load: LoadResult)
      requires Valid()
      modifies this
      ensures Valid()
      ensures config == (if load.Loaded? then load.stored.GetOr(DefaultConfig) else old(config))
      ensures clickCount == old(clickCount) && resetDue == old(resetDue) && clock == old(clock) && saved == old(saved)
    {
      if load.Loaded? {
        config := load.stored.GetOr(DefaultConfig);
      }
    }

    /** Writes the configuration to storage; when the write fails nothing is recorded, and the edit stays in memory. */
    method SaveConfig(storageOk: bool) returns (ok: bool)
      modifies this
      ensures ok == storageOk
      ensures saved == (if storageOk then old(saved) + [config] else old(saved))
      ensures config == old(config) && clickCount == old(clickCount) && resetDue == old(resetDue) && clock == old(clock)
    {
      if storageOk {
        saved := saved + [config];
      }
      ok := storageOk;
    }

    /** The patterns the list shows. */
    method GetVisibleDomains() returns (visible: seq<string>)
      ensures forall d :: d in visible <==>
                d in config.privateDomains && (config.isUnlocked || config.privateDomains[d] == JBool(true))
      ensures Distinct(visible)
    {
      var allDomains := GetAllDomains(config.privateDomains);
      visible := VisibleDomains(config, allDomains);
      if config.isUnlocked {
        assert visible == allDomains;
      } else {
        assert visible == ShownWhenLocked(config.privateDomains, allDomains);
        ShownKeepsDistinct(config.privateDomains, allDomains);
      }
    }

    /**
     * Adds the typed-in domain: blank input, an invalid domain and a
     * pattern already present are refused and change nothing; otherwise the
     * trimmed domain is inserted as shown (`true`) and saved.
     */
    method AddDomain(input: string, storageOk: bool) returns (outcome: AddOutcome)
      requires Valid()
      modifies this
      ensures Valid()
      ensures outcome.NoInput? <==> AllWhitespace(input)
      ensures !AllWhitespace(input) && ValidateDomain(JString(Trim(input))).Rejected? ==>
                outcome == Invalid(ValidateDomain(JString(Trim(input))).error)
      ensures outcome.Invalid? ==> ValidateDomain(JString(Trim(input))) == Rejected(outcome.error)
      ensures outcome.Duplicate? <==>
                ValidateDomain(JString(Trim(input))).Accepted? && Trim(input) in old(config.privateDomains)
      ensures outcome.Duplicate? ==> outcome.domain == Trim(input)
      ensures outcome.Added? || outcome.AddSaveFailed? <==>
                ValidateDomain(JString(Trim(input))).Accepted? && Trim(input) !in old(config.privateDomains)
      ensures outcome.Added? || outcome.AddSaveFailed? ==>
                config == old(config).(privateDomains := old(config.privateDomains)[Trim(input) := JBool(true)])
                && saved == (if storageOk then old(saved) + [config] else old(saved))
      ensures outcome.Added? <==> (outcome.Added? || outcome.AddSaveFailed?) && storageOk
      ensures outcome.Added? ==> outcome.domain == Trim(input)
      ensures !(outcome.Added? || outcome.AddSaveFailed?) ==> config == old(config) && saved == old(saved)
      ensures clickCount == old(clickCount) && resetDue == old(resetDue) && clock == old(clock)
    {
      var value := Trim(input);
      if value == "" {
        return NoInput;
      }
      var validation := ValidateDomain(JString(value));
      if validation.Rejected? {
        return Invalid(validation.error);
      }
      var domain := validation.domain;
      TrimIdempotent(input);
      assert domain == value;
      if domain in config.privateDomains {
        return Duplicate(domain);
      }
      var ok := InsertDomain(domain, storageOk);
      outcome := if ok then Added(domain) else AddSaveFailed;
    }

    /** Inserts a new pattern as shown, then saves. */
    method InsertDomain(domain: string, storageOk: bool) returns (ok: bool)
      requires Valid()
      modifies this
      ensures Valid()
      ensures config == old(config).(privateDomains := old(config.privateDomains)[domain := JBool(true)])
      ensures ok == storageOk && saved == (if storageOk then old(saved) + [config] else old(saved))
      ensures clickCount == old(clickCount) && resetDue == old(resetDue) && clock == old(clock)
    {
      config := config.(privateDomains := config.privateDomains[domain := JBool(true)]);
      ok := SaveConfig(storageOk);
    }

    /** Removes exactly that pattern once the user confirms, then saves. */
    method DeleteDomain(domain: string, confirmed: bool, storageOk: bool)
      requires Valid()
      modifies this
      ensures Valid()
      ensures config == (if confirmed then old(config).(privateDomains := old(config.privateDomains) - {domain})
                         else old(config))
      ensures saved == (if confirmed && storageOk then old(saved) + [config] else old(saved))
      ensures clickCount == old(clickCount) && resetDue == old(resetDue) && clock == old(clock)
    {
      if !confirmed {
        return;
      }
      config := config.(privateDomains := config.privateDomains - {domain});
      var ok := SaveConfig(storageOk);
    }

    /** Flips the hidden flag of a pattern, then saves. */
    method ToggleDomainHidden(domain: string, storageOk: bool)
      requires Valid()
      modifies this
      ensures Valid()
      ensures config == old(config).(privateDomains := ToggledHidden(old(config.privateDomains), domain))
      ensures IsDomainHidden(config, domain) <==> !IsDomainHidden(old(config), domain)
      ensures saved == (if storageOk then old(saved) + [config] else old(saved))
      ensures clickCount == old(clickCount) && resetDue == old(resetDue) && clock == old(clock)
    {
      ToggleFlipsHidden(config, domain);
      config := config.(privateDomains := ToggledHidden(config.privateDomains, domain));
      var ok := SaveConfig(storageOk);
    }

    /** Negates the unlock state, then saves. */
    method ToggleUnlockState(storageOk: bool)
      modifies this
      ensures config == old(config).(isUnlocked := !old(config.isUnlocked))
      ensures saved == (if storageOk then old(saved) + [config] else old(saved))
      ensures clickCount == old(clickCount) && resetDue == old(resetDue) && clock == old(clock)
    {
      config := config.(isUnlocked := !config.isUnlocked);
      var ok := SaveConfig(storageOk);
    }

    /**
     * A click on the version number: the third click in a row toggles the
     * unlock state and clears the count; an earlier one (re)arms the reset
     * two seconds ahead.
     */
    method HandleVersionClick(storageOk: bool)
      requires Valid()
      modifies this
      ensures Valid()
      ensures old(clickCount) + 1 >= UnlockClicks ==>
                clickCount == 0 && resetDue == None && config == old(config).(isUnlocked := !old(config.isUnlocked))
                && saved == (if storageOk then old(saved) + [config] else old(saved))
      ensures old(clickCount) + 1 < UnlockClicks ==>
                clickCount == old(clickCount) + 1 && resetDue == Some(clock + ClickResetDelay)
                && config == old(config) && saved == old(saved)
      ensures clock == old(clock)
    {
      clickCount := clickCount + 1;
      if clickCount >= UnlockClicks {
        ToggleUnlockState(storageOk);
        clickCount := 0;
        resetDue := None;
      } else {
        resetDue := Some(clock + ClickResetDelay);
      }
    }

    /** Time passes until t; a reset that falls due by then sets the count back to zero. */
    method Tick(t: int)
      requires Valid() && clock <= t
      modifies this
      ensures Valid()
      ensures clock == t && config == old(config) && saved == old(saved)
      ensures old(resetDue).Some? && old(resetDue).value <= t ==> clickCount == 0 && resetDue == None
      ensures !(old(resetDue).Some? && old(resetDue).value <= t) ==>
                clickCount == old(clickCount) && resetDue == old(resetDue)
    {
      if resetDue.Some? && resetDue.value <= t {
        clickCount := 0;
        resetDue := None;
      }
      clock := t;
    }

    /**
     * Replaces the whole configuration with one typed into the editor: the
     * text must pass the import check, and the user must confirm.
     */
    method SaveConfigFile(text: string, parseJson: string -> Option<Json>, confirmed: bool, storageOk: bool)
      returns (outcome: ImportOutcome)
      requires Valid()
      modifies this
      ensures Valid()
      ensures ImportConfigText(text, parseJson).Failure? ==>
                outcome == ImportFailed(ImportConfigText(text, parseJson).error)
      ensures ImportConfigText(text, parseJson).Success? && !confirmed ==> outcome == Cancelled
      ensures ImportConfigText(text, parseJson).Success? && confirmed ==>
                config == ImportConfigText(text, parseJson).value
                && outcome == (if storageOk then Imported else ImportSaveFailed)
                && saved == (if storageOk then old(saved) + [config] else old(saved))
      ensures !(ImportConfigText(text, parseJson).Success? && confirmed) ==> config == old(config) && saved == old(saved)
      ensures clickCount == old(clickCount) && resetDue == old(resetDue) && clock == old(clock)
    {
      var checked := ImportConfigText(text, parseJson);
      if checked.Failure? {
        return ImportFailed(checked.error);
      }
      if !confirmed {
        return Cancelled;
      }
      config := checked.value;
      var ok := SaveConfig(storageOk);
      outcome := if ok then Imported else ImportSaveFailed;
    }
  }

  ghost predicate Distinct(s: seq<string>) {
    forall i, j :: 0 <= i < j < |s| ==> s[i] != s[j]
  }

  /** Filtering a list of distinct patterns keeps them distinct. */
  lemma {:induction false} ShownKeepsDistinct(flags: map<string, Json>, domains: seq<string>)
    requires Distinct(domains)
    ensures Distinct(ShownWhenLocked(flags, domains))
  {
    if domains != [] {
      var d := domains[0];
      var rest := ShownWhenLocked(flags, domains[1..]);
      assert Distinct(domains[1..]) by {
        forall i, j | 0 <= i < j < |domains[1..]| ensures domains[1..][i] != domains[1..][j] {
          assert domains[1..][i] == domains[i + 1] && domains[1..][j] == domains[j + 1];
        }
      }
      ShownKeepsDistinct(flags, domains[1..]);
      assert d !in domains[1..] by {
        forall j | 0 <= j < |domains[1..]| ensures domains[1..][j] != d {
          assert domains[1..][j] == domains[j + 1];
        }
      }
      assert d !in rest;
      if d in flags && flags[d] == JBool(true) {
        var r := [d] + rest;
        forall i, j | 0 <= i < j < |r| ensures r[i] != r[j] {
          assert r[j] == rest[j - 1] && rest[j - 1] in rest;
          if i > 0 {
            assert r[i] == rest[i - 1];
          }
        }
      }
    }
  }

  /** Three quick clicks from rest toggle the unlock state and leave the counter at rest. */
  method ThreeClicks(page: Page, storageOk: bool)
    requires page.Valid() && page.clickCount == 0
    modifies page
    ensures page.Valid() && page.clickCount == 0 && page.resetDue == None
    ensures page.config == old(page.config).(isUnlocked := !old(page.config.isUnlocked))
  {
    page.HandleVersionClick(storageOk);
    page.HandleVersionClick(storageOk);
    page.HandleVersionClick(storageOk);
  }

  /** Two clicks, a pause of two seconds, then one more click: the count starts over and nothing toggles. */
  method ClicksWithPause(page: Page, storageOk: bool)
    requires page.Valid() && page.clickCount == 0
    modifies page
    ensures page.Valid() && page.clickCount == 1
    ensures page.config == old(page.config)
  {
    page.HandleVersionClick(storageOk);
    page.HandleVersionClick(storageOk);
    page.Tick(page.clock + ClickResetDelay);
    page.HandleVersionClick(storageOk);
  }

  /** Hiding and unhiding a pattern with a boolean flag gives back the same configuration. */
  method ToggleTwiceRestores(page: Page, domain: string, storageOk: bool)
    requires page.Valid() && domain in page.config.privateDomains && page.config.privateDomains[domain].JBool?
    modifies page
    ensures page.Valid() && page.config == old(page.config)
  {
    ToggleTwice(page.config.privateDomains, domain);
    page.ToggleDomainHidden(domain, storageOk);
    page.ToggleDomainHidden(domain, storageOk);
  }
}
