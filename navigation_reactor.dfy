/**
 * The background worker: it keeps a cached copy of the configuration,
 * watches top-level navigations, and schedules the removal of every visited
 * URL whose host matches one of the configured patterns one second later.
 *
 * The browser's timers are modelled by a logical clock and a queue of
 * pending removals; `AdvanceClock` lets time pass and fires the removals
 * that fall due, recording each URL handed to the history service.
 */
module NavigationReactor {
  import opened Wrappers
  import opened Configuration
  import opened PatternMatcher

  /** Milliseconds between a matching navigation and the removal of its URL. */
  const DeleteDelay: int := 1000

  /** The part of a navigation event the worker reads. */
  datatype NavigationDetails = NavigationDetails(frameId: int, url: string)

  /** A removal scheduled for the given time. */
  datatype Deletion = Deletion(url: string, due: int)

  /** One entry of a storage change notification; an absent new value means the key was removed. */
  datatype StorageChange = StorageChange(oldValue: Option<Config>, newValue: Option<Config>)

  /** A request from the options page; `config` is absent (or falsy) when the request carries none. */
  datatype Message = Message(action: string, config: Option<Config>)

  datatype Reply = ConfigReply(config: Config) | SuccessReply

  /** Whether the worker reacts to a navigation to `url` under `cfg`: only the keys matter, not the flags. */
  ghost predicate ConfigMatches(parseHost: string -> Option<string>, url: string, cfg: Config) {
    MatchedBySet(parseHost, url, cfg.privateDomains.Keys)
  }

  /** Matching against any enumeration of the keys is matching against the configuration. */
  lemma KeysMatchLikeConfig(parseHost: string -> Option<string>, url: string, keys: seq<string>, cfg: Config)
    requires forall k :: k in keys <==> k in cfg.privateDomains
    ensures IsUrlMatched(parseHost, url, keys) == ConfigMatches(parseHost, url, cfg)
  {
    IsUrlMatchedDependsOnlyOnPatternSet(parseHost, url, keys);
    assert (set p | p in keys) == cfg.privateDomains.Keys;
  }

  /** The listeners' test: the URL checked against the keys of the configuration, enumerated. */
  method CheckUrl(parseHost: string -> Option<string>, url: string, cfg: Config) returns (matched: bool)
    ensures matched == ConfigMatches(parseHost, url, cfg)
  {
    var allDomains := GetAllDomains(cfg.privateDomains);
    matched := IsUrlMatched(parseHost, url, allDomains);
    KeysMatchLikeConfig(parseHost, url, allDomains, cfg);
  }

  /** The URLs of a run of deletions, in order. */
  function Urls(ds: seq<Deletion>): (r: seq<string>)
    ensures |r| == |ds| && forall i :: 0 <= i < |ds| ==> r[i] == ds[i].url
  {
    if ds == [] then [] else [ds[0].url] + Urls(ds[1..])
  }

  /** How many deletions at the front of the queue are due at time t. */
  function FiredCount(ds: seq<Deletion>, t: int): (n: nat)
    ensures n <= |ds|
    ensures forall i :: 0 <= i < n ==> ds[i].due <= t
    ensures n < |ds| ==> ds[n].due > t
  {
    if ds == [] || ds[0].due > t then 0 else 1 + FiredCount(ds[1..], t)
  }

  /** Due times in non-decreasing order: timers set earlier fire first. */
  ghost predicate SortedByDue(ds: seq<Deletion>) {
    forall i, j :: 0 <= i < j < |ds| ==> ds[i].due <= ds[j].due
  }

  /** In a queue sorted by due time, the deletions due at t are exactly those counted by FiredCount. */
  lemma {:induction false} FiredCountIsDuePrefix(ds: seq<Deletion>, t: int)
    requires SortedByDue(ds)
    ensures forall i :: 0 <= i < |ds| ==> (ds[i].due <= t <==> i < FiredCount(ds, t))
  {
    var n := FiredCount(ds, t);
    forall i | 0 <= i < |ds| ensures ds[i].due <= t <==> i < n {
      if n <= i {
        assert ds[n].due <= ds[i].due;
      }
    }
  }

  class Reactor {
    /** The URL parser: the host of a URL, or None when the URL does not parse. */
    const parseHost: string -> Option<string>
    var cachedConfig: Config
    var clock: int
    var pending: seq<Deletion>
    /** Every URL handed to the history service so far, in order. */
    var deleted: seq<string>

    /** Pending removals fall due within the next second, in the order they were scheduled. */
    ghost predicate Valid()
      reads this
    {
      (forall i :: 0 <= i < |pending| ==> clock < pending[i].due <= clock + DeleteDelay)
      && SortedByDue(pending)
    }

    /** The worker starts with the default configuration and no pending removals. */
    constructor(parseHost: string -> Option<string>, startTime: int)
      ensures Valid()
      ensures this.parseHost == parseHost && cachedConfig == DefaultConfig
      ensures clock == startTime && pending == [] && deleted == []
    {
      this.parseHost := parseHost;
      cachedConfig := DefaultConfig;
      clock := startTime;
      pending := [];
      deleted := [];
    }

    /** The startup load: the stored configuration if there is one, the default otherwise or on failure. */
    method InitializeConfig(load: LoadResult)
      requires Valid()
      modifies this
      ensures Valid()
      ensures cachedConfig == (if load.Loaded? then load.stored.GetOr(DefaultConfig) else DefaultConfig)
      ensures clock == old(clock) && pending == old(pending) && deleted == old(deleted)
    {
      match load {
        case Loaded(stored) =>
          cachedConfig := stored.GetOr(DefaultConfig);
        case LoadFailed =>
          cachedConfig := DefaultConfig;
      }
    }

    /** The reaction shared by the three navigation listeners. */
    method ReactToNavigation(details: NavigationDetails)
      requires Valid()
      modifies this
      ensures Valid()
      ensures details.frameId == 0 && ConfigMatches(parseHost, details.url, cachedConfig) ==>
                pending == old(pending) + [Deletion(details.url, clock + DeleteDelay)]
      ensures details.frameId != 0 || !ConfigMatches(parseHost, details.url, cachedConfig) ==>
                pending == old(pending)
      ensures cachedConfig == old(cachedConfig) && clock == old(clock) && deleted == old(deleted)
    {
      if details.frameId != 0 {
        return;
      }
      var matched := CheckUrl(parseHost, details.url, cachedConfig);
      if matched {
        Schedule(details.url);
      }
    }

    /** Sets a timer that removes url one second from now. */
    method Schedule(url: string)
      requires Valid()
      modifies this
      ensures Valid()
      ensures pending == old(pending) + [Deletion(url, clock + DeleteDelay)]
      ensures cachedConfig == old(cachedConfig) && clock == old(clock) && deleted == old(deleted)
    {
      pending := pending + [Deletion(url, clock + DeleteDelay)];
    }

    /** A committed navigation of a page. */
    method HandleNavigationCommitted(details: NavigationDetails)
      requires Valid()
      modifies this
      ensures Valid()
      ensures details.frameId == 0 && ConfigMatches(parseHost, details.url, cachedConfig) ==>
                pending == old(pending) + [Deletion(details.url, clock + DeleteDelay)]
      ensures details.frameId != 0 || !ConfigMatches(parseHost, details.url, cachedConfig) ==>
                pending == old(pending)
      ensures cachedConfig == old(cachedConfig) && clock == old(clock) && deleted == old(deleted)
    {
      ReactToNavigation(details);
    }

    /** A history state update (pushState / replaceState routing). */
    method HandleHistoryStateUpdated(details: NavigationDetails)
      requires Valid()
      modifies this
      ensures Valid()
      ensures details.frameId == 0 && ConfigMatches(parseHost, details.url, cachedConfig) ==>
                pending == old(pending) + [Deletion(details.url, clock + DeleteDelay)]
      ensures details.frameId != 0 || !ConfigMatches(parseHost, details.url, cachedConfig) ==>
                pending == old(pending)
      ensures cachedConfig == old(cachedConfig) && clock == old(clock) && deleted == old(deleted)
    {
      ReactToNavigation(details);
    }

    /** A change of the URL fragment (hash routing). */
    method HandleReferenceFragmentUpdated(details: NavigationDetails)
      requires Valid()
      modifies this
      ensures Valid()
      ensures details.frameId == 0 && ConfigMatches(parseHost, details.url, cachedConfig) ==>
                pending == old(pending) + [Deletion(details.url, clock + DeleteDelay)]
      ensures details.frameId != 0 || !ConfigMatches(parseHost, details.url, cachedConfig) ==>
                pending == old(pending)
      ensures cachedConfig == old(cachedConfig) && clock == old(clock) && deleted == old(deleted)
    {
      ReactToNavigation(details);
    }

    /**
     * A storage change in any area: when it touches the configuration key the
     * cache takes the new value, or the default when the key was removed.
     */
    method HandleStorageChanged(changes: map<string, StorageChange>, namespace: string)
      requires Valid()
      modifies this
      ensures Valid()
      ensures cachedConfig == (if StorageKey in changes then changes[StorageKey].newValue.GetOr(DefaultConfig)
                               else old(cachedConfig))
      ensures clock == old(clock) && pending == old(pending) && deleted == old(deleted)
    {
      if StorageKey in changes {
        cachedConfig := changes[StorageKey].newValue.GetOr(DefaultConfig);
      }
    }

    /**
     * A request from the options page: `getConfig` answers with the cache,
     * `updateConfig` replaces it (the default when no config is sent) and
     * acknowledges; any other action gets no answer and changes nothing.
     */
    method HandleMessage(request: Message) returns (response: Option<Reply>)
      requires Valid()
      modifies this
      ensures Valid()
      ensures request.action == "getConfig" ==>
                response == Some(ConfigReply(old(cachedConfig))) && cachedConfig == old(cachedConfig)
      ensures request.action == "updateConfig" ==>
                response == Some(SuccessReply) && cachedConfig == request.config.GetOr(DefaultConfig)
      ensures request.action != "getConfig" && request.action != "updateConfig" ==>
                response == None && cachedConfig == old(cachedConfig)
      ensures clock == old(clock) && pending == old(pending) && deleted == old(deleted)
    {
      if request.action == "getConfig" {
        response := Some(ConfigReply(cachedConfig));
      } else if request.action == "updateConfig" {
        cachedConfig := request.config.GetOr(DefaultConfig);
        response := Some(SuccessReply);
      } else {
        response := None;
      }
    }

    /** Hands one URL to the history service; a failure there is caught and only logged. */
    method DeleteUrlFromHistory(url: string)
      modifies this
      ensures deleted == old(deleted) + [url]
      ensures cachedConfig == old(cachedConfig) && clock == old(clock) && pending == old(pending)
    {
      deleted := deleted + [url];
    }

    /**
     * Time passes until t: every removal due by then fires, in the order it
     * was scheduled, and the rest stay pending.
     */
    method AdvanceClock(t: int)
      requires Valid() && clock <= t
      modifies this
      ensures Valid()
      ensures clock == t && cachedConfig == old(cachedConfig)
      ensures var n := FiredCount(old(pending), t);
                deleted == old(deleted) + Urls(old(pending)[..n]) && pending == old(pending)[n..]
      ensures forall i :: 0 <= i < |old(pending)| ==>
                (old(pending)[i].due <= t <==> i < |old(pending)| - |pending|)
    {
      FiredCountIsDuePrefix(pending, t);
      var queue := pending;
      var n := FiredCount(queue, t);
      var i := 0;
      while i < n
        invariant 0 <= i <= n
        invariant deleted == old(deleted) + Urls(queue[..i])
        invariant pending == queue && cachedConfig == old(cachedConfig) && clock == old(clock)
      {
        DeleteUrlFromHistory(queue[i].url);
        assert queue[..i + 1] == queue[..i] + [queue[i]];
        UrlsAppend(queue[..i], [queue[i]]);
        i := i + 1;
      }
      pending := queue[n..];
      clock := t;
    }
  }

  lemma {:induction false} UrlsAppend(a: seq<Deletion>, b: seq<Deletion>)
    ensures Urls(a + b) == Urls(a) + Urls(b)
  {
    if a != [] {
      assert (a + b)[1..] == a[1..] + b;
      UrlsAppend(a[1..], b);
    }
  }

  /** Navigating twice to a matching page schedules two removals: nothing is deduplicated. */
  method RepeatedNavigation(r: Reactor, details: NavigationDetails)
    requires r.Valid() && details.frameId == 0 && ConfigMatches(r.parseHost, details.url, r.cachedConfig)
    modifies r
    ensures r.Valid()
    ensures r.pending == old(r.pending) + [Deletion(details.url, r.clock + DeleteDelay),
                                           Deletion(details.url, r.clock + DeleteDelay)]
  {
    r.HandleNavigationCommitted(details);
    r.HandleHistoryStateUpdated(details);
  }

  /** Once a second has passed, a matching navigation has been handed to the history service. */
  method NavigateThenWait(r: Reactor, details: NavigationDetails)
    requires r.Valid() && r.pending == [] && details.frameId == 0
    requires ConfigMatches(r.parseHost, details.url, r.cachedConfig)
    modifies r
    ensures r.Valid() && r.pending == []
    ensures r.deleted == old(r.deleted) + [details.url]
  {
    r.HandleNavigationCommitted(details);
    r.AdvanceClock(r.clock + DeleteDelay);
  }

  /** A configuration sent with `updateConfig` is what the next `getConfig` answers. */
  method UpdateThenGet(r: Reactor, cfg: Config) returns (response: Option<Reply>)
    requires r.Valid()
    modifies r
    ensures r.Valid() && r.cachedConfig == cfg
    ensures response == Some(ConfigReply(cfg))
  {
    var ack := r.HandleMessage(Message("updateConfig", Some(cfg)));
    response := r.HandleMessage(Message("getConfig", None));
  }
}
