/** The user-specific part of the time service: resolving the current
    session user's timezone id through a read-through cache in front of the
    preferences store, memoising parsed zones by id, and invalidating a
    user's cache entry. Each operation takes the state and returns the new
    state. The zone type `Z` and the parser `parse` stand for the platform's
    timezone objects and their lookup by id. */
module UserTime {
  import opened Wrappers

  /** `userTz`: the user-timezone cache; `prefs`: each user's stored
      timezone property (an absent user has none); `zones`: the memo from
      timezone id to parsed zone. */
  datatype TzState<Z> = TzState(
    userTz: map<string, string>,
    prefs: map<string, Option<string>>,
    zones: map<string, Z>)

  datatype Resolved<Z> = Resolved(tz: string, state: TzState<Z>)
  datatype LocalZone<Z> = LocalZone(zone: Z, state: TzState<Z>)
  datatype Cleared<Z> = Cleared(ok: bool, state: TzState<Z>)

  /** The timezone a user's preferences give: the stored property, or the
      system default when it is absent or empty. */
  function PreferredTimezone(prefs: map<string, Option<string>>, userId: string, systemDefault: string): (tz: string)
    ensures userId in prefs && prefs[userId].Some? && prefs[userId].value != "" ==>
              tz == prefs[userId].value
    ensures !(userId in prefs && prefs[userId].Some? && prefs[userId].value != "") ==>
              tz == systemDefault
    ensures systemDefault != "" ==> tz != ""
  {
    if userId in prefs && prefs[userId].Some? && prefs[userId].value != "" then prefs[userId].value
    else systemDefault
  }

  /** Resolves the timezone id of `sessionUser` (None: no session user). */
  function GetUserTimezone<Z>(s: TzState<Z>, sessionUser: Option<string>, systemDefault: string): (r: Resolved<Z>)
    ensures sessionUser.None? ==> r == Resolved(systemDefault, s)
    ensures sessionUser.Some? && sessionUser.value in s.userTz ==>
              r == Resolved(s.userTz[sessionUser.value], s)
    ensures sessionUser.Some? && sessionUser.value !in s.userTz ==>
              && r.tz == PreferredTimezone(s.prefs, sessionUser.value, systemDefault)
              && r.state == s.(userTz := s.userTz[sessionUser.value := r.tz])
    ensures r.state.prefs == s.prefs && r.state.zones == s.zones
    ensures sessionUser.Some? ==> sessionUser.value in r.state.userTz && r.state.userTz[sessionUser.value] == r.tz
  {
    match sessionUser
    case None => Resolved(systemDefault, s)
    case Some(userId) =>
      if userId in s.userTz then Resolved(s.userTz[userId], s)
      else
        var tz := PreferredTimezone(s.prefs, userId, systemDefault);
        Resolved(tz, s.(userTz := s.userTz[userId := tz]))
  }

  /** The zone for the current user's timezone id, parsed at most once per
      id: an id already in the memo gets the memoised zone, and the memo
      only ever gains entries. */
  function GetLocalTimeZone<Z>(s: TzState<Z>, sessionUser: Option<string>, systemDefault: string,
                               parse: string -> Z): (r: LocalZone<Z>)
    ensures var res := GetUserTimezone(s, sessionUser, systemDefault);
            && res.tz in r.state.zones && r.zone == r.state.zones[res.tz]
            && (res.tz in s.zones ==> r.zone == s.zones[res.tz])
            && (res.tz !in s.zones ==> r.zone == parse(res.tz))
            && r.state.userTz == res.state.userTz
    ensures r.state.prefs == s.prefs
    ensures forall id :: id in s.zones ==> id in r.state.zones && r.state.zones[id] == s.zones[id]
    ensures r.state.zones.Keys <= s.zones.Keys + {GetUserTimezone(s, sessionUser, systemDefault).tz}
  {
    var res := GetUserTimezone(s, sessionUser, systemDefault);
    var s1 := res.state;
    if res.tz in s1.zones then LocalZone(s1.zones[res.tz], s1)
    else
      var z := parse(res.tz);
      LocalZone(z, s1.(zones := s1.zones[res.tz := z]))
  }

  /** Drops `userId`'s cache entry; always reports success. */
  function ClearLocalTimeZone<Z>(s: TzState<Z>, userId: string): (r: Cleared<Z>)
    ensures r.ok
    ensures userId !in r.state.userTz
    ensures forall u :: u != userId ==> (u in r.state.userTz <==> u in s.userTz)
    ensures forall u :: u != userId && u in s.userTz ==> r.state.userTz[u] == s.userTz[u]
    ensures r.state.prefs == s.prefs && r.state.zones == s.zones
  {
    Cleared(true, s.(userTz := s.userTz - {userId}))
  }

  /** Every cached timezone id is non-empty. */
  ghost predicate CacheNonEmpty<Z>(s: TzState<Z>) {
    forall u :: u in s.userTz ==> s.userTz[u] != ""
  }

  /** Resolving twice for the same user returns the same id the second
      time, leaves the state as the first call left it, and does not read
      the preferences: any preferences in between give the same answer. */
  lemma ResolveIsIdempotent<Z>(s: TzState<Z>, userId: string, systemDefault: string,
                               prefs: map<string, Option<string>>)
    ensures var r1 := GetUserTimezone(s, Some(userId), systemDefault);
            var r2 := GetUserTimezone(r1.state.(prefs := prefs), Some(userId), systemDefault);
            && r2.tz == r1.tz
            && r2.state == r1.state.(prefs := prefs)
  {
  }

  /** After the user's entry is cleared, resolution reads the preferences
      again, so it reflects a preference changed in the meantime. */
  lemma ClearThenResolveReadsPreferences<Z>(s: TzState<Z>, userId: string, systemDefault: string,
                                            prefs: map<string, Option<string>>)
    ensures var c := ClearLocalTimeZone(s, userId);
            var r := GetUserTimezone(c.state.(prefs := prefs), Some(userId), systemDefault);
            r.tz == PreferredTimezone(prefs, userId, systemDefault)
  {
  }

  /** The events the service sees: the three operations, a change to a
      user's stored preference made elsewhere, and the memory service
      expiring or evicting a user's cache entry on its own. */
  datatype Event =
    | Resolve(sessionUser: Option<string>)
    | Localize(sessionUser: Option<string>)
    | Clear(userId: string)
    | PreferenceSet(userId: string, value: Option<string>)
    | Evict(userId: string)

  function Step<Z>(s: TzState<Z>, e: Event, systemDefault: string, parse: string -> Z): TzState<Z> {
    match e
    case Resolve(u) => GetUserTimezone(s, u, systemDefault).state
    case Localize(u) => GetLocalTimeZone(s, u, systemDefault, parse).state
    case Clear(u) => ClearLocalTimeZone(s, u).state
    case PreferenceSet(u, v) => s.(prefs := s.prefs[u := v])
    case Evict(u) => s.(userTz := s.userTz - {u})
  }

  /** The state after the events `es`, in order. */
  function Run<Z>(s: TzState<Z>, es: seq<Event>, systemDefault: string, parse: string -> Z): TzState<Z>
    decreases |es|
  {
    if |es| == 0 then s else Run(Step(s, es[0], systemDefault, parse), es[1..], systemDefault, parse)
  }

  /** With a non-empty system default, every step keeps the cache free of
      empty timezone ids. */
  lemma StepKeepsCacheNonEmpty<Z>(s: TzState<Z>, e: Event, systemDefault: string, parse: string -> Z)
    requires systemDefault != "" && CacheNonEmpty(s)
    ensures CacheNonEmpty(Step(s, e, systemDefault, parse))
  {
  }

  /** The cache invariant holds after any sequence of events. */
  lemma {:induction false} RunKeepsCacheNonEmpty<Z>(s: TzState<Z>, es: seq<Event>, systemDefault: string,
                                                   parse: string -> Z)
    requires systemDefault != "" && CacheNonEmpty(s)
    ensures CacheNonEmpty(Run(s, es, systemDefault, parse))
    decreases |es|
  {
    if |es| > 0 {
      StepKeepsCacheNonEmpty(s, es[0], systemDefault, parse);
      RunKeepsCacheNonEmpty(Step(s, es[0], systemDefault, parse), es[1..], systemDefault, parse);
    }
  }

  /** The zone memo only grows: an id mapped before any sequence of events
      is still mapped to the same zone afterwards. */
  lemma {:induction false} RunKeepsMemo<Z>(s: TzState<Z>, es: seq<Event>, systemDefault: string,
                                          parse: string -> Z, id: string)
    requires id in s.zones
    ensures id in Run(s, es, systemDefault, parse).zones
    ensures Run(s, es, systemDefault, parse).zones[id] == s.zones[id]
    decreases |es|
  {
    if |es| > 0 {
      RunKeepsMemo(Step(s, es[0], systemDefault, parse), es[1..], systemDefault, parse, id);
    }
  }

  /** Once an id has been memoised, every later `getLocalTimeZone` that
      resolves to that id returns the memoised zone. */
  lemma MemoisedZoneIsStable<Z>(s: TzState<Z>, es: seq<Event>, sessionUser: Option<string>,
                                systemDefault: string, parse: string -> Z, id: string)
    requires id in s.zones
    requires GetUserTimezone(Run(s, es, systemDefault, parse), sessionUser, systemDefault).tz == id
    ensures GetLocalTimeZone(Run(s, es, systemDefault, parse), sessionUser, systemDefault, parse).zone == s.zones[id]
  {
    RunKeepsMemo(s, es, systemDefault, parse, id);
  }

  /** A cached entry survives every event except clearing or evicting that
      user: while neither happens, resolving `userId` keeps returning the
      cached id, whatever preference changes happen in between. */
  lemma {:induction false} CachedEntrySurvives<Z>(s: TzState<Z>, es: seq<Event>, userId: string,
                                                 systemDefault: string, parse: string -> Z)
    requires userId in s.userTz
    requires forall k :: 0 <= k < |es| ==> es[k] != Clear(userId) && es[k] != Evict(userId)
    ensures userId in Run(s, es, systemDefault, parse).userTz
    ensures GetUserTimezone(Run(s, es, systemDefault, parse), Some(userId), systemDefault).tz == s.userTz[userId]
    decreases |es|
  {
    if |es| > 0 {
      var s1 := Step(s, es[0], systemDefault, parse);
      assert es[0] != Clear(userId) && es[0] != Evict(userId);
      assert userId in s1.userTz && s1.userTz[userId] == s.userTz[userId];
      CachedEntrySurvives(s1, es[1..], userId, systemDefault, parse);
    }
  }
}
