/** `TimeStorage`: keeping the latest `TimeFreeze` in `UserDefaults` so a
    later launch can reuse it. `UserDefaults` is modelled as a map from
    suite to key-value domain; which group suites the system refuses to
    open is a parameter. */
module Storage {
  import opened Wrappers
  import opened Freeze

  /** The one key under which the freeze is stored. */
  const StableTimeKey: string := "KronosStableTime"

  /** A stored value: a dictionary of time intervals, or anything else
      (which `as? [String: TimeInterval]` rejects). */
  datatype Value = TimeDictionary(entries: map<string, real>) | OtherValue

  /** Which `UserDefaults`: the standard one or an app-group suite. */
  datatype Suite = StandardSuite | GroupSuite(name: string)

  /** Every defaults domain, by suite; a suite absent from the map is empty. */
  type Domains = map<Suite, map<string, Value>>

  /** The domain of one suite. */
  function Domain(w: Domains, s: Suite): map<string, Value> {
    if s in w then w[s] else map[]
  }

  /** `set(_:forKey:)` on one suite: a value is stored, `nil` removes the key. */
  function Write(w: Domains, s: Suite, key: string, v: Option<Value>): (r: Domains)
    ensures v.Some? ==> Domain(r, s) == Domain(w, s)[key := v.value]
    ensures v.None? ==> Domain(r, s) == Domain(w, s) - {key}
    ensures forall t :: t != s ==> Domain(r, t) == Domain(w, t)
  {
    match v
    case Some(x) => w[s := Domain(w, s)[key := x]]
    case None => w[s := Domain(w, s) - {key}]
  }

  /** `UserDefaults(suiteName:) ?? .standard`: the group's suite, or the
      standard one when the system refuses to open it. */
  function SuiteFor(groupName: string, unavailable: set<string>): (s: Suite)
    ensures s == StandardSuite <==> groupName in unavailable
    ensures s != StandardSuite ==> s == GroupSuite(groupName)
  {
    if groupName in unavailable then StandardSuite else GroupSuite(groupName)
  }

  /** Where the defaults are kept. */
  datatype TimeStoragePolicy = Standard | AppGroup(groupId: string)

  /** `TimeStoragePolicy(appGroupID:)`. */
  function PolicyFor(appGroupId: Option<string>): (p: TimeStoragePolicy)
    ensures p.Standard? <==> appGroupId.None?
    ensures p.AppGroup? ==> p.groupId == appGroupId.value
  {
    match appGroupId
    case None => Standard
    case Some(id) => AppGroup(id)
  }

  datatype TimeStorage = TimeStorage(suite: Suite)

  /** `TimeStorage(storagePolicy:)`: the suite the policy names, falling back
      to the standard one (the source asserts in debug builds). */
  function MakeTimeStorage(policy: TimeStoragePolicy, unavailable: set<string>): (t: TimeStorage)
    ensures policy.Standard? ==> t.suite == StandardSuite
    ensures policy.AppGroup? ==> t.suite == SuiteFor(policy.groupId, unavailable)
  {
    match policy
    case Standard => TimeStorage(StandardSuite)
    case AppGroup(name) => TimeStorage(SuiteFor(name, unavailable))
  }

  /** Reading the stored freeze: nothing unless a dictionary of times is
      stored under the key and it reloads on the current boot. */
  function LoadFreeze(domain: map<string, Value>, currentUptime: real, wallTime: real): (r: Option<TimeFreeze>)
    ensures StableTimeKey !in domain ==> r.None?
    ensures StableTimeKey in domain && domain[StableTimeKey].OtherValue? ==> r.None?
    ensures StableTimeKey in domain && domain[StableTimeKey].TimeDictionary? ==>
      r == FromDictionary(domain[StableTimeKey].entries, currentUptime, wallTime)
  {
    if StableTimeKey in domain then
      match domain[StableTimeKey]
      case TimeDictionary(d) => FromDictionary(d, currentUptime, wallTime)
      case OtherValue => None
    else None
  }

  /** `stableTime` (getter). */
  function GetStableTime(w: Domains, t: TimeStorage, currentUptime: real, wallTime: real): Option<TimeFreeze> {
    LoadFreeze(Domain(w, t.suite), currentUptime, wallTime)
  }

  /** `stableTime` (setter): a freeze is written as its dictionary under
      the key; `nil` is ignored and the stored value stays. */
  function SetStableTime(w: Domains, t: TimeStorage, f: Option<TimeFreeze>): (r: Domains)
    ensures f.None? ==> r == w
    ensures f.Some? ==> Domain(r, t.suite) == Domain(w, t.suite)[StableTimeKey := TimeDictionary(ToDictionary(f.value))]
    ensures forall s :: s != t.suite ==> Domain(r, s) == Domain(w, s)
  {
    match f
    case None => w
    case Some(freeze) => Write(w, t.suite, StableTimeKey, Some(TimeDictionary(ToDictionary(freeze))))
  }

  /** Storing a freeze and reading it back on the same boot gives the
      freeze, hence the same dictionary. */
  lemma SetThenGet(w: Domains, t: TimeStorage, f: TimeFreeze, currentUptime: real, wallTime: real)
    requires BootEstimate(currentUptime, wallTime) == BootEstimate(f.uptime, f.timestamp)
    ensures GetStableTime(SetStableTime(w, t, Some(f)), t, currentUptime, wallTime) == Some(f)
  {
    DictionaryRoundTrip(f, currentUptime, wallTime);
  }

  /** Setting `nil` leaves whatever was stored readable as before. */
  lemma SetNilKeepsStored(w: Domains, t: TimeStorage, currentUptime: real, wallTime: real)
    ensures GetStableTime(SetStableTime(w, t, None), t, currentUptime, wallTime)
      == GetStableTime(w, t, currentUptime, wallTime)
  {
  }

  /** The setter touches no key but `StableTimeKey`, in no suite but its own. */
  lemma SetWritesOnlyTheKey(w: Domains, t: TimeStorage, f: Option<TimeFreeze>, s: Suite, key: string)
    requires s != t.suite || key != StableTimeKey
    ensures key in Domain(SetStableTime(w, t, f), s) <==> key in Domain(w, s)
    ensures key in Domain(w, s) ==> Domain(SetStableTime(w, t, f), s)[key] == Domain(w, s)[key]
  {
  }
}
