/** `DefaultsController`: the process-wide variant of `TimeStorage`, whose
    suite follows a state that `updateAppGroupID` changes, and whose setter
    removes the stored freeze when given `nil`. */
module Defaults {
  import opened Wrappers
  import opened Freeze
  import Storage

  datatype UserDefaultsState = Standard | AppGroup(name: string)

  /** `makeState(appGroupID:)`. */
  function MakeState(appGroupId: Option<string>): (s: UserDefaultsState)
    ensures s.Standard? <==> appGroupId.None?
    ensures s.AppGroup? ==> s.name == appGroupId.value
  {
    match appGroupId
    case None => Standard
    case Some(id) => AppGroup(id)
  }

  /** The hand-written `==`. */
  predicate SameState(a: UserDefaultsState, b: UserDefaultsState) {
    match (a, b)
    case (Standard, Standard) => true
    case (AppGroup(g1), AppGroup(g2)) => g1 == g2
    case _ => false
  }

  /** The hand-written `==` is structural equality: standard equals
      standard, groups are equal when their names are, and mixed pairs
      differ. */
  lemma SameStateIsEquality(a: UserDefaultsState, b: UserDefaultsState)
    ensures SameState(a, b) <==> a == b
  {
  }

  /** The suite a state selects. */
  function SuiteOf(s: UserDefaultsState, unavailable: set<string>): Storage.Suite {
    match s
    case Standard => Storage.StandardSuite
    case AppGroup(name) => Storage.SuiteFor(name, unavailable)
  }

  /** The controller's two static variables. */
  datatype Controller = Controller(state: UserDefaultsState, suite: Storage.Suite)

  const InitialController: Controller := Controller(Standard, Storage.StandardSuite)

  /** Assigning the state: `didSet` switches the suite only when the new
      state differs from the old one. */
  function AssignState(c: Controller, next: UserDefaultsState, unavailable: set<string>): (r: Controller)
    ensures r.state == next
    ensures SameState(c.state, next) ==> r.suite == c.suite
    ensures !SameState(c.state, next) ==> r.suite == SuiteOf(next, unavailable)
  {
    if SameState(c.state, next) then c.(state := next)
    else Controller(next, SuiteOf(next, unavailable))
  }

  /** `updateAppGroupID(_:)`. */
  function UpdateAppGroupId(c: Controller, groupId: Option<string>, unavailable: set<string>): (r: Controller)
    ensures r.state == MakeState(groupId)
  {
    AssignState(c, MakeState(groupId), unavailable)
  }

  /** The suite always is the one the state selects: it holds initially
      and every update keeps it. */
  lemma SuiteFollowsState(c: Controller, groupId: Option<string>, unavailable: set<string>)
    requires c.suite == SuiteOf(c.state, unavailable)
    ensures InitialController.suite == SuiteOf(InitialController.state, unavailable)
    ensures UpdateAppGroupId(c, groupId, unavailable).suite ==
      SuiteOf(UpdateAppGroupId(c, groupId, unavailable).state, unavailable)
  {
    SameStateIsEquality(c.state, MakeState(groupId));
  }

  /** `stableTime` (getter). */
  function GetStableTime(w: Storage.Domains, c: Controller, currentUptime: real, wallTime: real): Option<TimeFreeze> {
    Storage.LoadFreeze(Storage.Domain(w, c.suite), currentUptime, wallTime)
  }

  /** `stableTime` (setter): the freeze's dictionary, or `nil`, which
      removes the key. */
  function SetStableTime(w: Storage.Domains, c: Controller, f: Option<TimeFreeze>): (r: Storage.Domains)
    ensures f.None? ==> Storage.StableTimeKey !in Storage.Domain(r, c.suite)
    ensures f.Some? ==> Storage.Domain(r, c.suite) == Storage.Domain(w, c.suite)[Storage.StableTimeKey := Storage.TimeDictionary(ToDictionary(f.value))]
    ensures forall s :: s != c.suite ==> Storage.Domain(r, s) == Storage.Domain(w, s)
  {
    Storage.Write(w, c.suite, Storage.StableTimeKey,
      match f
      case None => None
      case Some(freeze) => Some(Storage.TimeDictionary(ToDictionary(freeze))))
  }

  /** Unlike `TimeStorage`, storing `nil` forgets the freeze. */
  lemma StoringNilForgets(w: Storage.Domains, c: Controller, currentUptime: real, wallTime: real)
    ensures GetStableTime(SetStableTime(w, c, None), c, currentUptime, wallTime).None?
  {
  }

  /** Storing a freeze and reading it on the same boot gives it back, with
      an equal dictionary. */
  lemma SetThenGet(w: Storage.Domains, c: Controller, f: TimeFreeze, currentUptime: real, wallTime: real)
    requires BootEstimate(currentUptime, wallTime) == BootEstimate(f.uptime, f.timestamp)
    ensures GetStableTime(SetStableTime(w, c, Some(f)), c, currentUptime, wallTime) == Some(f)
    ensures ToDictionary(GetStableTime(SetStableTime(w, c, Some(f)), c, currentUptime, wallTime).value) == ToDictionary(f)
  {
    DictionaryRoundTrip(f, currentUptime, wallTime);
  }
}
