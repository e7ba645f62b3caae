/**
 * The schedule resolver (`get_current_class_and_end_time`): which module, if
 * any, a student of a given course year is in at a given moment.
 */
module Schedule {
  import opened Wrappers
  import opened Clock
  import opened Records

  /** `(module_id, attendance_time, end_time)`, or `(None, 0, None)` as `NoClass`. */
  datatype Resolution = NoClass | Active(moduleId: string, attendanceMinutes: nat, endTime: TimeOfDay)

  /**
   * Module `m` is in session for a student whose `courseYear` is `year`: the
   * years are equal (two missing years are equal too), the module's schedule
   * has an entry for today's name with both a start and an end time, and the
   * time of day lies between them, both ends included.
   */
  predicate InSession(m: ClassModule, year: Option<string>, now: Instant) {
    && m.year == year
    && DayName(now) in m.schedule
    && m.schedule[DayName(now)].startTime.Some?
    && m.schedule[DayName(now)].endTime.Some?
    && MicrosOfDay(m.schedule[DayName(now)].startTime.value) <= now.micros
    && now.micros <= MicrosOfDay(m.schedule[DayName(now)].endTime.value)
  }

  /** Module `k` is in session and no earlier module is. */
  predicate FirstInSession(modules: seq<ClassModule>, year: Option<string>, now: Instant, k: int) {
    && 0 <= k < |modules|
    && InSession(modules[k], year, now)
    && forall j :: 0 <= j < k ==> !InSession(modules[j], year, now)
  }

  /** What the resolver reports for a module in session: its id, `attendanceTime` or 0, and the end time. */
  function Activation(m: ClassModule, now: Instant): Resolution
    requires DayName(now) in m.schedule && m.schedule[DayName(now)].endTime.Some?
  {
    var window := m.schedule[DayName(now)];
    Active(m.id, match window.attendanceTime case Some(t) => t case None => 0, window.endTime.value)
  }

  /** The search over the modules from index `from` on, returning at the first one in session. */
  function ResolveFrom(modules: seq<ClassModule>, year: Option<string>, now: Instant, from: nat): Resolution
    requires from <= |modules|
    decreases |modules| - from
  {
    if from == |modules| then NoClass
    else if InSession(modules[from], year, now) then Activation(modules[from], now)
    else ResolveFrom(modules, year, now, from + 1)
  }

  /**
   * The search from `from` finds no class exactly when no module from there
   * on is in session, and otherwise reports the first one that is.
   */
  lemma {:induction false} ResolveFromMeaning(modules: seq<ClassModule>, year: Option<string>, now: Instant, from: nat)
    requires from <= |modules|
    ensures var r := ResolveFrom(modules, year, now, from);
            && (r.NoClass? <==> forall k :: from <= k < |modules| ==> !InSession(modules[k], year, now))
            && (r.Active? ==>
                  exists k :: from <= k < |modules| && InSession(modules[k], year, now)
                              && (forall j :: from <= j < k ==> !InSession(modules[j], year, now))
                              && r == Activation(modules[k], now))
    decreases |modules| - from
  {
    if from < |modules| {
      if InSession(modules[from], year, now) {
        assert ResolveFrom(modules, year, now, from) == Activation(modules[from], now);
      } else {
        ResolveFromMeaning(modules, year, now, from + 1);
        var r := ResolveFrom(modules, year, now, from + 1);
        assert ResolveFrom(modules, year, now, from) == r;
        if r.Active? {
          var k :| from + 1 <= k < |modules| && InSession(modules[k], year, now)
                   && (forall j :: from + 1 <= j < k ==> !InSession(modules[j], year, now))
                   && r == Activation(modules[k], now);
          assert forall j :: from <= j < k ==> !InSession(modules[j], year, now);
        }
      }
    }
  }

  /**
   * `get_current_class_and_end_time(student_year)` at `now`: the first module
   * in iteration order that is in session, or `NoClass` when none is.
   */
  function Resolve(modules: seq<ClassModule>, year: Option<string>, now: Instant): (r: Resolution)
    ensures r.NoClass? <==> forall k :: 0 <= k < |modules| ==> !InSession(modules[k], year, now)
    ensures r.Active? ==> exists k :: FirstInSession(modules, year, now, k) && r == Activation(modules[k], now)
  {
    ResolveFromMeaning(modules, year, now, 0);
    ResolveFrom(modules, year, now, 0)
  }

  /** With a schedule that does not overlap, the one module in session is the one reported. */
  lemma ResolveOnly(modules: seq<ClassModule>, year: Option<string>, now: Instant, k: nat)
    requires k < |modules| && InSession(modules[k], year, now)
    requires forall j :: 0 <= j < |modules| && j != k ==> !InSession(modules[j], year, now)
    ensures Resolve(modules, year, now) == Activation(modules[k], now)
  {
    var r := Resolve(modules, year, now);
    var k' :| FirstInSession(modules, year, now, k') && r == Activation(modules[k'], now);
    assert k' == k;
  }

  /** When two modules are in session, the earlier one in iteration order wins. */
  lemma EarlierWins(modules: seq<ClassModule>, year: Option<string>, now: Instant, i: nat, k: nat)
    requires UniqueIds(modules) && i < k < |modules|
    requires InSession(modules[i], year, now) && InSession(modules[k], year, now)
    ensures Resolve(modules, year, now).Active?
    ensures Resolve(modules, year, now).moduleId != modules[k].id
  {
    var r := Resolve(modules, year, now);
    var k' :| FirstInSession(modules, year, now, k') && r == Activation(modules[k'], now);
    assert k' <= i;
  }
}
