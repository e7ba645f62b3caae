/**
 * The attendance decision engine (`check_and_mark_attendance`) with the
 * registered-device lookup (`fetch_student_device_names`) and the record it
 * writes (`mark_student_present`).
 */
module Marking {
  import opened Wrappers
  import opened Clock
  import opened Records
  import opened Schedule
  import opened Tracker
  import opened Text
  import opened PresentTotals

  /** Student `k` is the last one in iteration order whose `deviceName` is `d`. */
  predicate LastOwner(students: seq<Student>, d: string, k: int) {
    && 0 <= k < |students|
    && students[k].deviceName == Some(d)
    && forall j :: k < j < |students| ==> students[j].deviceName != Some(d)
  }

  /**
   * `fetch_student_device_names`: each registered device name to the key of
   * the student who registered it; when two students share a name the later
   * one in iteration order wins.
   */
  function DeviceOwners(students: seq<Student>): (owners: map<string, string>)
    ensures forall d :: d in owners <==> exists k :: 0 <= k < |students| && students[k].deviceName == Some(d)
    ensures forall d :: d in owners ==> exists k :: LastOwner(students, d, k) && owners[d] == students[k].uuid
  {
    if students == [] then map[]
    else
      var owners := DeviceOwners(students[..|students| - 1]);
      OwnersStep(students, students[..|students| - 1], owners);
      Registered(owners, students[|students| - 1])
  }

  /** The owner map once one more student has been read. */
  function Registered(owners: map<string, string>, student: Student): map<string, string> {
    match student.deviceName
    case Some(d) => owners[d := student.uuid]
    case None => owners
  }

  lemma OwnersStep(students: seq<Student>, init: seq<Student>, owners: map<string, string>)
    requires |students| > 0 && init == students[..|students| - 1]
    requires forall d :: d in owners <==> exists k :: 0 <= k < |init| && init[k].deviceName == Some(d)
    requires forall d :: d in owners ==> exists k :: LastOwner(init, d, k) && owners[d] == init[k].uuid
    ensures var r := Registered(owners, students[|students| - 1]);
            && (forall d :: d in r <==> exists k :: 0 <= k < |students| && students[k].deviceName == Some(d))
            && (forall d :: d in r ==> exists k :: LastOwner(students, d, k) && r[d] == students[k].uuid)
  {
    var n := |students|;
    var last := students[n - 1];
    var r := Registered(owners, last);
    forall d ensures d in r <==> exists k :: 0 <= k < n && students[k].deviceName == Some(d) {
      if d in owners {
        var k :| 0 <= k < n - 1 && init[k].deviceName == Some(d);
        assert students[k] == init[k];
      }
      if k :| 0 <= k < n - 1 && students[k].deviceName == Some(d) {
        assert init[k] == students[k];
      }
    }
    forall d | d in r ensures exists k :: LastOwner(students, d, k) && r[d] == students[k].uuid {
      if last.deviceName == Some(d) {
        assert LastOwner(students, d, n - 1);
      } else {
        var k :| LastOwner(init, d, k) && owners[d] == init[k].uuid;
        assert forall j :: 0 <= j < n - 1 ==> init[j] == students[j];
        assert LastOwner(students, d, k);
      }
    }
  }

  /** The name `mark_student_present` writes: the module's `name`, or "Unknown Module". */
  function ModuleName(m: ClassModule): string {
    match m.name
    case Some(name) => name
    case None => "Unknown Module"
  }

  /**
   * `mark_student_present(uuid, module_id)`: the per-date record it `set`s,
   * or nothing when no module is stored under `moduleId`. The record holds
   * one entry only, so it replaces whatever the student had for the date.
   */
  function PresentRecord(modules: seq<ClassModule>, moduleId: string): (r: Option<AttendanceRecord>)
    ensures r.None? <==> forall i :: 0 <= i < |modules| ==> modules[i].id != moduleId
    ensures r.Some? ==> exists i :: 0 <= i < |modules| && modules[i].id == moduleId
                                   && r.value == Keyed([(moduleId, ModuleName(modules[i]) + ": present")])
  {
    match FindModule(modules, moduleId)
    case None => None
    case Some(m) => Some(Keyed([(moduleId, ModuleName(m) + ": present")]))
  }

  /**
   * The record `mark_student_present` writes is read back by the
   * present-count aggregator as one value that counts for the module's name,
   * as long as that name holds no ": ".
   */
  lemma PresentRecordCounts(modules: seq<ClassModule>, moduleId: string)
    requires PresentRecord(modules, moduleId).Some?
    requires forall i :: 0 <= i < |modules| && modules[i].id == moduleId ==> !Contains(ModuleName(modules[i]), ": ")
    ensures exists i :: 0 <= i < |modules| && modules[i].id == moduleId
                        && RecordValues(PresentRecord(modules, moduleId).value) == [ModuleName(modules[i]) + ": present"]
                        && CountedName(ModuleName(modules[i]) + ": present") == Some(ModuleName(modules[i]))
  {
    var i :| 0 <= i < |modules| && modules[i].id == moduleId
             && PresentRecord(modules, moduleId).value == Keyed([(moduleId, ModuleName(modules[i]) + ": present")]);
    PresentValueCounts(ModuleName(modules[i]));
  }

  /**
   * The students after the engine's writes: `attendance/{date}` of every
   * written student is `set` to its record, replacing what it held; nothing
   * else changes.
   */
  function ApplyMarks(students: seq<Student>, writes: map<string, AttendanceRecord>, date: string): (r: seq<Student>)
    ensures |r| == |students|
    ensures forall i :: 0 <= i < |students| ==>
              && r[i].uuid == students[i].uuid && r[i].deviceName == students[i].deviceName
              && r[i].courseYear == students[i].courseYear
              && (forall d :: d != date ==> RecordOn(r[i], d) == RecordOn(students[i], d))
              && RecordOn(r[i], date) == if students[i].uuid in writes then writes[students[i].uuid] else RecordOn(students[i], date)
  {
    seq(|students|, i requires 0 <= i < |students| =>
      var s := students[i];
      if s.uuid in writes then s.(attendance := s.attendance[date := writes[s.uuid]]) else s)
  }

  /**
   * Marks written under one date leave the totals computed for any other date
   * as they were: marks made after midnight under the new day's date are not
   * seen by totals computed for the start-up date.
   */
  lemma MarksOnOtherDateUnseen(modules: seq<ClassModule>, students: seq<Student>, writes: map<string, AttendanceRecord>,
                               markDate: string, date: string)
    requires UniqueIds(modules) && markDate != date
    ensures PresentTotals.PresentTotals(modules, ApplyMarks(students, writes, markDate), date)
            == PresentTotals.PresentTotals(modules, students, date)
  {
    var after := ApplyMarks(students, writes, markDate);
    SameRecordsSameValues(after, students, date, |students|);
  }

  /** A decision to mark the student `uuid` present for module `moduleId`. */
  datatype Mark = Mark(uuid: string, moduleId: string)

  /**
   * The decision for one tracked device seen since `since`: its name is
   * registered, its student's year has a module in session whose id is not
   * empty, and the device has been seen for at least `attendanceTime` minutes.
   */
  function Verdict(owners: map<string, string>, students: seq<Student>, modules: seq<ClassModule>,
                   now: Instant, device: string, since: int): (m: Option<Mark>)
    ensures m.Some? ==> device in owners && m.value.uuid == owners[device] && m.value.moduleId != ""
  {
    if device !in owners then None
    else
      match FindStudent(students, owners[device])
      case None => None  // the owner map is read from the same students, so the student is always found
      case Some(student) =>
        match Resolve(modules, student.courseYear, now)
        case NoClass => None
        case Active(id, minutes, _) =>
          if id != "" && Stamp(now) - since >= minutes * MicrosPerMinute then Some(Mark(owners[device], id))
          else None
  }

  /**
   * The record the engine writes for student `uuid` when one of its devices
   * is marked: the module in session for the student's year decides it, the
   * device does not.
   */
  function StudentRecord(students: seq<Student>, modules: seq<ClassModule>, now: Instant, uuid: string): (r: Option<AttendanceRecord>)
    ensures r.Some? ==> FindStudent(students, uuid).Some? && r.value.Keyed? && |r.value.entries| == 1
  {
    match FindStudent(students, uuid)
    case None => None
    case Some(student) =>
      match Resolve(modules, student.courseYear, now)
      case NoClass => None
      case Active(id, _, _) => PresentRecord(modules, id)
  }

  /** The tracked map after a pass of the engine: every device that is marked restarts at `now`. */
  function Restamped(tracked: map<string, int>, owners: map<string, string>, students: seq<Student>,
                     modules: seq<ClassModule>, now: Instant): (r: map<string, int>)
    ensures r.Keys == tracked.Keys
  {
    map d | d in tracked :: if Verdict(owners, students, modules, now, d, tracked[d]).Some? then Stamp(now) else tracked[d]
  }

  /** The students marked in a pass over the devices in `devices`. */
  function MarkedStudents(tracked: map<string, int>, devices: set<string>, owners: map<string, string>,
                          students: seq<Student>, modules: seq<ClassModule>, now: Instant): set<string>
    requires devices <= tracked.Keys
  {
    set d | d in devices && Verdict(owners, students, modules, now, d, tracked[d]).Some? && d in owners :: owners[d]
  }

  /** The record the engine would write for each student, by student key. */
  function StudentRecords(students: seq<Student>, modules: seq<ClassModule>, now: Instant): map<string, AttendanceRecord> {
    map s | s in students && StudentRecord(students, modules, now, s.uuid).Some? :: s.uuid := StudentRecord(students, modules, now, s.uuid).value
  }

  /** The records written for the students in `marked`. */
  function WritesOf(marked: set<string>, records: map<string, AttendanceRecord>): map<string, AttendanceRecord> {
    map u | u in marked && u in records :: records[u]
  }

  /** The records a pass writes: one per marked student whose module is stored. */
  function Writes(tracked: map<string, int>, owners: map<string, string>, students: seq<Student>,
                  modules: seq<ClassModule>, now: Instant): (w: map<string, AttendanceRecord>)
    ensures forall u :: u in w ==> exists d :: d in tracked && d in owners && owners[d] == u
    ensures forall u :: u in w ==> StudentRecord(students, modules, now, u) == Some(w[u])
  {
    WritesOf(MarkedStudents(tracked, tracked.Keys, owners, students, modules, now), StudentRecords(students, modules, now))
  }

  /**
   * The state of the engine's pass once the devices in `done` are decided:
   * those carry their restamped time, the others their old one, and the
   * marks and writes are those of `done`.
   */
  ghost predicate PassState(since: map<string, int>, writes: map<string, AttendanceRecord>, marked: set<string>,
                            done: set<string>, before: map<string, int>, stamped: map<string, int>,
                            owners: map<string, string>, students: seq<Student>, modules: seq<ClassModule>, now: Instant)
  {
    && done <= before.Keys
    && since.Keys == before.Keys
    && stamped == Restamped(before, owners, students, modules, now)
    && (forall d :: d in before && d !in done ==> since[d] == before[d])
    && (forall d :: d in done ==> since[d] == stamped[d])
    && marked == MarkedStudents(before, done, owners, students, modules, now)
    && writes == WritesOf(marked, StudentRecords(students, modules, now))
  }

  /**
   * `check_and_mark_attendance()` at `now` over the tracked devices: the
   * records written, by student key, and the devices restarted at `now`.
   * A device restarts even when no module is stored under the id the
   * resolver gave.
   */
  method CheckAndMark(tracker: PresenceTracker, students: seq<Student>, modules: seq<ClassModule>, now: Instant)
    returns (writes: map<string, AttendanceRecord>)
    modifies tracker
    ensures tracker.since == Restamped(old(tracker.since), DeviceOwners(students), students, modules, now)
    ensures writes == Writes(old(tracker.since), DeviceOwners(students), students, modules, now)
  {
    var owners := DeviceOwners(students);
    ghost var before := tracker.since;
    ghost var stamped := Restamped(before, owners, students, modules, now);
    ghost var marked: set<string> := {};
    ghost var done: set<string> := {};
    var pending := tracker.since.Keys;
    writes := map[];
    assert writes == WritesOf(marked, StudentRecords(students, modules, now));
    while pending != {}
      invariant pending == before.Keys - done
      invariant PassState(tracker.since, writes, marked, done, before, stamped, owners, students, modules, now)
      decreases pending
    {
      var d :| d in pending;
      StepState(tracker.since, writes, marked, done, before, stamped, owners, students, modules, now, d);
      var v := Verdict(owners, students, modules, now, d, tracker.since[d]);
      if v.Some? {
        var record := PresentRecord(modules, v.value.moduleId);
        if record.Some? {
          writes := writes[v.value.uuid := record.value];
        }
        tracker.since := tracker.since[d := Stamp(now)];
        marked := marked + {v.value.uuid};
      }
      pending := pending - {d};
      done := done + {d};
    }
    assert done == before.Keys;
    assert tracker.since == stamped;
  }

  /** Deciding one more device keeps the pass's state. */
  lemma StepState(since: map<string, int>, writes: map<string, AttendanceRecord>, marked: set<string>,
                  done: set<string>, before: map<string, int>, stamped: map<string, int>,
                  owners: map<string, string>, students: seq<Student>, modules: seq<ClassModule>, now: Instant, d: string)
    requires PassState(since, writes, marked, done, before, stamped, owners, students, modules, now)
    requires d in before && d !in done
    ensures var v := Verdict(owners, students, modules, now, d, since[d]);
            var record := if v.Some? then PresentRecord(modules, v.value.moduleId) else None;
            PassState(if v.Some? then since[d := Stamp(now)] else since,
                      if record.Some? then writes[v.value.uuid := record.value] else writes,
                      if v.Some? then marked + {v.value.uuid} else marked,
                      done + {d}, before, stamped, owners, students, modules, now)
  {
    assert since[d] == before[d];
    StepSince(since, done, before, stamped, owners, students, modules, now, d);
    StepMarks(writes, marked, done, before, owners, students, modules, now, d);
  }

  /** Deciding one more device restamps it when it is marked and leaves the others alone. */
  lemma StepSince(since: map<string, int>, done: set<string>, before: map<string, int>, stamped: map<string, int>,
                  owners: map<string, string>, students: seq<Student>, modules: seq<ClassModule>, now: Instant, d: string)
    requires done <= before.Keys && since.Keys == before.Keys
    requires stamped == Restamped(before, owners, students, modules, now)
    requires forall e :: e in before && e !in done ==> since[e] == before[e]
    requires forall e :: e in done ==> since[e] == stamped[e]
    requires d in before && d !in done
    ensures var v := Verdict(owners, students, modules, now, d, since[d]);
            var since' := if v.Some? then since[d := Stamp(now)] else since;
            && since'.Keys == before.Keys
            && (forall e :: e in before && e !in done + {d} ==> since'[e] == before[e])
            && (forall e :: e in done + {d} ==> since'[e] == stamped[e])
  {
    var v := Verdict(owners, students, modules, now, d, since[d]);
    var since' := if v.Some? then since[d := Stamp(now)] else since;
    assert stamped[d] == if v.Some? then Stamp(now) else before[d];
    forall e | e in done + {d} ensures since'[e] == stamped[e] {
      if e != d {
        assert e in done && since'[e] == since[e];
      }
    }
    forall e | e in before && e !in done + {d} ensures since'[e] == before[e] {
      assert since'[e] == since[e];
    }
  }

  /** Deciding one more device adds its student to the marked ones and its record to the writes. */
  lemma StepMarks(writes: map<string, AttendanceRecord>, marked: set<string>, done: set<string>, before: map<string, int>,
                  owners: map<string, string>, students: seq<Student>, modules: seq<ClassModule>, now: Instant, d: string)
    requires done <= before.Keys && d in before
    requires marked == MarkedStudents(before, done, owners, students, modules, now)
    requires writes == WritesOf(marked, StudentRecords(students, modules, now))
    ensures var v := Verdict(owners, students, modules, now, d, before[d]);
            var record := if v.Some? then PresentRecord(modules, v.value.moduleId) else None;
            var marked' := if v.Some? then marked + {v.value.uuid} else marked;
            && marked' == MarkedStudents(before, done + {d}, owners, students, modules, now)
            && (if record.Some? then writes[v.value.uuid := record.value] else writes)
               == WritesOf(marked', StudentRecords(students, modules, now))
  {
    var v := Verdict(owners, students, modules, now, d, before[d]);
    var records := StudentRecords(students, modules, now);
    MarkedGrow(before, done, d, owners, students, modules, now);
    if v.Some? {
      VerdictRecord(owners, students, modules, now, d, before[d]);
      WritesGrow(marked, v.value.uuid, records);
    }
  }

  /** Marking one more student adds its record, if any, to the writes. */
  lemma WritesGrow(marked: set<string>, u: string, records: map<string, AttendanceRecord>)
    ensures WritesOf(marked + {u}, records)
            == if u in records then WritesOf(marked, records)[u := records[u]] else WritesOf(marked, records)
  {
    var a := WritesOf(marked, records);
    var b := WritesOf(marked + {u}, records);
    if u in records {
      assert b.Keys == a.Keys + {u};
    } else {
      assert b.Keys == a.Keys;
    }
  }

  /** Deciding one more device adds its student to the marked ones exactly when it is marked. */
  lemma MarkedGrow(tracked: map<string, int>, done: set<string>, d: string, owners: map<string, string>,
                   students: seq<Student>, modules: seq<ClassModule>, now: Instant)
    requires done <= tracked.Keys && d in tracked
    ensures var v := Verdict(owners, students, modules, now, d, tracked[d]);
            MarkedStudents(tracked, done + {d}, owners, students, modules, now)
            == MarkedStudents(tracked, done, owners, students, modules, now) + (if v.Some? then {v.value.uuid} else {})
  {
  }

  /** A marked device's record is its student's record. */
  lemma VerdictRecord(owners: map<string, string>, students: seq<Student>, modules: seq<ClassModule>,
                      now: Instant, d: string, since: int)
    requires Verdict(owners, students, modules, now, d, since).Some?
    ensures var v := Verdict(owners, students, modules, now, d, since).value;
            var records := StudentRecords(students, modules, now);
            && v.uuid == owners[d]
            && (PresentRecord(modules, v.moduleId).Some? <==> v.uuid in records)
            && (v.uuid in records ==> records[v.uuid] == PresentRecord(modules, v.moduleId).value)
  {
    var v := Verdict(owners, students, modules, now, d, since).value;
    assert PresentRecord(modules, v.moduleId) == StudentRecord(students, modules, now, v.uuid);
    RecordsAt(students, modules, now, v.uuid);
  }

  /** `StudentRecords` holds exactly the students that have a record. */
  lemma RecordsAt(students: seq<Student>, modules: seq<ClassModule>, now: Instant, u: string)
    ensures var records := StudentRecords(students, modules, now);
            && (u in records <==> StudentRecord(students, modules, now, u).Some?)
            && (u in records ==> records[u] == StudentRecord(students, modules, now, u).value)
  {
    var r := StudentRecord(students, modules, now, u);
    if r.Some? {
      var s := FindStudent(students, u).value;
      assert s in students && s.uuid == u;
    }
  }

  /**
   * Device `d`, tracked since `since`, qualifies through student `k` and
   * module `i`: `k` is the student the owner map gives for `d`, `i` is the
   * first module in session for that student's year, its id is not empty,
   * and at least its attendance time has elapsed.
   */
  ghost predicate Qualifies(students: seq<Student>, modules: seq<ClassModule>, now: Instant,
                            d: string, since: int, k: int, i: int)
  {
    && LastOwner(students, d, k)
    && FirstInSession(modules, students[k].courseYear, now, i)
    && modules[i].id != ""
    && Stamp(now) - since >= Activation(modules[i], now).attendanceMinutes * MicrosPerMinute
  }

  /**
   * The engine marks a device exactly when it qualifies, and then for the
   * student who registered it last and the first module in session.
   */
  lemma VerdictMeaning(students: seq<Student>, modules: seq<ClassModule>, now: Instant, d: string, since: int)
    requires UniqueUuids(students)
    ensures Verdict(DeviceOwners(students), students, modules, now, d, since).Some?
            <==> exists k, i :: Qualifies(students, modules, now, d, since, k, i)
    ensures forall k, i :: Qualifies(students, modules, now, d, since, k, i) ==>
              Verdict(DeviceOwners(students), students, modules, now, d, since) == Some(Mark(students[k].uuid, modules[i].id))
  {
    var owners := DeviceOwners(students);
    var v := Verdict(owners, students, modules, now, d, since);
    forall k, i | Qualifies(students, modules, now, d, since, k, i)
      ensures v == Some(Mark(students[k].uuid, modules[i].id))
    {
      assert d in owners;
      var k' :| LastOwner(students, d, k') && owners[d] == students[k'].uuid;
      LastOwnerUnique(students, d, k, k');
      FoundIsOwner(students, k);
      var r := Resolve(modules, students[k].courseYear, now);
      assert r.Active?;
      var i' :| FirstInSession(modules, students[k].courseYear, now, i') && r == Activation(modules[i'], now);
      FirstUnique(modules, students[k].courseYear, now, i, i');
    }
    if v.Some? {
      var k :| LastOwner(students, d, k) && owners[d] == students[k].uuid;
      FoundIsOwner(students, k);
      var r := Resolve(modules, students[k].courseYear, now);
      var i :| FirstInSession(modules, students[k].courseYear, now, i) && r == Activation(modules[i], now);
      assert Qualifies(students, modules, now, d, since, k, i);
    }
  }

  lemma LastOwnerUnique(students: seq<Student>, d: string, k: int, k': int)
    requires LastOwner(students, d, k) && LastOwner(students, d, k')
    ensures k == k'
  {
  }

  lemma FirstUnique(modules: seq<ClassModule>, year: Option<string>, now: Instant, i: int, i': int)
    requires FirstInSession(modules, year, now, i) && FirstInSession(modules, year, now, i')
    ensures i == i'
  {
  }

  /** With unique keys, looking a student up by its own key finds that student. */
  lemma FoundIsOwner(students: seq<Student>, k: int)
    requires UniqueUuids(students) && 0 <= k < |students|
    ensures FindStudent(students, students[k].uuid) == Some(students[k])
  {
    var s := FindStudent(students, students[k].uuid).value;
    var j :| 0 <= j < |students| && students[j] == s;
    assert students[j].uuid == students[k].uuid;
  }

  /**
   * The tracked map after the engine's pass: a device restarts at `now`
   * when it qualifies and keeps its time otherwise; no device is added or
   * dropped.
   */
  lemma RestartedExactly(tracked: map<string, int>, students: seq<Student>, modules: seq<ClassModule>, now: Instant, d: string)
    requires UniqueUuids(students) && d in tracked
    ensures var r := Restamped(tracked, DeviceOwners(students), students, modules, now);
            && r.Keys == tracked.Keys
            && ((exists k, i :: Qualifies(students, modules, now, d, tracked[d], k, i)) ==> r[d] == Stamp(now))
            && (!(exists k, i :: Qualifies(students, modules, now, d, tracked[d], k, i)) ==> r[d] == tracked[d])
  {
    VerdictMeaning(students, modules, now, d, tracked[d]);
  }

  /** A device that qualifies exactly at its attendance time is marked: the threshold is inclusive. */
  lemma ThresholdInclusive(students: seq<Student>, modules: seq<ClassModule>, now: Instant, d: string, k: int, i: int)
    requires UniqueUuids(students) && LastOwner(students, d, k)
    requires FirstInSession(modules, students[k].courseYear, now, i) && modules[i].id != ""
    ensures var since := Stamp(now) - Activation(modules[i], now).attendanceMinutes * MicrosPerMinute;
            Verdict(DeviceOwners(students), students, modules, now, d, since) == Some(Mark(students[k].uuid, modules[i].id))
  {
    var since := Stamp(now) - Activation(modules[i], now).attendanceMinutes * MicrosPerMinute;
    assert Qualifies(students, modules, now, d, since, k, i);
    VerdictMeaning(students, modules, now, d, since);
  }

  /**
   * A device the pass restarted is not marked again at the same moment
   * unless its module's attendance time is zero.
   */
  lemma NoImmediateRemark(tracked: map<string, int>, students: seq<Student>, modules: seq<ClassModule>, now: Instant, d: string, k: int, i: int)
    requires UniqueUuids(students) && d in tracked
    requires Qualifies(students, modules, now, d, tracked[d], k, i)
    requires Activation(modules[i], now).attendanceMinutes > 0
    ensures var r := Restamped(tracked, DeviceOwners(students), students, modules, now);
            Verdict(DeviceOwners(students), students, modules, now, d, r[d]).None?
  {
    var r := Restamped(tracked, DeviceOwners(students), students, modules, now);
    RestartedExactly(tracked, students, modules, now, d);
    VerdictMeaning(students, modules, now, d, r[d]);
    if k', i' :| Qualifies(students, modules, now, d, r[d], k', i') {
      LastOwnerUnique(students, d, k, k');
      FirstUnique(modules, students[k].courseYear, now, i, i');
    }
  }

  /**
   * Every record the pass writes goes to a student one of whose tracked
   * devices was marked, and is the single entry for the module it was
   * marked for; every marked student whose module is stored gets one.
   */
  lemma WritesMeaning(tracked: map<string, int>, students: seq<Student>, modules: seq<ClassModule>, now: Instant)
    ensures var owners := DeviceOwners(students);
            var w := Writes(tracked, owners, students, modules, now);
            forall u :: u in w <==>
              exists d :: d in tracked && Verdict(owners, students, modules, now, d, tracked[d]).Some?
                          && Verdict(owners, students, modules, now, d, tracked[d]).value.uuid == u
                          && PresentRecord(modules, Verdict(owners, students, modules, now, d, tracked[d]).value.moduleId).Some?
    ensures var owners := DeviceOwners(students);
            var w := Writes(tracked, owners, students, modules, now);
            forall d :: d in tracked && Verdict(owners, students, modules, now, d, tracked[d]).Some? ==>
              var m := Verdict(owners, students, modules, now, d, tracked[d]).value;
              PresentRecord(modules, m.moduleId).Some? ==> w[m.uuid] == PresentRecord(modules, m.moduleId).value
  {
    var owners := DeviceOwners(students);
    forall d | d in tracked && Verdict(owners, students, modules, now, d, tracked[d]).Some?
      ensures var m := Verdict(owners, students, modules, now, d, tracked[d]).value;
              (PresentRecord(modules, m.moduleId).Some? <==> m.uuid in StudentRecords(students, modules, now))
              && (m.uuid in StudentRecords(students, modules, now) ==>
                    StudentRecords(students, modules, now)[m.uuid] == PresentRecord(modules, m.moduleId).value)
    {
      VerdictRecord(owners, students, modules, now, d, tracked[d]);
    }
  }
}
