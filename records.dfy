/**
 * The documents the script reads from and writes to its data store, with the
 * keys it uses. A store collection (`/modules`, `/students`) is a sequence in
 * the store's iteration order, with unique keys.
 */
module Records {
  import opened Wrappers
  import opened Clock

  /** One weekday of a module's `schedule`: `startTime`, `endTime`, `attendanceTime` (minutes). */
  datatype DayWindow = DayWindow(startTime: Option<TimeOfDay>, endTime: Option<TimeOfDay>, attendanceTime: Option<nat>)

  /** What the script writes under `/modules/{id}/{date}`. */
  datatype DateTotals = DateTotals(totalStudentsPresent: Option<nat>, totalStudents: Option<nat>)

  /** A node of `/modules`: its key, `name`, `year`, `schedule` keyed by day name, and the per-date totals. */
  datatype ClassModule = ClassModule(
    id: string,
    name: Option<string>,
    year: Option<string>,
    schedule: map<string, DayWindow>,
    totals: map<string, DateTotals>)

  /**
   * A student's attendance entry for one date: absent, the legacy single
   * `"<module name>: <status>"` string, or a dictionary from module id to
   * such a string (its items in iteration order).
   */
  datatype AttendanceRecord = Missing | Legacy(text: string) | Keyed(entries: seq<(string, string)>)

  /** A node of `/students`: its key, `deviceName`, `courseYear` and `attendance` keyed by date. */
  datatype Student = Student(
    uuid: string,
    deviceName: Option<string>,
    courseYear: Option<string>,
    attendance: map<string, AttendanceRecord>)

  /** Python truthiness of an optional string field. */
  predicate Truthy(o: Option<string>) {
    o.Some? && o.value != ""
  }

  predicate UniqueIds(modules: seq<ClassModule>) {
    forall i, j :: 0 <= i < j < |modules| ==> modules[i].id != modules[j].id
  }

  predicate UniqueUuids(students: seq<Student>) {
    forall i, j :: 0 <= i < j < |students| ==> students[i].uuid != students[j].uuid
  }

  /** `student_info.get("attendance", {}).get(date)`. */
  function RecordOn(s: Student, date: string): AttendanceRecord {
    if date in s.attendance then s.attendance[date] else Missing
  }

  /** `/modules/{id}` read: the module stored under `id`, if any. */
  function FindModule(modules: seq<ClassModule>, id: string): (r: Option<ClassModule>)
    ensures r.None? <==> forall i :: 0 <= i < |modules| ==> modules[i].id != id
    ensures r.Some? ==> r.value in modules && r.value.id == id
  {
    if modules == [] then None
    else if modules[0].id == id then Some(modules[0])
    else FindModule(modules[1..], id)
  }

  /**
   * `/students/{uuid}` read: the student stored under `uuid`, if any. This is
   * the same search as `FindModule`, over a different store and key field;
   * the two are kept apart so that each lemma speaks of its own store.
   */
  function FindStudent(students: seq<Student>, uuid: string): (r: Option<Student>)
    ensures r.None? <==> forall i :: 0 <= i < |students| ==> students[i].uuid != uuid
    ensures r.Some? ==> r.value in students && r.value.uuid == uuid
  {
    if students == [] then None
    else if students[0].uuid == uuid then Some(students[0])
    else FindStudent(students[1..], uuid)
  }
}
