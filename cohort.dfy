/**
 * The cohort headcount (`get_total_students_per_year` and
 * `update_module_student_totals`): students are grouped by their course
 * year, and every module with a year is given the size of that year's
 * cohort as its `totalStudents` for the date.
 */
module Cohort {
  import opened Wrappers
  import opened Records
  import opened PresentTotals

  /** How many students have course year `year`. */
  function CohortSize(students: seq<Student>, year: string): (n: nat)
    ensures n <= |students|
  {
    if students == [] then 0
    else CohortSize(students[..|students| - 1], year) + if students[|students| - 1].courseYear == Some(year) then 1 else 0
  }

  /** A cohort is empty exactly when no student has that year. */
  lemma {:induction false} CohortSizeZero(students: seq<Student>, year: string)
    ensures CohortSize(students, year) == 0 <==> forall i :: 0 <= i < |students| ==> students[i].courseYear != Some(year)
  {
    if students != [] {
      var init := students[..|students| - 1];
      CohortSizeZero(init, year);
      assert forall i :: 0 <= i < |init| ==> init[i] == students[i];
    }
  }

  /** The truthy course years of the students. */
  function Years(students: seq<Student>): set<string> {
    set i | 0 <= i < |students| && Truthy(students[i].courseYear) :: students[i].courseYear.value
  }

  /** `get_total_students_per_year()`: each truthy course year to the size of its cohort. */
  function YearCounts(students: seq<Student>): map<string, nat> {
    map y | y in Years(students) :: CohortSize(students, y)
  }

  /** Every year in the table has a non-empty cohort, and no empty year is in it. */
  lemma YearCountsMeaning(students: seq<Student>)
    ensures var counts := YearCounts(students);
            forall y :: y in counts <==> y != "" && CohortSize(students, y) > 0
  {
    var counts := YearCounts(students);
    forall y ensures y in counts <==> y != "" && CohortSize(students, y) > 0 {
      CohortSizeZero(students, y);
      if y != "" && CohortSize(students, y) > 0 {
        var i :| 0 <= i < |students| && students[i].courseYear == Some(y);
        assert Truthy(students[i].courseYear);
      }
    }
  }

  /** The loop of `get_total_students_per_year`, one student at a time. */
  method StudentsPerYear(students: seq<Student>) returns (perYear: map<string, nat>)
    ensures perYear == YearCounts(students)
  {
    perYear := map[];
    for i := 0 to |students|
      invariant perYear == YearCounts(students[..i])
    {
      var year := students[i].courseYear;
      PerYearStep(students[..i], students[i]);
      if year.Some? && year.value != "" {
        perYear := perYear[year.value := if year.value in perYear then perYear[year.value] + 1 else 1];
      }
      assert students[..i + 1] == students[..i] + [students[i]];
    }
    assert students[..|students|] == students;
  }

  /** Counting one more student adds one to its truthy year, starting that year at one. */
  lemma PerYearStep(students: seq<Student>, student: Student)
    ensures var counts := YearCounts(students);
            var year := student.courseYear;
            YearCounts(students + [student])
            == if year.Some? && year.value != "" then counts[year.value := if year.value in counts then counts[year.value] + 1 else 1]
               else counts
  {
    var all := students + [student];
    assert all[..|students|] == students;
    var counts := YearCounts(students);
    var counts' := YearCounts(all);
    var year := student.courseYear;
    YearCountsMeaning(students);
    YearCountsMeaning(all);
    if year.Some? && year.value != "" {
      assert Years(all) == Years(students) + {year.value} by {
        assert all[|students|] == student;
        forall y | y in Years(all) ensures y in Years(students) + {year.value} {
          var i :| 0 <= i < |all| && Truthy(all[i].courseYear) && all[i].courseYear.value == y;
          if i < |students| {
            assert students[i] == all[i];
          }
        }
        forall y | y in Years(students) ensures y in Years(all) {
          var i :| 0 <= i < |students| && Truthy(students[i].courseYear) && students[i].courseYear.value == y;
          assert all[i] == students[i];
        }
      }
    } else {
      assert Years(all) == Years(students) by {
        forall y | y in Years(all) ensures y in Years(students) {
          var i :| 0 <= i < |all| && Truthy(all[i].courseYear) && all[i].courseYear.value == y;
          assert i < |students|;
          assert students[i] == all[i];
        }
        forall y | y in Years(students) ensures y in Years(all) {
          var i :| 0 <= i < |students| && Truthy(students[i].courseYear) && students[i].courseYear.value == y;
          assert all[i] == students[i];
        }
      }
    }
  }

  /** The size written for a module of year `year`: `totals.get(year, 0)`. */
  function YearTotal(perYear: map<string, nat>, year: string): nat {
    if year in perYear then perYear[year] else 0
  }

  /** The writes of `update_module_student_totals` after its first `k` modules. */
  function WritesUpTo(modules: seq<ClassModule>, perYear: map<string, nat>, k: nat): map<string, nat>
    requires k <= |modules|
  {
    if k == 0 then map[]
    else
      var w := WritesUpTo(modules, perYear, k - 1);
      var year := modules[k - 1].year;
      if Truthy(year) then w[modules[k - 1].id := YearTotal(perYear, year.value)] else w
  }

  /**
   * What `update_module_student_totals(date)` writes: for every module
   * whose year is truthy, its `totalStudents`, by module id.
   */
  function Headcounts(modules: seq<ClassModule>, students: seq<Student>): map<string, nat> {
    WritesUpTo(modules, YearCounts(students), |modules|)
  }

  /** After `k` modules, exactly the ids of those with a truthy year are written, each with its year's total. */
  lemma {:induction false} WritesUpToMeaning(modules: seq<ClassModule>, perYear: map<string, nat>, k: nat)
    requires UniqueIds(modules) && k <= |modules|
    ensures var w := WritesUpTo(modules, perYear, k);
            && (forall x :: x in w ==> exists i :: 0 <= i < k && modules[i].id == x)
            && (forall i :: 0 <= i < k ==>
                  && (modules[i].id in w <==> Truthy(modules[i].year))
                  && (Truthy(modules[i].year) ==> w[modules[i].id] == YearTotal(perYear, modules[i].year.value)))
  {
    if k > 0 {
      WritesUpToMeaning(modules, perYear, k - 1);
    }
  }

  /**
   * Exactly the modules with a truthy year are written, each with the size
   * of its year's cohort (0 when the year has no students), and nothing
   * else is written.
   */
  lemma HeadcountsMeaning(modules: seq<ClassModule>, students: seq<Student>)
    requires UniqueIds(modules)
    ensures var w := Headcounts(modules, students);
            && (forall x :: x in w ==> exists i :: 0 <= i < |modules| && modules[i].id == x)
            && (forall i :: 0 <= i < |modules| ==>
                  && (modules[i].id in w <==> Truthy(modules[i].year))
                  && (Truthy(modules[i].year) ==> w[modules[i].id] == CohortSize(students, modules[i].year.value)))
  {
    var perYear := YearCounts(students);
    WritesUpToMeaning(modules, perYear, |modules|);
    YearCountsMeaning(students);
    forall i | 0 <= i < |modules| && Truthy(modules[i].year)
      ensures YearTotal(perYear, modules[i].year.value) == CohortSize(students, modules[i].year.value)
    {
      CohortSizeZero(students, modules[i].year.value);
    }
  }

  /** The loop of `update_module_student_totals` over the modules. */
  method UpdateModuleStudentTotals(modules: seq<ClassModule>, students: seq<Student>) returns (writes: map<string, nat>)
    ensures writes == Headcounts(modules, students)
  {
    var perYear := StudentsPerYear(students);
    writes := map[];
    for k := 0 to |modules|
      invariant writes == WritesUpTo(modules, perYear, k)
    {
      var year := modules[k].year;
      if year.Some? && year.value != "" {
        var total := if year.value in perYear then perYear[year.value] else 0;
        writes := writes[modules[k].id := total];
      }
    }
  }

  /** The writes read only the modules' ids and years. */
  lemma {:induction false} WritesReadIdsAndYears(m1: seq<ClassModule>, m2: seq<ClassModule>, perYear: map<string, nat>, k: nat)
    requires |m1| == |m2| && k <= |m1|
    requires forall i :: 0 <= i < |m1| ==> m1[i].id == m2[i].id && m1[i].year == m2[i].year
    ensures WritesUpTo(m1, perYear, k) == WritesUpTo(m2, perYear, k)
  {
    if k > 0 {
      WritesReadIdsAndYears(m1, m2, perYear, k - 1);
    }
  }

  /** The headcount reads only the students' course years: attendance and devices do not matter. */
  lemma {:induction false} CohortSizeReadsYears(s1: seq<Student>, s2: seq<Student>, year: string)
    requires |s1| == |s2| && forall i :: 0 <= i < |s1| ==> s1[i].courseYear == s2[i].courseYear
    ensures CohortSize(s1, year) == CohortSize(s2, year)
  {
    if s1 != [] {
      var n := |s1|;
      CohortSizeReadsYears(s1[..n - 1], s2[..n - 1], year);
    }
  }

  /** Marking students present (or any change beside their course years) leaves the headcount unchanged. */
  lemma HeadcountIgnoresAttendance(modules: seq<ClassModule>, s1: seq<Student>, s2: seq<Student>)
    requires |s1| == |s2| && forall i :: 0 <= i < |s1| ==> s1[i].courseYear == s2[i].courseYear
    ensures Headcounts(modules, s1) == Headcounts(modules, s2)
  {
    assert Years(s1) == Years(s2);
    forall y | y in Years(s1) ensures CohortSize(s1, y) == CohortSize(s2, y) {
      CohortSizeReadsYears(s1, s2, y);
    }
    assert YearCounts(s1) == YearCounts(s2);
  }

  /** The store after the headcount write-back: `update({"totalStudents": n})` on each written date node. */
  function ApplyHeadcount(modules: seq<ClassModule>, writes: map<string, nat>, date: string): (r: seq<ClassModule>)
    ensures |r| == |modules|
    ensures forall i :: 0 <= i < |modules| ==>
              && r[i].id == modules[i].id && r[i].name == modules[i].name && r[i].year == modules[i].year
              && r[i].schedule == modules[i].schedule
              && (forall d :: d != date ==> TotalsOn(r[i], d) == TotalsOn(modules[i], d))
              && TotalsOn(r[i], date).totalStudentsPresent == TotalsOn(modules[i], date).totalStudentsPresent
              && TotalsOn(r[i], date).totalStudents
                 == if modules[i].id in writes then Some(writes[modules[i].id]) else TotalsOn(modules[i], date).totalStudents
  {
    seq(|modules|, i requires 0 <= i < |modules| => HeadcountWritten(modules[i], writes, date))
  }

  /** One module after the headcount write-back. */
  function HeadcountWritten(m: ClassModule, writes: map<string, nat>, date: string): ClassModule {
    if m.id in writes then m.(totals := m.totals[date := TotalsOn(m, date).(totalStudents := Some(writes[m.id]))]) else m
  }

  /** Writing the headcounts and computing them again gives the same writes. */
  lemma RecountHeadcounts(modules: seq<ClassModule>, students: seq<Student>, date: string, writes: map<string, nat>)
    requires UniqueIds(modules)
    ensures UniqueIds(ApplyHeadcount(modules, writes, date))
    ensures Headcounts(ApplyHeadcount(modules, writes, date), students) == Headcounts(modules, students)
  {
    var after := ApplyHeadcount(modules, writes, date);
    WritesReadIdsAndYears(after, modules, YearCounts(students), |modules|);
  }

  /**
   * The two write-backs touch different fields of a date node, so they can
   * be applied in either order.
   */
  lemma WriteBacksCommute(modules: seq<ClassModule>, present: map<string, nat>, headcount: map<string, nat>, date: string)
    ensures ApplyHeadcount(ApplyPresent(modules, present, date), headcount, date)
            == ApplyPresent(ApplyHeadcount(modules, headcount, date), present, date)
  {
    var a := ApplyHeadcount(ApplyPresent(modules, present, date), headcount, date);
    var b := ApplyPresent(ApplyHeadcount(modules, headcount, date), present, date);
    forall i | 0 <= i < |modules| ensures a[i] == b[i] {
      var m := modules[i];
      assert a[i] == HeadcountWritten(PresentWritten(m, present, date), headcount, date);
      assert b[i] == PresentWritten(HeadcountWritten(m, headcount, date), present, date);
    }
  }
}
