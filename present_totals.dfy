/**
 * The present-count aggregator (`calculate_and_update_total_students_present`):
 * the values `"<module name>: <status>"` found in the students' records for a
 * date are tallied by module name, and each name's tally is written to the
 * module that `name_to_id` gives for it.
 */
module PresentTotals {
  import opened Wrappers
  import opened Text
  import opened Records

  /**
   * How the aggregator reads one value: without a ':' it is skipped; with one,
   * `split(": ")` must give exactly two parts, or the script raises.
   */
  datatype Parsed = NoSeparator | Malformed | Entry(name: string, status: string)

  function ParseStatus(v: string): Parsed {
    if ':' !in v then NoSeparator
    else
      var parts := Split(v, ": ");
      if |parts| != 2 then Malformed else Entry(parts[0], parts[1])
  }

  /**
   * A value is skipped exactly when it has no ':'; a value read as an entry
   * is its name and status around the one ": " it holds.
   */
  lemma ParseShape(v: string)
    ensures ParseStatus(v).NoSeparator? <==> !Contains(v, ":")
    ensures var p := ParseStatus(v);
            p.Entry? ==> v == p.name + ": " + p.status && !Contains(p.name, ": ") && !Contains(p.status, ": ")
  {
    ContainsChar(v, ':');
    if ':' in v {
      var parts := Split(v, ": ");
      SplitMeaning(v, ": ");
      if |parts| == 2 {
        assert Join(parts, ": ") == parts[0] + ": " + parts[1];
      }
    }
  }

  /** A value written as `name + ": " + status` reads back as that name and status. */
  lemma ParseRoundTrip(name: string, status: string)
    requires !Contains(name, ": ") && !Contains(status, ": ")
    ensures ParseStatus(name + ": " + status) == Entry(name, status)
  {
    var v := name + ": " + status;
    assert v[|name|] == ':';
    ContainsChar(v, ':');
    SplitPair(name, status);
  }

  /** A module name holding ": " makes the value it is written in malformed. */
  lemma SeparatorInNameFails(name: string, status: string)
    requires Contains(name, ": ")
    ensures ParseStatus(name + ": " + status).Malformed?
  {
    var v := name + ": " + status;
    var i :| OccursAt(name, ": ", i);
    assert v[i..i + 2] == name[i..i + 2];
    assert v[|name|..|name| + 2] == ": ";
    assert OccursAt(v, ": ", i) && OccursAt(v, ": ", |name|);
    SplitMoreThanPair(v, i, |name|);
    assert v[|name|] == ':';
    ContainsChar(v, ':');
  }

  /** A value with a ':' but no ": " (such as "a:b") is malformed. */
  lemma ColonWithoutSpaceFails(v: string)
    requires Contains(v, ":") && !Contains(v, ": ")
    ensures ParseStatus(v).Malformed?
  {
    ContainsChar(v, ':');
    SplitNone(v);
  }

  /** The value `mark_student_present` writes, `"<name>: present"`, counts one for `name`. */
  lemma PresentValueCounts(name: string)
    requires !Contains(name, ": ")
    ensures CountedName(name + ": present") == Some(name)
  {
    var present := "present";
    PresentIsClean();
    ParseRoundTrip(name, present);
    PresentSuffix(name);
    assert PresentName(Entry(name, present)) == Some(name);
  }

  /** The written value is the name, the separator and the status. */
  lemma PresentSuffix(name: string)
    ensures name + ": present" == name + ": " + "present"
  {
    assert ": present" == ": " + "present";
  }

  /** The status "present" holds no ": " and has no whitespace to strip. */
  lemma PresentIsClean()
    ensures !Contains("present", ": ") && Strip("present") == "present"
  {
    var present := "present";
    assert forall k :: 0 <= k < |present| ==> present[k] != ':';
    NoSeparatorIn(present);
    assert !IsSpace(present[0]) && !IsSpace(present[|present| - 1]);
    StripPadded([], present, []);
    assert [] + present + [] == present;
  }

  /** The module name a parsed value counts one for: an entry whose status strips to "present". */
  function PresentName(p: Parsed): Option<string> {
    if p.Entry? && Strip(p.status) == "present" then Some(p.name) else None
  }

  /** The module name value `v` counts one for, if any. */
  function CountedName(v: string): Option<string> {
    PresentName(ParseStatus(v))
  }

  /** The status values of a dictionary record, in iteration order. */
  function EntryValues(entries: seq<(string, string)>): (vs: seq<string>)
    ensures |vs| == |entries|
    ensures forall i :: 0 <= i < |entries| ==> vs[i] == entries[i].1
  {
    if entries == [] then [] else [entries[0].1] + EntryValues(entries[1..])
  }

  /**
   * The values the scan looks at in one record: none for a missing or empty
   * record (Python falsiness), the string itself for a legacy record, the
   * dictionary's values otherwise.
   */
  function RecordValues(r: AttendanceRecord): seq<string> {
    match r
    case Missing => []
    case Legacy(text) => if text == [] then [] else [text]
    case Keyed(entries) => EntryValues(entries)
  }

  /** A legacy string and a one-entry dictionary holding it are scanned alike. */
  lemma LegacyAsKeyed(id: string, text: string)
    requires text != []
    ensures RecordValues(Legacy(text)) == RecordValues(Keyed([(id, text)]))
  {
  }

  /** The values scanned in the records for `date` of the first `n` students, in scan order. */
  function ValuesUpTo(students: seq<Student>, date: string, n: nat): seq<string>
    requires n <= |students|
  {
    if n == 0 then [] else ValuesUpTo(students, date, n - 1) + RecordValues(RecordOn(students[n - 1], date))
  }

  /** All the values scanned for `date`, student after student. */
  function DateValues(students: seq<Student>, date: string): seq<string> {
    ValuesUpTo(students, date, |students|)
  }

  /** The first value in `values` the script would raise on, if any. */
  function FirstMalformed(values: seq<string>): Option<string> {
    if values == [] then None
    else
      var first := FirstMalformed(values[..|values| - 1]);
      if first.Some? then first
      else if ParseStatus(values[|values| - 1]).Malformed? then Some(values[|values| - 1])
      else None
  }

  /**
   * The scan fails exactly when some value is malformed, and then on the
   * first malformed value in scan order.
   */
  lemma {:induction false} FirstMalformedMeaning(values: seq<string>)
    ensures FirstMalformed(values).None? <==> forall i :: 0 <= i < |values| ==> !ParseStatus(values[i]).Malformed?
    ensures FirstMalformed(values).Some? ==>
              exists i :: 0 <= i < |values| && values[i] == FirstMalformed(values).value && ParseStatus(values[i]).Malformed?
                          && forall j :: 0 <= j < i ==> !ParseStatus(values[j]).Malformed?
  {
    if values != [] {
      var init := values[..|values| - 1];
      FirstMalformedMeaning(init);
      assert forall i :: 0 <= i < |init| ==> init[i] == values[i];
    }
  }

  /** Scanning two runs of values fails on the first run's failure, or else on the second's. */
  lemma {:induction false} FirstMalformedAppend(xs: seq<string>, ys: seq<string>)
    ensures FirstMalformed(xs + ys) == if FirstMalformed(xs).Some? then FirstMalformed(xs) else FirstMalformed(ys)
    decreases |ys|
  {
    if ys == [] {
      assert xs + ys == xs;
    } else {
      var n := |ys|;
      assert (xs + ys)[..|xs + ys| - 1] == xs + ys[..n - 1];
      FirstMalformedAppend(xs, ys[..n - 1]);
    }
  }

  /** How many of `values` count for `name`. */
  function PresentCount(values: seq<string>, name: string): (c: nat)
    ensures c <= |values|
  {
    if values == [] then 0
    else PresentCount(values[..|values| - 1], name) + if CountedName(values[|values| - 1]) == Some(name) then 1 else 0
  }

  /** The tally of a concatenation is the sum of the tallies. */
  lemma {:induction false} PresentCountAppend(xs: seq<string>, ys: seq<string>, name: string)
    ensures PresentCount(xs + ys, name) == PresentCount(xs, name) + PresentCount(ys, name)
    decreases |ys|
  {
    if ys == [] {
      assert xs + ys == xs;
    } else {
      var n := |ys|;
      assert (xs + ys)[..|xs + ys| - 1] == xs + ys[..n - 1];
      PresentCountAppend(xs, ys[..n - 1], name);
    }
  }

  /** The tally does not depend on the order the values are scanned in. */
  lemma {:induction false} PresentCountPermutation(xs: seq<string>, ys: seq<string>, name: string)
    requires multiset(xs) == multiset(ys)
    ensures PresentCount(xs, name) == PresentCount(ys, name)
    decreases |xs|
  {
    if xs != [] {
      var x := xs[|xs| - 1];
      assert x in multiset(ys);
      var j :| 0 <= j < |ys| && ys[j] == x;
      MultisetRemove(xs, ys, j);
      PresentCountPermutation(xs[..|xs| - 1], ys[..j] + ys[j + 1..], name);
      PresentCountRemove(ys, j, name);
    }
  }

  /** Taking the last element out of `xs` and an equal one out of `ys` keeps their multisets equal. */
  lemma MultisetRemove(xs: seq<string>, ys: seq<string>, j: int)
    requires xs != [] && multiset(xs) == multiset(ys)
    requires 0 <= j < |ys| && ys[j] == xs[|xs| - 1]
    ensures multiset(xs[..|xs| - 1]) == multiset(ys[..j] + ys[j + 1..])
  {
    var x, init, rest := ys[j], xs[..|xs| - 1], ys[..j] + ys[j + 1..];
    assert xs == init + [x];
    assert ys == ys[..j] + [x] + ys[j + 1..];
    assert multiset(init) == multiset(xs) - multiset{x};
    assert multiset(rest) == multiset(ys[..j]) + multiset(ys[j + 1..]);
    assert multiset(rest) == multiset(ys) - multiset{x};
  }

  /** The tally of `ys` is that of `ys` without element `j`, plus what element `j` counts. */
  lemma PresentCountRemove(ys: seq<string>, j: int, name: string)
    requires 0 <= j < |ys|
    ensures PresentCount(ys, name)
            == PresentCount(ys[..j] + ys[j + 1..], name) + if CountedName(ys[j]) == Some(name) then 1 else 0
  {
    var x := ys[j];
    assert ys == (ys[..j] + [x]) + ys[j + 1..];
    PresentCountAppend(ys[..j] + [x], ys[j + 1..], name);
    PresentCountSnoc(ys[..j], x, name);
    PresentCountAppend(ys[..j], ys[j + 1..], name);
  }

  /** The names of the modules (`None` for a module without a name). */
  function ModuleNames(modules: seq<ClassModule>): set<Option<string>> {
    set i | 0 <= i < |modules| :: modules[i].name
  }

  /** `total_present_per_name` after the scan of `values`: every module name, starting at 0. */
  function Counts(modules: seq<ClassModule>, values: seq<string>): map<Option<string>, nat> {
    map n | n in ModuleNames(modules) :: if n.Some? then PresentCount(values, n.value) else 0
  }

  /** Scanning one more value adds one to its name's tally exactly when it counts for that name. */
  lemma PresentCountSnoc(values: seq<string>, v: string, name: string)
    ensures PresentCount(values + [v], name) == PresentCount(values, name) + if CountedName(v) == Some(name) then 1 else 0
  {
    assert (values + [v])[..|values|] == values;
  }

  /** A map that differs from `c` only by one more at `key` is `c` bumped at `key`. */
  lemma Bumped(c: map<Option<string>, nat>, c': map<Option<string>, nat>, key: Option<string>)
    requires key in c && c'.Keys == c.Keys && c'[key] == c[key] + 1
    requires forall n :: n in c && n != key ==> c'[n] == c[n]
    ensures c' == c[key := c[key] + 1]
  {
  }

  /** `c` with one more at `hit`, when `hit` is a name that has a counter. */
  function Bump(c: map<Option<string>, nat>, hit: Option<string>): map<Option<string>, nat> {
    if hit.Some? && hit in c then c[hit := c[hit] + 1] else c
  }

  /** Scanning one more value adds one to the counter of the name it counts for, if that is a module's name. */
  lemma CountsStep(modules: seq<ClassModule>, values: seq<string>, v: string)
    ensures Counts(modules, values + [v]) == Bump(Counts(modules, values), CountedName(v))
  {
    var c := Counts(modules, values);
    var c' := Counts(modules, values + [v]);
    var hit := CountedName(v);
    forall n | n in c' && n.Some?
      ensures c'[n] == c[n] + if hit == n then 1 else 0
    {
      PresentCountSnoc(values, v, n.value);
    }
    if hit.Some? && hit in c {
      Bumped(c, c', hit);
    } else {
      assert c' == c;
    }
  }

  /** Scanning a value that is not malformed keeps the scan going and bumps its name's counter. */
  lemma ScanStep(modules: seq<ClassModule>, scanned: seq<string>, v: string)
    requires FirstMalformed(scanned).None? && !ParseStatus(v).Malformed?
    ensures FirstMalformed(scanned + [v]).None?
    ensures Counts(modules, scanned + [v]) == Bump(Counts(modules, scanned), CountedName(v))
  {
    assert (scanned + [v])[..|scanned|] == scanned;
    CountsStep(modules, scanned, v);
  }

  /** Module `i` is the last one named as it is. */
  predicate LastOfName(modules: seq<ClassModule>, i: int) {
    && 0 <= i < |modules|
    && forall j :: i < j < |modules| ==> modules[j].name != modules[i].name
  }

  /** `name_to_id`: each module name to the id of the module so named, the later one winning. */
  function NameToId(modules: seq<ClassModule>): map<Option<string>, string> {
    if modules == [] then map[]
    else NameToId(modules[..|modules| - 1])[modules[|modules| - 1].name := modules[|modules| - 1].id]
  }

  /** `name_to_id` has every module name as a key, and each maps to the id of the last module of that name. */
  lemma {:induction false} NameToIdMeaning(modules: seq<ClassModule>)
    ensures var ids := NameToId(modules);
            && ids.Keys == ModuleNames(modules)
            && forall n :: n in ids ==> exists i :: LastOfName(modules, i) && modules[i].name == n && ids[n] == modules[i].id
  {
    if modules != [] {
      var init := modules[..|modules| - 1];
      NameToIdMeaning(init);
      NameToIdStep(modules, init, NameToId(init));
    }
  }

  lemma NameToIdStep(modules: seq<ClassModule>, init: seq<ClassModule>, ids: map<Option<string>, string>)
    requires |modules| > 0 && init == modules[..|modules| - 1]
    requires ids.Keys == ModuleNames(init)
    requires forall n :: n in ids ==> exists i :: LastOfName(init, i) && init[i].name == n && ids[n] == init[i].id
    ensures var last := modules[|modules| - 1];
            var r := ids[last.name := last.id];
            && r.Keys == ModuleNames(modules)
            && forall n :: n in r ==> exists i :: LastOfName(modules, i) && modules[i].name == n && r[n] == modules[i].id
  {
    var k := |modules| - 1;
    var last := modules[k];
    var r := ids[last.name := last.id];
    assert forall i :: 0 <= i < k ==> init[i] == modules[i];
    assert ModuleNames(modules) == ModuleNames(init) + {last.name} by {
      forall n | n in ModuleNames(modules) ensures n in ModuleNames(init) + {last.name} {
        var i :| 0 <= i < |modules| && modules[i].name == n;
        if i < k {
          assert init[i].name == n;
        }
      }
    }
    forall n | n in r ensures exists i :: LastOfName(modules, i) && modules[i].name == n && r[n] == modules[i].id {
      if n == last.name {
        assert LastOfName(modules, k);
      } else {
        var i :| LastOfName(init, i) && init[i].name == n && ids[n] == init[i].id;
        assert LastOfName(modules, i);
      }
    }
  }

  /** With unique module ids, no two names lead to the same id. */
  lemma NameToIdInjective(modules: seq<ClassModule>)
    requires UniqueIds(modules)
    ensures forall n, n' :: n in NameToId(modules) && n' in NameToId(modules) && NameToId(modules)[n] == NameToId(modules)[n'] ==> n == n'
  {
    var ids := NameToId(modules);
    NameToIdMeaning(modules);
    forall n, n' | n in ids && n' in ids && ids[n] == ids[n'] ensures n == n' {
      var i :| LastOfName(modules, i) && modules[i].name == n && ids[n] == modules[i].id;
      var i' :| LastOfName(modules, i') && modules[i'].name == n' && ids[n'] == modules[i'].id;
      assert i == i';
    }
  }

  /**
   * The write-back: for each counted name whose `name_to_id` entry is a
   * truthy id, that module's `totalStudentsPresent` for the date, by id.
   */
  function PresentWrites(modules: seq<ClassModule>, counts: map<Option<string>, nat>): map<string, nat>
    requires UniqueIds(modules)
  {
    var ids := NameToId(modules);
    NameToIdInjective(modules);
    map n | n in counts && n in ids && ids[n] != "" :: ids[n] := counts[n]
  }

  /**
   * `calculate_and_update_total_students_present(date)` on the stored
   * modules and students: the error the script raises on the first
   * malformed value, or the totals it writes, by module id.
   */
  function PresentTotals(modules: seq<ClassModule>, students: seq<Student>, date: string): Result<map<string, nat>, string>
    requires UniqueIds(modules)
  {
    var values := DateValues(students, date);
    match FirstMalformed(values)
    case Some(v) => Err(v)
    case None => Ok(PresentWrites(modules, Counts(modules, values)))
  }

  /**
   * The writes go to exactly the modules that are the last of their name and
   * have a non-empty id, each with its name's tally (0 for a module without
   * a name).
   */
  lemma PresentWritesMeaning(modules: seq<ClassModule>, values: seq<string>)
    requires UniqueIds(modules)
    ensures var w := PresentWrites(modules, Counts(modules, values));
            forall i :: 0 <= i < |modules| ==>
              && (modules[i].id in w <==> LastOfName(modules, i) && modules[i].id != "")
              && (modules[i].id in w && modules[i].name.Some? ==> w[modules[i].id] == PresentCount(values, modules[i].name.value))
              && (modules[i].id in w && modules[i].name.None? ==> w[modules[i].id] == 0)
    ensures forall x :: x in PresentWrites(modules, Counts(modules, values)) ==> exists i :: 0 <= i < |modules| && modules[i].id == x
  {
    var counts := Counts(modules, values);
    PresentWritesIds(modules, counts);
    forall i | 0 <= i < |modules|
      ensures var w := PresentWrites(modules, counts);
              && (modules[i].id in w <==> LastOfName(modules, i) && modules[i].id != "")
              && (modules[i].id in w ==> w[modules[i].id] == counts[modules[i].name])
    {
      PresentWriteAt(modules, counts, i);
    }
  }

  /** Every id written is the id of a stored module. */
  lemma PresentWritesIds(modules: seq<ClassModule>, counts: map<Option<string>, nat>)
    requires UniqueIds(modules)
    ensures forall x :: x in PresentWrites(modules, counts) ==> exists i :: 0 <= i < |modules| && modules[i].id == x
  {
    var ids := NameToId(modules);
    NameToIdMeaning(modules);
    forall x | x in PresentWrites(modules, counts) ensures exists i :: 0 <= i < |modules| && modules[i].id == x {
      var n :| n in counts && n in ids && ids[n] != "" && ids[n] == x;
      var i :| LastOfName(modules, i) && modules[i].name == n && ids[n] == modules[i].id;
    }
  }

  /** Module `i` is written exactly when it is the last of its name with a non-empty id, with its name's counter. */
  lemma PresentWriteAt(modules: seq<ClassModule>, counts: map<Option<string>, nat>, i: int)
    requires UniqueIds(modules) && 0 <= i < |modules| && counts.Keys == ModuleNames(modules)
    ensures var w := PresentWrites(modules, counts);
            && (modules[i].id in w <==> LastOfName(modules, i) && modules[i].id != "")
            && (modules[i].id in w ==> w[modules[i].id] == counts[modules[i].name])
  {
    var ids := NameToId(modules);
    NameToIdMeaning(modules);
    NameToIdInjective(modules);
    var w := PresentWrites(modules, counts);
    var n := modules[i].name;
    assert n in ModuleNames(modules);
    var k :| LastOfName(modules, k) && modules[k].name == n && ids[n] == modules[k].id;
    if modules[i].id in w {
      var n' :| n' in counts && n' in ids && ids[n'] != "" && ids[n'] == modules[i].id;
      var k' :| LastOfName(modules, k') && modules[k'].name == n' && ids[n'] == modules[k'].id;
      assert k' == i;
    }
    if LastOfName(modules, i) {
      assert k == i;
    }
  }

  /**
   * The scan as the script runs it: nested loops over the students and the
   * values of each one's record, raising on the first malformed value, then
   * the write-back through `name_to_id`.
   */
  method CalculateTotalPresent(modules: seq<ClassModule>, students: seq<Student>, date: string)
    returns (r: Result<map<string, nat>, string>)
    requires UniqueIds(modules)
    ensures r == PresentTotals(modules, students, date)
  {
    var counts: map<Option<string>, nat> := map n | n in ModuleNames(modules) :: 0;
    assert counts == Counts(modules, []);
    ghost var seen: seq<string> := [];
    var s := 0;
    while s < |students|
      invariant 0 <= s <= |students|
      invariant seen == ValuesUpTo(students, date, s)
      invariant FirstMalformed(seen).None?
      invariant counts == Counts(modules, seen)
    {
      var values := RecordValues(RecordOn(students[s], date));
      var bad;
      counts, bad := ScanRecord(modules, counts, values, seen);
      if bad.Some? {
        FailsInRecord(students, date, s, |students|);
        TotalsFail(modules, students, date, bad.value);
        return Err(bad.value);
      }
      StudentScanned(students, date, s, seen);
      seen := seen + values;
      s := s + 1;
    }
    TotalsPass(modules, students, date, counts);
    r := Ok(PresentWrites(modules, counts));
  }

  /** A student's record scanned without failure extends the scan by its values. */
  lemma StudentScanned(students: seq<Student>, date: string, s: nat, seen: seq<string>)
    requires s < |students| && seen == ValuesUpTo(students, date, s) && FirstMalformed(seen).None?
    requires FirstMalformed(RecordValues(RecordOn(students[s], date))).None?
    ensures seen + RecordValues(RecordOn(students[s], date)) == ValuesUpTo(students, date, s + 1)
    ensures FirstMalformed(ValuesUpTo(students, date, s + 1)).None?
  {
    ScanOneMore(students, date, s + 1);
  }

  lemma TotalsFail(modules: seq<ClassModule>, students: seq<Student>, date: string, v: string)
    requires UniqueIds(modules) && FirstMalformed(ValuesUpTo(students, date, |students|)) == Some(v)
    ensures PresentTotals(modules, students, date) == Err(v)
  {
  }

  lemma TotalsPass(modules: seq<ClassModule>, students: seq<Student>, date: string, counts: map<Option<string>, nat>)
    requires UniqueIds(modules) && FirstMalformed(ValuesUpTo(students, date, |students|)).None?
    requires counts == Counts(modules, ValuesUpTo(students, date, |students|))
    ensures PresentTotals(modules, students, date) == Ok(PresentWrites(modules, counts))
  {
  }

  /**
   * The inner loop over the values of one record: the first malformed value,
   * if any, or else the counters once every value is tallied.
   */
  method ScanRecord(modules: seq<ClassModule>, counts: map<Option<string>, nat>, values: seq<string>, ghost seen: seq<string>)
    returns (counts': map<Option<string>, nat>, bad: Option<string>)
    requires FirstMalformed(seen).None? && counts == Counts(modules, seen)
    ensures bad == FirstMalformed(values)
    ensures bad.None? ==> counts' == Counts(modules, seen + values)
  {
    counts' := counts;
    var j := 0;
    assert seen + values[..0] == seen;
    while j < |values|
      invariant 0 <= j <= |values|
      invariant FirstMalformed(values[..j]).None?
      invariant counts' == Counts(modules, seen + values[..j])
    {
      var v := values[j];
      var p := ParseStatus(v);
      if p.Malformed? {
        MalformedAt(values, j);
        return counts', Some(v);
      }
      ScanValueStep(modules, seen, values, j, counts');
      if p.Entry? && Strip(p.status) == "present" && Some(p.name) in counts' {
        counts' := counts'[Some(p.name) := counts'[Some(p.name)] + 1];
      }
      j := j + 1;
    }
    assert values[..j] == values;
    bad := None;
  }

  /** The first malformed value met by the scan of one record is the record's first malformed value. */
  lemma MalformedAt(values: seq<string>, j: nat)
    requires j < |values| && FirstMalformed(values[..j]).None? && ParseStatus(values[j]).Malformed?
    ensures FirstMalformed(values) == Some(values[j])
  {
    var upto := values[..j + 1];
    assert upto[..j] == values[..j];
    assert FirstMalformed(upto) == Some(values[j]);
    FailurePrefix(upto, values);
  }

  /** A well-formed value extends the scan of a record: still no failure, and its name's counter bumped. */
  lemma ScanValueStep(modules: seq<ClassModule>, seen: seq<string>, values: seq<string>, j: nat, counts: map<Option<string>, nat>)
    requires j < |values| && !ParseStatus(values[j]).Malformed?
    requires FirstMalformed(seen).None? && FirstMalformed(values[..j]).None?
    requires counts == Counts(modules, seen + values[..j])
    ensures FirstMalformed(values[..j + 1]).None?
    ensures Counts(modules, seen + values[..j + 1]) == Bump(counts, CountedName(values[j]))
  {
    var before, v := values[..j], values[j];
    assert values[..j + 1] == before + [v];
    NoFailureSnoc(before, v);
    assert seen + values[..j + 1] == (seen + before) + [v];
    CountsStep(modules, seen + before, v);
  }

  /** A value that is not malformed, after a run without failure, leaves the run without failure. */
  lemma NoFailureSnoc(values: seq<string>, v: string)
    requires FirstMalformed(values).None? && !ParseStatus(v).Malformed?
    ensures FirstMalformed(values + [v]).None?
  {
    assert (values + [v])[..|values|] == values;
  }

  /** Once the scan fails in the record of student `s`, it fails on that record's first malformed value. */
  lemma {:induction false} FailsInRecord(students: seq<Student>, date: string, s: nat, n: nat)
    requires s < n <= |students| && FirstMalformed(ValuesUpTo(students, date, s)).None?
    requires FirstMalformed(RecordValues(RecordOn(students[s], date))).Some?
    ensures FirstMalformed(ValuesUpTo(students, date, n)) == FirstMalformed(RecordValues(RecordOn(students[s], date)))
  {
    var record := FirstMalformed(RecordValues(RecordOn(students[s], date)));
    RecordFails(students, date, s);
    assert FirstMalformed(ValuesUpTo(students, date, s + 1)) == record;
    FailureStays(students, date, s + 1, n);
    assert FirstMalformed(ValuesUpTo(students, date, n)) == record;
  }

  /** When the scan so far has not failed, a record with a malformed value fails it on that record's first one. */
  lemma RecordFails(students: seq<Student>, date: string, s: nat)
    requires s < |students| && FirstMalformed(ValuesUpTo(students, date, s)).None?
    requires FirstMalformed(RecordValues(RecordOn(students[s], date))).Some?
    ensures FirstMalformed(ValuesUpTo(students, date, s + 1)) == FirstMalformed(RecordValues(RecordOn(students[s], date)))
  {
    ScanOneMore(students, date, s + 1);
  }

  /** Scanning one more student's record fails on the earlier failure, or else on that record's. */
  lemma ScanOneMore(students: seq<Student>, date: string, n: nat)
    requires 0 < n <= |students|
    ensures var prev := FirstMalformed(ValuesUpTo(students, date, n - 1));
            FirstMalformed(ValuesUpTo(students, date, n))
            == if prev.Some? then prev else FirstMalformed(RecordValues(RecordOn(students[n - 1], date)))
  {
    FirstMalformedAppend(ValuesUpTo(students, date, n - 1), RecordValues(RecordOn(students[n - 1], date)));
  }

  /** Once the scan of the first `m` students has failed, scanning further ones fails the same way. */
  lemma FailureStays(students: seq<Student>, date: string, m: nat, n: nat)
    requires m <= n <= |students| && FirstMalformed(ValuesUpTo(students, date, m)).Some?
    ensures FirstMalformed(ValuesUpTo(students, date, n)) == FirstMalformed(ValuesUpTo(students, date, m))
  {
    ValuesUpToGrows(students, date, m, n);
    FailurePrefix(ValuesUpTo(students, date, m), ValuesUpTo(students, date, n));
  }

  /** The values scanned for the first `m` students begin those scanned for the first `n`. */
  lemma {:induction false} ValuesUpToGrows(students: seq<Student>, date: string, m: nat, n: nat)
    requires m <= n <= |students|
    ensures var xs, ys := ValuesUpTo(students, date, m), ValuesUpTo(students, date, n);
            |xs| <= |ys| && ys[..|xs|] == xs
    decreases n
  {
    if n > m {
      ValuesUpToGrows(students, date, m, n - 1);
      ValuesGrowStep(students, date, ValuesUpTo(students, date, m), n);
    }
  }

  /** Whatever begins the values scanned for `n - 1` students begins those scanned for `n`. */
  lemma ValuesGrowStep(students: seq<Student>, date: string, xs: seq<string>, n: nat)
    requires 0 < n <= |students|
    requires var before := ValuesUpTo(students, date, n - 1); |xs| <= |before| && before[..|xs|] == xs
    ensures var ys := ValuesUpTo(students, date, n); |xs| <= |ys| && ys[..|xs|] == xs
  {
    var before, record := ValuesUpTo(students, date, n - 1), RecordValues(RecordOn(students[n - 1], date));
    assert ValuesUpTo(students, date, n) == before + record;
    assert (before + record)[..|xs|] == before[..|xs|];
  }

  /** A failure within a prefix is the failure of the whole sequence. */
  lemma FailurePrefix(xs: seq<string>, ys: seq<string>)
    requires |xs| <= |ys| && ys[..|xs|] == xs && FirstMalformed(xs).Some?
    ensures FirstMalformed(ys) == FirstMalformed(xs)
  {
    assert ys == xs + ys[|xs|..];
    FirstMalformedAppend(xs, ys[|xs|..]);
  }

  /** Students whose records for `date` agree give the scan the same values. */
  lemma {:induction false} SameRecordsSameValues(students: seq<Student>, others: seq<Student>, date: string, n: nat)
    requires n <= |students| == |others|
    requires forall i :: 0 <= i < |students| ==> RecordOn(students[i], date) == RecordOn(others[i], date)
    ensures ValuesUpTo(students, date, n) == ValuesUpTo(others, date, n)
    decreases n
  {
    if n > 0 {
      SameRecordsSameValues(students, others, date, n - 1);
    }
  }

  /** A student with no values for the date (no record, or an empty one) adds nothing to the scan. */
  lemma SilentStudent(students: seq<Student>, student: Student, date: string)
    requires RecordValues(RecordOn(student, date)) == []
    ensures DateValues(students + [student], date) == DateValues(students, date)
  {
    var all := students + [student];
    assert ValuesUpTo(all, date, |students|) == ValuesUpTo(students, date, |students|) by {
      ValuesUpToPrefix(all, students, date, |students|);
    }
  }

  /** The scan of the first `n` students only reads those students. */
  lemma {:induction false} ValuesUpToPrefix(xs: seq<Student>, ys: seq<Student>, date: string, n: nat)
    requires n <= |xs| && n <= |ys| && xs[..n] == ys[..n]
    ensures ValuesUpTo(xs, date, n) == ValuesUpTo(ys, date, n)
  {
    if n > 0 {
      assert xs[n - 1] == xs[..n][n - 1] == ys[..n][n - 1] == ys[n - 1];
      assert xs[..n - 1] == xs[..n][..n - 1];
      assert ys[..n - 1] == ys[..n][..n - 1];
      ValuesUpToPrefix(xs, ys, date, n - 1);
    }
  }

  /** The totals a module holds for `date`, or an empty node. */
  function TotalsOn(m: ClassModule, date: string): DateTotals {
    if date in m.totals then m.totals[date] else DateTotals(None, None)
  }

  /**
   * The store after the write-back: `update({"totalStudentsPresent": n})`
   * on the date node of every module written, which keeps the node's other
   * field.
   */
  function ApplyPresent(modules: seq<ClassModule>, writes: map<string, nat>, date: string): (r: seq<ClassModule>)
    ensures |r| == |modules|
    ensures forall i :: 0 <= i < |modules| ==>
              && r[i].id == modules[i].id && r[i].name == modules[i].name && r[i].year == modules[i].year
              && r[i].schedule == modules[i].schedule
              && (forall d :: d != date ==> TotalsOn(r[i], d) == TotalsOn(modules[i], d))
              && TotalsOn(r[i], date).totalStudents == TotalsOn(modules[i], date).totalStudents
              && TotalsOn(r[i], date).totalStudentsPresent
                 == if modules[i].id in writes then Some(writes[modules[i].id]) else TotalsOn(modules[i], date).totalStudentsPresent
  {
    seq(|modules|, i requires 0 <= i < |modules| => PresentWritten(modules[i], writes, date))
  }

  /** One module after the write-back. */
  function PresentWritten(m: ClassModule, writes: map<string, nat>, date: string): ClassModule {
    if m.id in writes then m.(totals := m.totals[date := TotalsOn(m, date).(totalStudentsPresent := Some(writes[m.id]))]) else m
  }

  /** Two module lists with the same ids and names in the same order have the same name table. */
  lemma {:induction false} SameNamesSameTable(m1: seq<ClassModule>, m2: seq<ClassModule>)
    requires |m1| == |m2| && forall i :: 0 <= i < |m1| ==> m1[i].id == m2[i].id && m1[i].name == m2[i].name
    ensures NameToId(m1) == NameToId(m2) && ModuleNames(m1) == ModuleNames(m2)
    decreases |m1|
  {
    SameModuleNames(m1, m2);
    if m1 != [] {
      var n := |m1|;
      SameNamesSameTable(m1[..n - 1], m2[..n - 1]);
    }
  }

  lemma SameModuleNames(m1: seq<ClassModule>, m2: seq<ClassModule>)
    requires |m1| == |m2| && forall i :: 0 <= i < |m1| ==> m1[i].name == m2[i].name
    ensures ModuleNames(m1) == ModuleNames(m2)
  {
    forall x | x in ModuleNames(m1) ensures x in ModuleNames(m2) {
      var i :| 0 <= i < |m1| && m1[i].name == x;
      assert m2[i].name == x;
    }
    forall x | x in ModuleNames(m2) ensures x in ModuleNames(m1) {
      var i :| 0 <= i < |m2| && m2[i].name == x;
      assert m1[i].name == x;
    }
  }

  /** Writing the totals back and scanning again gives the same totals: the scan never reads them. */
  lemma RecountAfterWrite(modules: seq<ClassModule>, students: seq<Student>, date: string, writes: map<string, nat>)
    requires UniqueIds(modules)
    ensures UniqueIds(ApplyPresent(modules, writes, date))
    ensures PresentTotals(ApplyPresent(modules, writes, date), students, date) == PresentTotals(modules, students, date)
  {
    var after := ApplyPresent(modules, writes, date);
    SameNamesSameTable(modules, after);
    var values := DateValues(students, date);
    assert Counts(after, values) == Counts(modules, values);
  }

  /** A value that counts for `name` makes its tally at least one. */
  lemma {:induction false} PresentCountOne(values: seq<string>, name: string, i: int)
    requires 0 <= i < |values| && CountedName(values[i]) == Some(name)
    ensures PresentCount(values, name) >= 1
  {
    var n := |values|;
    if i < n - 1 {
      assert values[..n - 1][i] == values[i];
      PresentCountOne(values[..n - 1], name, i);
    }
  }

  /** Two values that count for `name` make its tally at least two. */
  lemma PresentCountTwo(values: seq<string>, name: string, i: int, j: int)
    requires 0 <= i < j < |values|
    requires CountedName(values[i]) == Some(name) && CountedName(values[j]) == Some(name)
    ensures PresentCount(values, name) >= 2
  {
    var front, back := values[..j], values[j..];
    assert front[i] == values[i] && back[0] == values[j];
    PresentCountOne(front, name, i);
    PresentCountOne(back, name, 0);
    assert values == front + back;
    PresentCountAppend(front, back, name);
  }

  /**
   * The tally counts values, not students: a single student whose record for
   * the date holds two entries that count for the same name adds two to it.
   */
  lemma CountsEntriesNotStudents(student: Student, date: string, name: string, i: int, j: int)
    requires RecordOn(student, date).Keyed?
    requires 0 <= i < j < |RecordOn(student, date).entries|
    requires CountedName(RecordOn(student, date).entries[i].1) == Some(name)
    requires CountedName(RecordOn(student, date).entries[j].1) == Some(name)
    ensures PresentCount(DateValues([student], date), name) >= 2
  {
    var values := EntryValues(RecordOn(student, date).entries);
    assert ValuesUpTo([student], date, 1) == ValuesUpTo([student], date, 0) + RecordValues(RecordOn(student, date));
    assert DateValues([student], date) == values;
    PresentCountTwo(values, name, i, j);
  }

  /** A string with no ':' at all holds no ": ". */
  lemma NoSeparatorIn(s: string)
    requires forall k :: 0 <= k < |s| ==> s[k] != ':'
    ensures !Contains(s, ": ")
  {
    forall i ensures !OccursAt(s, ": ", i) {
      if 0 <= i && i + 2 <= |s| {
        assert s[i..i + 2][0] == s[i];
      }
    }
  }
}
