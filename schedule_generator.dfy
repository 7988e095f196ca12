/** The backend schedule enumerator: it groups the meeting times of the
    candidate sections by CRN, tests lists of meetings for time conflicts, and
    enumerates every conflict-free schedule that takes exactly one section of
    each requested course. */
module ScheduleGenerator {
  import opened Results

  /** A class section, identified by its course registration number (CRN). */
  datatype Section = Section(crn: int, course: string)

  /** One weekly meeting of a section: the day letters it meets on ("MWF") and
      its begin and end times in minutes since midnight. */
  datatype SectionTime = SectionTime(crn: int, days: string, begin: int, end: int)

  /** Python's KeyError, raised when a section has no entry in the time table. */
  datatype LookupError = KeyError(crn: int)

  type Schedule = seq<SectionTime>

  /** The CRN to meeting-list dictionary that the generator looks times up in. */
  type TimeTable = map<int, seq<SectionTime>>

  function Elems<T>(xs: seq<T>): set<T>
  {
    set x | x in xs
  }

  predicate Distinct<T(==)>(xs: seq<T>)
  {
    forall i, j :: 0 <= i < j < |xs| ==> xs[i] != xs[j]
  }

  // ---------------------------------------------------------------------------
  // Grouping the meeting times by CRN
  // ---------------------------------------------------------------------------

  function Crns(times: seq<SectionTime>): set<int>
  {
    set t | t in times :: t.crn
  }

  /** The meetings of `times` that belong to `crn`, in input order. */
  function TimesWithCrn(times: seq<SectionTime>, crn: int): seq<SectionTime>
  {
    if times == [] then []
    else
      var last := times[|times| - 1];
      TimesWithCrn(times[..|times| - 1], crn) + (if last.crn == crn then [last] else [])
  }

  /** The dictionary that the grouping loop builds: one entry per CRN that
      occurs among the meetings, holding that CRN's meetings in input order. */
  function GroupedTimes(times: seq<SectionTime>): TimeTable
  {
    map crn | crn in Crns(times) :: TimesWithCrn(times, crn)
  }

  /** A CRN's list holds exactly the meetings with that CRN. */
  lemma {:induction false} TimesWithCrnMembers(times: seq<SectionTime>, crn: int, t: SectionTime)
    ensures t in TimesWithCrn(times, crn) <==> t in times && t.crn == crn
  {
    if times != [] {
      var init := times[..|times| - 1];
      TimesWithCrnMembers(init, crn, t);
      assert times == init + [times[|times| - 1]];
    }
  }

  lemma TimesWithCrnEmpty(times: seq<SectionTime>, crn: int)
    ensures TimesWithCrn(times, crn) == [] <==> crn !in Crns(times)
  {
    var r := TimesWithCrn(times, crn);
    if r != [] {
      TimesWithCrnMembers(times, crn, r[0]);
    }
    if crn in Crns(times) {
      var t :| t in times && t.crn == crn;
      TimesWithCrnMembers(times, crn, t);
    }
  }

  /** Extending the input by its next meeting extends that meeting's CRN
      list and no other. */
  lemma GroupingStep(times: seq<SectionTime>, i: nat, crn: int)
    requires i < |times|
    ensures TimesWithCrn(times[..i + 1], crn)
      == TimesWithCrn(times[..i], crn) + (if times[i].crn == crn then [times[i]] else [])
  {
    assert times[..i + 1][..i] == times[..i];
  }

  /** The grouping keeps every meeting time: each CRN that occurs gets exactly
      its meetings, in input order, and no list is empty. */
  lemma GroupedTimesFacts(times: seq<SectionTime>)
    ensures GroupedTimes(times).Keys == Crns(times)
    ensures forall crn :: crn in GroupedTimes(times) ==> GroupedTimes(times)[crn] != []
    ensures forall crn, t :: crn in GroupedTimes(times) ==>
      (t in GroupedTimes(times)[crn] <==> t in times && t.crn == crn)
  {
    forall crn | crn in Crns(times)
      ensures TimesWithCrn(times, crn) != []
    {
      TimesWithCrnEmpty(times, crn);
    }
    forall crn, t | crn in Crns(times)
      ensures t in TimesWithCrn(times, crn) <==> t in times && t.crn == crn
    {
      TimesWithCrnMembers(times, crn, t);
    }
  }

  /** The loop of fetch_sections that fills section_time_dict, over an input
      list instead of a database query. */
  method GroupByCrn(times: seq<SectionTime>) returns (table: TimeTable)
    ensures table == GroupedTimes(times)
    ensures table.Keys == Crns(times)
    ensures forall crn :: crn in table ==> table[crn] != []
  {
    table := map[];
    var i := 0;
    while i < |times|
      invariant 0 <= i <= |times|
      invariant table.Keys == Crns(times[..i])
      invariant forall crn :: crn in table ==> table[crn] == TimesWithCrn(times[..i], crn)
    {
      var time := times[i];
      var crn := time.crn;
      ghost var before := table;
      if crn !in table {
        table := table[crn := []];
      }
      table := table[crn := table[crn] + [time]];
      GroupingTableStep(times, i, before, table);
      i := i + 1;
    }
    assert times[..i] == times;
    GroupedTimesFacts(times);
  }

  /** One pass of the grouping loop: appending the next meeting to its CRN's
      list (created empty first) keeps every list equal to the meetings of
      that CRN seen so far. */
  lemma GroupingTableStep(times: seq<SectionTime>, i: nat, table: TimeTable, next: TimeTable)
    requires i < |times|
    requires table.Keys == Crns(times[..i])
    requires forall crn :: crn in table ==> table[crn] == TimesWithCrn(times[..i], crn)
    requires next == table[times[i].crn := (if times[i].crn in table then table[times[i].crn] else []) + [times[i]]]
    ensures next.Keys == Crns(times[..i + 1])
    ensures forall c :: c in next ==> next[c] == TimesWithCrn(times[..i + 1], c)
  {
    var time := times[i];
    var crn := time.crn;
    assert Crns(times[..i + 1]) == Crns(times[..i]) + {crn} by {
      assert times[..i + 1] == times[..i] + [time];
    }
    forall c | c in next
      ensures next[c] == TimesWithCrn(times[..i + 1], c)
    {
      GroupingStep(times, i, c);
      if c == crn && crn !in table {
        TimesWithCrnEmpty(times[..i], crn);
      }
    }
  }

  // ---------------------------------------------------------------------------
  // Conflicts between meeting times
  // ---------------------------------------------------------------------------

  /** Two meetings clash when they share a day letter and their time ranges
      overlap strictly. */
  predicate Clash(a: SectionTime, b: SectionTime): (r: bool)
    ensures r ==> a.days != [] && b.days != []
    ensures r ==> a.begin < b.end && b.begin < a.end
  {
    Elems(a.days) * Elems(b.days) != {} && a.end > b.begin && a.begin < b.end
  }

  /** Some earlier meeting of the list clashes with some later one: the pair
      search of check_conflict. */
  predicate SomePairClashes(times: Schedule)
  {
    exists i, j :: 0 <= i < j < |times| && Clash(times[i], times[j])
  }

  /** `first` clashes with one of `later`. */
  predicate ClashesWithAny(first: SectionTime, later: Schedule)
  {
    later != [] && (Clash(first, later[0]) || ClashesWithAny(first, later[1..]))
  }

  /** The list is in conflict: its first meeting clashes with a later one, or
      the rest of the list is in conflict. */
  predicate HasConflict(times: Schedule)
  {
    times != [] && (ClashesWithAny(times[0], times[1..]) || HasConflict(times[1..]))
  }

  lemma {:induction false} ClashesWithAnyMeaning(first: SectionTime, later: Schedule)
    ensures ClashesWithAny(first, later) <==> exists j :: 0 <= j < |later| && Clash(first, later[j])
  {
    if later != [] {
      ClashesWithAnyMeaning(first, later[1..]);
      if j :| 0 <= j < |later| && Clash(first, later[j]) {
        if j > 0 {
          assert later[1..][j - 1] == later[j];
        }
      }
      if j :| 0 <= j < |later[1..]| && Clash(first, later[1..][j]) {
        assert later[j + 1] == later[1..][j];
      }
    }
  }

  /** The recursive definition agrees with the pair search: a list is in
      conflict exactly when some pair i < j clashes. */
  lemma {:induction false} ConflictIsClashingPair(times: Schedule)
    ensures HasConflict(times) <==> SomePairClashes(times)
  {
    if times != [] {
      var rest := times[1..];
      ConflictIsClashingPair(rest);
      ClashesWithAnyMeaning(times[0], rest);
      if SomePairClashes(times) {
        var i, j :| 0 <= i < j < |times| && Clash(times[i], times[j]);
        if i == 0 {
          assert Clash(times[0], rest[j - 1]);
        } else {
          assert Clash(rest[i - 1], rest[j - 1]);
        }
      }
      if ClashesWithAny(times[0], rest) {
        var j :| 0 <= j < |rest| && Clash(times[0], rest[j]);
        assert Clash(times[0], times[j + 1]);
      }
      if SomePairClashes(rest) {
        var i, j :| 0 <= i < j < |rest| && Clash(rest[i], rest[j]);
        assert Clash(times[i + 1], times[j + 1]);
      }
    }
  }

  lemma ClashMeaning(a: SectionTime, b: SectionTime)
    ensures Clash(a, b) <==>
      (exists d :: d in a.days && d in b.days) && a.end > b.begin && a.begin < b.end
  {
    if d :| d in a.days && d in b.days {
      assert d in Elems(a.days) * Elems(b.days);
    }
  }

  lemma ClashSymmetric(a: SectionTime, b: SectionTime)
    ensures Clash(a, b) == Clash(b, a)
  {
    assert Elems(a.days) * Elems(b.days) == Elems(b.days) * Elems(a.days);
  }

  /** Meetings on disjoint days, or back to back, never clash. */
  lemma ApartMeetingsDoNotClash(a: SectionTime, b: SectionTime)
    requires Elems(a.days) * Elems(b.days) == {} || a.end <= b.begin || b.end <= a.begin
    ensures !Clash(a, b) && !Clash(b, a)
  {
  }

  /** An empty or one-meeting list is never in conflict. */
  lemma ShortListHasNoConflict(times: Schedule)
    requires |times| <= 1
    ensures !HasConflict(times)
  {
    ConflictIsClashingPair(times);
  }

  /** A clash between two distinct positions, in either order, is a conflict. */
  lemma ConflictFromPair(xs: Schedule, a: nat, b: nat)
    requires a < |xs| && b < |xs| && a != b && Clash(xs[a], xs[b])
    ensures SomePairClashes(xs)
  {
    if b < a {
      ClashSymmetric(xs[a], xs[b]);
    }
  }

  function Swapped(i: int, p: int, q: int): int
  {
    if i == p then q else if i == q then p else i
  }

  /** A conflict survives exchanging the meetings at positions p and q. */
  lemma ConflictSurvivesSwap(xs: Schedule, ys: Schedule, p: nat, q: nat)
    requires p < |xs| && q < |xs| && |ys| == |xs|
    requires forall i :: 0 <= i < |xs| ==> ys[i] == xs[Swapped(i, p, q)]
    ensures SomePairClashes(xs) ==> SomePairClashes(ys)
  {
    if SomePairClashes(xs) {
      var i, j :| 0 <= i < j < |xs| && Clash(xs[i], xs[j]);
      var a, b := Swapped(i, p, q), Swapped(j, p, q);
      assert ys[a] == xs[i] && ys[b] == xs[j];
      ConflictFromPair(ys, a, b);
    }
  }

  /** Exchanging two meetings does not change the verdict. */
  lemma ConflictSwapInvariant(xs: Schedule, p: nat, q: nat)
    requires p < |xs| && q < |xs|
    ensures HasConflict(xs[p := xs[q]][q := xs[p]]) == HasConflict(xs)
  {
    var ys := xs[p := xs[q]][q := xs[p]];
    assert forall i :: 0 <= i < |xs| ==> ys[i] == xs[Swapped(i, p, q)] && xs[i] == ys[Swapped(i, p, q)];
    ConflictSurvivesSwap(xs, ys, p, q);
    ConflictSurvivesSwap(ys, xs, p, q);
    ConflictIsClashingPair(xs);
    ConflictIsClashingPair(ys);
  }

  function Reversed(xs: Schedule): (r: Schedule)
    ensures |r| == |xs| && forall i :: 0 <= i < |xs| ==> r[i] == xs[|xs| - 1 - i]
  {
    seq(|xs|, i requires 0 <= i < |xs| => xs[|xs| - 1 - i])
  }

  /** A clash in the reversed list is a clash in the original one. */
  lemma ClashOfReversed(xs: Schedule)
    requires SomePairClashes(Reversed(xs))
    ensures SomePairClashes(xs)
  {
    var ys, n := Reversed(xs), |xs|;
    var i, j :| 0 <= i < j < n && Clash(ys[i], ys[j]);
    assert ys[i] == xs[n - 1 - i] && ys[j] == xs[n - 1 - j];
    ConflictFromPair(xs, n - 1 - i, n - 1 - j);
  }

  /** A clash in the original list is a clash in the reversed one. */
  lemma ClashToReversed(xs: Schedule)
    requires SomePairClashes(xs)
    ensures SomePairClashes(Reversed(xs))
  {
    var ys, n := Reversed(xs), |xs|;
    var i, j :| 0 <= i < j < n && Clash(xs[i], xs[j]);
    assert ys[n - 1 - i] == xs[i] && ys[n - 1 - j] == xs[j];
    ConflictFromPair(ys, n - 1 - i, n - 1 - j);
  }

  /** Reversing the list does not change the verdict. */
  lemma ConflictReverseInvariant(xs: Schedule)
    ensures HasConflict(Reversed(xs)) == HasConflict(xs)
  {
    ConflictIsClashingPair(xs);
    ConflictIsClashingPair(Reversed(xs));
    if SomePairClashes(Reversed(xs)) {
      ClashOfReversed(xs);
    }
    if SomePairClashes(xs) {
      ClashToReversed(xs);
    }
  }

  /** check_conflict: compares every pair i < j and stops at the first clash. */
  method CheckConflict(times: Schedule) returns (conflict: bool)
    ensures conflict <==> SomePairClashes(times)
    ensures conflict <==> HasConflict(times)
  {
    ConflictIsClashingPair(times);
    var i := 0;
    while i < |times|
      invariant 0 <= i <= |times|
      invariant forall a, b :: 0 <= a < i && a < b < |times| ==> !Clash(times[a], times[b])
    {
      var j := i + 1;
      while j < |times|
        invariant i + 1 <= j <= |times|
        invariant forall b :: i < b < j ==> !Clash(times[i], times[b])
      {
        var first, second := times[i], times[j];
        if Elems(first.days) * Elems(second.days) != {} {
          if first.end > second.begin && first.begin < second.end {
            return true;
          }
        }
        j := j + 1;
      }
      i := i + 1;
    }
    return false;
  }

  /** is_valid_combination: the negation of check_conflict. */
  method IsValidCombination(times: Schedule) returns (valid: bool)
    ensures valid <==> !HasConflict(times)
  {
    var conflict := CheckConflict(times);
    if conflict {
      return false;
    }
    return true;
  }

  // ---------------------------------------------------------------------------
  // The recursive generator
  // ---------------------------------------------------------------------------

  /** The distinct courses of the sections. */
  function Courses(sections: seq<Section>): set<string>
  {
    set s | s in sections :: s.course
  }

  function SectionCrns(sections: seq<Section>): set<int>
  {
    set s | s in sections :: s.crn
  }

  /** remaining_courses: the course of every section whose course is not yet
      selected, in section order (repetitions included). */
  function Remaining(sections: seq<Section>, selected: set<string>): (r: seq<string>)
    ensures r != [] ==> r[0] in Courses(sections) && r[0] !in selected
  {
    if sections == [] then []
    else
      var rest := Remaining(sections[1..], selected);
      assert rest != [] ==> exists s :: s in sections[1..] && s.course == rest[0];
      assert forall s :: s in sections[1..] ==> s in sections;
      (if sections[0].course in selected then [] else [sections[0].course]) + rest
  }

  lemma PickShrinksRemaining(courses: set<string>, selected: set<string>, next: string)
    requires next in courses && next !in selected
    ensures |courses - (selected + {next})| < |courses - selected|
  {
    assert courses - selected == (courses - (selected + {next})) + {next};
  }

  /** The schedules that one call of generate_valid_schedules appends, in
      order, given the current combination and the set of courses already
      selected; or the KeyError it raises. */
  function Enumerate(sections: seq<Section>, table: TimeTable, current: Schedule, selected: set<string>)
    : (r: Result<seq<Schedule>, LookupError>)
    ensures r.Ok? ==> forall s :: s in r.value ==> !HasConflict(s)
    ensures r.Err? ==> r.error.crn in SectionCrns(sections) && r.error.crn !in table
    decreases |Courses(sections) - selected|, 1
  {
    if |selected| == |Courses(sections)| then
      Ok(if HasConflict(current) then [] else [current])
    else
      var remaining := Remaining(sections, selected);
      if remaining == [] then Ok([])
      else
        EnumerateFrom(sections, table, current, selected, remaining[0], 0)
  }

  /** The loop over section_dict from position `i` on: every section of course
      `next` extends the combination with all of its meeting times. */
  function EnumerateFrom(sections: seq<Section>, table: TimeTable, current: Schedule,
                         selected: set<string>, next: string, i: nat)
    : (r: Result<seq<Schedule>, LookupError>)
    requires next in Courses(sections) && next !in selected
    ensures r.Ok? ==> forall s :: s in r.value ==> !HasConflict(s)
    ensures r.Err? ==> r.error.crn in SectionCrns(sections) && r.error.crn !in table
    decreases |Courses(sections) - selected|, 0, |sections| - i
  {
    if i >= |sections| then Ok([])
    else if sections[i].course != next then EnumerateFrom(sections, table, current, selected, next, i + 1)
    else if sections[i].crn !in table then
      assert sections[i] in sections;
      Err(KeyError(sections[i].crn))
    else
      PickShrinksRemaining(Courses(sections), selected, next);
      match Enumerate(sections, table, current + table[sections[i].crn], selected + {sections[i].course})
      case Err(e) => Err(e)
      case Ok(first) =>
        match EnumerateFrom(sections, table, current, selected, next, i + 1)
        case Err(e) => Err(e)
        case Ok(rest) => Ok(first + rest)
  }

  /** The accumulator `acc` after the schedules of `r` have been appended. */
  function AppendTo(acc: seq<Schedule>, r: Result<seq<Schedule>, LookupError>): Result<seq<Schedule>, LookupError>
  {
    match r
    case Ok(found) => Ok(acc + found)
    case Err(e) => Err(e)
  }

  /** One pass of the section loop whose recursive call succeeded: the
      schedules it found go to the accumulator before the rest of the loop's. */
  lemma EnumerateFromStep(sections: seq<Section>, table: TimeTable, current: Schedule,
                          selected: set<string>, next: string, i: nat, acc: seq<Schedule>)
    requires next in Courses(sections) && next !in selected
    requires i < |sections| && sections[i].course == next && sections[i].crn in table
    requires Enumerate(sections, table, current + table[sections[i].crn], selected + {next}).Ok?
    ensures AppendTo(acc, EnumerateFrom(sections, table, current, selected, next, i))
         == AppendTo(acc + Enumerate(sections, table, current + table[sections[i].crn], selected + {next}).value,
                     EnumerateFrom(sections, table, current, selected, next, i + 1))
  {
    var first := Enumerate(sections, table, current + table[sections[i].crn], selected + {next}).value;
    var rest := EnumerateFrom(sections, table, current, selected, next, i + 1);
    if rest.Ok? {
      assert acc + (first + rest.value) == (acc + first) + rest.value;
    }
  }

  /** generate_valid_schedules, with the shared valid_schedules list passed in
      as `acc` and handed back extended (or the KeyError that aborts the run). */
  method GenerateValidSchedules(sections: seq<Section>, table: TimeTable, current: Schedule,
                                selected: set<string>, acc: seq<Schedule>)
    returns (r: Result<seq<Schedule>, LookupError>)
    ensures r == AppendTo(acc, Enumerate(sections, table, current, selected))
    decreases |Courses(sections) - selected|
  {
    var courses := Courses(sections);
    if |selected| == |courses| {
      var valid := IsValidCombination(current);
      if valid {
        return Ok(acc + [current]);
      }
      assert acc + [] == acc;
      return Ok(acc);
    }
    var remaining := Remaining(sections, selected);
    if remaining == [] {
      return Ok(acc);
    }
    var next := remaining[0];
    var schedules := acc;
    var i := 0;
    while i < |sections|
      invariant 0 <= i <= |sections|
      invariant AppendTo(acc, EnumerateFrom(sections, table, current, selected, next, 0))
             == AppendTo(schedules, EnumerateFrom(sections, table, current, selected, next, i))
    {
      var section := sections[i];
      if section.course == next {
        if section.crn !in table {
          return Err(KeyError(section.crn));
        }
        var sectionTimes := table[section.crn];
        var combination := current + sectionTimes;
        PickShrinksRemaining(courses, selected, next);
        var res := GenerateValidSchedules(sections, table, combination, selected + {section.course}, schedules);
        if res.Err? {
          return res;
        }
        EnumerateFromStep(sections, table, current, selected, next, i, schedules);
        schedules := res.value;
      }
      i := i + 1;
    }
    assert schedules + [] == schedules;
    assert Enumerate(sections, table, current, selected) == EnumerateFrom(sections, table, current, selected, next, 0);
    return Ok(schedules);
  }

  // ---------------------------------------------------------------------------
  // An independent description of what the generator enumerates
  // ---------------------------------------------------------------------------

  /** The distinct courses of the sections, each at its first appearance. */
  function CourseOrder(sections: seq<Section>): seq<string>
  {
    if sections == [] then []
    else
      var order := CourseOrder(sections[..|sections| - 1]);
      var course := sections[|sections| - 1].course;
      if course in order then order else order + [course]
  }

  /** The sections of one course, in section order. */
  function SectionsOf(sections: seq<Section>, course: string): seq<Section>
  {
    if sections == [] then []
    else
      (if sections[0].course == course then [sections[0]] else []) + SectionsOf(sections[1..], course)
  }

  lemma {:induction false} SectionsOfMembers(sections: seq<Section>, course: string, s: Section)
    ensures s in SectionsOf(sections, course) <==> s in sections && s.course == course
  {
    if sections != [] {
      SectionsOfMembers(sections[1..], course, s);
      assert s in sections <==> s == sections[0] || s in sections[1..];
    }
  }

  /** `first` followed by each of `picks`, in order. */
  function Prepend(first: Section, picks: seq<seq<Section>>): seq<seq<Section>>
  {
    if picks == [] then [] else [[first] + picks[0]] + Prepend(first, picks[1..])
  }

  /** Every choice of `choices` followed by every pick of `picks`, the choice
      varying slowest. */
  function Product(choices: seq<Section>, picks: seq<seq<Section>>): seq<seq<Section>>
  {
    if choices == [] then [] else Prepend(choices[0], picks) + Product(choices[1..], picks)
  }

  /** Every way of taking one section of each course of `order`, in
      lexicographic order of section positions. */
  function Picks(sections: seq<Section>, order: seq<string>): seq<seq<Section>>
    decreases |order|
  {
    if order == [] then [[]] else Product(SectionsOf(sections, order[0]), Picks(sections, order[1..]))
  }

  /** The full meeting lists of the picked sections, concatenated in pick
      order (a section missing from the table contributes nothing). */
  function MeetingsOf(table: TimeTable, pick: seq<Section>): Schedule
  {
    if pick == [] then []
    else (if pick[0].crn in table then table[pick[0].crn] else []) + MeetingsOf(table, pick[1..])
  }

  /** `current` extended by the meetings of each pick, keeping the
      conflict-free ones, in pick order. */
  function KeepValid(current: Schedule, table: TimeTable, picks: seq<seq<Section>>): seq<Schedule>
  {
    if picks == [] then []
    else
      var candidate := current + MeetingsOf(table, picks[0]);
      (if HasConflict(candidate) then [] else [candidate]) + KeepValid(current, table, picks[1..])
  }

  /** Every section has an entry in the time table. */
  predicate AllTimed(sections: seq<Section>, table: TimeTable)
  {
    forall s :: s in sections ==> s.crn in table
  }

  /** Some section of one of `courses` has no entry in the time table. */
  predicate MissingAmong(sections: seq<Section>, table: TimeTable, courses: seq<string>)
  {
    exists s :: s in sections && s.course in courses && s.crn !in table
  }

  /** `pick` takes, for each course of `order` in turn, one section of it. */
  predicate IsPick(sections: seq<Section>, order: seq<string>, pick: seq<Section>)
  {
    |pick| == |order| && forall k :: 0 <= k < |pick| ==> pick[k] in sections && pick[k].course == order[k]
  }

  // ---------------------------------------------------------------------------
  // Facts about the course order
  // ---------------------------------------------------------------------------

  /** The course order lists every course of the sections exactly once. */
  lemma {:induction false} CourseOrderFacts(sections: seq<Section>)
    ensures Distinct(CourseOrder(sections))
    ensures Elems(CourseOrder(sections)) == Courses(sections)
  {
    if sections != [] {
      var init := sections[..|sections| - 1];
      var last := sections[|sections| - 1];
      CourseOrderFacts(init);
      assert sections == init + [last];
      assert Courses(sections) == Courses(init) + {last.course};
      var order := CourseOrder(init);
      if last.course !in order {
        assert Elems(order + [last.course]) == Elems(order) + {last.course};
      }
    }
  }

  lemma {:induction false} DistinctCard<T>(xs: seq<T>)
    requires Distinct(xs)
    ensures |Elems(xs)| == |xs|
  {
    if xs != [] {
      var init := xs[..|xs| - 1];
      DistinctCard(init);
      assert xs == init + [xs[|xs| - 1]];
      assert Elems(xs) == Elems(init) + {xs[|xs| - 1]};
    }
  }

  lemma {:induction false} RemainingAppend(a: seq<Section>, b: seq<Section>, selected: set<string>)
    ensures Remaining(a + b, selected) == Remaining(a, selected) + Remaining(b, selected)
  {
    if a == [] {
      assert a + b == b;
    } else {
      assert (a + b)[0] == a[0] && (a + b)[1..] == a[1..] + b;
      RemainingAppend(a[1..], b, selected);
    }
  }

  lemma {:induction false} RemainingAllSelected(sections: seq<Section>, selected: set<string>)
    requires Courses(sections) <= selected
    ensures Remaining(sections, selected) == []
  {
    if sections != [] {
      assert sections[0] in sections;
      assert Courses(sections[1..]) <= Courses(sections);
      RemainingAllSelected(sections[1..], selected);
    }
  }

  /** Once the first k courses of the order are selected, the first remaining
      course is the (k+1)-th of the order. */
  lemma {:induction false} RemainingHead(sections: seq<Section>, k: nat)
    requires k < |CourseOrder(sections)|
    ensures Remaining(sections, Elems(CourseOrder(sections)[..k])) != []
    ensures Remaining(sections, Elems(CourseOrder(sections)[..k]))[0] == CourseOrder(sections)[k]
  {
    var init := sections[..|sections| - 1];
    var last := sections[|sections| - 1];
    var order := CourseOrder(init);
    assert sections == init + [last];
    RemainingAppend(init, [last], Elems(CourseOrder(sections)[..k]));
    if k < |order| {
      assert CourseOrder(sections)[..k] == order[..k];
      RemainingHead(init, k);
    } else {
      CourseOrderFacts(init);
      assert CourseOrder(sections)[..k] == order;
      RemainingAllSelected(init, Elems(order));
      assert [last][1..] == [];
      assert Remaining([last], Elems(order)) == [last.course];
    }
  }

  // ---------------------------------------------------------------------------
  // Facts about the reference enumeration
  // ---------------------------------------------------------------------------

  lemma {:induction false} KeepValidAppend(current: Schedule, table: TimeTable, a: seq<seq<Section>>, b: seq<seq<Section>>)
    ensures KeepValid(current, table, a + b) == KeepValid(current, table, a) + KeepValid(current, table, b)
  {
    if a == [] {
      assert a + b == b;
    } else {
      var candidate := current + MeetingsOf(table, a[0]);
      var kept := if HasConflict(candidate) then [] else [candidate];
      assert KeepValid(current, table, a + b) == kept + KeepValid(current, table, a[1..] + b) by {
        assert (a + b)[0] == a[0] && (a + b)[1..] == a[1..] + b;
      }
      KeepValidAppend(current, table, a[1..], b);
    }
  }

  lemma {:induction false} KeepValidPrepend(current: Schedule, table: TimeTable, first: Section, picks: seq<seq<Section>>)
    requires first.crn in table
    ensures KeepValid(current, table, Prepend(first, picks)) == KeepValid(current + table[first.crn], table, picks)
  {
    if picks != [] {
      var pick := [first] + picks[0];
      assert pick[1..] == picks[0];
      assert current + MeetingsOf(table, pick) == (current + table[first.crn]) + MeetingsOf(table, picks[0]);
      KeepValidPrepend(current, table, first, picks[1..]);
    }
  }

  lemma {:induction false} PrependMember(first: Section, picks: seq<seq<Section>>, p: seq<Section>)
    ensures p in Prepend(first, picks) <==> |p| > 0 && p[0] == first && p[1..] in picks
  {
    if picks != [] {
      PrependMember(first, picks[1..], p);
      if |p| > 0 && p[0] == first && p[1..] == picks[0] {
        assert p == [first] + picks[0];
      }
      assert ([first] + picks[0])[1..] == picks[0];
      assert forall q :: q in picks <==> q == picks[0] || q in picks[1..];
    }
  }

  lemma {:induction false} ProductMember(choices: seq<Section>, picks: seq<seq<Section>>, p: seq<Section>)
    ensures p in Product(choices, picks) <==> |p| > 0 && p[0] in choices && p[1..] in picks
  {
    if choices != [] {
      PrependMember(choices[0], picks, p);
      ProductMember(choices[1..], picks, p);
      assert forall c :: c in choices <==> c == choices[0] || c in choices[1..];
    }
  }

  /** The reference enumeration holds exactly the ways of taking one section
      per course of the order. */
  lemma {:induction false} PicksExactly(sections: seq<Section>, order: seq<string>, pick: seq<Section>)
    ensures pick in Picks(sections, order) <==> IsPick(sections, order, pick)
    decreases |order|
  {
    if order != [] {
      ProductMember(SectionsOf(sections, order[0]), Picks(sections, order[1..]), pick);
      if |pick| > 0 {
        SectionsOfMembers(sections, order[0], pick[0]);
        PicksExactly(sections, order[1..], pick[1..]);
        if IsPick(sections, order[1..], pick[1..]) && pick[0] in sections && pick[0].course == order[0] {
          forall k | 0 <= k < |pick|
            ensures pick[k] in sections && pick[k].course == order[k]
          {
            if k > 0 {
              assert pick[k] == pick[1..][k - 1];
            }
          }
        }
        if IsPick(sections, order, pick) {
          assert pick[0] in sections && pick[0].course == order[0];
          forall k | 0 <= k < |pick| - 1
            ensures pick[1..][k] in sections && pick[1..][k].course == order[1..][k]
          {
            assert pick[1..][k] == pick[k + 1];
          }
        }
      }
    }
  }

  // ---------------------------------------------------------------------------
  // The generator enumerates exactly the reference schedules
  // ---------------------------------------------------------------------------

  lemma SelectNext(order: seq<string>, k: nat)
    requires k < |order|
    ensures Elems(order[..k]) + {order[k]} == Elems(order[..k + 1])
  {
    assert order[..k + 1] == order[..k] + [order[k]];
  }

  lemma {:induction false} SelectedCount(sections: seq<Section>, k: nat)
    requires k <= |CourseOrder(sections)|
    ensures |Elems(CourseOrder(sections)[..k])| == k
    ensures |Courses(sections)| == |CourseOrder(sections)|
    ensures k < |CourseOrder(sections)| ==>
      CourseOrder(sections)[k] in Courses(sections) && CourseOrder(sections)[k] !in Elems(CourseOrder(sections)[..k])
  {
    var order := CourseOrder(sections);
    CourseOrderFacts(sections);
    DistinctCard(order);
    DistinctCard(order[..k]);
    if k < |order| {
      assert order[k] in Elems(order);
    }
  }

  /** Below the last course, a call takes the course at position k of the
      order as the next course and runs the section loop for it. */
  lemma EntersLoop(sections: seq<Section>, table: TimeTable, current: Schedule, k: nat)
    requires k < |CourseOrder(sections)|
    ensures CourseOrder(sections)[k] in Courses(sections)
    ensures CourseOrder(sections)[k] !in Elems(CourseOrder(sections)[..k])
    ensures Enumerate(sections, table, current, Elems(CourseOrder(sections)[..k]))
         == EnumerateFrom(sections, table, current, Elems(CourseOrder(sections)[..k]), CourseOrder(sections)[k], 0)
  {
    SelectedCount(sections, k);
    RemainingHead(sections, k);
  }

  /** With all courses before position k of the order selected and every
      section timed, one call appends exactly the reference schedules for the
      remaining courses. */
  lemma {:induction false} EnumerateMatchesReference(sections: seq<Section>, table: TimeTable, current: Schedule, k: nat)
    requires AllTimed(sections, table)
    requires k <= |CourseOrder(sections)|
    ensures Enumerate(sections, table, current, Elems(CourseOrder(sections)[..k]))
         == Ok(KeepValid(current, table, Picks(sections, CourseOrder(sections)[k..])))
    decreases |CourseOrder(sections)| - k, 1
  {
    var order := CourseOrder(sections);
    var selected := Elems(order[..k]);
    SelectedCount(sections, k);
    if k == |order| {
      assert order[..k] == order && order[k..] == [];
      CourseOrderFacts(sections);
      assert current + MeetingsOf(table, []) == current;
      var none: seq<Section> := [];
      assert [none][1..] == [];
      assert KeepValid(current, table, [[]]) == if HasConflict(current) then [] else [current];
    } else {
      EntersLoop(sections, table, current, k);
      EnumerateFromMatchesReference(sections, table, current, k, selected, order[k], 0);
      assert order[k..][0] == order[k] && order[k..][1..] == order[k + 1..];
      assert sections[0..] == sections;
    }
  }

  lemma {:induction false} EnumerateFromMatchesReference(sections: seq<Section>, table: TimeTable, current: Schedule,
                                                          k: nat, selected: set<string>, next: string, i: nat)
    requires AllTimed(sections, table)
    requires k < |CourseOrder(sections)| && i <= |sections|
    requires selected == Elems(CourseOrder(sections)[..k]) && next == CourseOrder(sections)[k]
    requires next in Courses(sections) && next !in selected
    ensures EnumerateFrom(sections, table, current, selected, next, i)
         == Ok(KeepValid(current, table, Product(SectionsOf(sections[i..], next), Picks(sections, CourseOrder(sections)[k + 1..]))))
    decreases |CourseOrder(sections)| - k, 0, |sections| - i
  {
    var order := CourseOrder(sections);
    var later := Picks(sections, order[k + 1..]);
    if i < |sections| {
      var section := sections[i];
      var rest := SectionsOf(sections[i + 1..], next);
      var others := KeepValid(current, table, Product(rest, later));
      assert EnumerateFrom(sections, table, current, selected, next, i + 1) == Ok(others) by {
        EnumerateFromMatchesReference(sections, table, current, k, selected, next, i + 1);
      }
      if section.course == next {
        var child := current + table[section.crn] by {
          assert section in sections;
        }
        var first := KeepValid(child, table, later);
        assert Enumerate(sections, table, child, selected + {next}) == Ok(first) by {
          SelectNext(order, k);
          EnumerateMatchesReference(sections, table, child, k + 1);
        }
        assert EnumerateFrom(sections, table, current, selected, next, i) == Ok(first + others) by {
          EnumerateFromTakes(sections, table, current, selected, next, i);
        }
        assert KeepValid(current, table, Product(SectionsOf(sections[i..], next), later)) == first + others by {
          ReferenceTakes(sections, table, current, next, i, later);
        }
      } else {
        assert SectionsOf(sections[i..], next) == rest by {
          assert sections[i..][0] == section && sections[i..][1..] == sections[i + 1..];
        }
        assert EnumerateFrom(sections, table, current, selected, next, i)
            == EnumerateFrom(sections, table, current, selected, next, i + 1);
      }
    } else {
      assert EnumerateFrom(sections, table, current, selected, next, i) == Ok([]);
      assert SectionsOf(sections[i..], next) == [];
    }
  }

  /** The reference side of one loop pass: a section of the next course
      contributes its own extensions ahead of those of later sections. */
  lemma ReferenceTakes(sections: seq<Section>, table: TimeTable, current: Schedule, next: string,
                       i: nat, later: seq<seq<Section>>)
    requires i < |sections| && sections[i].course == next && sections[i].crn in table
    ensures KeepValid(current, table, Product(SectionsOf(sections[i..], next), later))
         == KeepValid(current + table[sections[i].crn], table, later)
          + KeepValid(current, table, Product(SectionsOf(sections[i + 1..], next), later))
  {
    var rest := SectionsOf(sections[i + 1..], next);
    ProductOfFirstSection(sections, i, next, later);
    KeepValidAppend(current, table, Prepend(sections[i], later), Product(rest, later));
    KeepValidPrepend(current, table, sections[i], later);
  }

  lemma ProductOfFirstSection(sections: seq<Section>, i: nat, next: string, later: seq<seq<Section>>)
    requires i < |sections| && sections[i].course == next
    ensures Product(SectionsOf(sections[i..], next), later)
         == Prepend(sections[i], later) + Product(SectionsOf(sections[i + 1..], next), later)
  {
    var rest := SectionsOf(sections[i + 1..], next);
    assert sections[i..][0] == sections[i] && sections[i..][1..] == sections[i + 1..];
    assert SectionsOf(sections[i..], next) == [sections[i]] + rest;
    assert ([sections[i]] + rest)[0] == sections[i] && ([sections[i]] + rest)[1..] == rest;
  }

  /** A section of the next course whose recursive call and later loop passes
      both succeed contributes its schedules ahead of the later ones. */
  lemma EnumerateFromTakes(sections: seq<Section>, table: TimeTable, current: Schedule,
                           selected: set<string>, next: string, i: nat)
    requires next in Courses(sections) && next !in selected
    requires i < |sections| && sections[i].course == next && sections[i].crn in table
    requires Enumerate(sections, table, current + table[sections[i].crn], selected + {next}).Ok?
    requires EnumerateFrom(sections, table, current, selected, next, i + 1).Ok?
    ensures EnumerateFrom(sections, table, current, selected, next, i)
         == Ok(Enumerate(sections, table, current + table[sections[i].crn], selected + {next}).value
               + EnumerateFrom(sections, table, current, selected, next, i + 1).value)
  {
  }

  /** A section of a course at or after position k that has no time-table
      entry makes the call raise a KeyError. */
  lemma {:induction false} MissingTimesFail(sections: seq<Section>, table: TimeTable, current: Schedule, k: nat)
    requires k < |CourseOrder(sections)|
    requires MissingAmong(sections, table, CourseOrder(sections)[k..])
    ensures Enumerate(sections, table, current, Elems(CourseOrder(sections)[..k])).Err?
    decreases |CourseOrder(sections)| - k, 1
  {
    var order := CourseOrder(sections);
    var selected := Elems(order[..k]);
    EntersLoop(sections, table, current, k);
    var s :| s in sections && s.course in order[k..] && s.crn !in table;
    var j :| 0 <= j < |sections| && sections[j] == s;
    if s.course == order[k] {
      MissingTimesFailFrom(sections, table, current, k, selected, order[k], 0, j);
    } else {
      assert s.course in order[k + 1..] by {
        assert order[k..] == [order[k]] + order[k + 1..];
      }
      var t :| t in sections && t.course == order[k];
      var m :| 0 <= m < |sections| && sections[m] == t;
      MissingTimesFailFrom(sections, table, current, k, selected, order[k], 0, m);
    }
  }

  /** The loop from position i raises a KeyError when a section of the next
      course at position j >= i is untimed, or when some section of a later
      course is untimed and the loop reaches a section of the next course. */
  lemma {:induction false} MissingTimesFailFrom(sections: seq<Section>, table: TimeTable, current: Schedule,
                                                 k: nat, selected: set<string>, next: string, i: nat, j: nat)
    requires k < |CourseOrder(sections)|
    requires selected == Elems(CourseOrder(sections)[..k]) && next == CourseOrder(sections)[k]
    requires next in Courses(sections) && next !in selected
    requires i <= j < |sections| && sections[j].course == next
    requires sections[j].crn !in table || MissingAmong(sections, table, CourseOrder(sections)[k + 1..])
    ensures EnumerateFrom(sections, table, current, selected, next, i).Err?
    decreases |CourseOrder(sections)| - k, 0, |sections| - i
  {
    var section := sections[i];
    if section.course != next {
      MissingTimesFailFrom(sections, table, current, k, selected, next, i + 1, j);
    } else if section.crn in table {
      if MissingAmong(sections, table, CourseOrder(sections)[k + 1..]) {
        var s :| s in sections && s.course in CourseOrder(sections)[k + 1..] && s.crn !in table;
        SelectNext(CourseOrder(sections), k);
        MissingTimesFail(sections, table, current + table[section.crn], k + 1);
      } else {
        MissingTimesFailFrom(sections, table, current, k, selected, next, i + 1, j);
      }
    }
  }

  /** From an empty combination, the generator succeeds exactly when every
      section is timed, and then appends the conflict-free reference
      schedules: one section per course, courses in first-appearance order,
      combinations in lexicographic order of section positions. */
  lemma GeneratorMatchesReference(sections: seq<Section>, table: TimeTable)
    ensures Enumerate(sections, table, [], {}).Ok? <==> AllTimed(sections, table)
    ensures AllTimed(sections, table) ==>
      Enumerate(sections, table, [], {}) == Ok(KeepValid([], table, Picks(sections, CourseOrder(sections))))
  {
    var order := CourseOrder(sections);
    assert order[..0] == [] && order[0..] == order;
    assert Elems(order[..0]) == {};
    if AllTimed(sections, table) {
      EnumerateMatchesReference(sections, table, [], 0);
    } else {
      var s :| s in sections && s.crn !in table;
      CourseOrderFacts(sections);
      assert s.course in Elems(order);
      MissingTimesFail(sections, table, [], 0);
    }
  }

  /** get_valid_schedules, with the two database queries replaced by their
      results: the sections of the requested courses and their meetings. */
  method GetValidSchedules(sections: seq<Section>, sectionTimes: seq<SectionTime>)
    returns (r: Result<seq<Schedule>, LookupError>)
    ensures r == Enumerate(sections, GroupedTimes(sectionTimes), [], {})
    ensures r.Ok? <==> SectionCrns(sections) <= Crns(sectionTimes)
    ensures r.Ok? ==> r.value == KeepValid([], GroupedTimes(sectionTimes), Picks(sections, CourseOrder(sections)))
    ensures r.Ok? ==> forall s :: s in r.value ==> !HasConflict(s)
    ensures sections == [] ==> r == Ok([[]])
  {
    var table := GroupByCrn(sectionTimes);
    r := GenerateValidSchedules(sections, table, [], {}, []);
    GeneratorMatchesReference(sections, table);
    match Enumerate(sections, table, [], {})
    case Ok(found) => assert [] + found == found;
    case Err(_) =>
    assert AllTimed(sections, table) <==> SectionCrns(sections) <= Crns(sectionTimes);
  }
}
