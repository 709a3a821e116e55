/** The synthetic data generator, as a specification: given every random draw
    up front, what rows each phase of a population pass appends to each table. */
module Generator {
  import opened Records

  // ---------------------------------------------------------------------
  // Constants of the generator
  // ---------------------------------------------------------------------

  const GeographySeeds: seq<Geography> := [
    Geography("King's Landing", "Crownlands"),
    Geography("Winterfell", "The North"),
    Geography("Highgarden", "The Reach"),
    Geography("Sunspear", "Dorne"),
    Geography("Pyke", "Iron Islands")
  ]

  const SchoolNames: seq<string> := [
    "King's Landing Elementary School",
    "Winterfell High School",
    "Highgarden Comprehensive School"
  ]

  const StudentCount: nat := 100

  const YearLabels: seq<string> := ["K", "1", "2", "3", "4", "5", "6", "7", "8", "9", "10", "11", "12"]

  const Subjects: seq<Subject> := [English, Maths, Science]

  const ClassCount: nat := 39

  const AttendancesPerEnrolment: nat := 10

  const IncidentDrawCount: nat := 50

  /** `random.random()` returns k / 2^53 for a k drawn uniformly from [0, 2^53);
      a "roll" is that k, and each float comparison becomes an exact integer one. */
  const RandomScale: int := 0x20_0000_0000_0000

  /** k / 2^53 < 0.2 holds exactly when k < LowCut. */
  const LowCut: int := 1801439850948199

  /** k / 2^53 < 0.1 holds exactly when k < MediumCut. */
  const MediumCut: int := 900719925474100

  /** k / 2^53 > 0.8 holds exactly when k > CloseCut. */
  const CloseCut: int := 7205759403792794

  // The binary doubles the literals 0.2, 0.1 and 0.8 of the generator denote,
  // written out exactly. A roll over 2^53 is exact in a double, so comparing
  // it with one of these is comparing the real numbers.

  const PointTwo: real := 0.200000000000000011102230246251565404236316680908203125

  const PointOne: real := 0.1000000000000000055511151231257827021181583404541015625

  const PointEight: real := 0.8000000000000000444089209850062616169452667236328125

  /** The value `random.random()` returns for roll k. */
  function RollValue(k: int): real {
    (k as real) / (RandomScale as real)
  }

  predicate IsRoll(k: int) {
    0 <= k < RandomScale
  }

  function SubjectIndex(s: Subject): (k: nat)
    ensures k < |Subjects| && Subjects[k] == s
  {
    match s
    case English => 0
    case Maths => 1
    case Science => 2
  }

  // ---------------------------------------------------------------------
  // The random draws, supplied as inputs
  // ---------------------------------------------------------------------

  datatype StudentDraw = StudentDraw(firstName: string, lastName: string, ses: Ses)

  /** `closeRoll` decides whether the enrolment has ended; `end` is used only then. */
  datatype EnrolmentDraw = EnrolmentDraw(start: Date, closeRoll: int, end: Date, schoolIndex: int)

  /** `roll` decides presence for Low and Medium students, `coin` for everyone else. */
  datatype AttendanceDraw = AttendanceDraw(date: Date, roll: int, coin: bool, classIndex: int)

  /** One incident draw: the date and student shared by all its rows, and the
      type of each of the (at most three) rows it produces. */
  datatype IncidentDraw = IncidentDraw(date: Date, studentIndex: int, types: seq<IncidentType>)

  datatype Draws = Draws(
    students: seq<StudentDraw>,
    enrolments: seq<EnrolmentDraw>,
    attendances: seq<seq<AttendanceDraw>>,
    incidents: seq<IncidentDraw>)

  /** The dates the generator's relative date ranges ("-6y", "-1y", "today") resolve to. */
  datatype Horizon = Horizon(sixYearsAgo: Date, oneYearAgo: Date, today: Date)

  predicate HorizonOrdered(h: Horizon) {
    DateLe(h.sixYearsAgo, h.oneYearAgo) && DateLe(h.oneYearAgo, h.today)
  }

  /** Whether the enrolment drawn as `e` has ended: its roll is above 0.8. */
  function Closed(e: EnrolmentDraw): (r: bool)
    ensures r <==> RollValue(e.closeRoll) > PointEight
  {
    e.closeRoll > CloseCut
  }

  /** The last day an enrolment drawn as `e` covers: its end, or today while open. */
  function DrawEnd(e: EnrolmentDraw, today: Date): Date {
    if Closed(e) then e.end else today
  }

  function EndOrToday(e: Enrolment, today: Date): Date {
    if e.endDate.Some? then e.endDate.value else today
  }

  /** The date range attendance draws for the k-th enrolment of the table
      (the stored ones, then the ones this pass adds) come from. */
  function Window(prior: seq<Row<Enrolment>>, eds: seq<EnrolmentDraw>, today: Date, k: int): (Date, Date)
    requires 0 <= k < |prior| + |eds|
  {
    if k < |prior| then (prior[k].val.startDate, EndOrToday(prior[k].val, today))
    else (eds[k - |prior|].start, DrawEnd(eds[k - |prior|], today))
  }

  predicate EnrolmentDrawOk(e: EnrolmentDraw, h: Horizon) {
    InRange(e.start, h.sixYearsAgo, h.oneYearAgo) && IsRoll(e.closeRoll) &&
    InRange(e.end, h.oneYearAgo, h.today) && 0 <= e.schoolIndex < |SchoolNames|
  }

  predicate AttendanceDrawOk(a: AttendanceDraw, w: (Date, Date)) {
    InRange(a.date, w.0, w.1) && IsRoll(a.roll) && 0 <= a.classIndex < ClassCount
  }

  predicate IncidentDrawOk(i: IncidentDraw, h: Horizon) {
    InRange(i.date, h.sixYearsAgo, h.today) && 0 <= i.studentIndex < StudentCount && |i.types| == 3
  }

  /** The draws a pass makes over a store whose enrolments are `prior`, as the
      random sources produce them: how many, and from which ranges. */
  predicate DrawsOk(d: Draws, h: Horizon, prior: seq<Row<Enrolment>>) {
    HorizonOrdered(h) &&
    |d.students| == StudentCount &&
    |d.enrolments| == StudentCount &&
    (forall k :: 0 <= k < |d.enrolments| ==> EnrolmentDrawOk(d.enrolments[k], h)) &&
    |d.attendances| == |prior| + StudentCount &&
    (forall k :: 0 <= k < |d.attendances| ==> |d.attendances[k]| == AttendancesPerEnrolment) &&
    (forall k, j :: 0 <= k < |d.attendances| && 0 <= j < |d.attendances[k]| ==>
      AttendanceDrawOk(d.attendances[k][j], Window(prior, d.enrolments, h.today, k))) &&
    |d.incidents| == IncidentDrawCount &&
    (forall k :: 0 <= k < |d.incidents| ==> IncidentDrawOk(d.incidents[k], h))
  }

  // ---------------------------------------------------------------------
  // Geographies, schools, students, years
  // ---------------------------------------------------------------------

  /** Three schools, the k-th in the k-th geography of `geoRows`. */
  function SchoolSeeds(geoRows: seq<Row<Geography>>): seq<School>
    requires |geoRows| >= |SchoolNames|
  {
    seq(|SchoolNames|, k requires 0 <= k < |SchoolNames| => School(SchoolNames[k], geoRows[k].id))
  }

  function StudentsFrom(ds: seq<StudentDraw>): seq<Student> {
    seq(|ds|, k requires 0 <= k < |ds| => Student(ds[k].firstName, ds[k].lastName, Some(ds[k].ses)))
  }

  /** One scholastic year per label, in label order. */
  function YearSeeds(): seq<ScholasticYear> {
    seq(|YearLabels|, k requires 0 <= k < |YearLabels| => ScholasticYear(YearLabels[k]))
  }

  // ---------------------------------------------------------------------
  // The class catalogue: one class per (year, subject)
  // ---------------------------------------------------------------------

  function ClassName(s: Subject, yearLabel: string): string {
    SubjectName(s) + " " + yearLabel
  }

  function ClassFor(y: Row<ScholasticYear>, s: Subject): Class {
    Class(Some(s), ClassName(s, y.val.year), y.id)
  }

  /** The classes of one year, in subject order. */
  function CatalogueBlock(y: Row<ScholasticYear>): seq<Class> {
    seq(|Subjects|, k requires 0 <= k < |Subjects| => ClassFor(y, Subjects[k]))
  }

  /** The classes of all the years, year by year. */
  function Catalogue(years: seq<Row<ScholasticYear>>): (r: seq<Class>)
    ensures |r| == 3 * |years|
  {
    if |years| == 0 then []
    else Catalogue(years[..|years| - 1]) + CatalogueBlock(years[|years| - 1])
  }

  /** Every name `"<subject> <year>"` of the catalogue can be looked up in `classes`. */
  predicate HasCatalogue(classes: seq<Row<Class>>) {
    forall i, s :: 0 <= i < |YearLabels| ==> HasName(classes, ClassName(s, YearLabels[i]))
  }

  // ---------------------------------------------------------------------
  // Enrolments and their expansion into class-enrolments
  // ---------------------------------------------------------------------

  /** The enrolment of `student` drawn as `e`: at one of `schools`, from the
      drawn start, ending on the drawn end only when the roll closes it. */
  function EnrolmentFrom(student: Row<Student>, e: EnrolmentDraw, schools: seq<Row<School>>): (r: Enrolment)
    requires 0 <= e.schoolIndex < |schools|
    ensures r.studentId == student.id && r.startDate == e.start && HasId(schools, r.schoolId)
    ensures r.endDate.Some? <==> Closed(e)
    ensures r.endDate.Some? ==> r.endDate.value == e.end
  {
    Enrolment(student.id, schools[e.schoolIndex].id, e.start, if Closed(e) then Some(e.end) else None)
  }

  predicate SchoolIndicesOk(eds: seq<EnrolmentDraw>, n: int) {
    forall k :: 0 <= k < |eds| ==> 0 <= eds[k].schoolIndex < n
  }

  /** One enrolment per student, in student order. */
  function EnrolmentsFrom(students: seq<Row<Student>>, eds: seq<EnrolmentDraw>, schools: seq<Row<School>>): seq<Enrolment>
    requires |eds| == |students| && SchoolIndicesOk(eds, |schools|)
  {
    seq(|students|, k requires 0 <= k < |students| => EnrolmentFrom(students[k], eds[k], schools))
  }

  /** The number of calendar years an enrolment touches, counting from its start
      year up to the year of its end (or of today while it is open). */
  function YearsEnrolled(e: Enrolment, today: Date): (n: int)
    ensures DateLe(e.startDate, EndOrToday(e, today)) ==> 1 <= n
  {
    EndOrToday(e, today).year - e.startDate.year + 1
  }

  /** How many scholastic years the expansion walks: the years enrolled, capped at 13. */
  function YearsCovered(e: Enrolment, today: Date): (n: nat)
    ensures n <= |YearLabels|
  {
    var y := YearsEnrolled(e, today);
    if y <= 0 then 0 else if y > |YearLabels| then |YearLabels| else y
  }

  /** The class-enrolment for scholastic year i and subject s; its class is found by name. */
  function ClassEnrolmentFor(e: Row<Enrolment>, classes: seq<Row<Class>>, i: int, s: Subject): ClassEnrolment
    requires 0 <= i < |YearLabels| && HasCatalogue(classes)
  {
    ClassEnrolment(e.id, FirstNamed(classes, ClassName(s, YearLabels[i])).value.id, e.val.startDate.year + i - 1)
  }

  function YearBlock(e: Row<Enrolment>, classes: seq<Row<Class>>, i: int): seq<ClassEnrolment>
    requires 0 <= i < |YearLabels| && HasCatalogue(classes)
  {
    seq(|Subjects|, k requires 0 <= k < |Subjects| => ClassEnrolmentFor(e, classes, i, Subjects[k]))
  }

  /** The class-enrolments of the first n scholastic years, three per year. */
  function Expansion(e: Row<Enrolment>, classes: seq<Row<Class>>, n: nat): (r: seq<ClassEnrolment>)
    requires n <= |YearLabels| && HasCatalogue(classes)
    ensures |r| == 3 * n
  {
    if n == 0 then [] else Expansion(e, classes, n - 1) + YearBlock(e, classes, n - 1)
  }

  /** The class-enrolments of one enrolment: three for each year it spans, up to thirteen years. */
  function ExpandOne(e: Row<Enrolment>, classes: seq<Row<Class>>, today: Date): (r: seq<ClassEnrolment>)
    requires HasCatalogue(classes)
    ensures |r| == 3 * YearsCovered(e.val, today) <= 39
  {
    Expansion(e, classes, YearsCovered(e.val, today))
  }

  /** The class-enrolments of every enrolment in `es`, enrolment by enrolment. */
  function ExpandAll(es: seq<Row<Enrolment>>, classes: seq<Row<Class>>, today: Date): (r: seq<ClassEnrolment>)
    requires HasCatalogue(classes)
    ensures |r| <= 39 * |es|
  {
    if |es| == 0 then []
    else ExpandAll(es[..|es| - 1], classes, today) + ExpandOne(es[|es| - 1], classes, today)
  }

  // ---------------------------------------------------------------------
  // Attendances
  // ---------------------------------------------------------------------

  /** Whether a student of status `ses` is marked present: below 0.2 for Low,
      below 0.1 for Medium, a fair coin otherwise. */
  function Present(ses: Option<Ses>, roll: int, coin: bool): (r: bool)
    ensures ses == Some(Low) ==> (r <==> RollValue(roll) < PointTwo)
    ensures ses == Some(Medium) ==> (r <==> RollValue(roll) < PointOne)
    ensures ses != Some(Low) && ses != Some(Medium) ==> r == coin
  {
    match ses
    case Some(Low) => roll < LowCut
    case Some(Medium) => roll < MediumCut
    case _ => coin
  }

  predicate EnrolmentStudentsExist(es: seq<Row<Enrolment>>, students: seq<Row<Student>>) {
    forall k :: 0 <= k < |es| ==> HasId(students, es[k].val.studentId)
  }

  predicate ClassIndicesOk(dss: seq<seq<AttendanceDraw>>, n: int) {
    forall k, j :: 0 <= k < |dss| && 0 <= j < |dss[k]| ==> 0 <= dss[k][j].classIndex < n
  }

  /** One attendance of enrolment `e`; the student is looked up by id for its status. */
  function AttendanceFor(e: Row<Enrolment>, students: seq<Row<Student>>, classRows: seq<Row<Class>>, a: AttendanceDraw): (r: Attendance)
    requires HasId(students, e.val.studentId) && 0 <= a.classIndex < |classRows|
    ensures r.studentId == e.val.studentId && r.attendanceDate == a.date && HasId(classRows, r.classId)
  {
    var student := FirstWithId(students, e.val.studentId).value;
    Attendance(e.val.studentId, classRows[a.classIndex].id, Present(student.val.ses, a.roll, a.coin), a.date)
  }

  function AttendanceBlock(e: Row<Enrolment>, students: seq<Row<Student>>, classRows: seq<Row<Class>>, ds: seq<AttendanceDraw>): seq<Attendance>
    requires HasId(students, e.val.studentId) && forall j :: 0 <= j < |ds| ==> 0 <= ds[j].classIndex < |classRows|
  {
    seq(|ds|, j requires 0 <= j < |ds| => AttendanceFor(e, students, classRows, ds[j]))
  }

  /** The attendances of every enrolment in `es`, enrolment by enrolment. */
  function AttendancesFor(es: seq<Row<Enrolment>>, students: seq<Row<Student>>, classRows: seq<Row<Class>>, dss: seq<seq<AttendanceDraw>>): (r: seq<Attendance>)
    requires |dss| == |es| && EnrolmentStudentsExist(es, students) && ClassIndicesOk(dss, |classRows|)
    requires forall k :: 0 <= k < |dss| ==> |dss[k]| == AttendancesPerEnrolment
    ensures |r| == 10 * |es|
  {
    if |es| == 0 then []
    else
      var n := |es| - 1;
      AttendancesFor(es[..n], students, classRows, dss[..n]) + AttendanceBlock(es[n], students, classRows, dss[n])
  }

  // ---------------------------------------------------------------------
  // Incidents
  // ---------------------------------------------------------------------

  /** How many incident rows one draw for a student of status `ses` produces. */
  function Multiplier(ses: Option<Ses>): (m: nat)
    ensures 1 <= m <= 3
    ensures m == 1 <==> ses != Some(Low) && ses != Some(Medium)
  {
    match ses
    case Some(Low) => 3
    case Some(Medium) => 2
    case _ => 1
  }

  predicate IncidentDrawFits(d: IncidentDraw, n: int) {
    0 <= d.studentIndex < n && 3 <= |d.types|
  }

  /** The rows of one incident draw for `student`: as many as its status asks
      for, all for that student on the drawn date. */
  function IncidentBlock(student: Row<Student>, d: IncidentDraw): (r: seq<Incident>)
    requires 3 <= |d.types|
    ensures |r| == Multiplier(student.val.ses)
    ensures forall j :: 0 <= j < |r| ==> r[j].studentId == student.id && r[j].reportedDate == d.date
  {
    var m := Multiplier(student.val.ses);
    seq(m, j requires 0 <= j < m => Incident(d.types[j], d.date, student.id))
  }

  /** The incidents of every draw in `ds`, draw by draw. */
  function IncidentsFor(ds: seq<IncidentDraw>, students: seq<Row<Student>>): (r: seq<Incident>)
    requires forall k :: 0 <= k < |ds| ==> IncidentDrawFits(ds[k], |students|)
    ensures |ds| <= |r| <= 3 * |ds|
  {
    if |ds| == 0 then []
    else
      var n := |ds| - 1;
      assert IncidentDrawFits(ds[n], |students|);
      IncidentsFor(ds[..n], students) + IncidentBlock(students[ds[n].studentIndex], ds[n])
  }

  // ---------------------------------------------------------------------
  // Facts about the phases
  // ---------------------------------------------------------------------

  /** Class 3y+s of the catalogue is subject s of year y. */
  lemma {:induction false} CatalogueAt(years: seq<Row<ScholasticYear>>, y: int, s: int)
    requires 0 <= y < |years| && 0 <= s < |Subjects|
    ensures Catalogue(years)[3 * y + s] == ClassFor(years[y], Subjects[s])
  {
    var n := |years| - 1;
    if y < n {
      CatalogueAt(years[..n], y, s);
      assert years[..n][y] == years[y];
    }
  }

  /** Once the catalogue of the 13 years is appended, every `"<subject> <year>"`
      lookup finds a class, whatever the table held before. */
  lemma CatalogueComplete(prior: seq<Row<Class>>, years: seq<Row<ScholasticYear>>, first: int)
    requires |years| == |YearLabels|
    requires forall i :: 0 <= i < |years| ==> years[i].val.year == YearLabels[i]
    ensures HasCatalogue(prior + Numbered(Catalogue(years), first))
  {
    var rows := Numbered(Catalogue(years), first);
    forall i, s | 0 <= i < |YearLabels| ensures HasName(prior + rows, ClassName(s, YearLabels[i])) {
      var k := SubjectIndex(s);
      CatalogueAt(years, i, k);
      assert rows[3 * i + k].val.name == ClassName(s, YearLabels[i]);
      FirstNamedSuffix(prior, rows, ClassName(s, YearLabels[i]));
    }
  }

  /** A class name splits back into the subject's name, one space and the year label. */
  lemma ClassNameParts(s: Subject, yearLabel: string)
    ensures var n := ClassName(s, yearLabel);
      |n| == |SubjectName(s)| + 1 + |yearLabel| &&
      n[..|SubjectName(s)|] == SubjectName(s) && n[|SubjectName(s)|] == ' ' && n[|SubjectName(s)| + 1..] == yearLabel
  {
  }

  /** No two (subject, year) pairs share a class name. */
  lemma ClassNamesDistinct(s1: Subject, i1: int, s2: Subject, i2: int)
    requires 0 <= i1 < |YearLabels| && 0 <= i2 < |YearLabels|
    requires ClassName(s1, YearLabels[i1]) == ClassName(s2, YearLabels[i2])
    ensures s1 == s2 && i1 == i2
  {
    var n1, n2 := ClassName(s1, YearLabels[i1]), ClassName(s2, YearLabels[i2]);
    assert n1[0] == SubjectName(s1)[0] && n2[0] == SubjectName(s2)[0];
    var p := |SubjectName(s1)| + 1;
    assert n1[p..] == YearLabels[i1];
    assert n2[p..] == YearLabels[i2];
    YearLabelsDistinct();
  }

  lemma YearLabelsDistinct()
    ensures forall a, b :: 0 <= a < b < |YearLabels| ==> YearLabels[a] != YearLabels[b]
  {
    forall a, b | 0 <= a < b < |YearLabels| ensures YearLabels[a] != YearLabels[b] {
      if |YearLabels[a]| == |YearLabels[b]| {
        var c := |YearLabels[a]| - 1;
        assert YearLabels[a][c] != YearLabels[b][c];
      }
    }
  }

  /** Row 3i+s of an expansion is the class-enrolment of year i, subject s. */
  lemma {:induction false} ExpansionAt(e: Row<Enrolment>, classes: seq<Row<Class>>, n: nat, i: int, s: int)
    requires n <= |YearLabels| && HasCatalogue(classes) && 0 <= i < n && 0 <= s < |Subjects|
    ensures Expansion(e, classes, n)[3 * i + s] == ClassEnrolmentFor(e, classes, i, Subjects[s])
  {
    if i < n - 1 {
      ExpansionAt(e, classes, n - 1, i, s);
    }
  }

  /** An enrolment whose end (or today) is not before its start spans at least one
      calendar year and expands into 3 × min(years enrolled, 13) class-enrolments. */
  lemma ExpandOneSize(e: Row<Enrolment>, classes: seq<Row<Class>>, today: Date)
    requires HasCatalogue(classes) && DateLe(e.val.startDate, EndOrToday(e.val, today))
    ensures 1 <= YearsEnrolled(e.val, today)
    ensures |ExpandOne(e, classes, today)| ==
            3 * (if YearsEnrolled(e.val, today) < |YearLabels| then YearsEnrolled(e.val, today) else |YearLabels|)
  {
  }

  /** Every class-enrolment of an enrolment points back at it, at the class named
      `"<subject> <year label>"` for its position, and carries a calendar year one
      before the year it stands for: from the year before the start year up to the
      year before the end year, the first three exactly one year before the start. */
  lemma ExpandOneRow(e: Row<Enrolment>, classes: seq<Row<Class>>, today: Date, k: int)
    requires HasCatalogue(classes) && 0 <= k < |ExpandOne(e, classes, today)|
    ensures var r := ExpandOne(e, classes, today)[k];
      r.enrolmentId == e.id &&
      e.val.startDate.year - 1 <= r.calendarYear <= EndOrToday(e.val, today).year - 1 &&
      (k < 3 ==> r.calendarYear == e.val.startDate.year - 1) &&
      exists c :: c in classes && c.id == r.classId && c.val.name == ClassName(Subjects[k % 3], YearLabels[k / 3])
  {
    var n := YearsCovered(e.val, today);
    ExpansionAt(e, classes, n, k / 3, k % 3);
    var found := FirstNamed(classes, ClassName(Subjects[k % 3], YearLabels[k / 3]));
    assert found.Some?;
    var j :| 0 <= j < |classes| && classes[j] == found.value && found.value.val.name == ClassName(Subjects[k % 3], YearLabels[k / 3]) &&
             forall m :: 0 <= m < j ==> classes[m].val.name != ClassName(Subjects[k % 3], YearLabels[k / 3]);
    assert classes[j] in classes;
  }

  /** Every row of the expansion of several enrolments belongs to one of them. */
  lemma {:induction false} ExpandAllRow(es: seq<Row<Enrolment>>, classes: seq<Row<Class>>, today: Date, m: int)
    requires HasCatalogue(classes) && 0 <= m < |ExpandAll(es, classes, today)|
    ensures exists k, j :: 0 <= k < |es| && 0 <= j < |ExpandOne(es[k], classes, today)| &&
                           ExpandAll(es, classes, today)[m] == ExpandOne(es[k], classes, today)[j]
  {
    var n := |es| - 1;
    var pre := ExpandAll(es[..n], classes, today);
    if m < |pre| {
      ExpandAllRow(es[..n], classes, today, m);
      var k, j :| 0 <= k < n && 0 <= j < |ExpandOne(es[..n][k], classes, today)| &&
                  pre[m] == ExpandOne(es[..n][k], classes, today)[j];
      assert es[..n][k] == es[k];
    } else {
      assert ExpandAll(es, classes, today)[m] == ExpandOne(es[n], classes, today)[m - |pre|];
    }
  }

  function EnrolmentRefs(ces: seq<ClassEnrolment>): seq<int> {
    seq(|ces|, k requires 0 <= k < |ces| => ces[k].enrolmentId)
  }

  lemma {:induction false} ConstantCount(xs: seq<int>, x: int)
    requires forall k :: 0 <= k < |xs| ==> xs[k] == x
    ensures multiset(xs)[x] == |xs|
  {
    if |xs| > 0 {
      var n := |xs| - 1;
      assert xs == xs[..n] + [x];
      ConstantCount(xs[..n], x);
    }
  }

  /** Every class-enrolment an enrolment expands into points back at it. */
  lemma ExpandOneRefs(e: Row<Enrolment>, classes: seq<Row<Class>>, today: Date)
    requires HasCatalogue(classes)
    ensures forall j :: 0 <= j < |ExpandOne(e, classes, today)| ==> EnrolmentRefs(ExpandOne(e, classes, today))[j] == e.id
    ensures multiset(EnrolmentRefs(ExpandOne(e, classes, today)))[e.id] == |ExpandOne(e, classes, today)|
  {
    var refs := EnrolmentRefs(ExpandOne(e, classes, today));
    forall j | 0 <= j < |refs| ensures refs[j] == e.id {
      ExpandOneRow(e, classes, today, j);
    }
    ConstantCount(refs, e.id);
  }

  /** Expanding enrolments none of which has id `id` yields no class-enrolment of it. */
  lemma ExpandAllAbsent(es: seq<Row<Enrolment>>, classes: seq<Row<Class>>, today: Date, id: int)
    requires HasCatalogue(classes) && forall i :: 0 <= i < |es| ==> es[i].id != id
    ensures id !in EnrolmentRefs(ExpandAll(es, classes, today))
  {
    var all := ExpandAll(es, classes, today);
    if id in EnrolmentRefs(all) {
      var m :| 0 <= m < |all| && EnrolmentRefs(all)[m] == id;
      ExpandAllRow(es, classes, today, m);
      var k, j :| 0 <= k < |es| && 0 <= j < |ExpandOne(es[k], classes, today)| && all[m] == ExpandOne(es[k], classes, today)[j];
      ExpandOneRow(es[k], classes, today, j);
      assert false;
    }
  }

  /** With distinct enrolment ids, the expansion of all enrolments holds exactly
      as many class-enrolments of enrolment k as its own expansion does. */
  lemma {:induction false} ExpandAllCount(es: seq<Row<Enrolment>>, classes: seq<Row<Class>>, today: Date, k: int)
    requires HasCatalogue(classes) && IdsAscending(es) && 0 <= k < |es|
    ensures multiset(EnrolmentRefs(ExpandAll(es, classes, today)))[es[k].id] == |ExpandOne(es[k], classes, today)|
  {
    var n := |es| - 1;
    var pre := ExpandAll(es[..n], classes, today);
    var last := ExpandOne(es[n], classes, today);
    assert EnrolmentRefs(pre + last) == EnrolmentRefs(pre) + EnrolmentRefs(last);
    ExpandOneRefs(es[n], classes, today);
    if k == n {
      ExpandAllAbsent(es[..n], classes, today, es[n].id);
    } else {
      ExpandAllCount(es[..n], classes, today, k);
      assert es[..n][k] == es[k];
      assert es[k].id !in EnrolmentRefs(last);
    }
  }

  /** Row 10k+j of the attendances is draw j of enrolment k. */
  lemma {:induction false} AttendancesAt(es: seq<Row<Enrolment>>, students: seq<Row<Student>>, classRows: seq<Row<Class>>,
                                          dss: seq<seq<AttendanceDraw>>, k: int, j: int)
    requires |dss| == |es| && EnrolmentStudentsExist(es, students) && ClassIndicesOk(dss, |classRows|)
    requires forall m :: 0 <= m < |dss| ==> |dss[m]| == AttendancesPerEnrolment
    requires 0 <= k < |es| && 0 <= j < AttendancesPerEnrolment
    ensures AttendancesFor(es, students, classRows, dss)[10 * k + j] ==
            AttendanceFor(es[k], students, classRows, dss[k][j])
  {
    var n := |es| - 1;
    if k < n {
      AttendancesAt(es[..n], students, classRows, dss[..n], k, j);
      assert es[..n][k] == es[k] && dss[..n][k] == dss[k];
    }
  }

  function StudentRefs(rows: seq<Attendance>): seq<int> {
    seq(|rows|, k requires 0 <= k < |rows| => rows[k].studentId)
  }

  /** When no two enrolments share a student, each enrolled student has exactly
      ten attendances. */
  lemma {:induction false} AttendancesPerStudent(es: seq<Row<Enrolment>>, students: seq<Row<Student>>, classRows: seq<Row<Class>>,
                                                  dss: seq<seq<AttendanceDraw>>, k: int)
    requires |dss| == |es| && EnrolmentStudentsExist(es, students) && ClassIndicesOk(dss, |classRows|)
    requires forall m :: 0 <= m < |dss| ==> |dss[m]| == AttendancesPerEnrolment
    requires forall i, j :: 0 <= i < j < |es| ==> es[i].val.studentId != es[j].val.studentId
    requires 0 <= k < |es|
    ensures multiset(StudentRefs(AttendancesFor(es, students, classRows, dss)))[es[k].val.studentId] == AttendancesPerEnrolment
  {
    var n := |es| - 1;
    var pre := AttendancesFor(es[..n], students, classRows, dss[..n]);
    var last := AttendanceBlock(es[n], students, classRows, dss[n]);
    assert StudentRefs(pre + last) == StudentRefs(pre) + StudentRefs(last);
    var sid := es[k].val.studentId;
    if k == n {
      ConstantCount(StudentRefs(last), sid);
      if sid in StudentRefs(pre) {
        var m :| 0 <= m < |pre| && StudentRefs(pre)[m] == sid;
        AttendancesAt(es[..n], students, classRows, dss[..n], m / 10, m % 10);
        assert false;
      }
    } else {
      AttendancesPerStudent(es[..n], students, classRows, dss[..n], k);
      assert es[..n][k] == es[k];
      assert sid !in StudentRefs(last);
    }
  }

  /** The incidents of a prefix of the draws are a prefix of all the incidents. */
  lemma {:induction false} IncidentsPrefix(ds: seq<IncidentDraw>, students: seq<Row<Student>>, k: int)
    requires forall m :: 0 <= m < |ds| ==> IncidentDrawFits(ds[m], |students|)
    requires 0 <= k <= |ds|
    ensures IncidentsFor(ds[..k], students) <= IncidentsFor(ds, students)
  {
    if k < |ds| {
      var n := |ds| - 1;
      IncidentsPrefix(ds[..n], students, k);
      assert ds[..n][..k] == ds[..k];
    } else {
      assert ds[..k] == ds;
    }
  }

  /** Draw k produces 3, 2 or 1 rows for a Low, Medium or other student, all with
      the drawn student and date, one after another. */
  lemma IncidentDrawRows(ds: seq<IncidentDraw>, students: seq<Row<Student>>, k: int)
    requires forall m :: 0 <= m < |ds| ==> IncidentDrawFits(ds[m], |students|)
    requires 0 <= k < |ds|
    ensures IncidentDrawFits(ds[k], |students|)
    ensures var off := |IncidentsFor(ds[..k], students)|;
            var student := students[ds[k].studentIndex];
            off + Multiplier(student.val.ses) <= |IncidentsFor(ds, students)| &&
            forall j :: 0 <= j < Multiplier(student.val.ses) ==>
              IncidentsFor(ds, students)[off + j] == Incident(ds[k].types[j], ds[k].date, student.id)
  {
    IncidentsPrefix(ds, students, k + 1);
    assert ds[..k + 1][..k] == ds[..k];
  }

  /** Every incident is about one of the students it was drawn from. */
  lemma {:induction false} IncidentStudents(ds: seq<IncidentDraw>, students: seq<Row<Student>>, m: int)
    requires forall k :: 0 <= k < |ds| ==> IncidentDrawFits(ds[k], |students|)
    requires 0 <= m < |IncidentsFor(ds, students)|
    ensures HasId(students, IncidentsFor(ds, students)[m].studentId)
  {
    var n := |ds| - 1;
    assert IncidentDrawFits(ds[n], |students|);
    var pre := IncidentsFor(ds[..n], students);
    if m < |pre| {
      IncidentStudents(ds[..n], students, m);
    } else {
      assert IncidentsFor(ds, students)[m].studentId == students[ds[n].studentIndex].id;
    }
  }

  /** The presence rule is inverted against status: for every roll, a Medium
      student is present only when a Low one would be, never the other way round. */
  lemma PresenceInverted(roll: int, coin: bool)
    ensures Present(Some(Medium), roll, coin) ==> Present(Some(Low), roll, coin)
    ensures Present(Some(Low), MediumCut, coin) && !Present(Some(Medium), MediumCut, coin)
  {
  }
}
