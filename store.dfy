/** The in-memory nine-table store, its create and read handlers, and the two
    population passes that fill it. */
module SchoolStore {
  import opened Records
  import opened Generator
  import opened Population

  /** Enrolling in year i extends the class-enrolments of the years before it
      to those of the first i + 1 years. */
  lemma ExpansionGrows(c0: seq<Row<ClassEnrolment>>, e: Row<Enrolment>, classes: seq<Row<Class>>, n: nat,
                       expansion: seq<ClassEnrolment>, i: int, cur: seq<Row<ClassEnrolment>>, next: seq<Row<ClassEnrolment>>)
    requires IdsAscending(c0) && HasCatalogue(classes) && 0 <= i < n <= |YearLabels|
    requires expansion == Expansion(e, classes, n)
    requires cur == AppendAll(c0, expansion[..3 * i])
    requires IdsAscending(cur) && next == AppendAll(cur, YearBlock(e, classes, i))
    ensures IdsAscending(next)
    ensures next == AppendAll(c0, expansion[..3 * (i + 1)])
  {
    var block := YearBlock(e, classes, i);
    forall s | 0 <= s < |block| ensures expansion[3 * i + s] == block[s] {
      ExpansionAt(e, classes, n, i, s);
    }
    SliceExtend(expansion, block, 3 * i);
    AppendAllConcat(c0, expansion[..3 * i], block);
    AppendAllAscending(c0, expansion[..3 * (i + 1)]);
  }

  /** Tables holding, table by table, the rows of `t` followed by those a pass
      adds are the tables after that pass. */
  lemma GeneratedIs(t: Tables, d: Draws, h: Horizon, r: Tables)
    requires ValidTables(t) && DrawsOk(d, h, t.enrolments)
    requires SchoolIndicesOk(d.enrolments, |SchoolNames|) && HasCatalogue(t.classes + NewClasses(t))
    requires EnrolmentStudentsExist(t.enrolments + NewEnrolments(t, d), t.students + NewStudents(t, d))
    requires ClassIndicesOk(d.attendances, |NewClasses(t)|)
    requires r.geographies == t.geographies + NewGeographies(t) && r.schools == t.schools + NewSchools(t)
    requires r.students == t.students + NewStudents(t, d) && r.scholasticYears == t.scholasticYears + NewYears(t)
    requires r.classes == t.classes + NewClasses(t) && r.enrolments == t.enrolments + NewEnrolments(t, d)
    requires r.classEnrolments == AppendAll(t.classEnrolments, ExpandAll(NewEnrolments(t, d), r.classes, h.today))
    requires r.attendances == AppendAll(t.attendances, AttendancesFor(r.enrolments, r.students, NewClasses(t), d.attendances))
    requires r.incidents == AppendAll(t.incidents, IncidentsFor(d.incidents, NewStudents(t, d)))
    ensures ValidTables(r) && r == Generated(t, d, h)
  {
    GeneratedTables(t, d, h);
  }

  /** Storing enrolment k of a batch extends the stored prefix by one row, the
      batch's row k, under its fresh id. */
  lemma EnrolmentStep(e0: seq<Row<Enrolment>>, vals: seq<Enrolment>, k: int, cur: seq<Row<Enrolment>>, v: Enrolment)
    requires IdsAscending(e0) && 0 <= k < |vals| && cur == AppendAll(e0, vals[..k]) && v == vals[k]
    ensures IdsAscending(cur) && IdsAscending(Append(cur, v))
    ensures Append(cur, v) == AppendAll(e0, vals[..k + 1])
    ensures Append(cur, v)[|Append(cur, v)| - 1] == Numbered(vals, NextId(e0))[k]
  {
    AppendStep(e0, vals, k, cur, v);
    AppendAscending(cur, v);
  }

  /** Expanding row k of a batch right after it is stored extends the
      class-enrolments of the rows before it to those of the first k + 1 rows. */
  lemma ExpandAllStep(c0: seq<Row<ClassEnrolment>>, rows: seq<Row<Enrolment>>, k: int, row: Row<Enrolment>,
                      classes: seq<Row<Class>>, today: Date, cur: seq<Row<ClassEnrolment>>, next: seq<Row<ClassEnrolment>>)
    requires IdsAscending(c0) && HasCatalogue(classes) && 0 <= k < |rows| && row == rows[k]
    requires cur == AppendAll(c0, ExpandAll(rows[..k], classes, today)) && IdsAscending(cur)
    requires next == AppendAll(cur, ExpandOne(row, classes, today))
    ensures IdsAscending(next)
    ensures next == AppendAll(c0, ExpandAll(rows[..k + 1], classes, today))
  {
    AppendAllConcat(c0, ExpandAll(rows[..k], classes, today), ExpandOne(rows[k], classes, today));
    assert rows[..k + 1][..k] == rows[..k];
    AppendAllAscending(c0, ExpandAll(rows[..k + 1], classes, today));
  }

  /** The ten attendances of enrolment k follow, in the attendances of all
      enrolments, those of the enrolments before it. */
  lemma AttendanceBlockStep(es: seq<Row<Enrolment>>, students: seq<Row<Student>>, classRows: seq<Row<Class>>,
                            dss: seq<seq<AttendanceDraw>>, all: seq<Attendance>, a0: seq<Row<Attendance>>, k: int,
                            cur: seq<Row<Attendance>>, next: seq<Row<Attendance>>)
    requires IdsAscending(a0)
    requires |dss| == |es| && EnrolmentStudentsExist(es, students) && ClassIndicesOk(dss, |classRows|)
    requires forall m :: 0 <= m < |dss| ==> |dss[m]| == AttendancesPerEnrolment
    requires all == AttendancesFor(es, students, classRows, dss) && 0 <= k < |es|
    requires cur == AppendAll(a0, all[..10 * k])
    requires next == AppendAll(cur, AttendanceBlock(es[k], students, classRows, dss[k]))
    ensures IdsAscending(next)
    ensures next == AppendAll(a0, all[..10 * (k + 1)])
  {
    var block := AttendanceBlock(es[k], students, classRows, dss[k]);
    forall j | 0 <= j < AttendancesPerEnrolment ensures all[10 * k + j] == block[j] {
      AttendancesAt(es, students, classRows, dss, k, j);
    }
    assert all[..10 * k] + block == all[..10 * (k + 1)];
    AppendAllConcat(a0, all[..10 * k], block);
    AppendAllAscending(a0, all[..10 * (k + 1)]);
  }

  class Store {
    var geographies: seq<Row<Geography>>
    var schools: seq<Row<School>>
    var students: seq<Row<Student>>
    var scholasticYears: seq<Row<ScholasticYear>>
    var classes: seq<Row<Class>>
    var enrolments: seq<Row<Enrolment>>
    var classEnrolments: seq<Row<ClassEnrolment>>
    var attendances: seq<Row<Attendance>>
    var incidents: seq<Row<Incident>>

    /** The store's contents as a value. */
    function Snapshot(): Tables
      reads this
    {
      Tables(geographies, schools, students, scholasticYears, classes, enrolments, classEnrolments, attendances, incidents)
    }

    ghost predicate Valid()
      reads this
    {
      ValidTables(Snapshot())
    }

    /** A freshly created schema: every table empty. */
    constructor ()
      ensures Snapshot() == EmptyTables
      ensures Valid()
    {
      geographies, schools, students, scholasticYears, classes := [], [], [], [], [];
      enrolments, classEnrolments, attendances, incidents := [], [], [], [];
    }

    /** Deletes every row of every table. */
    method Clear()
      modifies this
      ensures Snapshot() == EmptyTables
      ensures Valid()
    {
      geographies := [];
      schools := [];
      students := [];
      scholasticYears := [];
      classes := [];
      enrolments := [];
      classEnrolments := [];
      attendances := [];
      incidents := [];
    }

    // -------------------------------------------------------------------
    // Read handlers: every row of one table, in store order
    // -------------------------------------------------------------------

    function ReadGeographies(): (r: seq<Row<Geography>>)
      requires Valid()
      reads this
      ensures r == geographies && IdsAscending(r)
    {
      geographies
    }

    function ReadSchools(): (r: seq<Row<School>>)
      requires Valid()
      reads this
      ensures r == schools && IdsAscending(r)
    {
      schools
    }

    function ReadStudents(): (r: seq<Row<Student>>)
      requires Valid()
      reads this
      ensures r == students && IdsAscending(r)
    {
      students
    }

    function ReadClasses(): (r: seq<Row<Class>>)
      requires Valid()
      reads this
      ensures r == classes && IdsAscending(r)
    {
      classes
    }

    function ReadAttendances(): (r: seq<Row<Attendance>>)
      requires Valid()
      reads this
      ensures r == attendances && IdsAscending(r)
    {
      attendances
    }

    // -------------------------------------------------------------------
    // Create handlers: append one row under a fresh id and return it
    // -------------------------------------------------------------------

    method CreateGeography(city: string, region: string) returns (row: Row<Geography>)
      requires Valid()
      modifies this`geographies
      ensures Valid()
      ensures row.val == Geography(city, region) && !HasId(old(geographies), row.id)
      ensures ReadGeographies() == old(ReadGeographies()) + [row]
      ensures Snapshot() == old(Snapshot()).(geographies := old(geographies) + [row])
    {
      AppendAscending(geographies, Geography(city, region));
      row := Row(NextId(geographies), Geography(city, region));
      geographies := geographies + [row];
    }

    /** The geography id is stored as given; nothing checks that it exists. */
    method CreateSchool(name: string, geographyId: int) returns (row: Row<School>)
      requires Valid()
      modifies this`schools
      ensures Valid()
      ensures row.val == School(name, geographyId) && !HasId(old(schools), row.id)
      ensures ReadSchools() == old(ReadSchools()) + [row]
      ensures Snapshot() == old(Snapshot()).(schools := old(schools) + [row])
    {
      AppendAscending(schools, School(name, geographyId));
      row := Row(NextId(schools), School(name, geographyId));
      schools := schools + [row];
    }

    /** The request carries only the two names, so the status stays unset. */
    method CreateStudent(firstName: string, lastName: string) returns (row: Row<Student>)
      requires Valid()
      modifies this`students
      ensures Valid()
      ensures row.val == Student(firstName, lastName, None) && !HasId(old(students), row.id)
      ensures ReadStudents() == old(ReadStudents()) + [row]
      ensures Snapshot() == old(Snapshot()).(students := old(students) + [row])
    {
      AppendAscending(students, Student(firstName, lastName, None));
      row := Row(NextId(students), Student(firstName, lastName, None));
      forall k | 0 <= k < |enrolments| ensures HasId(students + [row], enrolments[k].val.studentId) {
        HasIdConcat(students, [row], enrolments[k].val.studentId);
      }
      students := students + [row];
    }

    /** The request carries only the name and the year id, so the subject stays
        unset; the year id is stored as given. */
    method CreateClass(name: string, scholasticYearId: int) returns (row: Row<Class>)
      requires Valid()
      modifies this`classes
      ensures Valid()
      ensures row.val == Class(None, name, scholasticYearId) && !HasId(old(classes), row.id)
      ensures ReadClasses() == old(ReadClasses()) + [row]
      ensures Snapshot() == old(Snapshot()).(classes := old(classes) + [row])
    {
      AppendAscending(classes, Class(None, name, scholasticYearId));
      row := Row(NextId(classes), Class(None, name, scholasticYearId));
      classes := classes + [row];
    }

    /** The student and class ids are stored as given; nothing checks that they exist. */
    method CreateAttendance(studentId: int, classId: int, present: bool, attendanceDate: Date) returns (row: Row<Attendance>)
      requires Valid()
      modifies this`attendances
      ensures Valid()
      ensures row.val == Attendance(studentId, classId, present, attendanceDate) && !HasId(old(attendances), row.id)
      ensures ReadAttendances() == old(ReadAttendances()) + [row]
      ensures Snapshot() == old(Snapshot()).(attendances := old(attendances) + [row])
    {
      AppendAscending(attendances, Attendance(studentId, classId, present, attendanceDate));
      row := Row(NextId(attendances), Attendance(studentId, classId, present, attendanceDate));
      attendances := attendances + [row];
    }

    // -------------------------------------------------------------------
    // Lookups the generator makes with `.first()`
    // -------------------------------------------------------------------

    /** Scans the classes in store order for the first one with the given name. */
    method FindClassByName(name: string) returns (found: Option<Row<Class>>)
      ensures found == FirstNamed(classes, name)
      ensures found.Some? <==> HasName(classes, name)
    {
      var k := 0;
      while k < |classes|
        invariant 0 <= k <= |classes|
        invariant forall j :: 0 <= j < k ==> classes[j].val.name != name
      {
        if classes[k].val.name == name {
          return Some(classes[k]);
        }
        k := k + 1;
      }
      return None;
    }

    /** Scans the students in store order for the one with the given id. */
    method FindStudentById(id: int) returns (found: Option<Row<Student>>)
      requires IdsAscending(students)
      ensures found == FirstWithId(students, id)
      ensures found.Some? <==> HasId(students, id)
    {
      var k := 0;
      while k < |students|
        invariant 0 <= k <= |students|
        invariant forall j :: 0 <= j < k ==> students[j].id != id
      {
        if students[k].id == id {
          return Some(students[k]);
        }
        k := k + 1;
      }
      return None;
    }
    // -------------------------------------------------------------------
    // The phases of a population pass that loop
    // -------------------------------------------------------------------

    /** Builds one class per (year, subject), year by year, then appends them all. */
    method AddClasses(yearRows: seq<Row<ScholasticYear>>) returns (classRows: seq<Row<Class>>)
      requires IdsAscending(classes)
      modifies this`classes
      ensures classRows == Numbered(Catalogue(yearRows), old(NextId(classes)))
      ensures classes == old(classes) + classRows
    {
      var values: seq<Class> := [];
      var y := 0;
      while y < |yearRows|
        invariant 0 <= y <= |yearRows|
        invariant values == Catalogue(yearRows)[..3 * y]
        invariant classes == old(classes)
      {
        var s := 0;
        while s < |Subjects|
          invariant 0 <= s <= |Subjects|
          invariant values == Catalogue(yearRows)[..3 * y + s]
          invariant classes == old(classes)
        {
          var subject := Subjects[s];
          var yearRow := yearRows[y];
          CatalogueAt(yearRows, y, s);
          values := values + [Class(Some(subject), SubjectName(subject) + " " + yearRow.val.year, yearRow.id)];
          s := s + 1;
        }
        y := y + 1;
      }
      classRows := Numbered(values, NextId(classes));
      classes := classes + classRows;
    }

    /** Enrols the student of `e` in the three classes of each scholastic year
        the enrolment spans, from "K" on, stopping after year "12". */
    method ExpandEnrolment(e: Row<Enrolment>, today: Date)
      requires IdsAscending(classEnrolments) && HasCatalogue(classes)
      modifies this`classEnrolments
      ensures IdsAscending(classEnrolments)
      ensures classEnrolments == AppendAll(old(classEnrolments), ExpandOne(e, classes, today))
    {
      ghost var c0 := classEnrolments;
      ghost var n := YearsCovered(e.val, today);
      var numYearsEnrolled := (if e.val.endDate.Some? then e.val.endDate.value else today).year - e.val.startDate.year + 1;
      assert numYearsEnrolled == YearsEnrolled(e.val, today);
      ghost var expansion := Expansion(e, classes, n);
      var i := 0;
      while i < numYearsEnrolled
        invariant 0 <= i <= n
        invariant IdsAscending(classEnrolments)
        invariant classEnrolments == AppendAll(c0, expansion[..3 * i])
      {
        if i >= |YearLabels| {
          break;
        }
        ghost var cur := classEnrolments;
        EnrolInYear(e, i);
        ExpansionGrows(c0, e, classes, n, expansion, i, cur, classEnrolments);
        i := i + 1;
      }
      assert expansion[..3 * i] == expansion;
    }

    /** The three class-enrolments of `e` in scholastic year i, one per subject,
        each in the class found by its name. */
    method EnrolInYear(e: Row<Enrolment>, i: int)
      requires IdsAscending(classEnrolments) && HasCatalogue(classes) && 0 <= i < |YearLabels|
      modifies this`classEnrolments
      ensures classEnrolments == AppendAll(old(classEnrolments), YearBlock(e, classes, i))
    {
      ghost var c0 := classEnrolments;
      ghost var block := YearBlock(e, classes, i);
      var s := 0;
      while s < |Subjects|
        invariant 0 <= s <= |Subjects|
        invariant classEnrolments == AppendAll(c0, block[..s])
      {
        var subject := Subjects[s];
        var classRow := FindClassByName(ClassName(subject, YearLabels[i]));
        var classEnrolment := ClassEnrolment(e.id, classRow.value.id, e.val.startDate.year + i - 1);
        AppendStep(c0, block, s, classEnrolments, classEnrolment);
        classEnrolments := Append(classEnrolments, classEnrolment);
        s := s + 1;
      }
      assert block[..s] == block;
    }

    /** Stores one student's enrolment, at the school its draw picks and closed
        when its draw says so, and expands it into class-enrolments at once. */
    method EnrolStudent(student: Row<Student>, draw: EnrolmentDraw, schoolRows: seq<Row<School>>, today: Date)
      requires 0 <= draw.schoolIndex < |schoolRows|
      requires IdsAscending(enrolments) && IdsAscending(classEnrolments) && HasCatalogue(classes)
      modifies this`enrolments, this`classEnrolments
      ensures IdsAscending(enrolments) && IdsAscending(classEnrolments)
      ensures enrolments == Append(old(enrolments), EnrolmentFrom(student, draw, schoolRows))
      ensures classEnrolments == AppendAll(old(classEnrolments), ExpandOne(enrolments[|enrolments| - 1], classes, today))
    {
      var endDate := if draw.closeRoll > CloseCut then Some(draw.end) else None;
      var schoolId := schoolRows[draw.schoolIndex].id;
      var enrolment := Enrolment(student.id, schoolId, draw.start, endDate);
      AppendAscending(enrolments, enrolment);
      enrolments := Append(enrolments, enrolment);
      ExpandEnrolment(enrolments[|enrolments| - 1], today);
    }

    /** Gives each new student one enrolment, in student order, and expands
        each enrolment into class-enrolments as soon as it is stored. */
    method EnrolStudents(studentRows: seq<Row<Student>>, schoolRows: seq<Row<School>>, eds: seq<EnrolmentDraw>, today: Date)
      requires |eds| == |studentRows| && SchoolIndicesOk(eds, |schoolRows|)
      requires IdsAscending(enrolments) && IdsAscending(classEnrolments) && HasCatalogue(classes)
      modifies this`enrolments, this`classEnrolments
      ensures IdsAscending(enrolments) && IdsAscending(classEnrolments)
      ensures Snapshot() == old(Snapshot()).(enrolments := enrolments, classEnrolments := classEnrolments)
      ensures enrolments == AppendAll(old(enrolments), EnrolmentsFrom(studentRows, eds, schoolRows))
      ensures classEnrolments == AppendAll(old(classEnrolments),
                ExpandAll(Numbered(EnrolmentsFrom(studentRows, eds, schoolRows), old(NextId(enrolments))), classes, today))
    {
      ghost var e0, c0 := enrolments, classEnrolments;
      ghost var vals := EnrolmentsFrom(studentRows, eds, schoolRows);
      ghost var newRows := Numbered(vals, NextId(e0));
      var k := 0;
      while k < |studentRows|
        invariant 0 <= k <= |studentRows|
        invariant IdsAscending(enrolments) && IdsAscending(classEnrolments)
        invariant enrolments == AppendAll(e0, vals[..k])
        invariant classEnrolments == AppendAll(c0, ExpandAll(newRows[..k], classes, today))
      {
        ghost var cur := classEnrolments;
        EnrolmentStep(e0, vals, k, enrolments, EnrolmentFrom(studentRows[k], eds[k], schoolRows));
        EnrolStudent(studentRows[k], eds[k], schoolRows, today);
        ExpandAllStep(c0, newRows, k, enrolments[|enrolments| - 1], classes, today, cur, classEnrolments);
        k := k + 1;
      }
      assert vals[..k] == vals && newRows[..k] == newRows;
    }

    /** Gives every enrolment in the table, in store order, ten attendances. */
    method AddAttendances(classRows: seq<Row<Class>>, dss: seq<seq<AttendanceDraw>>)
      requires IdsAscending(attendances) && IdsAscending(students)
      requires |dss| == |enrolments| && EnrolmentStudentsExist(enrolments, students) && ClassIndicesOk(dss, |classRows|)
      requires forall k :: 0 <= k < |dss| ==> |dss[k]| == AttendancesPerEnrolment
      modifies this`attendances
      ensures IdsAscending(attendances)
      ensures Snapshot() == old(Snapshot()).(attendances := attendances)
      ensures attendances == AppendAll(old(attendances), AttendancesFor(enrolments, students, classRows, dss))
    {
      ghost var a0 := attendances;
      var es := enrolments;
      ghost var all := AttendancesFor(es, students, classRows, dss);
      var k := 0;
      while k < |es|
        invariant 0 <= k <= |es|
        invariant attendances == AppendAll(a0, all[..10 * k])
      {
        ghost var cur := attendances;
        AddEnrolmentAttendances(es[k], classRows, dss[k]);
        AttendanceBlockStep(es, students, classRows, dss, all, a0, k, cur, attendances);
        k := k + 1;
      }
      assert all[..10 * k] == all;
      AppendAllAscending(a0, all);
    }

    /** The ten attendances of one enrolment; its student is looked up by id for
        the status that decides presence. */
    method AddEnrolmentAttendances(enrolment: Row<Enrolment>, classRows: seq<Row<Class>>, ds: seq<AttendanceDraw>)
      requires IdsAscending(attendances) && IdsAscending(students) && HasId(students, enrolment.val.studentId)
      requires |ds| == AttendancesPerEnrolment && forall j :: 0 <= j < |ds| ==> 0 <= ds[j].classIndex < |classRows|
      modifies this`attendances
      ensures attendances == AppendAll(old(attendances), AttendanceBlock(enrolment, students, classRows, ds))
    {
      ghost var a0 := attendances;
      ghost var block := AttendanceBlock(enrolment, students, classRows, ds);
      var j := 0;
      while j < AttendancesPerEnrolment
        invariant 0 <= j <= AttendancesPerEnrolment
        invariant attendances == AppendAll(a0, block[..j])
      {
        var draw := ds[j];
        var student := FindStudentById(enrolment.val.studentId);
        var present;
        if student.value.val.ses == Some(Low) {
          present := draw.roll < LowCut;
        } else if student.value.val.ses == Some(Medium) {
          present := draw.roll < MediumCut;
        } else {
          present := draw.coin;
        }
        var attendance := Attendance(enrolment.val.studentId, classRows[draw.classIndex].id, present, draw.date);
        AppendStep(a0, block, j, attendances, attendance);
        attendances := Append(attendances, attendance);
        j := j + 1;
      }
      assert block[..j] == block;
    }

    /** Makes fifty incident draws; each gives its student three, two or one
        incidents as the student's status is Low, Medium or anything else. */
    method AddIncidents(studentRows: seq<Row<Student>>, ds: seq<IncidentDraw>)
      requires IdsAscending(incidents)
      requires forall k :: 0 <= k < |ds| ==> IncidentDrawFits(ds[k], |studentRows|)
      modifies this`incidents
      ensures IdsAscending(incidents)
      ensures Snapshot() == old(Snapshot()).(incidents := incidents)
      ensures incidents == AppendAll(old(incidents), IncidentsFor(ds, studentRows))
    {
      ghost var i0 := incidents;
      var k := 0;
      while k < |ds|
        invariant 0 <= k <= |ds|
        invariant incidents == AppendAll(i0, IncidentsFor(ds[..k], studentRows))
      {
        var draw := ds[k];
        var student := studentRows[draw.studentIndex];
        var multiplier;
        if student.val.ses == Some(Low) {
          multiplier := 3;
        } else if student.val.ses == Some(Medium) {
          multiplier := 2;
        } else {
          multiplier := 1;
        }
        ghost var done := IncidentsFor(ds[..k], studentRows);
        ghost var block := IncidentBlock(student, draw);
        assert |block| == multiplier;
        var j := 0;
        while j < multiplier
          invariant 0 <= j <= multiplier
          invariant incidents == AppendAll(i0, done + block[..j])
        {
          var incident := Incident(draw.types[j], draw.date, student.id);
          AppendBatchStep(i0, done, block, j, incidents, incident);
          incidents := Append(incidents, incident);
          j := j + 1;
        }
        assert ds[..k + 1][..k] == ds[..k];
        assert block[..j] == block;
        k := k + 1;
      }
      assert ds[..k] == ds;
      AppendAllAscending(i0, IncidentsFor(ds, studentRows));
    }

    // -------------------------------------------------------------------
    // Whole population passes
    // -------------------------------------------------------------------

    /** One population pass over the current contents, without clearing them. */
    method Generate(d: Draws, h: Horizon)
      requires Valid() && DrawsOk(d, h, enrolments)
      modifies this
      ensures Valid() && Snapshot() == Generated(old(Snapshot()), d, h)
    {
      ghost var t := Snapshot();
      GeneratedTables(t, d, h);
      var studentRows, schoolRows, classRows := AddRoster(d);
      ghost var t1 := Snapshot();
      EnrolStudents(studentRows, schoolRows, d.enrolments, h.today);
      ghost var t2 := Snapshot();
      AddAttendances(classRows, d.attendances);
      ghost var t3 := Snapshot();
      AddIncidents(studentRows, d.incidents);
      GeneratedIs(t, d, h, Snapshot());
    }

    /** The first phases of a pass: the seeded geographies, schools and years,
        the drawn students and the class catalogue. */
    method AddRoster(d: Draws) returns (studentRows: seq<Row<Student>>, schoolRows: seq<Row<School>>, classRows: seq<Row<Class>>)
      requires ValidTables(Snapshot())
      modifies this`geographies, this`schools, this`students, this`scholasticYears, this`classes
      ensures studentRows == NewStudents(old(Snapshot()), d) && schoolRows == NewSchools(old(Snapshot()))
      ensures classRows == NewClasses(old(Snapshot()))
      ensures geographies == old(geographies) + NewGeographies(old(Snapshot()))
      ensures schools == old(schools) + schoolRows
      ensures students == old(students) + studentRows
      ensures scholasticYears == old(scholasticYears) + NewYears(old(Snapshot()))
      ensures classes == old(classes) + classRows
      ensures Snapshot() == old(Snapshot()).(geographies := geographies, schools := schools, students := students,
                                             scholasticYears := scholasticYears, classes := classes)
    {
      var geoRows := Numbered(GeographySeeds, NextId(geographies));
      geographies := geographies + geoRows;

      schoolRows := Numbered(SchoolSeeds(geoRows), NextId(schools));
      schools := schools + schoolRows;

      studentRows := Numbered(StudentsFrom(d.students), NextId(students));
      students := students + studentRows;

      var yearRows := Numbered(YearSeeds(), NextId(scholasticYears));
      scholasticYears := scholasticYears + yearRows;

      classRows := AddClasses(yearRows);
    }

    /** The startup pass: every table is emptied, then populated afresh. */
    method Populate(d: Draws, h: Horizon)
      requires DrawsOk(d, h, [])
      modifies this
      ensures Valid() && Snapshot() == Generated(EmptyTables, d, h)
    {
      Clear();
      Generate(d, h);
    }
  }
}
