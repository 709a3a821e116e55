/** A whole population pass over the nine tables, as a function of the tables
    before it, and what it guarantees about the tables after it. */
module Population {
  import opened Records
  import opened Generator

  /** The contents of the store, one sequence of rows per table, in store order. */
  datatype Tables = Tables(
    geographies: seq<Row<Geography>>,
    schools: seq<Row<School>>,
    students: seq<Row<Student>>,
    scholasticYears: seq<Row<ScholasticYear>>,
    classes: seq<Row<Class>>,
    enrolments: seq<Row<Enrolment>>,
    classEnrolments: seq<Row<ClassEnrolment>>,
    attendances: seq<Row<Attendance>>,
    incidents: seq<Row<Incident>>)

  const EmptyTables: Tables := Tables([], [], [], [], [], [], [], [], [])

  /** What every reachable store satisfies: ids ascend in every table, and every
      enrolment's student exists (enrolments are only ever made by the generator). */
  predicate ValidTables(t: Tables) {
    IdsAscending(t.geographies) && IdsAscending(t.schools) && IdsAscending(t.students) &&
    IdsAscending(t.scholasticYears) && IdsAscending(t.classes) && IdsAscending(t.enrolments) &&
    IdsAscending(t.classEnrolments) && IdsAscending(t.attendances) && IdsAscending(t.incidents) &&
    EnrolmentStudentsExist(t.enrolments, t.students)
  }

  /** Referential integrity: every foreign key names a row of the table it points into. */
  predicate ReferencesResolve(t: Tables) {
    (forall k :: 0 <= k < |t.schools| ==> HasId(t.geographies, t.schools[k].val.geographyId)) &&
    (forall k :: 0 <= k < |t.classes| ==> HasId(t.scholasticYears, t.classes[k].val.scholasticYearId)) &&
    (forall k :: 0 <= k < |t.enrolments| ==>
       HasId(t.students, t.enrolments[k].val.studentId) && HasId(t.schools, t.enrolments[k].val.schoolId)) &&
    (forall k :: 0 <= k < |t.classEnrolments| ==>
       HasId(t.enrolments, t.classEnrolments[k].val.enrolmentId) && HasId(t.classes, t.classEnrolments[k].val.classId)) &&
    (forall k :: 0 <= k < |t.attendances| ==>
       HasId(t.students, t.attendances[k].val.studentId) && HasId(t.classes, t.attendances[k].val.classId)) &&
    (forall k :: 0 <= k < |t.incidents| ==> HasId(t.students, t.incidents[k].val.studentId))
  }

  // The rows a pass adds to the tables of the catalogue and the roster.

  function NewGeographies(t: Tables): seq<Row<Geography>>
    requires ValidTables(t)
  {
    Numbered(GeographySeeds, NextId(t.geographies))
  }

  function NewSchools(t: Tables): seq<Row<School>>
    requires ValidTables(t)
  {
    Numbered(SchoolSeeds(NewGeographies(t)), NextId(t.schools))
  }

  function NewStudents(t: Tables, d: Draws): seq<Row<Student>>
    requires ValidTables(t)
  {
    Numbered(StudentsFrom(d.students), NextId(t.students))
  }

  function NewYears(t: Tables): seq<Row<ScholasticYear>>
    requires ValidTables(t)
  {
    Numbered(YearSeeds(), NextId(t.scholasticYears))
  }

  function NewClasses(t: Tables): seq<Row<Class>>
    requires ValidTables(t)
  {
    Numbered(Catalogue(NewYears(t)), NextId(t.classes))
  }

  function NewEnrolments(t: Tables, d: Draws): seq<Row<Enrolment>>
    requires ValidTables(t) && |d.enrolments| == |d.students| && SchoolIndicesOk(d.enrolments, |SchoolNames|)
  {
    Numbered(EnrolmentsFrom(NewStudents(t, d), d.enrolments, NewSchools(t)), NextId(t.enrolments))
  }

  /** The draws fit the rows they index, and every lookup the pass makes succeeds. */
  lemma GenerationDefined(t: Tables, d: Draws, h: Horizon)
    requires ValidTables(t) && DrawsOk(d, h, t.enrolments)
    ensures SchoolIndicesOk(d.enrolments, |SchoolNames|)
    ensures HasCatalogue(t.classes + NewClasses(t))
    ensures EnrolmentStudentsExist(t.enrolments + NewEnrolments(t, d), t.students + NewStudents(t, d))
    ensures ClassIndicesOk(d.attendances, |NewClasses(t)|)
    ensures forall k :: 0 <= k < |d.incidents| ==> IncidentDrawFits(d.incidents[k], |NewStudents(t, d)|)
  {
    assert forall k :: 0 <= k < |d.enrolments| ==> EnrolmentDrawOk(d.enrolments[k], h);
    CatalogueComplete(t.classes, NewYears(t), NextId(t.classes));
    var es := t.enrolments + NewEnrolments(t, d);
    var ss := t.students + NewStudents(t, d);
    forall k | 0 <= k < |es| ensures HasId(ss, es[k].val.studentId) {
      if k < |t.enrolments| {
        HasIdConcat(t.students, NewStudents(t, d), es[k].val.studentId);
      } else {
        var i := k - |t.enrolments|;
        assert es[k].val.studentId == NewStudents(t, d)[i].id;
        HasIdConcat(t.students, NewStudents(t, d), es[k].val.studentId);
      }
    }
    forall k, j | 0 <= k < |d.attendances| && 0 <= j < |d.attendances[k]|
      ensures 0 <= d.attendances[k][j].classIndex < |NewClasses(t)|
    {
      assert AttendanceDrawOk(d.attendances[k][j], Window(t.enrolments, d.enrolments, h.today, k));
    }
    forall k | 0 <= k < |d.incidents| ensures IncidentDrawFits(d.incidents[k], |NewStudents(t, d)|) {
      assert IncidentDrawOk(d.incidents[k], h);
    }
  }

  /** The store after one population pass over `t`: every table keeps its rows and
      gains the pass's rows after them, under fresh ascending ids. */
  function Generated(t: Tables, d: Draws, h: Horizon): (r: Tables)
    requires ValidTables(t) && DrawsOk(d, h, t.enrolments)
    ensures ValidTables(r)
  {
    GenerationDefined(t, d, h);
    var students := AppendAll(t.students, StudentsFrom(d.students));
    var classes := AppendAll(t.classes, Catalogue(NewYears(t)));
    var enrolments := AppendAll(t.enrolments, EnrolmentsFrom(NewStudents(t, d), d.enrolments, NewSchools(t)));
    var classEnrolments := ExpandAll(NewEnrolments(t, d), classes, h.today);
    var attendances := AttendancesFor(enrolments, students, NewClasses(t), d.attendances);
    var incidents := IncidentsFor(d.incidents, NewStudents(t, d));
    AppendAllAscending(t.geographies, GeographySeeds);
    AppendAllAscending(t.schools, SchoolSeeds(NewGeographies(t)));
    AppendAllAscending(t.students, StudentsFrom(d.students));
    AppendAllAscending(t.scholasticYears, YearSeeds());
    AppendAllAscending(t.classes, Catalogue(NewYears(t)));
    AppendAllAscending(t.enrolments, EnrolmentsFrom(NewStudents(t, d), d.enrolments, NewSchools(t)));
    AppendAllAscending(t.classEnrolments, classEnrolments);
    AppendAllAscending(t.attendances, attendances);
    AppendAllAscending(t.incidents, incidents);
    Tables(
      AppendAll(t.geographies, GeographySeeds),
      AppendAll(t.schools, SchoolSeeds(NewGeographies(t))),
      students,
      AppendAll(t.scholasticYears, YearSeeds()),
      classes,
      enrolments,
      AppendAll(t.classEnrolments, classEnrolments),
      AppendAll(t.attendances, attendances),
      AppendAll(t.incidents, incidents))
  }

  /** Each table after a pass: the rows it had, then the pass's rows. */
  lemma GeneratedTables(t: Tables, d: Draws, h: Horizon)
    requires ValidTables(t) && DrawsOk(d, h, t.enrolments)
    ensures SchoolIndicesOk(d.enrolments, |SchoolNames|)
    ensures HasCatalogue(t.classes + NewClasses(t))
    ensures EnrolmentStudentsExist(t.enrolments + NewEnrolments(t, d), t.students + NewStudents(t, d))
    ensures ClassIndicesOk(d.attendances, |NewClasses(t)|)
    ensures forall k :: 0 <= k < |d.incidents| ==> IncidentDrawFits(d.incidents[k], |NewStudents(t, d)|)
    ensures var r := Generated(t, d, h);
      r.geographies == t.geographies + NewGeographies(t) &&
      r.schools == t.schools + NewSchools(t) &&
      r.students == t.students + NewStudents(t, d) &&
      r.scholasticYears == t.scholasticYears + NewYears(t) &&
      r.classes == t.classes + NewClasses(t) &&
      r.enrolments == t.enrolments + NewEnrolments(t, d) &&
      r.classEnrolments == AppendAll(t.classEnrolments, ExpandAll(NewEnrolments(t, d), t.classes + NewClasses(t), h.today)) &&
      r.attendances == AppendAll(t.attendances, AttendancesFor(t.enrolments + NewEnrolments(t, d), t.students + NewStudents(t, d),
                                                               NewClasses(t), d.attendances)) &&
      r.incidents == AppendAll(t.incidents, IncidentsFor(d.incidents, NewStudents(t, d)))
  {
    GenerationDefined(t, d, h);
  }
}
