/** What a population pass guarantees about the store it leaves behind. */
module Properties {
  import opened Records
  import opened Generator
  import opened Population

  // ---------------------------------------------------------------------
  // Enrolments
  // ---------------------------------------------------------------------

  /** The k-th enrolment of a pass belongs to the k-th new student, is at one of
      the three new schools, starts between six years and one year ago, ends (if
      it has ended) between one year ago and today, and so never ends before it
      starts. */
  lemma EnrolmentRows(t: Tables, d: Draws, h: Horizon, k: int)
    requires ValidTables(t) && DrawsOk(d, h, t.enrolments) && 0 <= k < StudentCount
    ensures SchoolIndicesOk(d.enrolments, |SchoolNames|)
    ensures var e := NewEnrolments(t, d)[k];
      e.id == NextId(t.enrolments) + k &&
      e.val.studentId == NewStudents(t, d)[k].id &&
      (exists j :: 0 <= j < |SchoolNames| && e.val.schoolId == NewSchools(t)[j].id) &&
      InRange(e.val.startDate, h.sixYearsAgo, h.oneYearAgo) &&
      (e.val.endDate.Some? ==> InRange(e.val.endDate.value, h.oneYearAgo, h.today)) &&
      DateLe(e.val.startDate, EndOrToday(e.val, h.today)) &&
      EndOrToday(e.val, h.today) == DrawEnd(d.enrolments[k], h.today)
  {
    assert EnrolmentDrawOk(d.enrolments[k], h);
    var e := NewEnrolments(t, d)[k];
    assert e.val.schoolId == NewSchools(t)[d.enrolments[k].schoolIndex].id;
    if e.val.endDate.Some? {
      DateLeTransitive(e.val.startDate, h.oneYearAgo, e.val.endDate.value);
    } else {
      DateLeTransitive(e.val.startDate, h.oneYearAgo, h.today);
    }
  }

  /** Every enrolment that does not end before it starts expands into between
      3 and 39 class-enrolments, so a batch of them into between 3 and 39 per
      enrolment. */
  lemma {:induction false} ExpandAllBounds(es: seq<Row<Enrolment>>, classes: seq<Row<Class>>, today: Date)
    requires HasCatalogue(classes)
    requires forall k :: 0 <= k < |es| ==> DateLe(es[k].val.startDate, EndOrToday(es[k].val, today))
    ensures 3 * |es| <= |ExpandAll(es, classes, today)| <= 39 * |es|
  {
    if |es| > 0 {
      var n := |es| - 1;
      assert forall k :: 0 <= k < n ==> es[..n][k] == es[k];
      ExpandAllBounds(es[..n], classes, today);
      ExpandOneSize(es[n], classes, today);
    }
  }

  /** A pass adds 5 geographies, 3 schools, 100 students, 13 years, 39 classes
      and 100 enrolments; between 300 and 3900 class-enrolments; ten attendances
      for every enrolment in the store, old or new; and between 50 and 150
      incidents. */
  lemma GeneratedSizes(t: Tables, d: Draws, h: Horizon)
    requires ValidTables(t) && DrawsOk(d, h, t.enrolments)
    ensures var r := Generated(t, d, h);
      |r.geographies| == |t.geographies| + |GeographySeeds| &&
      |r.schools| == |t.schools| + |SchoolNames| &&
      |r.students| == |t.students| + StudentCount &&
      |r.scholasticYears| == |t.scholasticYears| + |YearLabels| &&
      |r.classes| == |t.classes| + ClassCount &&
      |r.enrolments| == |t.enrolments| + StudentCount &&
      |t.classEnrolments| + 3 * StudentCount <= |r.classEnrolments| &&
      |r.classEnrolments| <= |t.classEnrolments| + ClassCount * StudentCount &&
      |r.attendances| == |t.attendances| + 10 * (|t.enrolments| + StudentCount) &&
      |t.incidents| + IncidentDrawCount <= |r.incidents| <= |t.incidents| + 3 * IncidentDrawCount
  {
    GeneratedTables(t, d, h);
    var es := NewEnrolments(t, d);
    forall k | 0 <= k < |es| ensures DateLe(es[k].val.startDate, EndOrToday(es[k].val, h.today)) {
      EnrolmentRows(t, d, h, k);
    }
    ExpandAllBounds(es, t.classes + NewClasses(t), h.today);
  }

  // ---------------------------------------------------------------------
  // Referential integrity
  // ---------------------------------------------------------------------

  /** School k of a pass is the k-th seeded school, in the k-th geography the
      same pass seeded: King's Landing Elementary School in King's Landing, and
      so on. */
  lemma SchoolGeography(t: Tables, d: Draws, h: Horizon, k: int)
    requires ValidTables(t) && DrawsOk(d, h, t.enrolments) && 0 <= k < |SchoolNames|
    ensures var r := Generated(t, d, h);
      |t.schools| + k < |r.schools| && |t.geographies| + k < |r.geographies| &&
      r.schools[|t.schools| + k].val.name == SchoolNames[k] &&
      FirstWithId(r.geographies, r.schools[|t.schools| + k].val.geographyId) == Some(r.geographies[|t.geographies| + k]) &&
      r.geographies[|t.geographies| + k].val == GeographySeeds[k]
  {
    GeneratedTables(t, d, h);
    var r := Generated(t, d, h);
    assert r.schools[|t.schools| + k].val.geographyId == r.geographies[|t.geographies| + k].id;
    FirstWithIdAscending(r.geographies, |t.geographies| + k);
  }

  /** The k-th student of a pass carries the k-th drawn name pair and one of
      the three statuses (never none), under the k-th fresh id. */
  lemma StudentRows(t: Tables, d: Draws, h: Horizon, k: int)
    requires ValidTables(t) && DrawsOk(d, h, t.enrolments) && 0 <= k < StudentCount
    ensures var r := Generated(t, d, h);
      |t.students| + k < |r.students| &&
      var s := r.students[|t.students| + k];
      s.id == NextId(t.students) + k && !HasId(t.students, s.id) &&
      s.val.firstName == d.students[k].firstName && s.val.lastName == d.students[k].lastName &&
      s.val.ses == Some(d.students[k].ses)
  {
    GeneratedTables(t, d, h);
  }

  /** Schools of a pass point at geographies, and its classes at years. */
  lemma CatalogueReferences(t: Tables, d: Draws, h: Horizon)
    requires ValidTables(t) && DrawsOk(d, h, t.enrolments)
    ensures var r := Generated(t, d, h);
      (forall k :: |t.schools| <= k < |r.schools| ==> HasId(r.geographies, r.schools[k].val.geographyId)) &&
      (forall k :: |t.classes| <= k < |r.classes| ==> HasId(r.scholasticYears, r.classes[k].val.scholasticYearId))
  {
    GeneratedTables(t, d, h);
    NewYearLabels(t);
    var r := Generated(t, d, h);
    SchoolsResolve(r.schools, t.schools, NewGeographies(t), r.geographies, t.geographies, NextId(t.schools));
    ClassesResolve(r.classes, t.classes, NewYears(t), r.scholasticYears, t.scholasticYears, NextId(t.classes));
  }

  lemma SchoolsResolve(schools: seq<Row<School>>, s0: seq<Row<School>>, geos: seq<Row<Geography>>,
                       geoRows: seq<Row<Geography>>, g0: seq<Row<Geography>>, first: int)
    requires |geos| >= |SchoolNames| && schools == s0 + Numbered(SchoolSeeds(geos), first) && geoRows == g0 + geos
    ensures forall k :: |s0| <= k < |schools| ==> HasId(geoRows, schools[k].val.geographyId)
  {
    forall k | |s0| <= k < |schools| ensures HasId(geoRows, schools[k].val.geographyId) {
      var i := k - |s0|;
      assert geoRows[|g0| + i] == geos[i];
    }
  }

  lemma ClassesResolve(classes: seq<Row<Class>>, c0: seq<Row<Class>>, years: seq<Row<ScholasticYear>>,
                       yearRows: seq<Row<ScholasticYear>>, y0: seq<Row<ScholasticYear>>, first: int)
    requires |years| == |YearLabels| && forall i :: 0 <= i < |years| ==> years[i].val.year == YearLabels[i]
    requires classes == c0 + Numbered(Catalogue(years), first) && yearRows == y0 + years
    ensures forall k :: |c0| <= k < |classes| ==> HasId(yearRows, classes[k].val.scholasticYearId)
  {
    forall k | |c0| <= k < |classes| ensures HasId(yearRows, classes[k].val.scholasticYearId) {
      var i := k - |c0|;
      CatalogueRowAt(classes, c0, years, yearRows, y0, first, i / 3, i % 3);
    }
  }

  /** Every row of a batch expansion belongs to one of the enrolments, at the
      class named for its place in that enrolment's expansion. */
  lemma ExpansionRowFacts(es: seq<Row<Enrolment>>, classes: seq<Row<Class>>, today: Date, i: int)
    requires HasCatalogue(classes) && 0 <= i < |ExpandAll(es, classes, today)|
    ensures var ce := ExpandAll(es, classes, today)[i];
      HasId(es, ce.enrolmentId) && HasId(classes, ce.classId)
    ensures var ce := ExpandAll(es, classes, today)[i];
      exists k, j :: 0 <= k < |es| && 0 <= j < ClassCount &&
        ce.enrolmentId == es[k].id &&
        es[k].val.startDate.year - 1 <= ce.calendarYear <= EndOrToday(es[k].val, today).year - 1 &&
        (j < |Subjects| ==> ce.calendarYear == es[k].val.startDate.year - 1) &&
        exists c :: c in classes && c.id == ce.classId && c.val.name == ClassName(Subjects[j % 3], YearLabels[j / 3])
  {
    var all := ExpandAll(es, classes, today);
    ExpandAllRow(es, classes, today, i);
    var k, j :| 0 <= k < |es| && 0 <= j < |ExpandOne(es[k], classes, today)| && all[i] == ExpandOne(es[k], classes, today)[j];
    ExpandOneRow(es[k], classes, today, j);
    var c :| c in classes && c.id == all[i].classId;
    var ci :| 0 <= ci < |classes| && classes[ci] == c;
  }

  /** Every class-enrolment a pass adds belongs to an enrolment the pass added,
      at the class named "<subject> <year>" for its place in that enrolment's
      expansion, with a calendar year from the year before the enrolment
      started to the year before it ended (or before this year while open). */
  lemma ClassEnrolmentRows(t: Tables, d: Draws, h: Horizon, m: int)
    requires ValidTables(t) && DrawsOk(d, h, t.enrolments)
    requires |t.classEnrolments| <= m < |Generated(t, d, h).classEnrolments|
    ensures var r := Generated(t, d, h);
      HasId(r.enrolments, r.classEnrolments[m].val.enrolmentId) && HasId(r.classes, r.classEnrolments[m].val.classId)
    ensures var r := Generated(t, d, h);
      var ce := r.classEnrolments[m].val;
      exists k, j :: |t.enrolments| <= k < |r.enrolments| && 0 <= j < ClassCount &&
        var e := r.enrolments[k];
        ce.enrolmentId == e.id &&
        e.val.startDate.year - 1 <= ce.calendarYear <= EndOrToday(e.val, h.today).year - 1 &&
        (j < |Subjects| ==> ce.calendarYear == e.val.startDate.year - 1) &&
        exists c :: c in r.classes && c.id == ce.classId && c.val.name == ClassName(Subjects[j % 3], YearLabels[j / 3])
  {
    GeneratedTables(t, d, h);
    var r := Generated(t, d, h);
    ExpandedRow(t.enrolments, NewEnrolments(t, d), t.classEnrolments, r, h.today, m);
  }

  /** The same, for any tables whose class-enrolments extend `prior` by the
      expansion of the enrolments `es` appended after `enrolments`. */
  lemma ExpandedRow(enrolments: seq<Row<Enrolment>>, es: seq<Row<Enrolment>>, prior: seq<Row<ClassEnrolment>>,
                    r: Tables, today: Date, m: int)
    requires IdsAscending(prior) && HasCatalogue(r.classes) && r.enrolments == enrolments + es
    requires r.classEnrolments == AppendAll(prior, ExpandAll(es, r.classes, today))
    requires |prior| <= m < |r.classEnrolments|
    ensures HasId(r.enrolments, r.classEnrolments[m].val.enrolmentId) && HasId(r.classes, r.classEnrolments[m].val.classId)
    ensures var ce := r.classEnrolments[m].val;
      exists k, j :: |enrolments| <= k < |r.enrolments| && 0 <= j < ClassCount &&
        var e := r.enrolments[k];
        ce.enrolmentId == e.id &&
        e.val.startDate.year - 1 <= ce.calendarYear <= EndOrToday(e.val, today).year - 1 &&
        (j < |Subjects| ==> ce.calendarYear == e.val.startDate.year - 1) &&
        exists c :: c in r.classes && c.id == ce.classId && c.val.name == ClassName(Subjects[j % 3], YearLabels[j / 3])
  {
    var all := ExpandAll(es, r.classes, today);
    var i := m - |prior|;
    assert r.classEnrolments[m].val == all[i];
    ExpansionRowFacts(es, r.classes, today, i);
    HasIdConcat(enrolments, es, all[i].enrolmentId);
    var k, j :| 0 <= k < |es| && 0 <= j < ClassCount &&
        all[i].enrolmentId == es[k].id &&
        es[k].val.startDate.year - 1 <= all[i].calendarYear <= EndOrToday(es[k].val, today).year - 1 &&
        (j < |Subjects| ==> all[i].calendarYear == es[k].val.startDate.year - 1) &&
        exists c :: c in r.classes && c.id == all[i].classId && c.val.name == ClassName(Subjects[j % 3], YearLabels[j / 3]);
    assert r.enrolments[|enrolments| + k] == es[k];
  }

  /** Class-enrolments of a pass point at enrolments and classes that exist. */
  lemma ClassEnrolmentReferences(t: Tables, d: Draws, h: Horizon)
    requires ValidTables(t) && DrawsOk(d, h, t.enrolments)
    ensures var r := Generated(t, d, h);
      forall m :: |t.classEnrolments| <= m < |r.classEnrolments| ==>
        HasId(r.enrolments, r.classEnrolments[m].val.enrolmentId) && HasId(r.classes, r.classEnrolments[m].val.classId)
  {
    var r := Generated(t, d, h);
    forall m | |t.classEnrolments| <= m < |r.classEnrolments|
      ensures HasId(r.enrolments, r.classEnrolments[m].val.enrolmentId) && HasId(r.classes, r.classEnrolments[m].val.classId)
    {
      ClassEnrolmentRows(t, d, h, m);
    }
  }

  /** Attendances of a pass point at students and classes that exist. */
  lemma AttendanceReferences(t: Tables, d: Draws, h: Horizon)
    requires ValidTables(t) && DrawsOk(d, h, t.enrolments)
    ensures var r := Generated(t, d, h);
      forall m :: |t.attendances| <= m < |r.attendances| ==>
        HasId(r.students, r.attendances[m].val.studentId) && HasId(r.classes, r.attendances[m].val.classId)
  {
    var r := Generated(t, d, h);
    forall m | |t.attendances| <= m < |r.attendances|
      ensures HasId(r.students, r.attendances[m].val.studentId) && HasId(r.classes, r.attendances[m].val.classId)
    {
      GeneratedSizes(t, d, h);
      var i := m - |t.attendances|;
      var k, j := i / AttendancesPerEnrolment, i % AttendancesPerEnrolment;
      AttendanceRows(t, d, h, k, j);
      assert m == |t.attendances| + 10 * k + j;
    }
  }

  /** Incidents of a pass point at students that exist. */
  lemma IncidentReferences(t: Tables, d: Draws, h: Horizon)
    requires ValidTables(t) && DrawsOk(d, h, t.enrolments)
    ensures var r := Generated(t, d, h);
      forall m :: |t.incidents| <= m < |r.incidents| ==> HasId(r.students, r.incidents[m].val.studentId)
  {
    GeneratedTables(t, d, h);
    var r := Generated(t, d, h);
    IncidentsResolve(r.incidents, t.incidents, d.incidents, r.students, t.students, NewStudents(t, d));
  }

  lemma IncidentsResolve(incidents: seq<Row<Incident>>, i0: seq<Row<Incident>>, ds: seq<IncidentDraw>,
                         students: seq<Row<Student>>, s0: seq<Row<Student>>, ss: seq<Row<Student>>)
    requires IdsAscending(i0) && forall k :: 0 <= k < |ds| ==> IncidentDrawFits(ds[k], |ss|)
    requires incidents == AppendAll(i0, IncidentsFor(ds, ss)) && students == s0 + ss
    ensures forall m :: |i0| <= m < |incidents| ==> HasId(students, incidents[m].val.studentId)
  {
    forall m | |i0| <= m < |incidents| ensures HasId(students, incidents[m].val.studentId) {
      IncidentStudents(ds, ss, m - |i0|);
      HasIdConcat(s0, ss, incidents[m].val.studentId);
    }
  }

  /** `r` keeps every row of `t`, unchanged and in place, in every table. */
  predicate Extends(t: Tables, r: Tables) {
    t.geographies <= r.geographies && t.schools <= r.schools && t.students <= r.students &&
    t.scholasticYears <= r.scholasticYears && t.classes <= r.classes && t.enrolments <= r.enrolments &&
    t.classEnrolments <= r.classEnrolments && t.attendances <= r.attendances && t.incidents <= r.incidents
  }

  /** The foreign keys of the rows `r` has beyond those of `t` resolve in `r`. */
  predicate NewRowsResolve(t: Tables, r: Tables) {
    (forall k :: |t.schools| <= k < |r.schools| ==> HasId(r.geographies, r.schools[k].val.geographyId)) &&
    (forall k :: |t.classes| <= k < |r.classes| ==> HasId(r.scholasticYears, r.classes[k].val.scholasticYearId)) &&
    (forall k :: |t.enrolments| <= k < |r.enrolments| ==>
       HasId(r.students, r.enrolments[k].val.studentId) && HasId(r.schools, r.enrolments[k].val.schoolId)) &&
    (forall k :: |t.classEnrolments| <= k < |r.classEnrolments| ==>
       HasId(r.enrolments, r.classEnrolments[k].val.enrolmentId) && HasId(r.classes, r.classEnrolments[k].val.classId)) &&
    (forall k :: |t.attendances| <= k < |r.attendances| ==>
       HasId(r.students, r.attendances[k].val.studentId) && HasId(r.classes, r.attendances[k].val.classId)) &&
    (forall k :: |t.incidents| <= k < |r.incidents| ==> HasId(r.students, r.incidents[k].val.studentId))
  }

  lemma HasIdPrefix<T>(a: seq<Row<T>>, b: seq<Row<T>>, id: int)
    requires a <= b && HasId(a, id)
    ensures HasId(b, id)
  {
    var k :| 0 <= k < |a| && a[k].id == id;
    assert b[k] == a[k];
  }

  /** Growing a store whose keys resolve by rows whose keys resolve keeps every
      key resolvable. */
  lemma ReferencesExtend(t: Tables, r: Tables)
    requires ReferencesResolve(t) && Extends(t, r) && NewRowsResolve(t, r)
    ensures ReferencesResolve(r)
  {
    forall k | 0 <= k < |t.schools| ensures HasId(r.geographies, r.schools[k].val.geographyId) {
      assert r.schools[k] == t.schools[k];
      HasIdPrefix(t.geographies, r.geographies, t.schools[k].val.geographyId);
    }
    forall k | 0 <= k < |t.classes| ensures HasId(r.scholasticYears, r.classes[k].val.scholasticYearId) {
      assert r.classes[k] == t.classes[k];
      HasIdPrefix(t.scholasticYears, r.scholasticYears, t.classes[k].val.scholasticYearId);
    }
    forall k | 0 <= k < |t.enrolments| ensures HasId(r.students, r.enrolments[k].val.studentId) && HasId(r.schools, r.enrolments[k].val.schoolId) {
      assert r.enrolments[k] == t.enrolments[k];
      HasIdPrefix(t.students, r.students, t.enrolments[k].val.studentId);
      HasIdPrefix(t.schools, r.schools, t.enrolments[k].val.schoolId);
    }
    forall k | 0 <= k < |t.classEnrolments|
      ensures HasId(r.enrolments, r.classEnrolments[k].val.enrolmentId) && HasId(r.classes, r.classEnrolments[k].val.classId)
    {
      assert r.classEnrolments[k] == t.classEnrolments[k];
      HasIdPrefix(t.enrolments, r.enrolments, t.classEnrolments[k].val.enrolmentId);
      HasIdPrefix(t.classes, r.classes, t.classEnrolments[k].val.classId);
    }
    forall k | 0 <= k < |t.attendances|
      ensures HasId(r.students, r.attendances[k].val.studentId) && HasId(r.classes, r.attendances[k].val.classId)
    {
      assert r.attendances[k] == t.attendances[k];
      HasIdPrefix(t.students, r.students, t.attendances[k].val.studentId);
      HasIdPrefix(t.classes, r.classes, t.attendances[k].val.classId);
    }
    forall k | 0 <= k < |t.incidents| ensures HasId(r.students, r.incidents[k].val.studentId) {
      assert r.incidents[k] == t.incidents[k];
      HasIdPrefix(t.students, r.students, t.incidents[k].val.studentId);
    }
  }

  /** A pass only appends: every row the store held is still there, unchanged
      and in place. */
  lemma GeneratedExtends(t: Tables, d: Draws, h: Horizon)
    requires ValidTables(t) && DrawsOk(d, h, t.enrolments)
    ensures Extends(t, Generated(t, d, h))
  {
    GeneratedTables(t, d, h);
  }

  /** New enrolments point at the new students and schools. */
  lemma EnrolmentReferences(t: Tables, d: Draws, h: Horizon)
    requires ValidTables(t) && DrawsOk(d, h, t.enrolments)
    ensures var r := Generated(t, d, h);
      forall k :: |t.enrolments| <= k < |r.enrolments| ==>
        HasId(r.students, r.enrolments[k].val.studentId) && HasId(r.schools, r.enrolments[k].val.schoolId)
  {
    GeneratedTables(t, d, h);
    NewEnrolmentKeys(t, d);
    var r := Generated(t, d, h);
    EnrolmentsResolve(r.enrolments, t.enrolments, NewEnrolments(t, d), r.students, t.students, NewStudents(t, d),
                      r.schools, t.schools, NewSchools(t));
  }

  /** New enrolment i is that of new student i, at one of the new schools. */
  lemma NewEnrolmentKeys(t: Tables, d: Draws)
    requires ValidTables(t) && |d.enrolments| == |d.students| && SchoolIndicesOk(d.enrolments, |SchoolNames|)
    ensures |NewEnrolments(t, d)| == |NewStudents(t, d)|
    ensures forall i :: 0 <= i < |NewEnrolments(t, d)| ==>
      NewEnrolments(t, d)[i].val.studentId == NewStudents(t, d)[i].id &&
      exists j :: 0 <= j < |NewSchools(t)| && NewEnrolments(t, d)[i].val.schoolId == NewSchools(t)[j].id
  {
    var es, ss, cs := NewEnrolments(t, d), NewStudents(t, d), NewSchools(t);
    forall i | 0 <= i < |es|
      ensures es[i].val.studentId == ss[i].id && exists j :: 0 <= j < |cs| && es[i].val.schoolId == cs[j].id
    {
      assert es[i].val == EnrolmentFrom(ss[i], d.enrolments[i], cs);
      var j := d.enrolments[i].schoolIndex;
      assert es[i].val.schoolId == cs[j].id;
    }
  }

  lemma EnrolmentsResolve(enrolments: seq<Row<Enrolment>>, e0: seq<Row<Enrolment>>, es: seq<Row<Enrolment>>,
                          students: seq<Row<Student>>, s0: seq<Row<Student>>, ss: seq<Row<Student>>,
                          schools: seq<Row<School>>, c0: seq<Row<School>>, cs: seq<Row<School>>)
    requires enrolments == e0 + es && students == s0 + ss && schools == c0 + cs && |es| == |ss|
    requires forall i :: 0 <= i < |es| ==>
      es[i].val.studentId == ss[i].id && exists j :: 0 <= j < |cs| && es[i].val.schoolId == cs[j].id
    ensures forall k :: |e0| <= k < |enrolments| ==>
      HasId(students, enrolments[k].val.studentId) && HasId(schools, enrolments[k].val.schoolId)
  {
    forall k | |e0| <= k < |enrolments|
      ensures HasId(students, enrolments[k].val.studentId) && HasId(schools, enrolments[k].val.schoolId)
    {
      var i := k - |e0|;
      assert enrolments[k] == es[i];
      var j :| 0 <= j < |cs| && es[i].val.schoolId == cs[j].id;
      assert schools[|c0| + j] == cs[j];
      assert students[|s0| + i] == ss[i];
    }
  }

  /** A pass keeps every foreign key of the store resolvable: the rows it adds
      only point at rows that exist, and no row is removed. */
  lemma GeneratedKeepsReferences(t: Tables, d: Draws, h: Horizon)
    requires ValidTables(t) && DrawsOk(d, h, t.enrolments) && ReferencesResolve(t)
    ensures ReferencesResolve(Generated(t, d, h))
  {
    GeneratedExtends(t, d, h);
    CatalogueReferences(t, d, h);
    EnrolmentReferences(t, d, h);
    ClassEnrolmentReferences(t, d, h);
    AttendanceReferences(t, d, h);
    IncidentReferences(t, d, h);
    ReferencesExtend(t, Generated(t, d, h));
  }

  // ---------------------------------------------------------------------
  // The catalogue
  // ---------------------------------------------------------------------

  /** The years of a pass are "K", "1", ..., "12" in that order, and class
      3y + s of the pass is subject s of year y, named "<subject> <year>". */
  lemma CatalogueRows(t: Tables, d: Draws, h: Horizon, y: int, s: int)
    requires ValidTables(t) && DrawsOk(d, h, t.enrolments) && 0 <= y < |YearLabels| && 0 <= s < |Subjects|
    ensures var r := Generated(t, d, h);
      |t.scholasticYears| + y < |r.scholasticYears| && |t.classes| + 3 * y + s < |r.classes| &&
      var year := r.scholasticYears[|t.scholasticYears| + y];
      year.val.year == YearLabels[y] &&
      r.classes[|t.classes| + 3 * y + s].val == Class(Some(Subjects[s]), ClassName(Subjects[s], YearLabels[y]), year.id)
  {
    GeneratedTables(t, d, h);
    NewYearLabels(t);
    var r := Generated(t, d, h);
    CatalogueRowAt(r.classes, t.classes, NewYears(t), r.scholasticYears, t.scholasticYears, NextId(t.classes), y, s);
  }

  lemma CatalogueRowAt(classes: seq<Row<Class>>, c0: seq<Row<Class>>, years: seq<Row<ScholasticYear>>,
                       yearRows: seq<Row<ScholasticYear>>, y0: seq<Row<ScholasticYear>>, first: int, y: int, s: int)
    requires |years| == |YearLabels| && forall i :: 0 <= i < |years| ==> years[i].val.year == YearLabels[i]
    requires 0 <= y < |YearLabels| && 0 <= s < |Subjects|
    requires classes == c0 + Numbered(Catalogue(years), first) && yearRows == y0 + years
    ensures |y0| + y < |yearRows| && |c0| + 3 * y + s < |classes|
    ensures yearRows[|y0| + y].val.year == YearLabels[y]
    ensures classes[|c0| + 3 * y + s].val == Class(Some(Subjects[s]), ClassName(Subjects[s], YearLabels[y]), yearRows[|y0| + y].id)
  {
    CatalogueAt(years, y, s);
    assert yearRows[|y0| + y] == years[y];
  }

  /** On a store holding no class of that name before the pass, looking up
      "<subject> <year>" finds the class the pass created for that pair. */
  lemma ClassLookupFindsNewClass(t: Tables, d: Draws, h: Horizon, y: int, s: int)
    requires ValidTables(t) && DrawsOk(d, h, t.enrolments) && 0 <= y < |YearLabels| && 0 <= s < |Subjects|
    requires !HasName(t.classes, ClassName(Subjects[s], YearLabels[y]))
    ensures var r := Generated(t, d, h);
      |t.classes| + 3 * y + s < |r.classes| &&
      FirstNamed(r.classes, ClassName(Subjects[s], YearLabels[y])) == Some(r.classes[|t.classes| + 3 * y + s])
  {
    GeneratedClasses(t, d, h);
    NewYearLabels(t);
    CatalogueLookup(t.classes, NewYears(t), NextId(t.classes), NewClasses(t), Generated(t, d, h).classes, y, s);
  }

  /** The classes after a pass: the old ones, then the pass's catalogue. */
  lemma GeneratedClasses(t: Tables, d: Draws, h: Horizon)
    requires ValidTables(t) && DrawsOk(d, h, t.enrolments)
    ensures Generated(t, d, h).classes == t.classes + NewClasses(t)
  {
    GeneratedTables(t, d, h);
  }

  /** The years of a pass carry the labels "K", "1", ..., "12" in order. */
  lemma NewYearLabels(t: Tables)
    requires ValidTables(t)
    ensures |NewYears(t)| == |YearLabels|
    ensures forall i :: 0 <= i < |NewYears(t)| ==> NewYears(t)[i].val.year == YearLabels[i]
  {
  }

  /** Looking "<subject> <year>" up in a table that had no such class before the
      catalogue was appended finds the catalogue's class for that pair. */
  lemma CatalogueLookup(prior: seq<Row<Class>>, years: seq<Row<ScholasticYear>>, first: int, added: seq<Row<Class>>,
                        classes: seq<Row<Class>>, y: int, s: int)
    requires |years| == |YearLabels| && forall i :: 0 <= i < |years| ==> years[i].val.year == YearLabels[i]
    requires 0 <= y < |YearLabels| && 0 <= s < |Subjects|
    requires !HasName(prior, ClassName(Subjects[s], YearLabels[y]))
    requires added == Numbered(Catalogue(years), first) && classes == prior + added
    ensures |prior| + 3 * y + s < |classes|
    ensures FirstNamed(classes, ClassName(Subjects[s], YearLabels[y])) == Some(classes[|prior| + 3 * y + s])
  {
    var name := ClassName(Subjects[s], YearLabels[y]);
    var target := |prior| + 3 * y + s;
    CatalogueAt(years, y, s);
    assert classes[target].val.name == name;
    forall j | 0 <= j < target ensures classes[j].val.name != name {
      if j < |prior| {
        assert prior[j] == classes[j];
      } else {
        var i := j - |prior|;
        CatalogueAt(years, i / 3, i % 3);
        if classes[j].val.name == name {
          ClassNamesDistinct(Subjects[i % 3], i / 3, Subjects[s], y);
        }
      }
    }
    FirstNamedAt(classes, target, name);
  }

  /** On a store that already holds a class of that name, a pass that does not
      clear first looks up the older class: its class-enrolments point at the
      classes of the earlier pass, not at the ones it has just created. */
  lemma ClassLookupFindsOldClass(t: Tables, d: Draws, h: Horizon, name: string)
    requires ValidTables(t) && DrawsOk(d, h, t.enrolments) && HasName(t.classes, name)
    ensures FirstNamed(Generated(t, d, h).classes, name) == FirstNamed(t.classes, name)
  {
    GeneratedTables(t, d, h);
    FirstNamedExtend(t.classes, NewClasses(t), name);
  }

  // ---------------------------------------------------------------------
  // Class-enrolments and attendances per enrolment
  // ---------------------------------------------------------------------

  /** Each enrolment of a pass gets 3 × min(years enrolled, 13) class-enrolments
      among the ones the pass adds, and it spans at least one year. */
  lemma ClassEnrolmentsPerEnrolment(t: Tables, d: Draws, h: Horizon, k: int)
    requires ValidTables(t) && DrawsOk(d, h, t.enrolments) && 0 <= k < StudentCount
    ensures var r := Generated(t, d, h);
      |t.enrolments| + k < |r.enrolments| && |t.classEnrolments| <= |r.classEnrolments| &&
      var e := r.enrolments[|t.enrolments| + k];
      var years := YearsEnrolled(e.val, h.today);
      1 <= years &&
      multiset(EnrolmentRefs(Vals(r.classEnrolments[|t.classEnrolments|..])))[e.id] ==
        3 * (if years < |YearLabels| then years else |YearLabels|)
  {
    GeneratedTables(t, d, h);
    var r := Generated(t, d, h);
    var es := NewEnrolments(t, d);
    var classes := t.classes + NewClasses(t);
    var all := ExpandAll(es, classes, h.today);
    assert r.classEnrolments[|t.classEnrolments|..] == Numbered(all, NextId(t.classEnrolments));
    ValsNumbered(all, NextId(t.classEnrolments));
    assert r.enrolments[|t.enrolments| + k] == es[k];
    EnrolmentRows(t, d, h, k);
    ExpandOneSize(es[k], classes, h.today);
    ExpandAllCount(es, classes, h.today, k);
  }

  /** Attendance j of the k-th enrolment in the store is for that enrolment's
      student, dated within the enrolment, in one of the pass's classes, and
      present as the student's own status decides. */
  lemma AttendanceRows(t: Tables, d: Draws, h: Horizon, k: int, j: int)
    requires ValidTables(t) && DrawsOk(d, h, t.enrolments)
    requires 0 <= k < |t.enrolments| + StudentCount && 0 <= j < AttendancesPerEnrolment
    ensures var r := Generated(t, d, h);
      k < |r.enrolments| && |t.attendances| + 10 * k + j < |r.attendances| &&
      HasId(r.students, r.enrolments[k].val.studentId) &&
      var e := r.enrolments[k].val;
      var a := r.attendances[|t.attendances| + 10 * k + j].val;
      var draw := d.attendances[k][j];
      a.studentId == e.studentId &&
      InRange(a.attendanceDate, e.startDate, EndOrToday(e, h.today)) &&
      (exists c :: |t.classes| <= c < |r.classes| && a.classId == r.classes[c].id) &&
      a.present == Present(FirstWithId(r.students, e.studentId).value.val.ses, draw.roll, draw.coin)
  {
    GeneratedTables(t, d, h);
    var r := Generated(t, d, h);
    AttendanceRowAt(r.attendances, t.attendances, r.enrolments, r.students, r.classes, t.classes,
                    NewClasses(t), d.attendances, k, j);
    assert AttendanceDrawOk(d.attendances[k][j], Window(t.enrolments, d.enrolments, h.today, k));
    WindowOfEnrolment(t, d, h, k);
  }

  /** Attendance j of enrolment k, among the attendances appended for a batch
      of enrolments, is made from draw j of that enrolment. */
  lemma AttendanceRowAt(attendances: seq<Row<Attendance>>, a0: seq<Row<Attendance>>, es: seq<Row<Enrolment>>,
                        students: seq<Row<Student>>, classes: seq<Row<Class>>, c0: seq<Row<Class>>,
                        classRows: seq<Row<Class>>, dss: seq<seq<AttendanceDraw>>, k: int, j: int)
    requires IdsAscending(a0) && |dss| == |es| && EnrolmentStudentsExist(es, students) && ClassIndicesOk(dss, |classRows|)
    requires forall m :: 0 <= m < |dss| ==> |dss[m]| == AttendancesPerEnrolment
    requires 0 <= k < |es| && 0 <= j < AttendancesPerEnrolment
    requires attendances == AppendAll(a0, AttendancesFor(es, students, classRows, dss)) && classes == c0 + classRows
    ensures |a0| + 10 * k + j < |attendances|
    ensures var a := attendances[|a0| + 10 * k + j].val;
      var draw := dss[k][j];
      a.studentId == es[k].val.studentId && a.attendanceDate == draw.date &&
      (exists c :: |c0| <= c < |classes| && a.classId == classes[c].id) &&
      a.present == Present(FirstWithId(students, es[k].val.studentId).value.val.ses, draw.roll, draw.coin)
  {
    var m := 10 * k + j;
    AttendancesAt(es, students, classRows, dss, k, j);
    assert attendances[|a0| + m].val == AttendancesFor(es, students, classRows, dss)[m];
    assert classes[|c0| + dss[k][j].classIndex] == classRows[dss[k][j].classIndex];
  }

  /** The window attendance dates of the k-th enrolment are drawn from is
      that enrolment's own span. */
  lemma WindowOfEnrolment(t: Tables, d: Draws, h: Horizon, k: int)
    requires ValidTables(t) && DrawsOk(d, h, t.enrolments) && 0 <= k < |t.enrolments| + StudentCount
    ensures SchoolIndicesOk(d.enrolments, |SchoolNames|)
    ensures var e := (t.enrolments + NewEnrolments(t, d))[k].val;
      Window(t.enrolments, d.enrolments, h.today, k) == (e.startDate, EndOrToday(e, h.today))
  {
    EnrolmentRows(t, d, h, 0);
    if k >= |t.enrolments| {
      EnrolmentRows(t, d, h, k - |t.enrolments|);
    }
  }

  // ---------------------------------------------------------------------
  // A fresh population: the startup pass after clearing every table
  // ---------------------------------------------------------------------

  /** After clearing, a pass leaves exactly 5 geographies, 3 schools, 100
      students, 13 years, 39 classes, 100 enrolments and 1000 attendances,
      between 300 and 3900 class-enrolments and between 50 and 150 incidents;
      every table is numbered from 1 again, and every foreign key resolves. */
  lemma FreshPopulation(d: Draws, h: Horizon)
    requires DrawsOk(d, h, [])
    ensures var r := Generated(EmptyTables, d, h);
      |r.geographies| == 5 && |r.schools| == 3 && |r.students| == 100 && |r.scholasticYears| == 13 &&
      |r.classes| == 39 && |r.enrolments| == 100 && |r.attendances| == 1000 &&
      300 <= |r.classEnrolments| <= 3900 && 50 <= |r.incidents| <= 150 &&
      IdsFromOne(r.geographies) && IdsFromOne(r.schools) && IdsFromOne(r.students) &&
      IdsFromOne(r.scholasticYears) && IdsFromOne(r.classes) && IdsFromOne(r.enrolments) &&
      IdsFromOne(r.classEnrolments) && IdsFromOne(r.attendances) && IdsFromOne(r.incidents) &&
      ReferencesResolve(r)
  {
    var t := EmptyTables;
    GeneratedSizes(t, d, h);
    GeneratedKeepsReferences(t, d, h);
    GeneratedTables(t, d, h);
    var r := Generated(t, d, h);
    AppendAllEmpty(GeographySeeds);
    AppendAllEmpty(SchoolSeeds(NewGeographies(t)));
    AppendAllEmpty(StudentsFrom(d.students));
    AppendAllEmpty(YearSeeds());
    AppendAllEmpty(Catalogue(NewYears(t)));
    AppendAllEmpty(EnrolmentsFrom(NewStudents(t, d), d.enrolments, NewSchools(t)));
    AppendAllEmpty(ExpandAll(NewEnrolments(t, d), t.classes + NewClasses(t), h.today));
    AppendAllEmpty(AttendancesFor(t.enrolments + NewEnrolments(t, d), t.students + NewStudents(t, d), NewClasses(t), d.attendances));
    AppendAllEmpty(IncidentsFor(d.incidents, NewStudents(t, d)));
  }

  /** After clearing, every student has exactly ten attendances. */
  lemma FreshAttendancesPerStudent(d: Draws, h: Horizon, k: int)
    requires DrawsOk(d, h, []) && 0 <= k < StudentCount
    ensures var r := Generated(EmptyTables, d, h);
      k < |r.students| && multiset(StudentRefs(Vals(r.attendances)))[r.students[k].id] == AttendancesPerEnrolment
  {
    FreshEnrolmentStudents(d, h);
    FreshAttendances(d, h);
    var r := Generated(EmptyTables, d, h);
    NumberedAttendanceCount(r.enrolments, r.students, NewClasses(EmptyTables), d.attendances, r.attendances, k);
  }

  /** In a fresh store the student and the enrolment in position i both carry
      id i + 1. */
  lemma FreshEnrolmentStudents(d: Draws, h: Horizon)
    requires DrawsOk(d, h, [])
    ensures var r := Generated(EmptyTables, d, h);
      |r.enrolments| == |r.students| == StudentCount &&
      forall i :: 0 <= i < StudentCount ==> r.students[i].id == i + 1 && r.enrolments[i].val.studentId == i + 1
  {
    var t := EmptyTables;
    GeneratedTables(t, d, h);
    FreshNumbering(d, h);
    var r := Generated(t, d, h);
    NumberedFromOne(r.students, r.enrolments, t.students, t.enrolments, NewStudents(t, d), NewEnrolments(t, d));
  }

  lemma NumberedFromOne(students: seq<Row<Student>>, enrolments: seq<Row<Enrolment>>,
                        s0: seq<Row<Student>>, e0: seq<Row<Enrolment>>, ss: seq<Row<Student>>, es: seq<Row<Enrolment>>)
    requires s0 == [] && e0 == [] && students == s0 + ss && enrolments == e0 + es
    requires |ss| == |es| == StudentCount
    requires forall i :: 0 <= i < StudentCount ==> ss[i].id == i + 1 && es[i].val.studentId == i + 1
    ensures |enrolments| == |students| == StudentCount
    ensures forall i :: 0 <= i < StudentCount ==> students[i].id == i + 1 && enrolments[i].val.studentId == i + 1
  {
    assert students == ss && enrolments == es;
  }

  lemma FreshNumbering(d: Draws, h: Horizon)
    requires DrawsOk(d, h, [])
    ensures var t := EmptyTables;
      SchoolIndicesOk(d.enrolments, |SchoolNames|) &&
      |NewEnrolments(t, d)| == |NewStudents(t, d)| == StudentCount &&
      forall i :: 0 <= i < StudentCount ==> NewStudents(t, d)[i].id == i + 1 && NewEnrolments(t, d)[i].val.studentId == i + 1
  {
    var t := EmptyTables;
    GenerationDefined(t, d, h);
    forall i | 0 <= i < StudentCount
      ensures NewStudents(t, d)[i].id == i + 1 && NewEnrolments(t, d)[i].val.studentId == i + 1
    {
      assert NewEnrolments(t, d)[i].val.studentId == NewStudents(t, d)[i].id;
    }
  }

  /** In a fresh store the attendances are those of the new enrolments, numbered from one. */
  lemma FreshAttendances(d: Draws, h: Horizon)
    requires DrawsOk(d, h, [])
    ensures var r := Generated(EmptyTables, d, h);
      |r.enrolments| == |d.attendances| &&
      EnrolmentStudentsExist(r.enrolments, r.students) &&
      ClassIndicesOk(d.attendances, |NewClasses(EmptyTables)|) &&
      (forall m :: 0 <= m < |d.attendances| ==> |d.attendances[m]| == AttendancesPerEnrolment) &&
      r.attendances == AppendAll([], AttendancesFor(r.enrolments, r.students, NewClasses(EmptyTables), d.attendances))
  {
    GeneratedTables(EmptyTables, d, h);
  }

  /** Counting over a table numbered from one: distinct enrolment students give each
      student exactly ten attendance rows. */
  lemma NumberedAttendanceCount(es: seq<Row<Enrolment>>, students: seq<Row<Student>>, classRows: seq<Row<Class>>,
                                dss: seq<seq<AttendanceDraw>>, rows: seq<Row<Attendance>>, k: int)
    requires |dss| == |es| && EnrolmentStudentsExist(es, students) && ClassIndicesOk(dss, |classRows|)
    requires forall m :: 0 <= m < |dss| ==> |dss[m]| == AttendancesPerEnrolment
    requires forall i :: 0 <= i < |es| ==> es[i].val.studentId == i + 1
    requires 0 <= k < |es| <= |students|
    requires rows == AppendAll([], AttendancesFor(es, students, classRows, dss))
    ensures multiset(StudentRefs(Vals(rows)))[es[k].val.studentId] == AttendancesPerEnrolment
  {
    var all := AttendancesFor(es, students, classRows, dss);
    assert rows == Numbered(all, 1);
    ValsNumbered(all, 1);
    AttendancesPerStudent(es, students, classRows, dss, k);
  }
}
