/** Row shapes of the nine tables of the school data store, and the way the
    store numbers the rows it appends to a table. */
module Records {

  datatype Option<+T> = None | Some(value: T)

  /** A calendar date. The generator only compares dates and reads their year. */
  datatype Date = Date(year: int, month: int, day: int)

  /** Chronological order on dates: year, then month, then day. */
  predicate DateLe(a: Date, b: Date) {
    a.year < b.year || (a.year == b.year && (a.month < b.month || (a.month == b.month && a.day <= b.day)))
  }

  predicate InRange(d: Date, lo: Date, hi: Date) {
    DateLe(lo, d) && DateLe(d, hi)
  }

  lemma DateLeTransitive(a: Date, b: Date, c: Date)
    requires DateLe(a, b) && DateLe(b, c)
    ensures DateLe(a, c)
  {
  }

  /** Socio-economic status of a student; a student created through the API has none. */
  datatype Ses = High | Medium | Low

  datatype Subject = English | Maths | Science

  datatype IncidentType = PoorBehaviour | Injury

  function SubjectName(s: Subject): string {
    match s
    case English => "English"
    case Maths => "Maths"
    case Science => "Science"
  }

  // The business fields of each table; the id lives in Row.
  datatype Geography = Geography(city: string, region: string)
  datatype School = School(name: string, geographyId: int)
  datatype Student = Student(firstName: string, lastName: string, ses: Option<Ses>)
  datatype ScholasticYear = ScholasticYear(year: string)
  datatype Class = Class(subject: Option<Subject>, name: string, scholasticYearId: int)
  datatype Attendance = Attendance(studentId: int, classId: int, present: bool, attendanceDate: Date)
  datatype Enrolment = Enrolment(studentId: int, schoolId: int, startDate: Date, endDate: Option<Date>)
  datatype Incident = Incident(incidentType: IncidentType, reportedDate: Date, studentId: int)
  datatype ClassEnrolment = ClassEnrolment(enrolmentId: int, classId: int, calendarYear: int)

  /** A stored row: the id the store assigned and the fields it was given. */
  datatype Row<T> = Row(id: int, val: T)

  /** The ids of a table are positive and strictly ascending in store order. */
  predicate IdsAscending<T>(t: seq<Row<T>>) {
    (forall k :: 0 <= k < |t| ==> 1 <= t[k].id) &&
    (forall i, j :: 0 <= i < j < |t| ==> t[i].id < t[j].id)
  }

  predicate HasId<T>(t: seq<Row<T>>, id: int) {
    exists k :: 0 <= k < |t| && t[k].id == id
  }

  /** The id the store gives the next row appended to `t`: one more than the
      largest id present, and 1 for an empty table. */
  function NextId<T>(t: seq<Row<T>>): (n: int)
    requires IdsAscending(t)
    ensures 1 <= n
    ensures forall k :: 0 <= k < |t| ==> t[k].id < n
    ensures !HasId(t, n)
  {
    if |t| == 0 then 1 else t[|t| - 1].id + 1
  }

  /** Rows for `vals` numbered consecutively from `first`. */
  function Numbered<T>(vals: seq<T>, first: int): seq<Row<T>> {
    seq(|vals|, k requires 0 <= k < |vals| => Row(first + k, vals[k]))
  }

  /** `t` with one row for `v` appended under a fresh id. */
  function Append<T>(t: seq<Row<T>>, v: T): seq<Row<T>>
    requires IdsAscending(t)
  {
    t + [Row(NextId(t), v)]
  }

  /** `t` with rows for all of `vals` appended, in order, under fresh ids. */
  function AppendAll<T>(t: seq<Row<T>>, vals: seq<T>): seq<Row<T>>
    requires IdsAscending(t)
  {
    t + Numbered(vals, NextId(t))
  }

  lemma AppendAllAscending<T>(t: seq<Row<T>>, vals: seq<T>)
    requires IdsAscending(t)
    ensures IdsAscending(AppendAll(t, vals))
    ensures |vals| > 0 ==> NextId(AppendAll(t, vals)) == NextId(t) + |vals|
    ensures |vals| == 0 ==> AppendAll(t, vals) == t
  {
    var r := AppendAll(t, vals);
    var n := NextId(t);
    forall i, j | 0 <= i < j < |r| ensures r[i].id < r[j].id {
      if j >= |t| && i < |t| {
        assert r[j].id == n + (j - |t|);
      }
    }
  }

  /** Appending one value after a numbered batch extends the batch. */
  lemma AppendAllSnoc<T>(t: seq<Row<T>>, vals: seq<T>, v: T)
    requires IdsAscending(t)
    ensures IdsAscending(AppendAll(t, vals))
    ensures Append(AppendAll(t, vals), v) == AppendAll(t, vals + [v])
  {
    AppendAllAscending(t, vals);
    var n := NextId(t);
    assert Numbered(vals + [v], n) == Numbered(vals, n) + [Row(n + |vals|, v)];
  }

  /** The first row of `t` with the given id: what a query filtered on the
      primary key returns with `.first()`. */
  function FirstWithId<T>(t: seq<Row<T>>, id: int): (r: Option<Row<T>>)
    ensures r.Some? <==> HasId(t, id)
    ensures r.Some? ==> r.value in t && r.value.id == id
  {
    if |t| == 0 then None
    else if t[0].id == id then Some(t[0])
    else
      var rest := FirstWithId(t[1..], id);
      assert HasId(t[1..], id) ==> HasId(t, id);
      assert HasId(t, id) ==> HasId(t[1..], id) by {
        if HasId(t, id) {
          var k :| 0 <= k < |t| && t[k].id == id;
          assert t[1..][k - 1].id == id;
        }
      }
      rest
  }

  predicate HasName(t: seq<Row<Class>>, name: string) {
    exists k :: 0 <= k < |t| && t[k].val.name == name
  }

  /** The first class row, in store order, with the given name: what a query
      filtered on the name returns with `.first()`. */
  function FirstNamed(t: seq<Row<Class>>, name: string): (r: Option<Row<Class>>)
    ensures r.Some? <==> HasName(t, name)
    ensures r.Some? ==> exists k :: 0 <= k < |t| && t[k] == r.value && r.value.val.name == name &&
                                    forall j :: 0 <= j < k ==> t[j].val.name != name
  {
    if |t| == 0 then None
    else if t[0].val.name == name then Some(t[0])
    else
      var rest := FirstNamed(t[1..], name);
      assert HasName(t[1..], name) ==> HasName(t, name) by {
        if HasName(t[1..], name) {
          var k :| 0 <= k < |t[1..]| && t[1..][k].val.name == name;
          assert t[k + 1].val.name == name;
        }
      }
      assert HasName(t, name) ==> HasName(t[1..], name) by {
        if HasName(t, name) {
          var k :| 0 <= k < |t| && t[k].val.name == name;
          assert t[1..][k - 1].val.name == name;
        }
      }
      if rest.Some? then
        assert exists k :: 0 <= k < |t| && t[k] == rest.value && rest.value.val.name == name &&
                           forall j :: 0 <= j < k ==> t[j].val.name != name by {
          var k :| 0 <= k < |t[1..]| && t[1..][k] == rest.value && rest.value.val.name == name &&
                   forall j :: 0 <= j < k ==> t[1..][j].val.name != name;
          assert forall j :: 1 <= j < k + 1 ==> t[j] == t[1..][j - 1];
        }
        rest
      else
        rest
  }

  /** Looking a name up in a longer table finds the same row when the shorter
      table already has it. */
  lemma {:induction false} FirstNamedExtend(t: seq<Row<Class>>, u: seq<Row<Class>>, name: string)
    requires HasName(t, name)
    ensures FirstNamed(t + u, name) == FirstNamed(t, name)
  {
    if t[0].val.name != name {
      assert (t + u)[1..] == t[1..] + u;
      var k :| 0 <= k < |t| && t[k].val.name == name;
      assert t[1..][k - 1].val.name == name;
      FirstNamedExtend(t[1..], u, name);
    }
  }

  /** Looking a name up in a longer table succeeds when the added part has it. */
  lemma FirstNamedSuffix(t: seq<Row<Class>>, u: seq<Row<Class>>, name: string)
    requires HasName(u, name)
    ensures HasName(t + u, name)
  {
    var k :| 0 <= k < |u| && u[k].val.name == name;
    assert (t + u)[|t| + k] == u[k];
  }

  lemma HasIdConcat<T>(a: seq<Row<T>>, b: seq<Row<T>>, id: int)
    ensures HasId(a, id) || HasId(b, id) ==> HasId(a + b, id)
  {
    if HasId(a, id) {
      var k :| 0 <= k < |a| && a[k].id == id;
      assert (a + b)[k] == a[k];
    } else if HasId(b, id) {
      var k :| 0 <= k < |b| && b[k].id == id;
      assert (a + b)[|a| + k] == b[k];
    }
  }

  /** The business fields of a table, in store order. */
  function Vals<T>(rows: seq<Row<T>>): seq<T> {
    seq(|rows|, k requires 0 <= k < |rows| => rows[k].val)
  }

  lemma ValsNumbered<T>(vals: seq<T>, first: int)
    ensures Vals(Numbered(vals, first)) == vals
  {
  }

  lemma AppendAscending<T>(t: seq<Row<T>>, v: T)
    requires IdsAscending(t)
    ensures IdsAscending(Append(t, v))
    ensures Append(t, v) == AppendAll(t, [v])
  {
    AppendAllAscending(t, [v]);
  }

  /** Appending two batches one after the other numbers them as one batch. */
  lemma AppendAllConcat<T>(t: seq<Row<T>>, xs: seq<T>, ys: seq<T>)
    requires IdsAscending(t)
    ensures IdsAscending(AppendAll(t, xs))
    ensures AppendAll(AppendAll(t, xs), ys) == AppendAll(t, xs + ys)
  {
    AppendAllAscending(t, xs);
    var n := NextId(t);
    assert Numbered(xs + ys, n) == Numbered(xs, n) + Numbered(ys, n + |xs|);
  }

  /** A prefix followed by the elements that come next in the sequence is a
      longer prefix. */
  lemma SliceExtend<T>(xs: seq<T>, ys: seq<T>, m: int)
    requires 0 <= m && m + |ys| <= |xs|
    requires forall j :: 0 <= j < |ys| ==> xs[m + j] == ys[j]
    ensures xs[..m] + ys == xs[..m + |ys|]
  {
  }

  /** One step of appending a batch row by row: after the first m values are
      appended, appending value m gives the first m + 1. */
  lemma AppendStep<T>(t: seq<Row<T>>, vals: seq<T>, m: int, cur: seq<Row<T>>, v: T)
    requires IdsAscending(t) && 0 <= m < |vals| && cur == AppendAll(t, vals[..m]) && v == vals[m]
    ensures IdsAscending(cur)
    ensures Append(cur, v) == AppendAll(t, vals[..m + 1])
  {
    AppendAllSnoc(t, vals[..m], vals[m]);
    assert vals[..m] + [vals[m]] == vals[..m + 1];
  }

  /** The same step when the values come as a finished batch followed by a
      batch being appended row by row. */
  lemma AppendBatchStep<T>(t: seq<Row<T>>, done: seq<T>, vals: seq<T>, j: int, cur: seq<Row<T>>, v: T)
    requires IdsAscending(t) && 0 <= j < |vals| && cur == AppendAll(t, done + vals[..j]) && v == vals[j]
    ensures IdsAscending(cur)
    ensures Append(cur, v) == AppendAll(t, done + vals[..j + 1])
  {
    AppendAllSnoc(t, done + vals[..j], vals[j]);
    assert done + vals[..j] + [vals[j]] == done + vals[..j + 1];
  }

  /** In a table with ascending ids, looking up the id of row k finds row k. */
  lemma FirstWithIdAscending<T>(t: seq<Row<T>>, k: int)
    requires IdsAscending(t) && 0 <= k < |t|
    ensures FirstWithId(t, t[k].id) == Some(t[k])
  {
    var r := FirstWithId(t, t[k].id);
    var j :| 0 <= j < |t| && t[j] == r.value;
  }

  /** The ids of a table are 1, 2, 3, ... in store order. */
  predicate IdsFromOne<T>(t: seq<Row<T>>) {
    forall k :: 0 <= k < |t| ==> t[k].id == k + 1
  }

  /** Appending to an empty table numbers the rows from 1. */
  lemma AppendAllEmpty<T>(vals: seq<T>)
    ensures IdsFromOne(AppendAll([], vals)) && |AppendAll([], vals)| == |vals|
  {
  }

  /** The first row named `name` is the one that has it with none before it. */
  lemma FirstNamedAt(t: seq<Row<Class>>, k: int, name: string)
    requires 0 <= k < |t| && t[k].val.name == name
    requires forall j :: 0 <= j < k ==> t[j].val.name != name
    ensures FirstNamed(t, name) == Some(t[k])
  {
    var r := FirstNamed(t, name);
    var i :| 0 <= i < |t| && t[i] == r.value && r.value.val.name == name &&
             forall j :: 0 <= j < i ==> t[j].val.name != name;
  }
}
