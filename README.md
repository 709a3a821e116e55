# School data store and its synthetic data generator

The repository is a mock school-administration API. It has nine tables:

- geographies and schools;
- students, with a socio-economic status (SES);
- scholastic years and classes;
- enrolments, class-enrolments, attendances and incidents.

At startup it fills them with a synthetic dataset, in this order:

- five geographies;
- three schools, pinned to the first three geographies;
- one hundred students, each with a status of High, Medium or Low;
- thirteen years "K" to "12", and a catalogue of 39 classes, one per (year, subject);
- one enrolment per student;
- for each enrolment, three class-enrolments for every year it spans, capped at thirteen years;
- ten attendances per enrolment, with presence driven by the student's status;
- fifty incident draws, each adding three, two or one incidents by status.

Beside this the API has create and read handlers that append a row to one table, or return all of it.

This Dafny project models that core.

- `records.dfy` holds the row shapes of the nine tables and the way a table numbers new rows. The database gives a new row one more than the largest id in its table, or 1 in an empty table.
- `generator.dfy` is the generator as a specification. It says what rows each phase appends, given every random choice as an input:
  - a `Draws` record holds the names, statuses, dates, rolls, coins, indices and incident types;
  - a `Horizon` holds the dates that "six years ago", "one year ago" and "today" resolve to.
- `population.dfy` defines a whole pass, `Generated(t, d, h)`, as a function of the tables before it. It also defines what every reachable store satisfies: ids ascend in every table, and every enrolment's student exists.
- `store.dfy` is the store itself, a class with one sequence field per table:
  - the create handlers, which append, and the read handlers, which scan;
  - the two lookups the generator makes;
  - each looping phase of the generator, as a method with its loops, proved against `Generated`;
  - `Generate`, the pass of `data_generation.py`, which does not clear the tables first;
  - `Populate`, the startup pass of `main.py`, which empties every table and then generates.
- `properties.dfy` proves what a pass guarantees:
  - row counts;
  - the shape of each row;
  - the "<subject> <year>" naming;
  - the per-enrolment class-enrolment count and calendar years;
  - attendance and incident rows;
  - that every foreign key resolves;
  - the exact counts after the startup pass.

`random.random()` returns k / 2^53 for a k drawn from [0, 2^53). A draw's "roll" is that k. Each float comparison of the source is therefore an exact integer comparison against a cut point. `Generator.Present` and `Generator.Closed` prove each cut equivalent to the source's comparison, taken against the exact binary value of its literal:

| comparison | integer form |
|---|---|
| `< 0.2` | `k < 1801439850948199` |
| `< 0.1` | `k < 900719925474100` |
| `> 0.8` | `k > 7205759403792794` |

## Behaviour of the code worth knowing

- **Attendance count.** A fresh start leaves 1000 attendances, ten per enrolment (`Properties.FreshPopulation`).
- **Calendar year of a class-enrolment.** `calendar_year` is `start.year + i - 1`, so the first three class-enrolments of every enrolment land in the year before the enrolment starts.
  - The model keeps this offset.
  - `Generator.ExpandOneRow` and `Properties.ClassEnrolmentRows` state the range produced: [start.year - 1, end.year - 1].
- **Presence threshold.** A Low-status student is present below the 0.2 cut and a Medium-status one below the 0.1 cut, so Medium is present less often than Low. `Generator.PresenceInverted` states this ordering.
- **Create handlers.** They store foreign keys as given, with no lookup, and stamp nothing. A student created through the API has no status, and a class has no subject.
- **Passes that do not clear first.** `data_generation.py` runs a pass without emptying the tables.
  - Its class lookup then finds the older class of the same name (`Properties.ClassLookupFindsOldClass`).
  - Its attendance loop covers every enrolment already in the table, not only the new ones.
  - `Generate` models this pass on any valid store, with the `created_at` keywords dropped (see "Left out").

## Model

| member | source | states |
|---|---|---|
| Records.NextId | main.py:150-153 | the id the store gives a new row is positive, above every id in its table, and so not already in it |
| Records.FirstWithId | data_generation.py:90 | the lookup by id returns a row exactly when a row with that id exists, and the row it returns has that id |
| Records.FirstNamed | data_generation.py:80 | `.first()` on a name filter returns a class exactly when one has that name, and then the earliest such class in store order |
| Records.FirstWithIdAscending | data_generation.py:90 | in a table whose ids ascend, looking up a row's id returns that very row |
| Records.FirstNamedExtend | data_generation.py:80 | appending classes never changes what a name already present finds |
| Records.AppendAllAscending | data_generation.py:25-27 | appending rows keeps a table's ids ascending and advances its next id by the number of rows |
| Records.AppendAllEmpty | main.py:34-55 | rows appended to an emptied table are numbered 1, 2, 3, … |
| Generator.Catalogue | data_generation.py:53-58 | the catalogue has three classes per year |
| Generator.CatalogueAt | data_generation.py:54-58 | class 3y + s of the catalogue is subject s of year y, named "<subject> <year>", with that year's id |
| Generator.CatalogueComplete | data_generation.py:78-80 | once a pass's classes are stored, every "<subject> <year>" name the expansion looks up exists |
| Generator.ClassNamesDistinct | data_generation.py:56 | two (subject, year) pairs get the same class name only if they are the same pair |
| Generator.YearsCovered | data_generation.py:75-77 | the expansion walks at most thirteen years |
| Generator.Expansion | data_generation.py:75-82 | walking n years gives exactly 3n class-enrolments |
| Generator.ExpansionAt | data_generation.py:78-81 | class-enrolment 3i + s links the enrolment to the class found by the name of subject s in year i, with calendar year start.year + i - 1 |
| Generator.ExpandOneSize | data_generation.py:72-82 | an enrolment ending no earlier than it starts spans at least one year, and gets exactly 3 × min(years enrolled, 13) class-enrolments |
| Generator.ExpandOneRow | data_generation.py:78-81 | each class-enrolment of an enrolment names that enrolment and a class called "<subject> <year>"; its calendar year lies in [start.year - 1, end.year - 1], and the first three lie at start.year - 1 |
| Generator.ExpandAllCount | data_generation.py:63-82 | among the class-enrolments of a batch of enrolments with distinct ids, each enrolment's id occurs exactly as often as its own expansion has rows |
| Generator.ClassNameParts | data_generation.py:56 | a class name is the subject's name, one space, then the year label, and splits back into those parts |
| Generator.YearsEnrolled | data_generation.py:72 | an enrolment that ends (or, while open, reaches today) no earlier than it starts spans at least one calendar year |
| Generator.EnrolmentFrom | data_generation.py:64-67 | the enrolment belongs to the student and starts on the drawn start; it is at one of the given schools; it has an end exactly when the roll closes it, and that end is the drawn one |
| Generator.ExpandOne | data_generation.py:72-82 | one enrolment's expansion has three class-enrolments for each year it walks, so at most 39 |
| Generator.ExpandAll | data_generation.py:63-82 | a batch of enrolments expands to at most 39 class-enrolments per enrolment |
| Generator.Present | data_generation.py:91-96 | a Low student is present exactly when `random.random()` is below 0.2, a Medium student exactly when it is below 0.1, and anyone else exactly when the coin says so; 0.2 and 0.1 are the exact doubles the literals denote |
| Generator.Closed | data_generation.py:65 | an enrolment is closed exactly when `random.random()` is above 0.8, the exact double the literal denotes |
| Generator.AttendanceFor | data_generation.py:89-97 | an attendance belongs to the enrolment's student, is dated on the drawn date, and names one of the pass's classes |
| Generator.Multiplier | data_generation.py:105-110 | one incident draw adds between one and three rows, and exactly one when the student is neither Low nor Medium |
| Generator.IncidentBlock | data_generation.py:111-113 | one draw's rows number as the status asks, and all are for the drawn student on the drawn date |
| Properties.AttendanceRowAt | data_generation.py:87-97 | attendance j of enrolment k in an appended batch is for that enrolment's student, on draw j's date, in one of the batch's classes, with presence decided by the student's status |
| Generator.AttendancesFor | data_generation.py:87-88 | every enrolment gets exactly ten attendances |
| Generator.AttendancesAt | data_generation.py:87-97 | attendance 10k + j is the j-th attendance made for enrolment k |
| Generator.AttendancesPerStudent | data_generation.py:87-98 | when no two enrolments share a student, each enrolled student has exactly ten attendances |
| Generator.IncidentsFor | data_generation.py:102-113 | each draw gives one to three incidents, so the total lies between the number of draws and three times it |
| Generator.IncidentDrawRows | data_generation.py:102-113 | draw k adds 3, 2 or 1 incidents (Low, Medium, other status) right after those of the draws before it, all for the drawn student on the drawn date, with the drawn types |
| Generator.IncidentStudents | data_generation.py:104-112 | every incident names one of the students the pass created |
| Generator.PresenceInverted | data_generation.py:91-96 | whenever a Medium-status student is present on a roll, a Low-status one would be too, and some roll makes Low present but not Medium |
| Population.GenerationDefined | data_generation.py:63-104 | every index a pass draws fits its list, every class name it looks up exists, and every enrolment's student is found |
| Population.Generated | data_generation.py:12-114 | a pass keeps every table's ids ascending and every enrolment's student present |
| Population.GeneratedTables | data_generation.py:12-114 | after a pass each table holds its old rows followed by the pass's rows, under fresh ids |
| SchoolStore.Store.constructor | main.py:12-14 | a fresh schema has all nine tables empty |
| SchoolStore.Store.Clear | main.py:34-42 | every one of the nine tables is emptied |
| SchoolStore.Store.ReadGeographies | main.py:144-146 | returns every geography in store order, ids ascending, without changing the store |
| SchoolStore.Store.ReadSchools | main.py:156-158 | returns every school in store order, ids ascending, without changing the store |
| SchoolStore.Store.ReadStudents | main.py:168-170 | returns every student in store order, ids ascending, without changing the store |
| SchoolStore.Store.ReadClasses | main.py:180-182 | returns every class in store order, ids ascending, without changing the store |
| SchoolStore.Store.ReadAttendances | main.py:192-194 | returns every attendance in store order, ids ascending, without changing the store |
| SchoolStore.Store.CreateGeography | main.py:148-154 | appends one geography with the submitted city and region under an id not already in the table, returns it, and leaves the other tables unchanged |
| SchoolStore.Store.CreateSchool | main.py:160-166 | appends one school under a fresh id, with its geography id stored as given and unchecked, and leaves the other tables unchanged |
| SchoolStore.Store.CreateStudent | main.py:172-178 | appends one student under a fresh id, with the two names and no status, and leaves the other tables unchanged |
| SchoolStore.Store.CreateClass | main.py:184-190 | appends one class under a fresh id, with name and year id as given and no subject, and leaves the other tables unchanged |
| SchoolStore.Store.CreateAttendance | main.py:196-202 | appends one attendance under a fresh id, with student and class ids stored unchecked, and leaves the other tables unchanged |
| SchoolStore.Store.FindClassByName | data_generation.py:80 | the scan returns the first class with the name, or none exactly when no class has it |
| SchoolStore.Store.FindStudentById | data_generation.py:90 | the scan returns the student with the id, or none exactly when no student has it |
| SchoolStore.Store.AddClasses | data_generation.py:53-60 | appends one class per (year, subject), year by year and in subject order, under consecutive fresh ids |
| SchoolStore.Store.ExpandEnrolment | data_generation.py:71-82 | appends exactly the enrolment's expansion: three class-enrolments per year for min(years enrolled, 13) years, stopping at "12" |
| SchoolStore.Store.EnrolInYear | data_generation.py:78-82 | appends the three class-enrolments of year i, in subject order |
| SchoolStore.Store.EnrolStudent | data_generation.py:64-82 | appends one enrolment at the drawn school, closed only when the roll exceeds 0.8, then its expansion |
| SchoolStore.Store.EnrolStudents | data_generation.py:63-84 | appends one enrolment per new student in student order, each followed by its class-enrolments, and changes no other table |
| SchoolStore.Store.AddAttendances | data_generation.py:87-99 | appends ten attendances for every enrolment in the table, in store order, and changes no other table |
| SchoolStore.Store.AddEnrolmentAttendances | data_generation.py:88-98 | appends one enrolment's ten attendances, presence decided by its student's status |
| SchoolStore.Store.AddIncidents | data_generation.py:102-114 | appends the incidents of the fifty draws, in draw order, and changes no other table |
| SchoolStore.Store.AddRoster | data_generation.py:17-60 | appends the five geographies, the three schools, the students, the thirteen years and the catalogue, and touches no other table |
| SchoolStore.Store.Generate | data_generation.py:12-114 | the store after the pass is exactly `Generated` of the store before it, and stays valid |
| SchoolStore.Store.Populate | main.py:29-142 | after startup the store is exactly `Generated` of the empty store, whatever it held before |
| Properties.EnrolmentRows | data_generation.py:63-69 | enrolment k of a pass belongs to student k and to one of the pass's schools; it starts within [six years ago, one year ago], ends (if at all) within [one year ago, today], and never ends before it starts |
| Properties.StudentRows | data_generation.py:41-43 | student k of a pass has the k-th drawn names and status (always set), under a fresh id |
| Properties.SchoolGeography | data_generation.py:17-37 | school k of a pass is named as seeded and its geography id finds geography k of the same pass |
| Properties.CatalogueRows | data_generation.py:47-60 | year y of a pass is labelled "K", "1", …, "12" in order, and class 3y + s is subject s of that year, named "<subject> <year>", pointing at that year |
| Properties.CatalogueReferences | data_generation.py:30-60 | every school of a pass points at a geography, and every class at a scholastic year |
| Properties.ExpandAllBounds | data_generation.py:63-82 | a batch of well-formed enrolments gets between 3 and 39 class-enrolments per enrolment |
| Properties.GeneratedSizes | data_generation.py:12-114 | a pass adds 5 geographies, 3 schools, 100 students, 13 years, 39 classes, 100 enrolments, between 300 and 3900 class-enrolments, ten attendances per enrolment in the table, and between 50 and 150 incidents |
| Properties.ClassLookupFindsNewClass | data_generation.py:80 | when no class had the name before, the lookup finds the class of this pass's catalogue with that name |
| Properties.ClassLookupFindsOldClass | data_generation.py:80 | when a class already had the name, the lookup after a pass still finds the older class |
| Properties.ClassEnrolmentRows | data_generation.py:71-82 | every class-enrolment of a pass points at a new enrolment and at a class named "<subject> <year>"; its calendar year lies in [start.year - 1, end.year - 1] |
| Properties.ClassEnrolmentsPerEnrolment | data_generation.py:72-82 | each new enrolment is named by exactly 3 × min(years enrolled, 13) of the pass's class-enrolments |
| Properties.ClassEnrolmentReferences | data_generation.py:71-82 | every class-enrolment of a pass names an existing enrolment and an existing class |
| Properties.WindowOfEnrolment | data_generation.py:89 | the range an attendance date is drawn from is its enrolment's start to its end, or today while open |
| Properties.AttendanceRows | data_generation.py:87-98 | attendance j of enrolment k belongs to the enrolment's student, falls within the enrolment's dates, names one of this pass's classes, and is present as the student's status decides |
| Properties.AttendanceReferences | data_generation.py:87-98 | every attendance of a pass names an existing student and an existing class |
| Properties.EnrolmentReferences | data_generation.py:63-68 | every enrolment of a pass names an existing student and an existing school |
| Properties.IncidentReferences | data_generation.py:102-113 | every incident of a pass names an existing student |
| Properties.GeneratedExtends | data_generation.py:12-114 | a pass only appends: each table's old rows are a prefix of its new ones |
| Properties.ReferencesExtend | data_generation.py:12-114 | if the old rows' keys resolve, the tables only grow, and the new rows' keys resolve, then every key resolves |
| Properties.GeneratedKeepsReferences | data_generation.py:12-114 | if every foreign key of the store resolves before a pass, every one resolves after it |
| Properties.FreshPopulation | main.py:34-142 | after startup there are exactly 5 geographies, 3 schools, 100 students, 13 years, 39 classes, 100 enrolments and 1000 attendances; there are 300 to 3900 class-enrolments and 50 to 150 incidents; ids run from 1 in every table, and every foreign key resolves |
| Properties.FreshEnrolmentStudents | main.py:91-97 | after startup student i has id i + 1, and enrolment i belongs to it |
| Properties.FreshAttendancesPerStudent | main.py:115-127 | after startup every student has exactly ten attendances |

## Left out

- FastAPI routing, the session dependency, uvicorn startup and the startup hook are HTTP and process plumbing. `Populate` is the body the hook runs.
- The SQLAlchemy session, `commit`, `refresh` and SQLite's own foreign-key enforcement belong to a foreign library.
  - Commits are no-ops on the in-memory store.
  - A row's id is the one SQLite gives an integer primary key: one more than the largest id in the table.
- Faker and `random`:
  - names are opaque strings drawn in advance;
  - `date_between` results are drawn dates in the ranges `DrawsOk` states;
  - `random.choice` results are indices;
  - `random.random()` results are integer rolls.
  
  The model says which draw is used where. It does not say with what probability each value occurs.
- `datetime.now` and `date.today()`: "today", "one year ago" and "six years ago" are inputs (`Horizon`). Only a date's year and its order matter to the generator.
- The `created_at` timestamps and `get_random_past_datetime` in `data_generation.py` are wall-clock values.
- SchoolStore.Store.Generate: models the pass of `data_generation.py` with the `created_at` keywords dropped, as it would run against a schema whose Geography table accepts them.
  - The Geography table in `models.py` declares only `id`, `city` and `region`.
  - So, as written, that pass raises on the unknown keyword when it builds the first geography (`data_generation.py:25`), and stores nothing.
  - The startup pass in `main.py` passes no `created_at` and is unaffected.
- `reset_state` closes a session that is never defined, so as written it fails before dropping anything. Dropping and recreating the schema is database work.
- The request and response schemas, and the pagination wrapper, are validation and serialisation only. None of the files has pagination, sorting or filtering logic.
- Handlers for the other tables (enrolments, incidents, class-enrolments, years), and update and delete handlers, do not exist in `main.py`.
