/** AdminController (HealthcareSystem/Controllers/AdminController.cs): accounts, the
    staff-assignment registry and the dashboard aggregates. Account creation keeps
    usernames unique and creates at most one role record; reassignment compares a
    staff member's current patients with the requested ones; deletions clear foreign
    keys or cascade. The dashboard is a pure projection of the tables. */
module AdminActions {
  import opened Models
  import opened Sums
  import opened Data

  // ---------------------------------------------------------------------------
  // Assignment lists

  /** The user role that goes with a staff kind (2 for doctors, 3 for radiologists). */
  function RoleOf(kind: StaffKind): int
  {
    match kind
    case DoctorStaff => RoleDoctor
    case RadiologistStaff => RoleRadiologist
  }

  /** The ids of a requested patient list; a null list counts as empty
      (`model.AssignedPatientIds ?? new List<int>()`). */
  function Requested(ids: Option<seq<int>>): (r: set<int>)
    ensures ids.None? ==> r == {}
    ensures ids.Some? ==> forall i :: i in r <==> i in ids.value
  {
    if ids.None? then {} else set i | i in ids.value
  }

  /** `?? new List<int>()` and `Except`: a null list means no patient, and only which
      ids occur matters, not their order or repetitions. */
  lemma RequestedListSemantics(a: seq<int>, b: seq<int>)
    ensures Requested(None) == Requested(Some([]))
    ensures (forall i :: i in a <==> i in b) ==> Requested(Some(a)) == Requested(Some(b))
    ensures Requested(Some(a + b)) == Requested(Some(a)) + Requested(Some(b))
  {
    if forall i :: i in a <==> i in b {
      var ra, rb := Requested(Some(a)), Requested(Some(b));
      forall i
        ensures i in ra <==> i in rb
      {
      }
      assert ra == rb;
    }
  }

  /** The two loops of EditDoctor / EditRadiologist: the current patients that are not
      requested lose the key (patientsToRemove), then the requested patients that are
      not current get it (patientsToAdd). */
  function EditAssignments(patients: map<int, Patient>, kind: StaffKind, staffId: int, wanted: set<int>): (r: map<int, Patient>)
    ensures r.Keys == patients.Keys
    ensures forall p :: p in r && p in wanted ==> AssignedTo(r[p], kind) == Some(staffId)
    ensures forall p :: p in r ==> AssignedTo(r[p], OtherKind(kind)) == AssignedTo(patients[p], OtherKind(kind))
  {
    var current := StaffPatients(patients, kind, staffId);
    Reassign(Reassign(patients, kind, current - wanted, None), kind, wanted - current, Some(staffId))
  }

  /** After the edit the staff member's collection is exactly the requested patients
      that exist; a requested patient leaves any other staff member of that kind;
      nobody's collection of the other kind moves; and a patient that was neither
      current nor requested is untouched. */
  lemma EditAssignmentsEffect(patients: map<int, Patient>, kind: StaffKind, staffId: int, wanted: set<int>)
    ensures var r := EditAssignments(patients, kind, staffId, wanted);
      && r.Keys == patients.Keys
      && StaffPatients(r, kind, staffId) == wanted * patients.Keys
      && (forall t :: t != staffId ==> StaffPatients(r, kind, t) == StaffPatients(patients, kind, t) - wanted)
      && (forall t :: StaffPatients(r, OtherKind(kind), t) == StaffPatients(patients, OtherKind(kind), t))
      && (forall p :: p in patients && p !in StaffPatients(patients, kind, staffId) && p !in wanted ==> r[p] == patients[p])
  {
    var current := StaffPatients(patients, kind, staffId);
    var mid := Reassign(patients, kind, current - wanted, None);
    var r := Reassign(mid, kind, wanted - current, Some(staffId));
    ReassignToNone(patients, kind, current - wanted);
    ReassignToStaff(mid, kind, wanted - current, staffId);
    assert StaffPatients(r, kind, staffId) == wanted * patients.Keys;
    forall t | t != staffId
      ensures StaffPatients(r, kind, t) == StaffPatients(patients, kind, t) - wanted
    {
      StaffPatientsDisjoint(patients, kind, t, staffId);
    }
    forall p | p in patients && p !in current && p !in wanted
      ensures r[p] == patients[p]
    {
      assert mid[p] == patients[p];
    }
  }

  // ---------------------------------------------------------------------------
  // Dashboard and GetSystemStats

  /** The four numbers of the dashboard. */
  datatype SystemStats = SystemStats(totalPatients: nat, totalDoctors: nat, totalRadiologists: nat, totalSystemCost: int)

  /** A patient line of the dashboard (PatientDto). */
  datatype PatientLine = PatientLine(name: string, address: string, doctorName: Option<string>,
                                     radiologistName: Option<string>, totalCost: int)

  /** A staff line of the dashboard (DoctorSummaryDto / RadiologistSummaryDto). */
  datatype StaffLine = StaffLine(name: Option<string>, patientCount: nat)

  datatype Dashboard = Dashboard(stats: SystemStats, patients: map<int, PatientLine>,
                                 doctors: map<int, StaffLine>, radiologists: map<int, StaffLine>)

  /** The TotalCost column of the patient table. */
  function CostColumn(patients: map<int, Patient>): (r: map<int, int>)
    ensures r.Keys == patients.Keys
    ensures forall p :: p in r ==> r[p] == patients[p].totalCost
  {
    map p | p in patients :: patients[p].totalCost
  }

  /** Patients.SumAsync(t => t.TotalCost). */
  function SystemCost(patients: map<int, Patient>): int
  {
    Total(CostColumn(patients))
  }

  /** GetSystemStats, and the first four fields of Dashboard. */
  function SystemStatsOf(patients: map<int, Patient>, doctors: map<int, Staff>, radiologists: map<int, Staff>): (s: SystemStats)
    ensures s.totalPatients == |patients| && s.totalDoctors == |doctors| && s.totalRadiologists == |radiologists|
    ensures s.totalSystemCost == SystemCost(patients)
  {
    SystemStats(|patients|, |doctors|, |radiologists|, SystemCost(patients))
  }

  /** The name of the user behind a staff key (`p.AssignedDoctor.User.Name` in a query,
      where a missing row on the way yields null). */
  function StaffName(users: map<int, User>, table: map<int, Staff>, fk: Option<int>): (r: Option<string>)
    ensures r.Some? <==> fk.Some? && fk.value in table && table[fk.value].userId in users
  {
    if fk.Some? && fk.value in table && table[fk.value].userId in users then Some(users[table[fk.value].userId].name)
    else None
  }

  function StaffLines(users: map<int, User>, patients: map<int, Patient>, kind: StaffKind, table: map<int, Staff>): (r: map<int, StaffLine>)
    ensures r.Keys == table.Keys
    ensures forall d :: d in r ==> r[d].patientCount == |StaffPatients(patients, kind, d)|
  {
    map d | d in table :: StaffLine(if table[d].userId in users then Some(users[table[d].userId].name) else None,
                                    |StaffPatients(patients, kind, d)|)
  }

  /** The dashboard of AdminController.Dashboard. */
  function DashboardOf(users: map<int, User>, patients: map<int, Patient>, doctors: map<int, Staff>,
                       radiologists: map<int, Staff>): (d: Dashboard)
    ensures d.stats == SystemStatsOf(patients, doctors, radiologists)
    ensures d.patients.Keys == patients.Keys && d.doctors.Keys == doctors.Keys && d.radiologists.Keys == radiologists.Keys
    ensures forall p :: p in d.patients ==> d.patients[p].totalCost == patients[p].totalCost
    ensures forall s :: s in d.doctors ==> d.doctors[s].patientCount == |StaffPatients(patients, DoctorStaff, s)|
    ensures forall s :: s in d.radiologists ==> d.radiologists[s].patientCount == |StaffPatients(patients, RadiologistStaff, s)|
  {
    Dashboard(
      SystemStatsOf(patients, doctors, radiologists),
      map p | p in patients :: PatientLine(patients[p].name, patients[p].address,
        StaffName(users, doctors, patients[p].assignedDoctorId),
        StaffName(users, radiologists, patients[p].assignedRadiologistId),
        patients[p].totalCost),
      StaffLines(users, patients, DoctorStaff, doctors),
      StaffLines(users, patients, RadiologistStaff, radiologists))
  }

  /** The staff table of one kind, the staff lines of that kind on the dashboard, and
      the staff name of that kind on a patient line. */
  function TableOf(kind: StaffKind, doctors: map<int, Staff>, radiologists: map<int, Staff>): map<int, Staff>
  {
    match kind
    case DoctorStaff => doctors
    case RadiologistStaff => radiologists
  }

  function LinesOf(d: Dashboard, kind: StaffKind): map<int, StaffLine>
  {
    match kind
    case DoctorStaff => d.doctors
    case RadiologistStaff => d.radiologists
  }

  function NameOf(line: PatientLine, kind: StaffKind): Option<string>
  {
    match kind
    case DoctorStaff => line.doctorName
    case RadiologistStaff => line.radiologistName
  }

  /** The two halves of the dashboard agree: a patient in staff member s's collection
      shows s's name on its line (both are missing together when s's user is gone), and
      is counted on s's line; a patient with no staff of that kind shows no name. */
  lemma DashboardLinesAgree(users: map<int, User>, patients: map<int, Patient>, doctors: map<int, Staff>,
                            radiologists: map<int, Staff>, kind: StaffKind, p: int, s: int)
    requires p in patients
    ensures var d := DashboardOf(users, patients, doctors, radiologists);
      && p in d.patients
      && (p in StaffPatients(patients, kind, s) && s in TableOf(kind, doctors, radiologists) ==>
            && s in LinesOf(d, kind)
            && NameOf(d.patients[p], kind) == LinesOf(d, kind)[s].name
            && LinesOf(d, kind)[s].patientCount >= 1)
      && (AssignedTo(patients[p], kind).None? ==> NameOf(d.patients[p], kind).None?)
  {
    var d := DashboardOf(users, patients, doctors, radiologists);
    if p in StaffPatients(patients, kind, s) && s in TableOf(kind, doctors, radiologists) {
      SubsetSize({p}, StaffPatients(patients, kind, s));
      match kind
      case DoctorStaff =>
        assert d.doctors[s] == StaffLines(users, patients, DoctorStaff, doctors)[s];
      case RadiologistStaff =>
        assert d.radiologists[s] == StaffLines(users, patients, RadiologistStaff, radiologists)[s];
    }
  }

  /** GetSystemStats after CreateUser with role 4: one more patient, the same system
      cost, the staff counts unchanged. */
  lemma SystemStatsNewPatient(patients: map<int, Patient>, doctors: map<int, Staff>, radiologists: map<int, Staff>,
                              id: int, p: Patient)
    requires id !in patients && p.totalCost == 0
    ensures var before, after := SystemStatsOf(patients, doctors, radiologists), SystemStatsOf(patients[id := p], doctors, radiologists);
      && after.totalPatients == before.totalPatients + 1
      && after.totalSystemCost == before.totalSystemCost
      && after.totalDoctors == before.totalDoctors && after.totalRadiologists == before.totalRadiologists
  {
    SystemCostNewPatient(patients, id, p);
  }

  /** Changing one patient's TotalCost moves TotalSystemCost by the same amount. */
  lemma SystemCostUpdate(patients: map<int, Patient>, id: int, p: Patient)
    requires id in patients
    ensures SystemCost(patients[id := p]) == SystemCost(patients) - patients[id].totalCost + p.totalCost
  {
    var m := CostColumn(patients);
    var after := CostColumn(patients[id := p]);
    forall q | q in after
      ensures after[q] == m[id := p.totalCost][q]
    {
    }
    assert after == m[id := p.totalCost];
    TotalUpdate(m, id, p.totalCost);
  }

  /** A new patient, created with TotalCost 0, leaves TotalSystemCost as it was. */
  lemma SystemCostNewPatient(patients: map<int, Patient>, id: int, p: Patient)
    requires id !in patients && p.totalCost == 0
    ensures SystemCost(patients[id := p]) == SystemCost(patients)
  {
    var m := CostColumn(patients);
    var after := CostColumn(patients[id := p]);
    forall q | q in after
      ensures after[q] == m[id := 0][q]
    {
    }
    assert after == m[id := 0];
    TotalInsert(m, id, 0);
  }

  /** The patients assigned to some staff member of the given kind whose id is in s. */
  function AssignedWithin(patients: map<int, Patient>, kind: StaffKind, s: set<int>): set<int>
  {
    set p | p in patients && AssignedTo(patients[p], kind).Some? && AssignedTo(patients[p], kind).value in s
  }

  /** PatientCount per staff id in s. */
  function CountColumn(patients: map<int, Patient>, kind: StaffKind, s: set<int>): map<int, int>
  {
    map d | d in s :: |StaffPatients(patients, kind, d)|
  }

  /** Adding up the PatientCount column counts every patient assigned to one of those
      staff members exactly once. */
  lemma {:induction false} CountColumnTotal(patients: map<int, Patient>, kind: StaffKind, s: set<int>)
    ensures Total(CountColumn(patients, kind, s)) == |AssignedWithin(patients, kind, s)|
    decreases |s|
  {
    if s == {} {
      assert CountColumn(patients, kind, s) == map[];
      assert AssignedWithin(patients, kind, s) == {};
    } else {
      HasElement(s);
      var k :| k in s;
      CountColumnSplit(patients, kind, s, k);
      AssignedWithinSplit(patients, kind, s, k);
      CountColumnTotal(patients, kind, s - {k});
    }
  }

  lemma CountColumnSplit(patients: map<int, Patient>, kind: StaffKind, s: set<int>, k: int)
    requires k in s
    ensures Total(CountColumn(patients, kind, s)) ==
      |StaffPatients(patients, kind, k)| + Total(CountColumn(patients, kind, s - {k}))
  {
    var col := CountColumn(patients, kind, s);
    TotalRemove(col, k);
    assert col - {k} == CountColumn(patients, kind, s - {k});
  }

  lemma AssignedWithinSplit(patients: map<int, Patient>, kind: StaffKind, s: set<int>, k: int)
    requires k in s
    ensures |AssignedWithin(patients, kind, s)| ==
      |StaffPatients(patients, kind, k)| + |AssignedWithin(patients, kind, s - {k})|
  {
    var mine := StaffPatients(patients, kind, k);
    var rest := AssignedWithin(patients, kind, s - {k});
    assert AssignedWithin(patients, kind, s) == mine + rest;
    assert mine !! rest;
  }

  /** The staff lines of the dashboard never count more patients than there are; the
      patients that drop out are the unassigned ones and those whose key names no row. */
  lemma PatientCountsBounded(users: map<int, User>, patients: map<int, Patient>, kind: StaffKind, table: map<int, Staff>)
    ensures Total(map d | d in StaffLines(users, patients, kind, table) :: StaffLines(users, patients, kind, table)[d].patientCount as int)
      == |AssignedWithin(patients, kind, table.Keys)|
    ensures |AssignedWithin(patients, kind, table.Keys)| <= |patients|
  {
    var lines := StaffLines(users, patients, kind, table);
    assert (map d | d in lines :: lines[d].patientCount as int) == CountColumn(patients, kind, table.Keys);
    CountColumnTotal(patients, kind, table.Keys);
    SubsetSize(AssignedWithin(patients, kind, table.Keys), patients.Keys);
  }

  lemma {:induction false} SubsetSize(a: set<int>, b: set<int>)
    requires a <= b
    ensures |a| <= |b|
    decreases |b|
  {
    if b != {} {
      HasElement(b);
      var x :| x in b;
      SubsetSize(a - {x}, b - {x});
    }
  }

  // ---------------------------------------------------------------------------
  // The controller

  class AdminController {
    const db: Store

    constructor (db: Store)
      ensures this.db == db
    {
      this.db := db;
    }

    /** CreateUser: a taken username is refused before anything is written; otherwise the
        user is added (with the hash of the password, computed outside the model) and,
        for role 2, 3 or 4, one Doctor, Radiologist or Patient record that refers to it.
        A new patient has no staff, no condition and TotalCost 0. */
    method CreateUser(username: string, passwordHash: string, name: string, role: int, address: string)
      returns (r: Result<int>)
      requires db.Valid()
      modifies db
      ensures db.Valid()
      ensures r.Err? <==> old(HasUsername(db.users, username))
      ensures r.Err? ==> r == Err(UsernameTaken) && unchanged(db)
      ensures r.Ok? ==>
        var uid := old(db.nextUserId);
        && r.value == uid && uid !in old(db.users)
        && db.users == old(db.users)[uid := User(username, passwordHash, role, name)]
        && db.nextUserId == uid + 1
        && db.doctors == (if role == RoleDoctor then old(db.doctors)[old(db.nextDoctorId) := Staff(uid, name)] else old(db.doctors))
        && db.nextDoctorId == old(db.nextDoctorId) + (if role == RoleDoctor then 1 else 0)
        && db.radiologists ==
             (if role == RoleRadiologist then old(db.radiologists)[old(db.nextRadiologistId) := Staff(uid, name)] else old(db.radiologists))
        && db.nextRadiologistId == old(db.nextRadiologistId) + (if role == RoleRadiologist then 1 else 0)
        && db.patients == (if role == RolePatient
                           then old(db.patients)[old(db.nextPatientId) := Patient(uid, name, address, None, None, None, 0)]
                           else old(db.patients))
        && db.nextPatientId == old(db.nextPatientId) + (if role == RolePatient then 1 else 0)
        && db.tasks == old(db.tasks) && db.images == old(db.images) && db.diagnoses == old(db.diagnoses)
        && db.nextTaskId == old(db.nextTaskId) && db.nextImageId == old(db.nextImageId)
    {
      if HasUsername(db.users, username) {
        return Err(UsernameTaken);
      }
      var uid := db.AddUser(User(username, passwordHash, role, name));
      if role == RoleDoctor {
        var _ := db.AddStaff(DoctorStaff, Staff(uid, name));
      } else if role == RoleRadiologist {
        var _ := db.AddStaff(RadiologistStaff, Staff(uid, name));
      } else if role == RolePatient {
        var _ := db.AddPatient(Patient(uid, name, address, None, None, None, 0));
      }
      r := Ok(uid);
    }

    /** The foreach loops of AddDoctor, AddRadiologist, EditDoctor, EditRadiologist,
        DeleteDoctor and DeleteRadiologist: every patient whose id is in ids gets the
        key `staff`; ids that name no patient are skipped. */
    method AssignEach(kind: StaffKind, ids: set<int>, staff: Option<int>)
      requires db.Valid() && KeyBelow(staff, db.NextStaffId(kind))
      modifies db
      ensures db.Valid()
      ensures db.patients == Reassign(old(db.patients), kind, ids, staff)
      ensures db.users == old(db.users) && db.doctors == old(db.doctors) && db.radiologists == old(db.radiologists)
      ensures db.tasks == old(db.tasks) && db.images == old(db.images) && db.diagnoses == old(db.diagnoses)
      ensures db.Counters() == old(db.Counters())
    {
      ghost var start := db.patients;
      ghost var done: set<int> := {};
      var todo := ids * db.patients.Keys;
      ReassignNothing(start, kind, staff);
      while todo != {}
        invariant db.Valid() && KeyBelow(staff, db.NextStaffId(kind))
        invariant done !! todo && done + todo == ids * start.Keys
        invariant db.patients == Reassign(start, kind, done, staff)
        invariant db.users == old(db.users) && db.doctors == old(db.doctors) && db.radiologists == old(db.radiologists)
        invariant db.tasks == old(db.tasks) && db.images == old(db.images) && db.diagnoses == old(db.diagnoses)
        invariant db.Counters() == old(db.Counters())
        decreases |todo|
      {
        HasElement(todo);
        var p :| p in todo;
        ReassignStep(start, kind, done, p, staff);
        db.AssignPatient(p, kind, staff);
        todo := todo - {p};
        done := done + {p};
      }
      ReassignExistingOnly(start, kind, ids, staff);
    }

    /** AddDoctor / AddRadiologist: CreateUser with the staff role, then every requested
        patient that exists is assigned to the new staff member. A failed CreateUser
        changes nothing. */
    method AddStaffAccount(kind: StaffKind, username: string, passwordHash: string, name: string,
                           patientIds: Option<seq<int>>) returns (r: Result<int>)
      requires db.Valid()
      modifies db
      ensures db.Valid()
      ensures r.Err? <==> old(HasUsername(db.users, username))
      ensures r.Err? ==> r == Err(UsernameTaken) && unchanged(db)
      ensures r.Ok? ==>
        var uid := old(db.nextUserId);
        var sid := old(db.NextStaffId(kind));
        && r.value == sid
        && db.users == old(db.users)[uid := User(username, passwordHash, RoleOf(kind), name)]
        && db.StaffTable(kind) == old(db.StaffTable(kind))[sid := Staff(uid, name)]
        && db.StaffTable(OtherKind(kind)) == old(db.StaffTable(OtherKind(kind)))
        && db.patients == Reassign(old(db.patients), kind, Requested(patientIds), Some(sid))
        && StaffPatients(db.patients, kind, sid) == Requested(patientIds) * old(db.patients).Keys
        && (forall t :: t != sid ==> StaffPatients(db.patients, kind, t) == old(StaffPatients(db.patients, kind, t)) - Requested(patientIds))
        && db.tasks == old(db.tasks) && db.images == old(db.images) && db.diagnoses == old(db.diagnoses)
        && db.nextUserId == uid + 1 && db.NextStaffId(kind) == sid + 1
        && db.NextStaffId(OtherKind(kind)) == old(db.NextStaffId(OtherKind(kind)))
        && db.nextPatientId == old(db.nextPatientId) && db.nextTaskId == old(db.nextTaskId)
        && db.nextImageId == old(db.nextImageId)
    {
      ghost var before := db.patients;
      var created := CreateUser(username, passwordHash, name, RoleOf(kind), "");
      if created.Err? {
        return Err(created.failure);
      }
      var sid := db.NextStaffId(kind) - 1;
      var wanted := Requested(patientIds);
      assert StaffPatients(before, kind, sid) == {} by {
        forall p | p in before
          ensures AssignedTo(before[p], kind) != Some(sid)
        {
        }
      }
      ReassignToStaff(before, kind, wanted, sid);
      ReassignNothing(before, kind, Some(sid));
      if wanted != {} {
        AssignEach(kind, wanted, Some(sid));
      }
      r := Ok(sid);
    }

    /** EditDoctor / EditRadiologist (POST): an unknown staff id is NotFound; a staff row
        without its user fails on `User.Name` before anything is saved; otherwise the
        user's name is changed and the assignments become EditAssignments. */
    method EditStaff(kind: StaffKind, id: int, name: string, assignedPatientIds: Option<seq<int>>)
      returns (r: Outcome)
      requires db.Valid()
      modifies db
      ensures db.Valid()
      ensures r == Failed(NotFound) <==> id !in old(db.StaffTable(kind))
      ensures r == Failed(MissingUser) <==>
        id in old(db.StaffTable(kind)) && old(db.StaffTable(kind))[id].userId !in old(db.users)
      ensures r.Failed? ==> unchanged(db)
      ensures r == Done ==>
        var uid := old(db.StaffTable(kind))[id].userId;
        && db.users == old(db.users)[uid := old(db.users)[uid].(name := name)]
        && db.patients == EditAssignments(old(db.patients), kind, id, Requested(assignedPatientIds))
        && db.doctors == old(db.doctors) && db.radiologists == old(db.radiologists)
        && db.tasks == old(db.tasks) && db.images == old(db.images) && db.diagnoses == old(db.diagnoses)
        && db.Counters() == old(db.Counters())
    {
      if id !in db.StaffTable(kind) {
        return Failed(NotFound);
      }
      var uid := db.StaffTable(kind)[id].userId;
      if uid !in db.users {
        return Failed(MissingUser);
      }
      db.RenameUser(uid, name);
      var wanted := Requested(assignedPatientIds);
      var current := db.PatientsOf(kind, id);
      AssignEach(kind, current - wanted, None);
      AssignEach(kind, wanted - current, Some(id));
      r := Done;
    }

    /** DeletePatient: the patient's user goes too (when there is one), and the patient's
        images, diagnoses and tasks cascade. */
    method DeletePatient(id: int) returns (r: Outcome)
      requires db.Valid()
      modifies db
      ensures db.Valid()
      ensures r == Done <==> id in old(db.patients)
      ensures r.Failed? ==> r == Failed(NotFound) && unchanged(db)
      ensures r == Done ==>
        && db.users == old(db.users) - {old(db.patients)[id].userId}
        && db.patients == old(db.patients) - {id}
        && db.images == Cascade(old(db.images), ImageOwner, id)
        && db.diagnoses == Cascade(old(db.diagnoses), DiagnosisOwner, id)
        && db.tasks == Cascade(old(db.tasks), TaskOwner, id)
        && db.doctors == old(db.doctors) && db.radiologists == old(db.radiologists)
        && db.Counters() == old(db.Counters())
    {
      if id !in db.patients {
        return Failed(NotFound);
      }
      var uid := db.patients[id].userId;
      if uid in db.users {
        db.RemoveUser(uid);
      }
      db.RemovePatient(id);
      r := Done;
    }

    /** DeleteDoctor / DeleteRadiologist: the staff member's patients have their key
        cleared (the loop, and again the SetNull of the relationship), then the staff
        user and the staff row are removed. */
    method DeleteStaff(kind: StaffKind, id: int) returns (r: Outcome)
      requires db.Valid()
      modifies db
      ensures db.Valid()
      ensures r == Done <==> id in old(db.StaffTable(kind))
      ensures r.Failed? ==> r == Failed(NotFound) && unchanged(db)
      ensures r == Done ==>
        && db.patients == SetNullOnDelete(old(db.patients), kind, id)
        && db.users == old(db.users) - {old(db.StaffTable(kind))[id].userId}
        && db.StaffTable(kind) == old(db.StaffTable(kind)) - {id}
        && db.StaffTable(OtherKind(kind)) == old(db.StaffTable(OtherKind(kind)))
        && db.tasks == old(db.tasks) && db.images == old(db.images) && db.diagnoses == old(db.diagnoses)
        && db.Counters() == old(db.Counters())
    {
      if id !in db.StaffTable(kind) {
        return Failed(NotFound);
      }
      var uid := db.StaffTable(kind)[id].userId;
      ghost var before := db.patients;
      AssignEach(kind, db.PatientsOf(kind, id), None);
      SetNullOnDeleteIdempotent(before, kind, id);
      if uid in db.users {
        db.RemoveUser(uid);
      }
      db.RemoveStaff(kind, id);
      r := Done;
    }

    /** DeleteUser: by the user's role, one staff row of that user (whose patients get a
        null key through SetNull) or one patient row of that user (with its cascades) is
        removed, if there is one; then the user. */
    method DeleteUser(userId: int) returns (r: Outcome)
      requires db.Valid()
      modifies db
      ensures db.Valid()
      ensures r == Done <==> userId in old(db.users)
      ensures r.Failed? ==> r == Failed(NotFound) && unchanged(db)
      ensures r == Done ==> db.users == old(db.users) - {userId} && db.Counters() == old(db.Counters())
      ensures r == Done && old(db.users)[userId].role in {RoleDoctor, RoleRadiologist} ==>
        var kind := if old(db.users)[userId].role == RoleDoctor then DoctorStaff else RadiologistStaff;
        var mine := StaffOfUser(old(db.StaffTable(kind)), userId);
        && db.StaffTable(OtherKind(kind)) == old(db.StaffTable(OtherKind(kind)))
        && db.tasks == old(db.tasks) && db.images == old(db.images) && db.diagnoses == old(db.diagnoses)
        && (mine == {} ==> db.StaffTable(kind) == old(db.StaffTable(kind)) && db.patients == old(db.patients))
        && (mine != {} ==> exists s :: s in mine && db.StaffTable(kind) == old(db.StaffTable(kind)) - {s} &&
                                       db.patients == SetNullOnDelete(old(db.patients), kind, s))
      ensures r == Done && old(db.users)[userId].role == RolePatient ==>
        var mine := PatientsOfUser(old(db.patients), userId);
        && db.doctors == old(db.doctors) && db.radiologists == old(db.radiologists)
        && (mine == {} ==> db.patients == old(db.patients) && db.tasks == old(db.tasks) && db.images == old(db.images)
                           && db.diagnoses == old(db.diagnoses))
        && (mine != {} ==> exists p :: p in mine && db.patients == old(db.patients) - {p}
                             && db.images == Cascade(old(db.images), ImageOwner, p)
                             && db.diagnoses == Cascade(old(db.diagnoses), DiagnosisOwner, p)
                             && db.tasks == Cascade(old(db.tasks), TaskOwner, p))
      ensures r == Done && old(db.users)[userId].role !in {RoleDoctor, RoleRadiologist, RolePatient} ==>
        && db.patients == old(db.patients) && db.doctors == old(db.doctors) && db.radiologists == old(db.radiologists)
        && db.tasks == old(db.tasks) && db.images == old(db.images) && db.diagnoses == old(db.diagnoses)
    {
      if userId !in db.users {
        return Failed(NotFound);
      }
      var role := db.users[userId].role;
      if role == RoleDoctor || role == RoleRadiologist {
        var kind := if role == RoleDoctor then DoctorStaff else RadiologistStaff;
        var mine := StaffOfUser(db.StaffTable(kind), userId);
        if mine != {} {
          HasElement(mine);
          var s :| s in mine;
          db.RemoveStaff(kind, s);
        }
      } else if role == RolePatient {
        var mine := PatientsOfUser(db.patients, userId);
        if mine != {} {
          HasElement(mine);
          var p :| p in mine;
          db.RemovePatient(p);
        }
      }
      db.RemoveUser(userId);
      r := Done;
    }
  }

  /** The staff rows of user userId (`FirstOrDefaultAsync(d => d.UserId == userId)`
      takes one of them). */
  function StaffOfUser(table: map<int, Staff>, userId: int): (r: set<int>)
    ensures forall s :: s in r <==> s in table && table[s].userId == userId
  {
    set s | s in table && table[s].userId == userId
  }

  /** The patient rows of user userId. */
  function PatientsOfUser(patients: map<int, Patient>, userId: int): (r: set<int>)
    ensures forall p :: p in r <==> p in patients && patients[p].userId == userId
  {
    set p | p in patients && patients[p].userId == userId
  }
}
