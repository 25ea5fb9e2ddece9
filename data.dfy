/** The database context (HealthcareSystem/Data/ApplicationDbContext.cs): the tables,
    their identity counters, and the relationship configuration of OnModelCreating —
    which collections are inverses of which foreign keys, and what a delete does to
    the rows that refer to the deleted one. */
module Data {
  import opened Models
  import opened Sums

  /** The two kinds of staff a patient can be assigned to. */
  datatype StaffKind = DoctorStaff | RadiologistStaff

  function OtherKind(kind: StaffKind): StaffKind
  {
    match kind
    case DoctorStaff => RadiologistStaff
    case RadiologistStaff => DoctorStaff
  }

  /** The foreign key of patient p towards staff of the given kind:
      AssignedDoctorId or AssignedRadiologistId. */
  function AssignedTo(p: Patient, kind: StaffKind): Option<int>
  {
    match kind
    case DoctorStaff => p.assignedDoctorId
    case RadiologistStaff => p.assignedRadiologistId
  }

  /** p with the foreign key of the given kind set to staff; nothing else changes. */
  function WithAssignment(p: Patient, kind: StaffKind, staff: Option<int>): (q: Patient)
    ensures AssignedTo(q, kind) == staff
    ensures AssignedTo(q, OtherKind(kind)) == AssignedTo(p, OtherKind(kind))
    ensures q.(assignedDoctorId := p.assignedDoctorId, assignedRadiologistId := p.assignedRadiologistId) == p
  {
    match kind
    case DoctorStaff => p.(assignedDoctorId := staff)
    case RadiologistStaff => p.(assignedRadiologistId := staff)
  }

  /** Doctors.PatientIds / Radiologists.PatientIds. OnModelCreating declares each as
      the inverse (WithMany) of the patient's foreign key (HasForeignKey), so it is
      computed from the key instead of being stored: both sides agree by construction. */
  function StaffPatients(patients: map<int, Patient>, kind: StaffKind, staffId: int): (r: set<int>)
    ensures r <= patients.Keys
    ensures forall p :: p in r ==> AssignedTo(patients[p], kind).Some?
  {
    set p | p in patients && AssignedTo(patients[p], kind) == Some(staffId)
  }

  /** A patient lies in the collection of at most one staff member of each kind. */
  lemma StaffPatientsDisjoint(patients: map<int, Patient>, kind: StaffKind, a: int, b: int)
    requires a != b
    ensures StaffPatients(patients, kind, a) !! StaffPatients(patients, kind, b)
  {
  }

  /** The patients with ids in `ids` get foreign key `staff` of the given kind; every
      other patient, and every other column, stays as it was. */
  function Reassign(patients: map<int, Patient>, kind: StaffKind, ids: set<int>, staff: Option<int>): (r: map<int, Patient>)
    ensures r.Keys == patients.Keys
    ensures forall p :: p in r && p in ids ==> AssignedTo(r[p], kind) == staff
    ensures forall p :: p in r ==> AssignedTo(r[p], OtherKind(kind)) == AssignedTo(patients[p], OtherKind(kind))
  {
    map p | p in patients :: if p in ids then WithAssignment(patients[p], kind, staff) else patients[p]
  }

  /** How the staff collections move when patients are assigned to staff member s. */
  lemma ReassignToStaff(patients: map<int, Patient>, kind: StaffKind, ids: set<int>, s: int)
    ensures var r := Reassign(patients, kind, ids, Some(s));
      && r.Keys == patients.Keys
      && StaffPatients(r, kind, s) == StaffPatients(patients, kind, s) + (ids * patients.Keys)
      && (forall t :: t != s ==> StaffPatients(r, kind, t) == StaffPatients(patients, kind, t) - ids)
      && (forall t :: StaffPatients(r, OtherKind(kind), t) == StaffPatients(patients, OtherKind(kind), t))
  {
    var r := Reassign(patients, kind, ids, Some(s));
    forall t
      ensures StaffPatients(r, kind, t) ==
        if t == s then StaffPatients(patients, kind, s) + (ids * patients.Keys)
        else StaffPatients(patients, kind, t) - ids
      ensures StaffPatients(r, OtherKind(kind), t) == StaffPatients(patients, OtherKind(kind), t)
    {
      ReassignAt(patients, kind, ids, Some(s), t);
    }
  }

  /** How the staff collections move when the foreign keys of some patients are cleared. */
  lemma ReassignToNone(patients: map<int, Patient>, kind: StaffKind, ids: set<int>)
    ensures var r := Reassign(patients, kind, ids, None);
      && r.Keys == patients.Keys
      && (forall t :: StaffPatients(r, kind, t) == StaffPatients(patients, kind, t) - ids)
      && (forall t :: StaffPatients(r, OtherKind(kind), t) == StaffPatients(patients, OtherKind(kind), t))
  {
    var r := Reassign(patients, kind, ids, None);
    forall t
      ensures StaffPatients(r, kind, t) == StaffPatients(patients, kind, t) - ids
      ensures StaffPatients(r, OtherKind(kind), t) == StaffPatients(patients, OtherKind(kind), t)
    {
      ReassignAt(patients, kind, ids, None, t);
    }
  }

  /** The collection of one staff member t after Reassign, element by element. */
  lemma ReassignAt(patients: map<int, Patient>, kind: StaffKind, ids: set<int>, staff: Option<int>, t: int)
    ensures var r := Reassign(patients, kind, ids, staff);
      && StaffPatients(r, kind, t) ==
        (StaffPatients(patients, kind, t) - ids) + (if staff == Some(t) then ids * patients.Keys else {})
      && StaffPatients(r, OtherKind(kind), t) == StaffPatients(patients, OtherKind(kind), t)
  {
    var r := Reassign(patients, kind, ids, staff);
    var added := if staff == Some(t) then ids * patients.Keys else {};
    forall p
      ensures p in StaffPatients(r, kind, t) <==> p in (StaffPatients(patients, kind, t) - ids) + added
      ensures p in StaffPatients(r, OtherKind(kind), t) <==> p in StaffPatients(patients, OtherKind(kind), t)
    {
      if p in patients {
        assert r[p] == if p in ids then WithAssignment(patients[p], kind, staff) else patients[p];
      }
    }
  }

  /** Reassigning no patient changes nothing. */
  lemma ReassignNothing(patients: map<int, Patient>, kind: StaffKind, staff: Option<int>)
    ensures Reassign(patients, kind, {}, staff) == patients
  {
    var r := Reassign(patients, kind, {}, staff);
    forall p | p in r
      ensures r[p] == patients[p]
    {
    }
  }

  /** Ids that name no patient are skipped. */
  lemma ReassignExistingOnly(patients: map<int, Patient>, kind: StaffKind, ids: set<int>, staff: Option<int>)
    ensures Reassign(patients, kind, ids * patients.Keys, staff) == Reassign(patients, kind, ids, staff)
  {
    var a, b := Reassign(patients, kind, ids * patients.Keys, staff), Reassign(patients, kind, ids, staff);
    forall p | p in a
      ensures a[p] == b[p]
    {
    }
  }

  /** Reassigning one more patient p is one more row update. */
  lemma ReassignStep(patients: map<int, Patient>, kind: StaffKind, done: set<int>, p: int, staff: Option<int>)
    requires p in patients
    ensures Reassign(patients, kind, done + {p}, staff) ==
      Reassign(patients, kind, done, staff)[p := WithAssignment(patients[p], kind, staff)]
  {
    var a := Reassign(patients, kind, done + {p}, staff);
    var b := Reassign(patients, kind, done, staff)[p := WithAssignment(patients[p], kind, staff)];
    assert a.Keys == b.Keys;
    forall q | q in a
      ensures a[q] == b[q]
    {
    }
  }

  /** OnDelete(DeleteBehavior.SetNull) on AssignedDoctor / AssignedRadiologist: deleting
      a staff member clears the foreign key of every patient that refers to it. */
  function SetNullOnDelete(patients: map<int, Patient>, kind: StaffKind, staffId: int): (r: map<int, Patient>)
    ensures r.Keys == patients.Keys
    ensures forall p :: p in r ==> AssignedTo(r[p], kind) != Some(staffId)
    ensures forall p :: p in r ==> AssignedTo(r[p], OtherKind(kind)) == AssignedTo(patients[p], OtherKind(kind))
  {
    Reassign(patients, kind, StaffPatients(patients, kind, staffId), None)
  }

  /** SetNull deletes no patient, empties the deleted staff member's collection, and
      leaves every other collection and every other column alone. */
  lemma SetNullOnDeleteEffect(patients: map<int, Patient>, kind: StaffKind, staffId: int)
    ensures var r := SetNullOnDelete(patients, kind, staffId);
      && r.Keys == patients.Keys
      && StaffPatients(r, kind, staffId) == {}
      && (forall t :: t != staffId ==> StaffPatients(r, kind, t) == StaffPatients(patients, kind, t))
      && (forall t :: StaffPatients(r, OtherKind(kind), t) == StaffPatients(patients, OtherKind(kind), t))
      && (forall p :: p in r ==> r[p] == WithAssignment(patients[p], kind, AssignedTo(r[p], kind)))
  {
    var ids := StaffPatients(patients, kind, staffId);
    ReassignToNone(patients, kind, ids);
    forall t | t != staffId
      ensures StaffPatients(patients, kind, t) - ids == StaffPatients(patients, kind, t)
    {
      StaffPatientsDisjoint(patients, kind, t, staffId);
    }
  }

  /** The foreign keys have been cleared already, so a second SetNull does nothing. */
  lemma SetNullOnDeleteIdempotent(patients: map<int, Patient>, kind: StaffKind, staffId: int)
    ensures SetNullOnDelete(SetNullOnDelete(patients, kind, staffId), kind, staffId) ==
      SetNullOnDelete(patients, kind, staffId)
  {
    SetNullOnDeleteEffect(patients, kind, staffId);
    ReassignNothing(SetNullOnDelete(patients, kind, staffId), kind, None);
  }

  /** OnDelete(DeleteBehavior.Cascade) towards a patient: the rows of table m owned by
      patient pid (owner(row) == pid) go with it. */
  function Cascade<R>(m: map<int, R>, owner: R -> int, pid: int): (r: map<int, R>)
    ensures forall i :: i in r ==> i in m && owner(m[i]) != pid && r[i] == m[i]
    ensures forall i :: i in m && owner(m[i]) != pid ==> i in r
  {
    map i | i in m && owner(m[i]) != pid :: m[i]
  }

  /** A cascade towards patient pid takes that patient's whole group away and leaves
      every other patient's sum over the table (image costs, task costs) as it was. */
  lemma CascadeGroupTotal<R>(m: map<int, R>, owner: R -> int, value: R -> int, pid: int, key: int)
    ensures GroupTotal(Cascade(m, owner, pid), owner, value, key) ==
      if key == pid then 0 else GroupTotal(m, owner, value, key)
  {
    var c := Cascade(m, owner, pid);
    if key == pid {
      GroupTotalEmpty(c, owner, value, key);
    } else {
      var a, b := Column(c, owner, value, key), Column(m, owner, value, key);
      forall i
        ensures i in a <==> i in b
      {
      }
      assert a.Keys == b.Keys;
      assert a == b;
    }
  }

  function ImageOwner(img: MedicalImage): int { img.patientId }
  function DiagnosisOwner(d: Diagnosis): int { d.patientId }
  function TaskOwner(t: PatientTask): int { t.patientId }

  /** The next identity value is positive and every id of the table is positive and
      below it. */
  ghost predicate IdsBelow(ids: set<int>, next: int)
  {
    0 < next && forall i :: i in ids ==> 0 < i < next
  }

  /** A nullable foreign key refers to an id below the referenced table's counter. */
  ghost predicate KeyBelow(fk: Option<int>, next: int)
  {
    fk.Some? ==> fk.value < next
  }

  /** Some user of the table has this username (Users.AnyAsync(u => u.Username == name)). */
  predicate HasUsername(users: map<int, User>, username: string)
  {
    exists i :: i in users && users[i].username == username
  }

  ghost predicate UniqueUsernames(users: map<int, User>)
  {
    forall a, b :: a in users && b in users && users[a].username == users[b].username ==> a == b
  }

  /** The DbSets of ApplicationDbContext with their identity counters. */
  class Store {
    var users: map<int, User>
    var patients: map<int, Patient>
    var doctors: map<int, Staff>
    var radiologists: map<int, Staff>
    var tasks: map<int, PatientTask>
    var images: map<int, MedicalImage>
    var diagnoses: map<int, Diagnosis>

    var nextUserId: int
    var nextPatientId: int
    var nextDoctorId: int
    var nextRadiologistId: int
    var nextTaskId: int
    var nextImageId: int

    /** Identity columns hand out fresh ids, usernames are unique (CreateUser refuses a
        taken one), every stored image cost is non-negative (UploadImage refuses a
        negative one), and a patient's staff keys were handed out by the staff tables. */
    ghost predicate Valid()
      reads this
      ensures Valid() ==>
        && nextUserId !in users && nextPatientId !in patients && nextDoctorId !in doctors
        && nextRadiologistId !in radiologists && nextTaskId !in tasks && nextImageId !in images
    {
      && IdsBelow(users.Keys, nextUserId)
      && IdsBelow(patients.Keys, nextPatientId)
      && IdsBelow(doctors.Keys, nextDoctorId)
      && IdsBelow(radiologists.Keys, nextRadiologistId)
      && IdsBelow(tasks.Keys, nextTaskId)
      && IdsBelow(images.Keys, nextImageId)
      && UniqueUsernames(users)
      && (forall i :: i in images ==> CostOrZero(images[i].cost) >= 0)
      && (forall i :: i in patients ==> KeyBelow(patients[i].assignedDoctorId, nextDoctorId))
      && (forall i :: i in patients ==> KeyBelow(patients[i].assignedRadiologistId, nextRadiologistId))
    }

    /** The identity counter of the staff table of the given kind. */
    function NextStaffId(kind: StaffKind): int
      reads this
    {
      match kind
      case DoctorStaff => nextDoctorId
      case RadiologistStaff => nextRadiologistId
    }

    /** The identity counters, for saying that an action allocated no id. */
    ghost function Counters(): seq<int>
      reads this
    {
      [nextUserId, nextPatientId, nextDoctorId, nextRadiologistId, nextTaskId, nextImageId]
    }

    constructor ()
      ensures Valid()
      ensures users == map[] && patients == map[] && doctors == map[] && radiologists == map[]
      ensures tasks == map[] && images == map[] && diagnoses == map[]
      ensures nextUserId == 1 && nextPatientId == 1 && nextDoctorId == 1 && nextRadiologistId == 1
      ensures nextTaskId == 1 && nextImageId == 1
    {
      users, patients, doctors, radiologists := map[], map[], map[], map[];
      tasks, images, diagnoses := map[], map[], map[];
      nextUserId, nextPatientId, nextDoctorId, nextRadiologistId := 1, 1, 1, 1;
      nextTaskId, nextImageId := 1, 1;
    }

    function StaffTable(kind: StaffKind): map<int, Staff>
      reads this
    {
      match kind
      case DoctorStaff => doctors
      case RadiologistStaff => radiologists
    }

    /** The patients currently in staff member staffId's collection. */
    function PatientsOf(kind: StaffKind, staffId: int): set<int>
      reads this
    {
      StaffPatients(patients, kind, staffId)
    }

    /** _context.MedicalImages.Add: the new row gets the next identity value. */
    method AddImage(img: MedicalImage) returns (id: int)
      requires Valid() && CostOrZero(img.cost) >= 0
      modifies this
      ensures Valid()
      ensures id == old(nextImageId) && id !in old(images)
      ensures images == old(images)[id := img] && nextImageId == id + 1
      ensures users == old(users) && patients == old(patients) && doctors == old(doctors)
      ensures radiologists == old(radiologists) && tasks == old(tasks) && diagnoses == old(diagnoses)
      ensures nextUserId == old(nextUserId) && nextPatientId == old(nextPatientId)
      ensures nextDoctorId == old(nextDoctorId) && nextRadiologistId == old(nextRadiologistId)
      ensures nextTaskId == old(nextTaskId)
    {
      id := nextImageId;
      images := images[id := img];
      nextImageId := id + 1;
    }

    /** _context.MedicalImages.Remove. */
    method RemoveImage(id: int)
      requires Valid()
      modifies this
      ensures Valid()
      ensures images == old(images) - {id}
      ensures users == old(users) && patients == old(patients) && doctors == old(doctors)
      ensures radiologists == old(radiologists) && tasks == old(tasks) && diagnoses == old(diagnoses)
      ensures Counters() == old(Counters())
    {
      images := images - {id};
    }

    /** Saving a tracked image whose columns were changed. */
    method SetImage(id: int, img: MedicalImage)
      requires Valid() && id in images && CostOrZero(img.cost) >= 0
      modifies this
      ensures Valid()
      ensures images == old(images)[id := img]
      ensures users == old(users) && patients == old(patients) && doctors == old(doctors)
      ensures radiologists == old(radiologists) && tasks == old(tasks) && diagnoses == old(diagnoses)
      ensures Counters() == old(Counters())
    {
      images := images[id := img];
    }

    /** _context.PatientTasks.Add: the new row gets the next identity value. */
    method AddTask(t: PatientTask) returns (id: int)
      requires Valid()
      modifies this
      ensures Valid()
      ensures id == old(nextTaskId) && id !in old(tasks)
      ensures tasks == old(tasks)[id := t] && nextTaskId == id + 1
      ensures users == old(users) && patients == old(patients) && doctors == old(doctors)
      ensures radiologists == old(radiologists) && images == old(images) && diagnoses == old(diagnoses)
      ensures nextUserId == old(nextUserId) && nextPatientId == old(nextPatientId)
      ensures nextDoctorId == old(nextDoctorId) && nextRadiologistId == old(nextRadiologistId)
      ensures nextImageId == old(nextImageId)
    {
      id := nextTaskId;
      tasks := tasks[id := t];
      nextTaskId := id + 1;
    }

    /** _context.PatientTasks.Remove. */
    method RemoveTask(id: int)
      requires Valid()
      modifies this
      ensures Valid()
      ensures tasks == old(tasks) - {id}
      ensures users == old(users) && patients == old(patients) && doctors == old(doctors)
      ensures radiologists == old(radiologists) && images == old(images) && diagnoses == old(diagnoses)
      ensures Counters() == old(Counters())
    {
      tasks := tasks - {id};
    }

    /** Saving a tracked task whose columns were changed. */
    method SetTask(id: int, t: PatientTask)
      requires Valid() && id in tasks
      modifies this
      ensures Valid()
      ensures tasks == old(tasks)[id := t]
      ensures users == old(users) && patients == old(patients) && doctors == old(doctors)
      ensures radiologists == old(radiologists) && images == old(images) && diagnoses == old(diagnoses)
      ensures Counters() == old(Counters())
    {
      tasks := tasks[id := t];
    }

    /** Saving a tracked patient whose columns other than the staff keys were changed. */
    method SetPatient(id: int, p: Patient)
      requires Valid() && id in patients
      requires p.assignedDoctorId == patients[id].assignedDoctorId
      requires p.assignedRadiologistId == patients[id].assignedRadiologistId
      modifies this
      ensures Valid()
      ensures patients == old(patients)[id := p]
      ensures users == old(users) && images == old(images) && doctors == old(doctors)
      ensures radiologists == old(radiologists) && tasks == old(tasks) && diagnoses == old(diagnoses)
      ensures Counters() == old(Counters())
    {
      patients := patients[id := p];
    }

    /** Setting patient id's foreign key of the given kind (patient.AssignedDoctorId =
        ... / patient.AssignedRadiologistId = ...) and saving. */
    method AssignPatient(id: int, kind: StaffKind, staff: Option<int>)
      requires Valid() && id in patients && KeyBelow(staff, NextStaffId(kind))
      modifies this
      ensures Valid()
      ensures patients == old(patients)[id := WithAssignment(old(patients)[id], kind, staff)]
      ensures users == old(users) && images == old(images) && doctors == old(doctors)
      ensures radiologists == old(radiologists) && tasks == old(tasks) && diagnoses == old(diagnoses)
      ensures Counters() == old(Counters())
    {
      patients := patients[id := WithAssignment(patients[id], kind, staff)];
    }

    /** _context.Users.Add: the new row gets the next identity value. */
    method AddUser(u: User) returns (id: int)
      requires Valid() && !HasUsername(users, u.username)
      modifies this
      ensures Valid()
      ensures id == old(nextUserId) && id !in old(users)
      ensures users == old(users)[id := u] && nextUserId == id + 1
      ensures patients == old(patients) && doctors == old(doctors) && radiologists == old(radiologists)
      ensures tasks == old(tasks) && images == old(images) && diagnoses == old(diagnoses)
      ensures nextPatientId == old(nextPatientId) && nextDoctorId == old(nextDoctorId)
      ensures nextRadiologistId == old(nextRadiologistId) && nextTaskId == old(nextTaskId)
      ensures nextImageId == old(nextImageId)
    {
      id := nextUserId;
      users := users[id := u];
      nextUserId := id + 1;
    }

    /** Saving a tracked user whose display name was changed. */
    method RenameUser(id: int, name: string)
      requires Valid() && id in users
      modifies this
      ensures Valid()
      ensures users == old(users)[id := old(users)[id].(name := name)]
      ensures patients == old(patients) && doctors == old(doctors) && radiologists == old(radiologists)
      ensures tasks == old(tasks) && images == old(images) && diagnoses == old(diagnoses)
      ensures Counters() == old(Counters())
    {
      users := users[id := users[id].(name := name)];
    }

    /** _context.Users.Remove. */
    method RemoveUser(id: int)
      requires Valid()
      modifies this
      ensures Valid()
      ensures users == old(users) - {id}
      ensures patients == old(patients) && doctors == old(doctors) && radiologists == old(radiologists)
      ensures tasks == old(tasks) && images == old(images) && diagnoses == old(diagnoses)
      ensures Counters() == old(Counters())
    {
      users := users - {id};
    }

    /** _context.Patients.Add: the new row gets the next identity value. */
    method AddPatient(p: Patient) returns (id: int)
      requires Valid()
      requires KeyBelow(p.assignedDoctorId, nextDoctorId) && KeyBelow(p.assignedRadiologistId, nextRadiologistId)
      modifies this
      ensures Valid()
      ensures id == old(nextPatientId) && id !in old(patients)
      ensures patients == old(patients)[id := p] && nextPatientId == id + 1
      ensures users == old(users) && doctors == old(doctors) && radiologists == old(radiologists)
      ensures tasks == old(tasks) && images == old(images) && diagnoses == old(diagnoses)
      ensures nextUserId == old(nextUserId) && nextDoctorId == old(nextDoctorId)
      ensures nextRadiologistId == old(nextRadiologistId) && nextTaskId == old(nextTaskId)
      ensures nextImageId == old(nextImageId)
    {
      id := nextPatientId;
      patients := patients[id := p];
      nextPatientId := id + 1;
    }

    /** _context.Doctors.Add / _context.Radiologists.Add. */
    method AddStaff(kind: StaffKind, s: Staff) returns (id: int)
      requires Valid()
      modifies this
      ensures Valid()
      ensures id == old(NextStaffId(kind)) && id !in old(StaffTable(kind))
      ensures StaffTable(kind) == old(StaffTable(kind))[id := s] && NextStaffId(kind) == id + 1
      ensures StaffTable(OtherKind(kind)) == old(StaffTable(OtherKind(kind)))
      ensures NextStaffId(OtherKind(kind)) == old(NextStaffId(OtherKind(kind)))
      ensures users == old(users) && patients == old(patients)
      ensures tasks == old(tasks) && images == old(images) && diagnoses == old(diagnoses)
      ensures nextUserId == old(nextUserId) && nextPatientId == old(nextPatientId)
      ensures nextTaskId == old(nextTaskId) && nextImageId == old(nextImageId)
    {
      match kind
      case DoctorStaff =>
        id := nextDoctorId;
        doctors := doctors[id := s];
        nextDoctorId := id + 1;
      case RadiologistStaff =>
        id := nextRadiologistId;
        radiologists := radiologists[id := s];
        nextRadiologistId := id + 1;
    }

    /** _context.Patients.Remove(patient) followed by SaveChanges: the patient's
        diagnoses and images cascade (OnModelCreating), and so do its tasks, whose
        required, unconfigured PatientId key gets Entity Framework's default for
        required relationships, which is cascade. */
    method RemovePatient(id: int)
      requires Valid()
      modifies this
      ensures Valid()
      ensures patients == old(patients) - {id}
      ensures images == Cascade(old(images), ImageOwner, id)
      ensures diagnoses == Cascade(old(diagnoses), DiagnosisOwner, id)
      ensures tasks == Cascade(old(tasks), TaskOwner, id)
      ensures users == old(users) && doctors == old(doctors) && radiologists == old(radiologists)
      ensures Counters() == old(Counters())
    {
      patients := patients - {id};
      images := Cascade(images, ImageOwner, id);
      diagnoses := Cascade(diagnoses, DiagnosisOwner, id);
      tasks := Cascade(tasks, TaskOwner, id);
    }

    /** _context.Doctors.Remove / _context.Radiologists.Remove followed by SaveChanges:
        the patients referring to the staff member get a null key (SetNull). */
    method RemoveStaff(kind: StaffKind, id: int)
      requires Valid()
      modifies this
      ensures Valid()
      ensures StaffTable(kind) == old(StaffTable(kind)) - {id}
      ensures StaffTable(OtherKind(kind)) == old(StaffTable(OtherKind(kind)))
      ensures patients == SetNullOnDelete(old(patients), kind, id)
      ensures users == old(users) && tasks == old(tasks) && images == old(images) && diagnoses == old(diagnoses)
      ensures Counters() == old(Counters())
    {
      patients := SetNullOnDelete(patients, kind, id);
      match kind
      case DoctorStaff => doctors := doctors - {id};
      case RadiologistStaff => radiologists := radiologists - {id};
    }
  }
}
