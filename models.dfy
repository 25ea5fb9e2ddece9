/** The entities of the hospital database (HealthcareSystem/Models). A record's id is
    its key in the table that holds it, so ids are not repeated inside the records.
    Costs are C# decimals, exact base-10 numbers; here they are integers counted in
    minor units (cents). */
module Models {

  datatype Option<T> = None | Some(value: T)

  /** `cost ?? 0`: a missing cost counts as zero. */
  function CostOrZero(cost: Option<int>): int
  {
    match cost
    case Some(c) => c
    case None => 0
  }

  /** UserRole (Models/Users.cs). Users.Role is a plain int column, so a user may
      carry any other value too. */
  const RoleAdministrator: int := 1
  const RoleDoctor: int := 2
  const RoleRadiologist: int := 3
  const RolePatient: int := 4

  /** PatientTaskStatus (Models/PatientTasks.cs), stored in the int column Status. */
  const StatusCancelled: int := -1
  const StatusPending: int := 0
  const StatusInProgress: int := 1
  const StatusCompleted: int := 2

  /** ImageType (Models/MedicalImages.cs), stored in the int column ImageType. */
  const ImageMri: int := 1
  const ImageCt: int := 2
  const ImageXRay: int := 3

  datatype User = User(username: string, passwordHash: string, role: int, name: string)

  /** Patients. AssignedDoctorId and AssignedRadiologistId are the foreign keys from
      which the staff side of the relationship is derived. */
  datatype Patient = Patient(
    userId: int,
    name: string,
    address: string,
    assignedDoctorId: Option<int>,
    assignedRadiologistId: Option<int>,
    currentCondition: Option<string>,
    totalCost: int)

  /** Doctors and Radiologists carry the same columns (UserId, Name); their patient
      collections are not stored but derived from the patients' foreign keys. */
  datatype Staff = Staff(userId: int, name: string)

  /** PatientTasks. The model also has a Cost column, which no code reads or writes;
      only TaskCost is modelled. */
  datatype PatientTask = PatientTask(patientId: int, description: string, taskCost: int, status: int)

  /** MedicalImages. linkedTaskId is the image-to-task link (PatientTaskId) that
      DoctorController queries when a task is deleted. */
  datatype MedicalImage = MedicalImage(
    patientId: int,
    storagePath: string,
    imageType: int,
    uploadedByRadiologistId: int,
    isClassified: bool,
    cost: Option<int>,
    diseaseCategory: Option<string>,
    notes: Option<string>,
    linkedTaskId: Option<int>)

  datatype Diagnosis = Diagnosis(patientId: int, diagnosedByDoctorId: int, diseaseType: string, notes: string)

  /** Why a controller action did nothing. */
  datatype Failure =
    | NotFound          // the addressed record does not exist
    | MissingUser       // the staff record's user is missing (a null dereference in the source)
    | UsernameTaken     // CreateUser: the username already exists
    | InvalidIds        // UploadImage: patient or radiologist id <= 0
    | NoFile            // UploadImage: no file, or an empty one
    | InvalidCost       // UploadImage: cost missing or negative
    | InvalidFileType   // UploadImage: extension not in the whitelist
    | NotAuthorized     // DeleteImage: no such image uploaded by this radiologist

  datatype Outcome = Done | Failed(failure: Failure)

  datatype Result<T> = Ok(value: T) | Err(failure: Failure)
}
