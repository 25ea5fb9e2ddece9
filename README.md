# HealthcareSystem: the patient cost ledger and the staff-assignment registry

HealthcareSystem is an ASP.NET Core MVC application for a clinic. Administrators,
doctors, radiologists and patients log in. The application keeps these records:

- users and their roles;
- patients, each with a running `TotalCost`;
- doctors and radiologists, each with a collection of assigned patients;
- billable patient tasks;
- uploaded medical images;
- diagnoses.

This project models three parts of it, in three areas.

**The patient cost ledger.**
- `DoctorController` adds, edits and deletes billable tasks. Each of those moves the
  patient's `TotalCost` by the task's cost. Edit and delete clamp the total at zero.
- `RadiologistController` uploads and deletes images. After each, it overwrites
  `TotalCost` with the sum of the patient's image costs.
- The model proves:
  - how each action moves the total;
  - that the task-side updates keep the total equal to the task-cost sum, as long as
    no task cost is negative;
  - a concrete case where the clamp makes the ledger drift;
  - a run in which an upload wipes out a task charge made just before it.

**The administrator's accounts, assignment registry and dashboard (`AdminController`).**
- Account creation keeps usernames unique and creates one role record.
- Adding a staff member assigns the requested patients to them. Editing one
  recomputes their collection from the requested list.
- Deleting a staff member or a patient clears or cascades the rows that refer to it.
- The dashboard is a pure projection of the tables. Its counts and sums are related
  to the tables by lemmas.

**The relationship and delete semantics of `ApplicationDbContext`.**
- A staff member's `PatientIds` collection is the inverse of the patient's foreign key.
  The model defines it from the key (`Data.StaffPatients`), so the two sides agree by
  construction.
- Deleting a staff member sets those keys to null.
- Deleting a patient cascades to its images, diagnoses and tasks.

Layout:

- `models.dfy` holds the entities.
- `sums.dfy` holds the per-owner sums over a table.
- `data.dfy` holds the relationship functions and the `Store` class:
  - the `Store` keeps the tables and their identity counters;
  - `Store.Valid` states the database invariants;
  - small state-changing primitives each carry a complete frame.
- `radiology.dfy`, `doctor.dfy` and `admin.dfy` each hold one controller class over
  the store, next to the pure functions that specify it.
- `scenarios.dfy` runs several actions in a row on a fresh store.

Money (`decimal`) is modelled as an unbounded integer number of minor units. The
current time, the file system, password hashing and generated GUIDs are parameters
or are left out.

## Model

| member | source | states |
|---|---|---|
| Data.WithAssignment | HealthcareSystem/Models/Patients.cs:13-14 | Setting one staff foreign key changes that key only; the other key and every other column are kept |
| Data.StaffPatients | HealthcareSystem/Data/ApplicationDbContext.cs:24-36 | A staff member's patient collection, the inverse of the foreign key, holds only existing patients, and only patients that have a staff member of that kind |
| Data.StaffPatientsDisjoint | HealthcareSystem/Data/ApplicationDbContext.cs:25-36 | Because a staff collection is the inverse of a single-valued foreign key, no patient is in the collections of two staff members of the same kind |
| Data.ReassignAt | HealthcareSystem/Data/ApplicationDbContext.cs:24-36 | After setting the key of the patients in a set of ids, a staff member's collection loses those ids and, if it is the new target, gains the ones that exist; collections of the other kind do not move |
| Data.Reassign | HealthcareSystem/Controllers/AdminController.cs:418-434 | Setting the key of the listed patients keeps every patient row, gives each listed patient the new key, and leaves the key of the other kind alone |
| Data.ReassignToStaff | HealthcareSystem/Controllers/AdminController.cs:183-187 | Assigning patients to staff member s adds exactly the existing requested patients to s's collection and takes them out of every other collection of that kind; no patient row appears or disappears |
| Data.ReassignToNone | HealthcareSystem/Controllers/AdminController.cs:418-425 | Clearing the key of some patients removes exactly those from every collection of that kind and leaves the other kind alone |
| Data.ReassignNothing | HealthcareSystem/Controllers/AdminController.cs:171 | An empty requested list changes no patient |
| Data.ReassignExistingOnly | HealthcareSystem/Controllers/AdminController.cs:420-424 | Requested ids that name no patient are skipped: the result is the same as reassigning only the existing ones |
| Data.ReassignStep | HealthcareSystem/Controllers/AdminController.cs:183-186 | One loop iteration, setting the key of one more patient, is one row update of the reassigned table |
| Data.SetNullOnDelete | HealthcareSystem/Data/ApplicationDbContext.cs:29-36 | After SetNull every patient row is still there, none refers to the deleted staff member, and the key of the other kind is untouched |
| Data.SetNullOnDeleteEffect | HealthcareSystem/Data/ApplicationDbContext.cs:29 | SetNull deletes no patient, empties the deleted staff member's collection, leaves every other collection of both kinds as it was, and changes only the one foreign key of each patient |
| Data.SetNullOnDeleteIdempotent | HealthcareSystem/Controllers/AdminController.cs:570-583 | Clearing the keys in the delete action's loop and then again through the SetNull relationship gives the same table as doing it once |
| Data.CascadeGroupTotal | HealthcareSystem/Data/ApplicationDbContext.cs:38-57 | After a cascading delete towards a patient, that patient's sum over the table (image costs, task costs) is 0 and every other patient's sum is as before |
| Data.Store.constructor | HealthcareSystem/Data/ApplicationDbContext.cs:12-18 | An empty database satisfies the invariants, and every identity counter starts at 1 |
| Data.Store.Valid | HealthcareSystem/Data/ApplicationDbContext.cs:12-36 | The database invariants: identity counters are ahead of every id, so the next id is unused in each table; usernames are unique; stored image costs are non-negative; staff keys were handed out by the staff tables |
| Data.Store.AddImage | HealthcareSystem/Controllers/RadiologistController.cs:145-146 | Inserting an image gives it the next identity value, which was unused, and changes no other table |
| Data.Store.RemoveImage | HealthcareSystem/Controllers/RadiologistController.cs:223-224 | Removing an image row keeps the invariants and changes no other table |
| Data.Store.SetImage | HealthcareSystem/Controllers/DoctorController.cs:228-231 | Saving changed columns of an image keeps the invariants and changes only that row |
| Data.Store.AddTask | HealthcareSystem/Controllers/DoctorController.cs:106 | Inserting a task gives it the next, unused task id and changes no other table |
| Data.Store.RemoveTask | HealthcareSystem/Controllers/DoctorController.cs:154 | Removing a task row keeps the invariants and changes no other table |
| Data.Store.SetTask | HealthcareSystem/Controllers/DoctorController.cs:191-194 | Saving changed columns of a task changes only that row |
| Data.Store.SetPatient | HealthcareSystem/Controllers/RadiologistController.cs:157-158 | Saving changed columns of a patient other than its staff keys changes only that row and keeps the invariants |
| Data.Store.AssignPatient | HealthcareSystem/Controllers/AdminController.cs:185 | Setting one patient's staff key keeps the invariants (the key was handed out by the staff table) and changes only that row |
| Data.Store.AddUser | HealthcareSystem/Controllers/AdminController.cs:99-100 | Inserting a user whose username is free keeps usernames unique |
| Data.Store.RenameUser | HealthcareSystem/Controllers/AdminController.cs:411 | Renaming a user changes only that user's name |
| Data.Store.RemoveUser | HealthcareSystem/Controllers/AdminController.cs:535-538 | Removing a user row keeps usernames unique and changes no other table |
| Data.Store.AddPatient | HealthcareSystem/Controllers/AdminController.cs:128-137 | Inserting a patient gives it the next, unused patient id and changes no other table |
| Data.Store.AddStaff | HealthcareSystem/Controllers/AdminController.cs:106-124 | Inserting a doctor or radiologist row uses that table's next id and leaves the other staff table and counter alone |
| Data.Store.RemovePatient | HealthcareSystem/Data/ApplicationDbContext.cs:38-57 | Removing a patient removes its images, diagnoses and tasks by cascade and nothing else |
| Data.Store.RemoveStaff | HealthcareSystem/Data/ApplicationDbContext.cs:24-36 | Removing a staff row applies SetNull to the patients that referred to it and keeps the invariants |
| Sums.TotalRemove | HealthcareSystem/Controllers/AdminController.cs:31 | Removing one entry from a sum over a table takes exactly that entry's value off |
| Sums.TotalInsert | HealthcareSystem/Controllers/AdminController.cs:31 | Adding a new entry to a sum over a table adds exactly its value |
| Sums.TotalUpdate | HealthcareSystem/Controllers/AdminController.cs:31 | Overwriting one entry moves the sum by the difference |
| Sums.TotalNonNegative | HealthcareSystem/Controllers/RadiologistController.cs:153-155 | A sum of non-negative entries is non-negative |
| Sums.GroupTotalInsert | HealthcareSystem/Controllers/RadiologistController.cs:145-157 | Inserting a row moves the owner's sum by the row's value, and other owners' sums not at all |
| Sums.GroupTotalRemove | HealthcareSystem/Controllers/RadiologistController.cs:223-235 | Removing a row moves its owner's sum down by the row's value, and other owners' sums not at all |
| Sums.GroupTotalUpdate | HealthcareSystem/Controllers/DoctorController.cs:180-192 | Overwriting a row takes the old row's share off and adds the new row's share |
| Sums.GroupTotalNonNegative | HealthcareSystem/Controllers/RadiologistController.cs:101-104 | Because every stored cost is non-negative, each owner's sum is non-negative |
| Sums.GroupTotalEmpty | HealthcareSystem/Controllers/RadiologistController.cs:153-155 | A patient that owns no row has sum 0 |
| Radiology.Lower | HealthcareSystem/Controllers/RadiologistController.cs:108 | Lower-casing keeps the length, leaves no upper-case letter, and returns a string without upper-case letters unchanged, so applying it twice is the same as once |
| Radiology.ExtensionFrom | HealthcareSystem/Controllers/RadiologistController.cs:108 | The extension found is empty, or a suffix of the path that starts with its only dot, has at least one character after the dot, and contains no separator |
| Radiology.Extension | HealthcareSystem/Controllers/RadiologistController.cs:108 | The extension of a path is empty, or a suffix of the path of at least two characters that starts with its only dot and contains no separator |
| Radiology.ExtensionOfLower | HealthcareSystem/Controllers/RadiologistController.cs:108 | Taking the extension and lower-casing commute |
| Radiology.ExtensionOfDottedSuffix | HealthcareSystem/Controllers/RadiologistController.cs:108 | A path that ends in a dot followed by characters that are neither dots nor separators has exactly that as its extension |
| Radiology.WhitelistDotted | HealthcareSystem/Controllers/RadiologistController.cs:107 | Each of the four whitelisted extensions is a dot followed by lower-case letters |
| Radiology.ExtensionIsIffEndsWith | HealthcareSystem/Controllers/RadiologistController.cs:108-109 | For a dotted word e, the extension is e exactly when the path ends with e |
| Radiology.WhitelistedIffEndsWith | HealthcareSystem/Controllers/RadiologistController.cs:107-109 | A path's extension is whitelisted exactly when the path ends in one of the whitelisted extensions |
| Radiology.AllowedExtensionIffSuffix | HealthcareSystem/Controllers/RadiologistController.cs:107-112 | The file-type check (HasAllowedExtension) accepts a file name exactly when, lower-cased, it ends in .jpg, .jpeg, .png or .dcm |
| Radiology.AllowedExtensionIgnoresCase | HealthcareSystem/Controllers/RadiologistController.cs:107-109 | Two file names that agree after lower-casing get the same verdict |
| Radiology.CheckUpload | HealthcareSystem/Controllers/RadiologistController.cs:91-112 | The upload passes exactly when the ids are positive, a non-empty file is given, a cost is given and is non-negative, and the type is whitelisted; each error is reported exactly when the earlier checks passed and its own failed |
| Radiology.ImageCostTotalBounds | HealthcareSystem/Controllers/RadiologistController.cs:153-155 | A patient's image-cost sum is non-negative when no stored image has a negative cost, and 0 for a patient without images |
| Radiology.RadiologistController.UploadImage | HealthcareSystem/Controllers/RadiologistController.cs:84-159 | A failed check changes nothing. Otherwise a new unclassified image is stored under the guid plus the lower-cased extension. The patient's TotalCost, when the patient exists, becomes its image-cost sum: the old sum plus this cost, and never negative. No other row changes |
| Radiology.RadiologistController.DeleteImage | HealthcareSystem/Controllers/RadiologistController.cs:195-237 | Only the uploading radiologist may delete an image; anyone else, or an unknown id, changes nothing. The owner's TotalCost becomes the sum over the remaining images, which is the old sum less this image's cost |
| DoctorActions.ClampAtZero | HealthcareSystem/Controllers/DoctorController.cs:141-145 | The clamped total is non-negative, at least the unclamped one, and either equal to it or zero |
| DoctorActions.DeleteTaskKeepsLedger | HealthcareSystem/Controllers/DoctorController.cs:138-155 | If a patient's total equals its task-cost sum and no task cost is negative, then the clamp does not fire on delete and the new total is the sum over the remaining tasks |
| DoctorActions.EditTaskKeepsLedger | HealthcareSystem/Controllers/DoctorController.cs:180-193 | Under the same conditions, and with a non-negative new cost, the edited total is the sum over the edited task list |
| DoctorActions.DeleteTaskClampCanDrift | HealthcareSystem/Controllers/DoctorController.cs:141-145 | With a negative task cost on file the clamp does fire: for a total of 0 over tasks of -5 and 5, deleting the 5 task leaves 0 while the remaining tasks sum to -5 |
| DoctorActions.LinkedImagesOtherTask | HealthcareSystem/Controllers/DoctorController.cs:148-152 | Removing an image linked to the deleted task leaves the linked images of every other task as they were; that image was linked to no other task |
| DoctorActions.DoctorController.AddPatientTask | HealthcareSystem/Controllers/DoctorController.cs:97-114 | The task is stored with status Pending and the next task id. When the patient exists, its TotalCost goes up by the task's cost with no clamp; the difference between TotalCost and the task-cost sum is preserved. Nothing else changes |
| DoctorActions.DoctorController.DeletePatientTask | HealthcareSystem/Controllers/DoctorController.cs:127-157 | An unknown task is NotFound and changes nothing. Otherwise the task is removed, the owner's TotalCost drops by its cost clamped at zero, and one linked image, if any, is removed. A ledger that agreed with the non-negative task costs still agrees afterwards |
| DoctorActions.DoctorController.EditPatientTask | HealthcareSystem/Controllers/DoctorController.cs:170-195 | An unknown task is NotFound and changes nothing. Otherwise description, cost and status are overwritten, and the owner's total has the old cost taken off and the new one added, clamped at zero. A ledger that agreed still agrees when the new cost is non-negative |
| DoctorActions.DoctorController.UpdateImageDetails | HealthcareSystem/Controllers/DoctorController.cs:213-232 | An unknown image is NotFound and changes nothing. Otherwise the category and notes are set and the image is marked classified, and no patient's image-cost sum moves |
| DoctorActions.DoctorController.UpdatePatientCondition | HealthcareSystem/Controllers/DoctorController.cs:243-255 | An unknown patient is NotFound and changes nothing. Otherwise only that patient's CurrentCondition changes |
| AdminActions.RequestedListSemantics | HealthcareSystem/Controllers/AdminController.cs:415-416 | A null requested list means the same as an empty one, only which ids occur matters (not order or repetition), and concatenated lists request the union |
| AdminActions.EditAssignmentsEffect | HealthcareSystem/Controllers/AdminController.cs:413-434 | After an edit, the staff member's collection is exactly the requested patients that exist. A requested patient leaves any other staff member of that kind. The other kind does not move, and a patient neither current nor requested is untouched |
| AdminActions.EditAssignments | HealthcareSystem/Controllers/AdminController.cs:414-434 | The edit keeps every patient row, gives every requested existing patient the staff member's key, and leaves the key of the other kind alone |
| AdminActions.SystemStatsNewPatient | HealthcareSystem/Controllers/AdminController.cs:686-694 | After a patient is created with TotalCost 0, the statistics show one more patient, the same system cost and the same staff counts |
| AdminActions.DashboardLinesAgree | HealthcareSystem/Controllers/AdminController.cs:24-75 | The patient lines and staff lines of the dashboard agree: a patient in staff member s's collection shows s's name (both missing together when s's user is gone) and is counted on s's line; a patient with no staff of that kind shows no name |
| AdminActions.SystemCostUpdate | HealthcareSystem/Controllers/AdminController.cs:31 | Changing one patient's TotalCost moves TotalSystemCost by the same amount |
| AdminActions.SystemCostNewPatient | HealthcareSystem/Controllers/AdminController.cs:127-137 | A patient created with TotalCost 0 leaves TotalSystemCost as it was |
| AdminActions.CountColumnTotal | HealthcareSystem/Controllers/AdminController.cs:58 | Adding up the patient counts of a set of staff rows counts every patient assigned to one of them exactly once |
| AdminActions.PatientCountsBounded | HealthcareSystem/Controllers/AdminController.cs:51-72 | The patient counts on the dashboard add up to the number of patients assigned to an existing staff row, which is at most the number of patients |
| AdminActions.AdminController.CreateUser | HealthcareSystem/Controllers/AdminController.cs:78-150 | A taken username is refused with nothing written. Otherwise the user gets the next user id, and roles 2, 3 and 4 get one Doctor, Radiologist or Patient row referring to it. A new patient has no staff, no condition and TotalCost 0. Usernames stay unique |
| AdminActions.AdminController.AssignEach | HealthcareSystem/Controllers/AdminController.cs:179-187 | The loop leaves the patient table equal to the reassigned table and touches nothing else |
| AdminActions.AdminController.AddStaffAccount | HealthcareSystem/Controllers/AdminController.cs:152-199 | AddDoctor and AddRadiologist. A taken username changes nothing. Otherwise a user with the staff role and a staff row are created, each at its table's next id (the other counters stay), and the new staff member's collection is exactly the requested patients that exist; they leave their previous staff member |
| AdminActions.AdminController.EditStaff | HealthcareSystem/Controllers/AdminController.cs:397-440 | EditDoctor and EditRadiologist. An unknown staff id is NotFound and a staff row without a user fails; neither changes anything. Otherwise the user is renamed and the assignments become the edited ones |
| AdminActions.AdminController.DeletePatient | HealthcareSystem/Controllers/AdminController.cs:520-553 | An unknown patient is NotFound and changes nothing. Otherwise the patient and its user are removed and its images, diagnoses and tasks cascade |
| AdminActions.AdminController.DeleteStaff | HealthcareSystem/Controllers/AdminController.cs:555-595 | DeleteDoctor and DeleteRadiologist. An unknown id is NotFound and changes nothing. Otherwise the staff member's patients lose their key (SetNull), and the staff row and its user are removed |
| AdminActions.AdminController.DeleteUser | HealthcareSystem/Controllers/AdminController.cs:641-683 | An unknown user is NotFound and changes nothing. Otherwise the user is removed, and by its role one staff row of that user (with SetNull) or one patient row (with its cascades) is removed too. Other roles remove only the user |
| Scenarios.TaskThenImage | HealthcareSystem/Controllers/RadiologistController.cs:149-158 | On a fresh database, a patient billed 100 for a task and then 50 for an uploaded image ends with TotalCost 50: the upload overwrites the task charge with the image-cost sum |
| Scenarios.PngAccepted | HealthcareSystem/Controllers/RadiologistController.cs:107-112 | A file named scan.PNG passes the upload checks |
| Scenarios.OneImageTotal | HealthcareSystem/Controllers/RadiologistController.cs:153-155 | The image-cost sum of a patient with one image of cost 50 is 50 |

## Left out

- The clock is left out: task `Date`, image `UploadDate` and `ClassificationDate`, and patient `LastVisit` are not modelled.
- File storage is I/O, so the upload directory, writing the file and deleting it on `DeleteImage` are left out. The generated GUID file name is a parameter of `UploadImage`.
- The BCrypt password hash is computed outside the model and passed in as `passwordHash`.
- Authentication, cookies, `AuthController`, `Logout` and `Program.cs` are not part of this model.
- Views, `ModelState` validation, `TempData` messages, logging and HTTP result shapes are left out. A failed `ModelState` or a caught exception is treated as "the action does not happen".
- The view models and DTOs are not modelled as records; their fields appear as method parameters.
- `PatientController` (including `CalculateTotalCosts`), `DatabaseSeeder` and the JavaScript under `wwwroot` are not part of this model.
- The read-only queries are projections with nothing to maintain, so they are left out: `GetPatientTasks`, `GetPatientImages`, `GeneratePatientReport`, `GetPatientRadiologist`, the doctor and radiologist dashboards, and the GET forms of `EditDoctor` and `EditRadiologist`. The admin dashboard is modelled.
- `AddPatient` and `EditPatient` of `AdminController` are not part of the modelled core.
- Transactions and concurrency are not modelled: each action is one atomic step. Rollback is therefore the same as "nothing written".
- Foreign-key enforcement on insert is not modelled. The controllers do not check that the patient exists before `AddPatientTask` or `UploadImage` inserts a row. The database's foreign keys would then refuse the insert (`MedicalImages.PatientId` at `ApplicationDbContext.cs:52-57`, and the convention key `PatientTasks.PatientId`), so the source action fails. The model instead keeps a row that the database would refuse.
- `Doctors.cs` is not part of this model. Its shape (`UserId`, `Name`, the patient collection) is taken to match `Radiologists.cs`.
- The SetNull relationships on the non-nullable `MedicalImages.UploadedByRadiologistId` and `Diagnoses.DiagnosedByDoctorId` are not modelled. A model of them would have no null value to store, so deleting a staff member leaves those rows alone. `Diagnoses.MedicalImageId` is not modelled: the `Diagnosis` datatype has no such field. That optional relationship has no configured delete behaviour, so it is Entity Framework's ClientSetNull, which is NO ACTION in SQL Server. In the source, `DeleteImage` and the image removal in `DeletePatientTask` therefore fail when a diagnosis refers to the image. No action in the model creates a diagnosis, so that case cannot arise in it.
- `Radiology.Lower` lower-cases ASCII letters only. `ToLowerInvariant` also folds non-ASCII letters, which cannot occur in a whitelisted extension.
- `Radiology.IsSeparator` treats both `/` and `\` as separators, as `Path.GetExtension` does on Windows.
- Money is `decimal` in the source and an unbounded integer of minor units here. Rounding and the range of `decimal` are not modelled.
- `PatientTasks.Cost` is a second cost column that no controller action in the core reads. Only `TaskCost` is modelled.
- `DoctorController.DeletePatientTask` filters images on `MedicalImages.PatientTaskId`, and its result reports `task.MedicalImageId`; neither property is declared in `MedicalImages.cs` or `PatientTasks.cs`. The model gives images an optional `linkedTaskId` column that the query reads. Nothing in the core sets it, and the reported id is not modelled.
- `DoctorActions.DoctorController.DeletePatientTask`: the query removes "the first" linked image. With no order in the model, the contract says one linked image is removed, not which one.
- `AdminActions.AdminController.DeleteUser` models the intended action, not the code as written. `AdminController.cs:643-645` calls `.Include(u => u.Role)` on the integer column `Role`. Entity Framework Core rejects an `Include` of something that is not a navigation, and the query runs outside the `try`. So as written, every call fails before anything is written, and the action never deletes a user. The model instead does the lookup the code evidently intends and goes on with the deletion.
- `AdminActions.AdminController.DeleteUser`: `FirstOrDefaultAsync` picks "the first" staff or patient row of the user. The contract says one such row is removed, not which one.
- `Radiology.RadiologistController.UploadImage` and `DeleteImage` set `TotalCost` to the image-cost sum only, dropping any task charges. So an upload or an image delete discards the charges that `AddPatientTask`, `EditPatientTask` and `DeletePatientTask` put into `TotalCost`. `Scenarios.TaskThenImage` exhibits it.
- `Radiology.RadiologistController.DeleteImage` does not delete a task linked to the image. Only the task-side delete removes its linked image.
- `DoctorActions.DoctorController.AddPatientTask` adds the task even when the patient does not exist. It adds the cost with no check on its sign and no clamp, and ignores the requested status (a new task is always Pending).
- `DoctorActions.DoctorController.EditPatientTask` stores any status value; there is no check on status transitions, as in the code.
- `AdminActions.AdminController.EditStaff`: a staff row whose user is missing fails at `doctor.User.Name` in the code (a null dereference, caught by nothing). The model reports `MissingUser` and changes nothing. The staff row's own `Name` column is not updated, as in the code.
- `AdminActions.AdminController.AddStaffAccount` looks up the new staff member by username in the code. Usernames are unique, so that lookup finds the row just created, and the model uses its id directly. The empty address passed to `CreateUser` stands for the DTO's unset `Address`.
- `AdminActions.AdminController.CreateUser`: the patient initializer in the code sets `MedicalImagesIds` and `DiagnosesIds`, which `Patients.cs` does not declare. They are modelled by intent, as empty collections of rows, which is the state of a new patient. The role-4 address is a plain string, so a null address is not modelled.
- `AdminActions.PatientCountsBounded` relates the counts to the patients assigned to an existing staff row. It makes no claim that every staff key names an existing row.
- `AdminActions.AdminController.CreateUser` compares usernames by exact string equality (`Data.HasUsername`). The source's `AnyAsync(u => u.Username == dto.Username)` at `AdminController.cs:80` runs in SQL Server, whose default collation ignores case and trailing spaces. With a user "bob" on file, the source refuses "Bob" and "bob ", while the model accepts them as new usernames.
- `AdminActions.AdminController.AddStaffAccount` inherits this exact comparison, both through `CreateUser` and in place of the username lookups at `AdminController.cs:175` and `:225`.
