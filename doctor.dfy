/** DoctorController (HealthcareSystem/Controllers/DoctorController.cs): the task ledger
    and image classification. Adding, editing and deleting a billable task adjusts the
    owning patient's TotalCost by the task's cost; edit and delete clamp the total at
    zero. The pure part is the per-patient task-cost sum against which the incremental
    updates are checked. */
module DoctorActions {
  import opened Models
  import opened Sums
  import opened Data
  import opened Radiology

  // ---------------------------------------------------------------------------
  // The task ledger

  /** The cost column the controller uses (TaskCost, never Cost). */
  function TaskCost(t: PatientTask): int
  {
    t.taskCost
  }

  /** The sum of the task costs of patient pid. */
  function TaskCostTotal(tasks: map<int, PatientTask>, pid: int): int
  {
    GroupTotal(tasks, TaskOwner, TaskCost, pid)
  }

  /** The guard of DeletePatientTask and EditPatientTask: a negative total becomes 0. */
  function ClampAtZero(x: int): (r: int)
    ensures r >= 0 && r >= x
    ensures r == x || r == 0
  {
    if x < 0 then 0 else x
  }

  /** No task of patient pid has a negative cost. */
  predicate TaskCostsNonNegative(tasks: map<int, PatientTask>, pid: int)
  {
    forall i :: i in tasks && tasks[i].patientId == pid ==> tasks[i].taskCost >= 0
  }

  /** When a patient's TotalCost is the sum of its non-negative task costs, the clamp of
      DeletePatientTask never fires and the new total is the sum of the remaining tasks. */
  lemma DeleteTaskKeepsLedger(total: int, tasks: map<int, PatientTask>, id: int)
    requires id in tasks
    requires total == TaskCostTotal(tasks, tasks[id].patientId)
    requires TaskCostsNonNegative(tasks, tasks[id].patientId)
    ensures ClampAtZero(total - tasks[id].taskCost) == TaskCostTotal(tasks - {id}, tasks[id].patientId)
  {
    var pid := tasks[id].patientId;
    GroupTotalRemove(tasks, id, TaskOwner, TaskCost, pid);
    GroupTotalNonNegative(tasks - {id}, TaskOwner, TaskCost, pid);
  }

  /** Likewise for EditPatientTask with a non-negative new cost: the total becomes the sum
      of the edited task list, the old cost taken off and the new one added once. */
  lemma EditTaskKeepsLedger(total: int, tasks: map<int, PatientTask>, id: int, t: PatientTask)
    requires id in tasks && t.patientId == tasks[id].patientId
    requires total == TaskCostTotal(tasks, t.patientId)
    requires TaskCostsNonNegative(tasks, t.patientId) && t.taskCost >= 0
    ensures ClampAtZero(total - tasks[id].taskCost + t.taskCost) == TaskCostTotal(tasks[id := t], t.patientId)
  {
    var pid := t.patientId;
    GroupTotalUpdate(tasks, id, t, TaskOwner, TaskCost, pid);
    GroupTotalNonNegative(tasks[id := t], TaskOwner, TaskCost, pid);
  }

  /** With a negative task cost in the list the clamp can fire and the ledger drifts: a
      patient billed 0 for a -5 task and a 5 task, that deletes the 5 task, is left with
      0 although the remaining tasks sum to -5. */
  lemma DeleteTaskClampCanDrift()
    ensures var tasks := map[1 := PatientTask(7, "refund", -5, StatusPending), 2 := PatientTask(7, "scan", 5, StatusPending)];
      && 0 == TaskCostTotal(tasks, 7)
      && ClampAtZero(0 - tasks[2].taskCost) == 0
      && TaskCostTotal(tasks - {2}, 7) == -5
  {
    var tasks := map[1 := PatientTask(7, "refund", -5, StatusPending), 2 := PatientTask(7, "scan", 5, StatusPending)];
    var one := map[1 := PatientTask(7, "refund", -5, StatusPending)];
    assert tasks - {2} == one;
    assert one == map[][1 := one[1]];
    GroupTotalInsert(map[], 1, one[1], TaskOwner, TaskCost, 7);
    assert tasks == one[2 := tasks[2]];
    GroupTotalInsert(one, 2, tasks[2], TaskOwner, TaskCost, 7);
  }

  /** The images linked to task taskId (MedicalImages.PatientTaskId == taskId). */
  function LinkedImages(images: map<int, MedicalImage>, taskId: int): (r: set<int>)
    ensures forall i :: i in r <==> i in images && images[i].linkedTaskId == Some(taskId)
  {
    set i | i in images && images[i].linkedTaskId == Some(taskId)
  }

  /** An image is linked to one task at most, so removing an image linked to task t
      (as DeletePatientTask does) leaves the linked images of every other task as they
      were, and the removed image was linked to no other task. */
  lemma LinkedImagesOtherTask(images: map<int, MedicalImage>, t: int, k: int, u: int)
    requires k in LinkedImages(images, t) && u != t
    ensures LinkedImages(images - {k}, u) == LinkedImages(images, u)
    ensures k !in LinkedImages(images, u)
  {
    var a, b := LinkedImages(images - {k}, u), LinkedImages(images, u);
    forall i
      ensures i in a <==> i in b
    {
    }
    assert a == b;
  }

  // ---------------------------------------------------------------------------
  // The controller

  class DoctorController {
    const db: Store

    constructor (db: Store)
      ensures this.db == db
    {
      this.db := db;
    }

    /** AddPatientTask: the task is stored as Pending whatever status the request
        carried, and the patient's TotalCost, if the patient exists, goes up by the
        task's cost with no clamp. The task is added even when the patient is absent. */
    method AddPatientTask(patientId: int, description: string, taskCost: int, requestedStatus: int)
      returns (id: int)
      requires db.Valid()
      modifies db
      ensures db.Valid()
      ensures id == old(db.nextTaskId) && id !in old(db.tasks) && db.nextTaskId == id + 1
      ensures db.tasks == old(db.tasks)[id := PatientTask(patientId, description, taskCost, StatusPending)]
      ensures patientId in old(db.patients) ==>
        db.patients == old(db.patients)[patientId :=
          old(db.patients)[patientId].(totalCost := old(db.patients)[patientId].totalCost + taskCost)]
      ensures patientId !in old(db.patients) ==> db.patients == old(db.patients)
      ensures patientId in db.patients ==>
        db.patients[patientId].totalCost - TaskCostTotal(db.tasks, patientId) ==
        old(db.patients[patientId].totalCost - TaskCostTotal(db.tasks, patientId))
      ensures db.users == old(db.users) && db.doctors == old(db.doctors) && db.radiologists == old(db.radiologists)
      ensures db.images == old(db.images) && db.diagnoses == old(db.diagnoses)
      ensures db.nextUserId == old(db.nextUserId) && db.nextPatientId == old(db.nextPatientId)
      ensures db.nextDoctorId == old(db.nextDoctorId) && db.nextRadiologistId == old(db.nextRadiologistId)
      ensures db.nextImageId == old(db.nextImageId)
    {
      var task := PatientTask(patientId, description, taskCost, StatusPending);
      ghost var before := db.tasks;
      id := db.AddTask(task);
      GroupTotalInsert(before, id, task, TaskOwner, TaskCost, patientId);
      if patientId in db.patients {
        var p := db.patients[patientId];
        db.SetPatient(patientId, p.(totalCost := p.totalCost + taskCost));
      }
    }

    /** DeletePatientTask: the owner's TotalCost goes down by the task's cost, clamped at
        zero; one image linked to the task (the first the query meets), if any, is
        removed with it. */
    method DeletePatientTask(taskId: int) returns (r: Outcome)
      requires db.Valid()
      modifies db
      ensures db.Valid()
      ensures r == Done <==> taskId in old(db.tasks)
      ensures r.Failed? ==> r == Failed(NotFound) && unchanged(db)
      ensures r == Done ==>
        var t := old(db.tasks)[taskId];
        var linked := LinkedImages(old(db.images), taskId);
        && db.tasks == old(db.tasks) - {taskId}
        && (t.patientId in old(db.patients) ==>
              db.patients == old(db.patients)[t.patientId :=
                old(db.patients)[t.patientId].(totalCost := ClampAtZero(old(db.patients)[t.patientId].totalCost - t.taskCost))])
        && (t.patientId !in old(db.patients) ==> db.patients == old(db.patients))
        && (linked == {} ==> db.images == old(db.images))
        && (linked != {} ==> exists k :: k in linked && db.images == old(db.images) - {k})
        && db.users == old(db.users) && db.doctors == old(db.doctors) && db.radiologists == old(db.radiologists)
        && db.diagnoses == old(db.diagnoses) && db.Counters() == old(db.Counters())
      ensures r == Done ==>
        var pid := old(db.tasks)[taskId].patientId;
        pid in old(db.patients) && old(db.patients[pid].totalCost == TaskCostTotal(db.tasks, pid)) &&
        old(TaskCostsNonNegative(db.tasks, pid)) ==>
          db.patients[pid].totalCost == TaskCostTotal(db.tasks, pid)
    {
      if taskId !in db.tasks {
        return Failed(NotFound);
      }
      var t := db.tasks[taskId];
      if t.patientId in db.patients {
        var p := db.patients[t.patientId];
        if p.totalCost == TaskCostTotal(db.tasks, t.patientId) && TaskCostsNonNegative(db.tasks, t.patientId) {
          DeleteTaskKeepsLedger(p.totalCost, db.tasks, taskId);
        }
        db.SetPatient(t.patientId, p.(totalCost := ClampAtZero(p.totalCost - t.taskCost)));
      }
      var linked := LinkedImages(db.images, taskId);
      if linked != {} {
        HasElement(linked);
        var k :| k in linked;
        db.RemoveImage(k);
      }
      db.RemoveTask(taskId);
      r := Done;
    }

    /** EditPatientTask: description, cost and status are overwritten, with no check on
        the status change; the owner's TotalCost has the old cost taken off and the new
        one added, clamped at zero. */
    method EditPatientTask(taskId: int, status: int, description: string, taskCost: int) returns (r: Outcome)
      requires db.Valid()
      modifies db
      ensures db.Valid()
      ensures r == Done <==> taskId in old(db.tasks)
      ensures r.Failed? ==> r == Failed(NotFound) && unchanged(db)
      ensures r == Done ==>
        var t := old(db.tasks)[taskId];
        && db.tasks == old(db.tasks)[taskId := PatientTask(t.patientId, description, taskCost, status)]
        && (t.patientId in old(db.patients) ==>
              db.patients == old(db.patients)[t.patientId :=
                old(db.patients)[t.patientId].(totalCost :=
                  ClampAtZero(old(db.patients)[t.patientId].totalCost - t.taskCost + taskCost))])
        && (t.patientId !in old(db.patients) ==> db.patients == old(db.patients))
        && db.users == old(db.users) && db.doctors == old(db.doctors) && db.radiologists == old(db.radiologists)
        && db.images == old(db.images) && db.diagnoses == old(db.diagnoses) && db.Counters() == old(db.Counters())
      ensures r == Done ==>
        var pid := old(db.tasks)[taskId].patientId;
        pid in old(db.patients) && old(db.patients[pid].totalCost == TaskCostTotal(db.tasks, pid)) &&
        old(TaskCostsNonNegative(db.tasks, pid)) && taskCost >= 0 ==>
          db.patients[pid].totalCost == TaskCostTotal(db.tasks, pid)
    {
      if taskId !in db.tasks {
        return Failed(NotFound);
      }
      var t := db.tasks[taskId];
      var edited := PatientTask(t.patientId, description, taskCost, status);
      if t.patientId in db.patients {
        var p := db.patients[t.patientId];
        if p.totalCost == TaskCostTotal(db.tasks, t.patientId) && TaskCostsNonNegative(db.tasks, t.patientId) && taskCost >= 0 {
          EditTaskKeepsLedger(p.totalCost, db.tasks, taskId, edited);
        }
        db.SetPatient(t.patientId, p.(totalCost := ClampAtZero(p.totalCost - t.taskCost + taskCost)));
      }
      db.SetTask(taskId, edited);
      r := Done;
    }

    /** UpdateImageDetails: the doctor's classification sets the category and the notes
        and marks the image classified. The cost is untouched, so no image-cost sum
        moves. */
    method UpdateImageDetails(imageId: int, category: string, notes: string) returns (r: Outcome)
      requires db.Valid()
      modifies db
      ensures db.Valid()
      ensures r == Done <==> imageId in old(db.images)
      ensures r.Failed? ==> r == Failed(NotFound) && unchanged(db)
      ensures r == Done ==>
        && db.images == old(db.images)[imageId :=
             old(db.images)[imageId].(diseaseCategory := Some(category), notes := Some(notes), isClassified := true)]
        && db.users == old(db.users) && db.patients == old(db.patients) && db.doctors == old(db.doctors)
        && db.radiologists == old(db.radiologists) && db.tasks == old(db.tasks) && db.diagnoses == old(db.diagnoses)
        && db.Counters() == old(db.Counters())
      ensures forall pid :: ImageCostTotal(db.images, pid) == old(ImageCostTotal(db.images, pid))
    {
      if imageId !in db.images {
        return Failed(NotFound);
      }
      var img := db.images[imageId];
      var classified := img.(diseaseCategory := Some(category), notes := Some(notes), isClassified := true);
      ghost var before := db.images;
      db.SetImage(imageId, classified);
      forall pid
        ensures ImageCostTotal(db.images, pid) == ImageCostTotal(before, pid)
      {
        GroupTotalUpdate(before, imageId, classified, ImageOwner, ImageCost, pid);
      }
      r := Done;
    }

    /** UpdatePatientCondition: only CurrentCondition changes. */
    method UpdatePatientCondition(patientId: int, condition: Option<string>) returns (r: Outcome)
      requires db.Valid()
      modifies db
      ensures db.Valid()
      ensures r == Done <==> patientId in old(db.patients)
      ensures r.Failed? ==> r == Failed(NotFound) && unchanged(db)
      ensures r == Done ==>
        && db.patients == old(db.patients)[patientId := old(db.patients)[patientId].(currentCondition := condition)]
        && db.users == old(db.users) && db.images == old(db.images) && db.doctors == old(db.doctors)
        && db.radiologists == old(db.radiologists) && db.tasks == old(db.tasks) && db.diagnoses == old(db.diagnoses)
        && db.Counters() == old(db.Counters())
    {
      if patientId !in db.patients {
        return Failed(NotFound);
      }
      var p := db.patients[patientId];
      db.SetPatient(patientId, p.(currentCondition := condition));
      r := Done;
    }
  }
}
