/** Runs of several controller actions on one fresh store. */
module Scenarios {
  import opened Models
  import opened Sums
  import opened Data
  import opened Radiology
  import opened DoctorActions
  import opened AdminActions

  /** The two ledgers do not compose: a patient billed 100 for a task and then 50 for an
      uploaded image ends with TotalCost 50, because the upload overwrites the total
      with the image-cost sum. */
  method TaskThenImage() returns (afterTask: int, afterUpload: int)
    ensures afterTask == 100 && afterUpload == 50
  {
    var db := new Store();
    var admin := new AdminController(db);
    var created := admin.CreateUser("ann", "hash", "Ann", RolePatient, "Elm Street");
    var doctors := new DoctorController(db);
    var _ := doctors.AddPatientTask(1, "consultation", 100, StatusCompleted);
    afterTask := db.patients[1].totalCost;
    var radiology := new RadiologistController(db);
    PngAccepted();
    var uploaded := radiology.UploadImage(1, 1, ImageMri, Some(50), Some(UploadedFile("scan.PNG", 2048)), "guid");
    assert uploaded == Ok(1);
    OneImageTotal(db.images[1]);
    afterUpload := db.patients[1].totalCost;
  }

  /** "scan.PNG" passes the whitelist: lower-cased it ends in ".png". */
  lemma PngAccepted()
    ensures CheckUpload(1, 1, Some(50), Some(UploadedFile("scan.PNG", 2048))) == Done
  {
    var lower := Lower("scan.PNG");
    assert lower == "scan.png";
    assert EndsWith(lower, ".png");
    AllowedExtensionIffSuffix("scan.PNG");
    assert ".png" in AllowedExtensions;
  }

  /** The image-cost sum of a patient with one image of cost 50. */
  lemma OneImageTotal(img: MedicalImage)
    requires img.patientId == 1 && img.cost == Some(50)
    ensures ImageCostTotal(map[1 := img], 1) == 50
  {
    var none: map<int, MedicalImage> := map[];
    assert Column(none, ImageOwner, ImageCost, 1) == map[];
    GroupTotalInsert(none, 1, img, ImageOwner, ImageCost, 1);
    assert none[1 := img] == map[1 := img];
  }
}
