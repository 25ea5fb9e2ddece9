/** RadiologistController (HealthcareSystem/Controllers/RadiologistController.cs):
    uploading and deleting medical images. The pure part is the upload validation,
    with its case-insensitive file-extension whitelist, and the per-patient image-cost
    sum; the imperative part adds or removes an image and then overwrites the
    patient's TotalCost with that sum. Storing and deleting the file itself is I/O and
    is not modelled; the generated file name is a parameter. */
module Radiology {
  import opened Models
  import opened Sums
  import opened Data

  // ---------------------------------------------------------------------------
  // File extensions

  /** Path.GetExtension treats '/' and '\' as directory separators (on Windows; on
      other hosts only '/', which gives the same whitelist verdict, since an
      extension containing '\' is never whitelisted). */
  predicate IsSeparator(c: char)
  {
    c == '/' || c == '\\'
  }

  /** Lower-casing of one character: ASCII letters only. */
  function LowerChar(c: char): char
  {
    if 'A' <= c <= 'Z' then (c as int + 32) as char else c
  }

  /** An ASCII upper-case letter. */
  predicate IsUpper(c: char)
  {
    'A' <= c <= 'Z'
  }

  /** ToLowerInvariant, on ASCII letters: no upper-case letter is left, and a string
      without upper-case letters comes back unchanged (so lower-casing twice is the
      same as once). */
  function Lower(s: string): (r: string)
    ensures |r| == |s|
    ensures forall i :: 0 <= i < |s| ==> r[i] == LowerChar(s[i])
    ensures forall i :: 0 <= i < |r| ==> !IsUpper(r[i])
    ensures (forall i :: 0 <= i < |s| ==> !IsUpper(s[i])) ==> r == s
  {
    seq(|s|, i requires 0 <= i < |s| => LowerChar(s[i]))
  }

  /** Path.GetExtension scans backwards from position i; nothing between i and the end
      of the path is a dot or a separator. It stops at the first dot (the extension
      starts there, unless the dot is the last character) or at a separator (no
      extension). */
  function ExtensionFrom(path: string, i: nat): (ext: string)
    requires i <= |path|
    requires forall k :: i <= k < |path| ==> path[k] != '.' && !IsSeparator(path[k])
    ensures ext != [] ==>
      && 2 <= |ext| <= |path|
      && ext == path[|path| - |ext|..]
      && ext[0] == '.'
      && forall k :: 1 <= k < |ext| ==> ext[k] != '.' && !IsSeparator(ext[k])
    decreases i
  {
    if i == 0 then []
    else if path[i - 1] == '.' then (if i - 1 != |path| - 1 then path[i - 1..] else [])
    else if IsSeparator(path[i - 1]) then []
    else ExtensionFrom(path, i - 1)
  }

  /** Path.GetExtension: the last dot and what follows it, when that dot is in the
      file-name part and not the last character; otherwise the empty string. */
  function Extension(path: string): (ext: string)
    ensures ext != [] ==>
      && 2 <= |ext| <= |path|
      && EndsWith(path, ext)
      && ext[0] == '.'
      && forall k :: 1 <= k < |ext| ==> ext[k] != '.' && !IsSeparator(ext[k])
  {
    ExtensionFrom(path, |path|)
  }

  /** The whitelist of RadiologistController.UploadImage. */
  const AllowedExtensions: seq<string> := [".jpg", ".jpeg", ".png", ".dcm"]

  predicate HasAllowedExtension(fileName: string)
  {
    Lower(Extension(fileName)) in AllowedExtensions
  }

  predicate EndsWith(s: string, suffix: string)
  {
    |suffix| <= |s| && s[|s| - |suffix|..] == suffix
  }

  /** Lower-casing does not move dots or separators, so it commutes with the scan. */
  lemma {:induction false} ExtensionFromLower(path: string, i: nat)
    requires i <= |path|
    requires forall k :: i <= k < |path| ==> path[k] != '.' && !IsSeparator(path[k])
    ensures forall k :: i <= k < |path| ==> Lower(path)[k] != '.' && !IsSeparator(Lower(path)[k])
    ensures ExtensionFrom(Lower(path), i) == Lower(ExtensionFrom(path, i))
    decreases i
  {
    var lp := Lower(path);
    if i > 0 {
      var c := path[i - 1];
      assert lp[i - 1] == LowerChar(c);
      if c == '.' {
        if i - 1 != |path| - 1 {
          assert lp[i - 1..] == Lower(path[i - 1..]);
        }
      } else if !IsSeparator(c) {
        ExtensionFromLower(path, i - 1);
      }
    }
  }

  lemma ExtensionOfLower(path: string)
    ensures Extension(Lower(path)) == Lower(Extension(path))
  {
    ExtensionFromLower(path, |path|);
  }

  /** Positions without a dot or separator are skipped by the scan. */
  lemma {:induction false} ExtensionFromSkips(path: string, i: nat, j: nat)
    requires j <= i <= |path|
    requires forall k :: j <= k < |path| ==> path[k] != '.' && !IsSeparator(path[k])
    ensures ExtensionFrom(path, i) == ExtensionFrom(path, j)
    decreases i
  {
    if i > j {
      ExtensionFromSkips(path, i - 1, j);
    }
  }

  /** A dotted suffix without further dots or separators is exactly the extension. */
  lemma ExtensionOfDottedSuffix(path: string, e: string)
    requires 2 <= |e| && e[0] == '.'
    requires forall k :: 1 <= k < |e| ==> e[k] != '.' && !IsSeparator(e[k])
    requires EndsWith(path, e)
    ensures Extension(path) == e
  {
    var start := |path| - |e|;
    forall k | start + 1 <= k < |path|
      ensures path[k] != '.' && !IsSeparator(path[k])
    {
      assert path[k] == e[k - start];
    }
    ExtensionFromSkips(path, |path|, start + 1);
    assert path[start] == e[0];
  }

  /** Each whitelisted extension is a dot followed by letters. */
  predicate DottedWord(e: string)
  {
    2 <= |e| && e[0] == '.' && forall k :: 1 <= k < |e| ==> 'a' <= e[k] <= 'z'
  }

  lemma WhitelistDotted()
    ensures forall e :: e in AllowedExtensions ==> DottedWord(e)
  {
    assert DottedWord(".jpg");
    assert DottedWord(".jpeg");
    assert DottedWord(".png");
    assert DottedWord(".dcm");
  }

  /** For a dotted word e, the scan finds e exactly when the path ends with e. */
  lemma ExtensionIsIffEndsWith(path: string, e: string)
    requires DottedWord(e)
    ensures Extension(path) == e <==> EndsWith(path, e)
  {
    if EndsWith(path, e) {
      ExtensionOfDottedSuffix(path, e);
    }
  }

  /** A path has a whitelisted extension exactly when it ends with one. */
  lemma WhitelistedIffEndsWith(path: string)
    ensures Extension(path) in AllowedExtensions <==>
      exists e :: e in AllowedExtensions && EndsWith(path, e)
  {
    WhitelistDotted();
    var ext := Extension(path);
    if ext in AllowedExtensions {
      ExtensionIsIffEndsWith(path, ext);
    }
    forall e | e in AllowedExtensions && EndsWith(path, e)
      ensures ext in AllowedExtensions
    {
      ExtensionIsIffEndsWith(path, e);
    }
  }

  /** The upload check, restated without the scan: a file name passes exactly when,
      lower-cased, it ends in one of the whitelisted extensions. */
  lemma AllowedExtensionIffSuffix(fileName: string)
    ensures HasAllowedExtension(fileName) <==>
      exists e :: e in AllowedExtensions && EndsWith(Lower(fileName), e)
  {
    ExtensionOfLower(fileName);
    WhitelistedIffEndsWith(Lower(fileName));
  }

  /** The check is case-insensitive: two names that agree after lower-casing get the
      same verdict; in particular changing the case of any letter changes nothing. */
  lemma AllowedExtensionIgnoresCase(a: string, b: string)
    requires Lower(a) == Lower(b)
    ensures HasAllowedExtension(a) == HasAllowedExtension(b)
  {
    ExtensionOfLower(a);
    ExtensionOfLower(b);
  }

  // ---------------------------------------------------------------------------
  // Upload validation

  /** The uploaded form file (IFormFile): its client-side name and its length in bytes. */
  datatype UploadedFile = UploadedFile(fileName: string, length: nat)

  /** The checks UploadImage makes, in its order, before touching the database. */
  function CheckUpload(patientId: int, radiologistId: int, cost: Option<int>, file: Option<UploadedFile>): (r: Outcome)
    ensures r == Done <==>
      && patientId > 0 && radiologistId > 0
      && file.Some? && file.value.length != 0
      && cost.Some? && cost.value >= 0
      && HasAllowedExtension(file.value.fileName)
    ensures r == Failed(InvalidIds) <==> patientId <= 0 || radiologistId <= 0
    ensures r == Failed(NoFile) <==>
      patientId > 0 && radiologistId > 0 && (file.None? || file.value.length == 0)
    ensures r == Failed(InvalidCost) <==>
      patientId > 0 && radiologistId > 0 && file.Some? && file.value.length != 0 &&
      (cost.None? || cost.value < 0)
    ensures r.Failed? ==> r.failure in {InvalidIds, NoFile, InvalidCost, InvalidFileType}
  {
    if patientId <= 0 || radiologistId <= 0 then Failed(InvalidIds)
    else if file.None? || file.value.length == 0 then Failed(NoFile)
    else if cost.None? || cost.value < 0 then Failed(InvalidCost)
    else if !HasAllowedExtension(file.value.fileName) then Failed(InvalidFileType)
    else Done
  }

  // ---------------------------------------------------------------------------
  // The image-cost sum

  /** An image's cost column, `m.Cost ?? 0`. */
  function ImageCost(img: MedicalImage): int
  {
    CostOrZero(img.cost)
  }

  /** MedicalImages.Where(m => m.PatientId == pid).SumAsync(m => m.Cost ?? 0). */
  function ImageCostTotal(images: map<int, MedicalImage>, pid: int): int
  {
    GroupTotal(images, ImageOwner, ImageCost, pid)
  }

  /** A patient's image-cost sum is non-negative when no stored image has a negative
      cost (UploadImage refuses one), and 0 for a patient without images. */
  lemma ImageCostTotalBounds(images: map<int, MedicalImage>, pid: int)
    ensures (forall i :: i in images ==> CostOrZero(images[i].cost) >= 0) ==> ImageCostTotal(images, pid) >= 0
    ensures (forall i :: i in images ==> images[i].patientId != pid) ==> ImageCostTotal(images, pid) == 0
  {
    if forall i :: i in images ==> CostOrZero(images[i].cost) >= 0 {
      GroupTotalNonNegative(images, ImageOwner, ImageCost, pid);
    }
    if forall i :: i in images ==> images[i].patientId != pid {
      GroupTotalEmpty(images, ImageOwner, ImageCost, pid);
    }
  }

  // ---------------------------------------------------------------------------
  // The controller

  class RadiologistController {
    const db: Store

    constructor (db: Store)
      ensures this.db == db
    {
      this.db := db;
    }

    /** UploadImage: validate, add the image (uploaded by radiologistId, unclassified,
        stored as guid + lower-cased extension), then overwrite the patient's TotalCost
        with the sum of its image costs — task costs are not part of that sum. Neither
        the patient nor the radiologist is looked up before the insert. */
    method UploadImage(patientId: int, radiologistId: int, imageType: int, cost: Option<int>,
                       file: Option<UploadedFile>, guid: string) returns (r: Result<int>)
      requires db.Valid()
      modifies db
      ensures db.Valid()
      ensures CheckUpload(patientId, radiologistId, cost, file).Failed? ==>
        r == Err(CheckUpload(patientId, radiologistId, cost, file).failure) && unchanged(db)
      ensures CheckUpload(patientId, radiologistId, cost, file) == Done ==>
        var id := old(db.nextImageId);
        && r == Ok(id)
        && db.images == old(db.images)[id := MedicalImage(patientId, guid + Lower(Extension(file.value.fileName)),
             imageType, radiologistId, false, cost, None, None, None)]
        && db.nextImageId == id + 1
        && db.patients.Keys == old(db.patients).Keys
        && (forall p :: p in db.patients && p != patientId ==> db.patients[p] == old(db.patients)[p])
        && (patientId in db.patients ==>
              && db.patients[patientId] == old(db.patients)[patientId].(totalCost := ImageCostTotal(db.images, patientId))
              && db.patients[patientId].totalCost == old(ImageCostTotal(db.images, patientId)) + cost.value
              && db.patients[patientId].totalCost >= 0)
        && db.users == old(db.users) && db.doctors == old(db.doctors) && db.radiologists == old(db.radiologists)
        && db.tasks == old(db.tasks) && db.diagnoses == old(db.diagnoses)
        && db.nextUserId == old(db.nextUserId) && db.nextPatientId == old(db.nextPatientId)
        && db.nextDoctorId == old(db.nextDoctorId) && db.nextRadiologistId == old(db.nextRadiologistId)
        && db.nextTaskId == old(db.nextTaskId)
    {
      var check := CheckUpload(patientId, radiologistId, cost, file);
      if check.Failed? {
        return Err(check.failure);
      }
      var img := MedicalImage(patientId, guid + Lower(Extension(file.value.fileName)),
                              imageType, radiologistId, false, cost, None, None, None);
      ghost var before := db.images;
      var id := db.AddImage(img);
      GroupTotalInsert(before, id, img, ImageOwner, ImageCost, patientId);
      if patientId in db.patients {
        GroupTotalNonNegative(db.images, ImageOwner, ImageCost, patientId);
        var total := ImageCostTotal(db.images, patientId);
        db.SetPatient(patientId, db.patients[patientId].(totalCost := total));
      }
      r := Ok(id);
    }

    /** DeleteImage: only the radiologist who uploaded an image may delete it; then the
        patient's TotalCost is overwritten with the sum over its remaining images. A
        task linked to the image is left in place. */
    method DeleteImage(imageId: int, radiologistId: int) returns (r: Outcome)
      requires db.Valid()
      modifies db
      ensures db.Valid()
      ensures r == Done <==> imageId in old(db.images) && old(db.images)[imageId].uploadedByRadiologistId == radiologistId
      ensures r.Failed? ==> r == Failed(NotAuthorized) && unchanged(db)
      ensures r == Done ==>
        var pid := old(db.images)[imageId].patientId;
        && db.images == old(db.images) - {imageId}
        && db.patients.Keys == old(db.patients).Keys
        && (forall p :: p in db.patients && p != pid ==> db.patients[p] == old(db.patients)[p])
        && (pid in db.patients ==>
              && db.patients[pid] == old(db.patients)[pid].(totalCost := ImageCostTotal(db.images, pid))
              && db.patients[pid].totalCost ==
                   old(ImageCostTotal(db.images, pid)) - CostOrZero(old(db.images)[imageId].cost)
              && db.patients[pid].totalCost >= 0)
        && db.users == old(db.users) && db.doctors == old(db.doctors) && db.radiologists == old(db.radiologists)
        && db.tasks == old(db.tasks) && db.diagnoses == old(db.diagnoses)
        && db.Counters() == old(db.Counters())
    {
      if imageId !in db.images || db.images[imageId].uploadedByRadiologistId != radiologistId {
        return Failed(NotAuthorized);
      }
      var pid := db.images[imageId].patientId;
      GroupTotalRemove(db.images, imageId, ImageOwner, ImageCost, pid);
      db.RemoveImage(imageId);
      if pid in db.patients {
        GroupTotalNonNegative(db.images, ImageOwner, ImageCost, pid);
        var total := ImageCostTotal(db.images, pid);
        db.SetPatient(pid, db.patients[pid].(totalCost := total));
      }
      r := Done;
    }
  }
}
