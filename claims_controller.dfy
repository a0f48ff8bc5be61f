/** The decision logic of ClaimsController: the submission gate, the review
    transitions, deletion and the two queries, over the claims table. */
module ClaimsController {
  import opened ClaimModel
  import opened PathText

  const AllowedExtensions: seq<string> := [".pdf", ".docx", ".xlsx"]
  const ApprovedStatus: string := "Approved"
  const RejectedStatus: string := "Rejected"

  /** The uploaded form file: its client-side name and its length in bytes. */
  datatype Upload = Upload(FileName: string, Length: int)

  /** The answer of the submission gate. */
  datatype UploadCheck = NoDocument | BadExtension | Accepted(path: string)

  /** What an action reports back: a submission stored under an id, or the
      model error it added before showing the form again. */
  datatype SubmitOutcome = MissingDocument | InvalidFileType | Submitted(id: int)
  datatype ReviewOutcome = Done | NotFound

  /** A reviewer is a caller holding the Co-ordinator or the Manager role. */
  predicate IsReviewer(callerRoles: set<string>) {
    "Co-ordinator" in callerRoles || "Manager" in callerRoles
  }

  /** The extension test: the lower-cased extension is one of the three allowed. */
  predicate IsAllowedFileName(name: string) {
    LowerAscii(Extension(name)) in AllowedExtensions
  }

  /** The submission gate: a missing or empty upload, then a disallowed
      extension, are refused; otherwise the stored document path is
      "/uploads/" followed by the file name as the client sent it. */
  function CheckUpload(document: Option<Upload>): (r: UploadCheck)
    ensures r == NoDocument <==> document == None || document.value.Length <= 0
    ensures r == BadExtension <==>
      document != None && document.value.Length > 0 && !IsAllowedFileName(document.value.FileName)
    ensures r.Accepted? ==> r.path == "/uploads/" + document.value.FileName
  {
    match document
    case None => NoDocument
    case Some(upload) =>
      if upload.Length <= 0 then NoDocument
      else if !IsAllowedFileName(upload.FileName) then BadExtension
      else Accepted("/uploads/" + upload.FileName)
  }

  /** Accepted names are exactly those whose extension, lower-cased, is
      ".pdf", ".docx" or ".xlsx". */
  lemma AllowedFileNameMeaning(name: string)
    ensures IsAllowedFileName(name) <==>
      exists k :: ExtensionStart(name, k) && LowerAscii(name[k..]) in {".pdf", ".docx", ".xlsx"}
  {
    if k :| ExtensionStart(name, k) {
      assert Extension(name) == name[k..];
    } else {
      assert LowerAscii(Extension(name)) == "";
    }
  }

  /** The extension test ignores the case of ASCII letters. */
  lemma AllowedFileNameIgnoresCase(a: string, b: string)
    requires LowerAscii(a) == LowerAscii(b)
    ensures IsAllowedFileName(a) == IsAllowedFileName(b)
  {
    ExtensionOfLower(a);
    ExtensionOfLower(b);
    LowerAsciiIdempotent(Extension(a));
    LowerAsciiIdempotent(Extension(b));
  }

  /** Any stem with one of the three extensions, in any letter case, is accepted. */
  lemma AllowedWithAllowedExtension(stem: string, suffix: string)
    requires LowerAscii(suffix) in {"pdf", "docx", "xlsx"}
    ensures IsAllowedFileName(stem + "." + suffix)
  {
    var low := LowerAscii(suffix);
    assert forall i :: 0 <= i < |suffix| ==> suffix[i] != '.' && !IsDirectorySeparator(suffix[i]) by {
      forall i | 0 <= i < |suffix| ensures suffix[i] != '.' && !IsDirectorySeparator(suffix[i]) {
        assert low[i] == LowerChar(suffix[i]);
      }
    }
    ExtensionOfDotted(stem, suffix);
    assert LowerAscii("." + suffix) == "." + low by {
      LowerAsciiConcat(".", suffix);
    }
    DottedAllowed(low);
  }

  lemma DottedAllowed(low: string)
    requires low in {"pdf", "docx", "xlsx"}
    ensures "." + low in AllowedExtensions
  {
    if low == "pdf" {
      assert "." + low == AllowedExtensions[0];
    } else if low == "docx" {
      assert "." + low == AllowedExtensions[1];
    } else {
      assert "." + low == AllowedExtensions[2];
    }
  }

  /** "A.PDF" passes: the test is made on the lower-cased extension. */
  lemma UpperCaseExtensionAccepted()
    ensures IsAllowedFileName("A.PDF")
  {
    assert LowerAscii("PDF") == "pdf" by {
      assert LowerChar('P') == 'p' && LowerChar('D') == 'd' && LowerChar('F') == 'f';
    }
    AllowedWithAllowedExtension("A", "PDF");
    assert "A" + "." + "PDF" == "A.PDF";
  }

  /** "report.pdf.exe" fails: only the text after the last '.' is the extension. */
  lemma LastExtensionDecides()
    ensures !IsAllowedFileName("report.pdf.exe")
  {
    ExtensionOfDotted("report.pdf", "exe");
    assert "report.pdf" + "." + "exe" == "report.pdf.exe";
    assert LowerAscii(".exe") == ".exe";
  }

  /** "report.pdf." fails: a name ending in '.' has no extension. */
  lemma FinalDotRefused()
    ensures !IsAllowedFileName("report.pdf.")
  {
    NoExtensionAfterFinalDot("report.pdf");
    assert "report.pdf" + "." == "report.pdf.";
    assert LowerAscii("") == "";
  }

  /** Every stored claim sits under its own ClaimId, so no two share one. */
  ghost predicate KeyedById(claims: map<int, Claim>) {
    forall id :: id in claims ==> claims[id].ClaimId == id
  }

  /** `b` is `a` with at most the status changed. */
  ghost predicate SameExceptStatus(a: Claim, b: Claim) {
    a.(Status := b.Status) == b
  }

  /** The claims table after an id's status is overwritten. The previous status
      is not consulted; an unknown id leaves the table as it was. */
  function SetStatus(claims: map<int, Claim>, id: int, status: string): (r: map<int, Claim>)
    ensures r.Keys == claims.Keys
    ensures id in claims ==> r[id].Status == status && SameExceptStatus(claims[id], r[id])
    ensures forall k :: k in claims && k != id ==> r[k] == claims[k]
    ensures id !in claims ==> r == claims
    ensures KeyedById(claims) ==> KeyedById(r)
  {
    if id in claims then claims[id := claims[id].(Status := status)] else claims
  }

  /** The claims table after deleting an id: that id is gone and every other
      claim is untouched. */
  function Removed(claims: map<int, Claim>, id: int): (r: map<int, Claim>)
    ensures r.Keys == claims.Keys - {id}
    ensures forall k :: k in r ==> r[k] == claims[k]
    ensures id in claims ==> |r| == |claims| - 1
    ensures id !in claims ==> r == claims
    ensures KeyedById(claims) ==> KeyedById(r)
  {
    claims - {id}
  }

  /** The pending queue: exactly the stored claims whose status is "Pending". */
  function PendingClaims(claims: map<int, Claim>): (r: map<int, Claim>)
    ensures forall k :: k in r <==> k in claims && claims[k].Status == DefaultStatus
    ensures forall k :: k in r ==> r[k] == claims[k]
  {
    map k | k in claims && claims[k].Status == DefaultStatus :: claims[k]
  }

  /** The claim as it is stored on submission: the database's id and the
      document path are set, and everything else, status included, is what the
      form carried. */
  function Stored(claim: Claim, id: int, path: string): (c: Claim)
    ensures c.ClaimId == id && c.SupportingDocumentPath == Some(path)
    ensures c.Status == claim.Status
    ensures c.LecturerName == claim.LecturerName && c.Notes == claim.Notes && c.UserId == claim.UserId
    ensures c.HoursWorked == claim.HoursWorked && c.HourlyRate == claim.HourlyRate
    ensures FinalPayment(c) == FinalPayment(claim)
  {
    claim.(ClaimId := id, SupportingDocumentPath := Some(path))
  }

  /** A claim bound from the form carries the default status, and submission
      stores it with that status: nothing in the submission path assigns it. */
  lemma SubmittedFormClaimIsPending(lecturerName: string, hoursWorked: real, hourlyRate: real,
                                    notes: string, userId: string, id: int, path: string)
    ensures Stored(BindClaim(lecturerName, hoursWorked, hourlyRate, notes, userId), id, path).Status
      == DefaultStatus
  {
  }

  /** Overwriting a status twice with the same value equals overwriting it once:
      approving (or rejecting) twice is the same as doing it once. */
  lemma SetStatusIdempotent(claims: map<int, Claim>, id: int, status: string)
    ensures SetStatus(SetStatus(claims, id, status), id, status) == SetStatus(claims, id, status)
  {
  }

  /** The last review wins: approve then reject leaves "Rejected", reject then
      approve leaves "Approved". */
  lemma LastReviewWins(claims: map<int, Claim>, id: int, first: string, second: string)
    ensures SetStatus(SetStatus(claims, id, first), id, second) == SetStatus(claims, id, second)
  {
    if id in claims {
      assert SetStatus(claims, id, first)[id].(Status := second) == claims[id].(Status := second);
    }
  }

  /** Reviews never change what any claim is owed. */
  lemma ReviewKeepsPayments(claims: map<int, Claim>, id: int, status: string)
    ensures forall k :: k in claims ==>
      FinalPayment(SetStatus(claims, id, status)[k]) == FinalPayment(claims[k])
  {
  }

  /** Approving or rejecting a stored claim takes it off the pending queue,
      and leaves the rest of the queue as it was. */
  lemma ReviewLeavesPendingQueue(claims: map<int, Claim>, id: int, status: string)
    requires status != DefaultStatus
    ensures PendingClaims(SetStatus(claims, id, status)) == PendingClaims(claims) - {id}
  {
  }

  /** Deleting an id also drops it from the pending queue and nothing else. */
  lemma DeleteLeavesPendingQueue(claims: map<int, Claim>, id: int)
    ensures PendingClaims(Removed(claims, id)) == PendingClaims(claims) - {id}
  {
  }

  /** Any non-empty document named stem + "." + suffix, where the suffix is
      an allowed extension in any letter case, is accepted, and its path is
      "/uploads/" + its name. */
  lemma AllowedUploadAccepted(stem: string, suffix: string, length: int)
    requires length > 0
    requires LowerAscii(suffix) in {"pdf", "docx", "xlsx"}
    ensures CheckUpload(Some(Upload(stem + "." + suffix, length))) == Accepted("/uploads/" + stem + "." + suffix)
  {
    AllowedWithAllowedExtension(stem, suffix);
    assert "/uploads/" + (stem + "." + suffix) == "/uploads/" + stem + "." + suffix;
  }

  /** The claims table with the database's identity counter. `nextId` stands
      for the identity column: every stored id is below it, ids start at 1. */
  class ClaimsTable {
    var claims: map<int, Claim>
    var nextId: int

    ghost predicate Valid()
      reads this
    {
      && KeyedById(claims)
      && 1 <= nextId
      && forall id :: id in claims ==> 1 <= id < nextId
    }

    constructor ()
      ensures Valid()
      ensures claims == map[] && nextId == 1
    {
      claims := map[];
      nextId := 1;
    }

    /** SubmitClaim (POST): refuse a missing or empty upload, then a disallowed
        extension; otherwise record the document path and insert the claim
        under a fresh id. The claim's status is stored as it came. */
    method SubmitClaim(claim: Claim, document: Option<Upload>) returns (outcome: SubmitOutcome)
      requires Valid()
      modifies this
      ensures Valid()
      ensures CheckUpload(document) == NoDocument ==> outcome == MissingDocument
      ensures CheckUpload(document) == BadExtension ==> outcome == InvalidFileType
      ensures !outcome.Submitted? ==> claims == old(claims) && nextId == old(nextId)
      ensures CheckUpload(document).Accepted? ==>
        && outcome == Submitted(old(nextId))
        && nextId == old(nextId) + 1
        && outcome.id !in old(claims)
        && claims == old(claims)[outcome.id := Stored(claim, outcome.id, CheckUpload(document).path)]
        && |claims| == |old(claims)| + 1
        && claims[outcome.id].Status == claim.Status
    {
      var check := CheckUpload(document);
      match check {
        case NoDocument =>
          outcome := MissingDocument;
        case BadExtension =>
          outcome := InvalidFileType;
        case Accepted(path) =>
          var id := nextId;
          claims := claims[id := Stored(claim, id, path)];
          nextId := nextId + 1;
          outcome := Submitted(id);
      }
    }

    /** ApproveClaim: overwrite the status of an existing claim with
        "Approved", whatever it was before. */
    method ApproveClaim(callerRoles: set<string>, id: int) returns (outcome: ReviewOutcome)
      requires Valid() && IsReviewer(callerRoles)
      modifies this
      ensures Valid() && nextId == old(nextId)
      ensures outcome == (if id in old(claims) then Done else NotFound)
      ensures claims == SetStatus(old(claims), id, ApprovedStatus)
    {
      if id in claims {
        claims := claims[id := claims[id].(Status := ApprovedStatus)];
        outcome := Done;
      } else {
        outcome := NotFound;
      }
    }

    /** RejectClaim: overwrite the status of an existing claim with
        "Rejected", whatever it was before. */
    method RejectClaim(callerRoles: set<string>, id: int) returns (outcome: ReviewOutcome)
      requires Valid() && IsReviewer(callerRoles)
      modifies this
      ensures Valid() && nextId == old(nextId)
      ensures outcome == (if id in old(claims) then Done else NotFound)
      ensures claims == SetStatus(old(claims), id, RejectedStatus)
    {
      if id in claims {
        claims := claims[id := claims[id].(Status := RejectedStatus)];
        outcome := Done;
      } else {
        outcome := NotFound;
      }
    }

    /** DeleteClaim: remove an existing claim, or report it missing and leave
        the table alone. */
    method DeleteClaim(callerRoles: set<string>, id: int) returns (outcome: ReviewOutcome)
      requires Valid() && IsReviewer(callerRoles)
      modifies this
      ensures Valid() && nextId == old(nextId)
      ensures outcome == (if id in old(claims) then Done else NotFound)
      ensures claims == Removed(old(claims), id)
    {
      if id in claims {
        claims := claims - {id};
        outcome := Done;
      } else {
        outcome := NotFound;
      }
    }

    /** ViewPendingClaims: the claims whose status is "Pending". */
    method ViewPendingClaims(callerRoles: set<string>) returns (pending: map<int, Claim>)
      requires IsReviewer(callerRoles)
      ensures pending == PendingClaims(claims)
    {
      pending := PendingClaims(claims);
    }

    /** TrackClaims: every stored claim. */
    method TrackClaims() returns (all: map<int, Claim>)
      ensures all.Keys == claims.Keys
      ensures forall k :: k in all ==> all[k] == claims[k]
    {
      all := claims;
    }
  }

  /** Submission never consults the claim's own validation: a claim with
      negative hours, sent with an acceptable document, is stored as it is,
      and the stored row is not valid. */
  method SubmitNegativeHoursClaim(table: ClaimsTable, claim: Claim, document: Upload)
    returns (outcome: SubmitOutcome)
    requires table.Valid()
    requires claim.HoursWorked < 0.0
    requires CheckUpload(Some(document)).Accepted?
    modifies table
    ensures outcome.Submitted? && outcome.id in table.claims
    ensures table.claims[outcome.id].HoursWorked == claim.HoursWorked
    ensures !IsValid(table.claims[outcome.id])
  {
    outcome := table.SubmitClaim(claim, Some(document));
  }
}
