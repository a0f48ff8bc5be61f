/** The claim record of Models/Claim.cs: a lecturer's request to be paid for
    hours worked at an hourly rate. */
module ClaimModel {
  import opened TextChecks

  datatype Option<+T> = None | Some(value: T)

  /** The status a newly built claim carries. */
  const DefaultStatus: string := "Pending"

  /** One row of the claims table. `SupportingDocumentPath` is the only field
      declared nullable; it stays `None` until a document is accepted. Hours and
      rate are doubles in the source and reals here. */
  datatype Claim = Claim(
    ClaimId: int,
    LecturerName: string,
    HoursWorked: real,
    HourlyRate: real,
    Notes: string,
    Status: string,
    SupportingDocumentPath: Option<string>,
    UserId: string)

  /** A claim as the parameterless constructor builds it, before any property
      is bound: numbers zero, strings empty, status "Pending", no document. */
  function NewClaim(): (c: Claim)
    ensures c.Status == DefaultStatus
    ensures c.SupportingDocumentPath == None
    ensures c.HoursWorked == 0.0 && c.HourlyRate == 0.0
  {
    Claim(0, "", 0.0, 0.0, "", DefaultStatus, None, "")
  }

  /** A claim bound from the submission form: every property the form posts is
      set on a default-built claim, and the status is left as it was. */
  function BindClaim(lecturerName: string, hoursWorked: real, hourlyRate: real,
                     notes: string, userId: string): (c: Claim)
    ensures c.Status == DefaultStatus
    ensures c.LecturerName == lecturerName && c.Notes == notes && c.UserId == userId
    ensures c.HoursWorked == hoursWorked && c.HourlyRate == hourlyRate
    ensures c.SupportingDocumentPath == None
  {
    NewClaim().(LecturerName := lecturerName, HoursWorked := hoursWorked,
                HourlyRate := hourlyRate, Notes := notes, UserId := userId)
  }

  /** The [Required] check on a string: present, and not blank. */
  predicate Required(s: string) {
    !IsBlank(s)
  }

  /** What the data annotations on Claim demand: lecturer name, status and
      document path are required, hours and rate are in [0, double.MaxValue]
      (the upper end is not modelled). */
  predicate IsValid(c: Claim) {
    && Required(c.LecturerName)
    && c.HoursWorked >= 0.0
    && c.HourlyRate >= 0.0
    && Required(c.Status)
    && c.SupportingDocumentPath.Some?
    && Required(c.SupportingDocumentPath.value)
  }

  /** The amount owed for a claim, computed from its hours and rate on every
      read; no field stores it. */
  function FinalPayment(c: Claim): (pay: real)
    ensures c.HoursWorked >= 0.0 && c.HourlyRate >= 0.0 ==> pay >= 0.0
    ensures c.HoursWorked == 0.0 || c.HourlyRate == 0.0 ==> pay == 0.0
  {
    c.HoursWorked * c.HourlyRate
  }

  /** A valid claim is never owed a negative amount. */
  lemma ValidClaimPaymentNonNegative(c: Claim)
    requires IsValid(c)
    ensures FinalPayment(c) >= 0.0
  {
  }

  /** The payment depends on hours and rate alone: two claims that agree on
      those two fields are owed the same, whatever their status, notes,
      owner, document or id. */
  lemma FinalPaymentDependsOnlyOnHoursAndRate(a: Claim, b: Claim)
    requires a.HoursWorked == b.HoursWorked && a.HourlyRate == b.HourlyRate
    ensures FinalPayment(a) == FinalPayment(b)
  {
  }

  /** A newly built claim is not yet valid: it has no document and no lecturer. */
  lemma NewClaimNotValid()
    ensures !IsValid(NewClaim())
  {
  }
}
