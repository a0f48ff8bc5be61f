# Lecturer claims workflow — a verified model

This project models the decision logic of a lecturer-claims web application:
lecturers submit claims for hours worked at an hourly rate together with a
supporting document; co-ordinators and managers approve, reject or delete
claims and look at the queue of pending ones; at start-up the application
makes sure the four roles Lecturer, Manager, Co-ordinator and HR exist, and an
administrator can create further roles.

The model follows the source files one module each:

- `claim.dfy` (`ClaimModel`): the `Claim` record of `Models/Claim.cs` with its
  default status "Pending", its data-annotation rules (`IsValid`) and the
  derived `FinalPayment`.
- `path_text.dfy` (`PathText`): the two string operations the upload check
  uses, .NET's `Path.GetExtension` and `ToLower`, specified over `seq<char>`.
- `claims_controller.dfy` (`ClaimsController`): the allowed extensions, the
  submission gate `CheckUpload`, the table updates `SetStatus` and `Removed`,
  the pending filter `PendingClaims`, and the class `ClaimsTable` whose
  methods are the controller actions `SubmitClaim`, `ApproveClaim`,
  `RejectClaim`, `DeleteClaim`, `ViewPendingClaims` and `TrackClaims`,
  each proved against those functions. The table is a `map<int, Claim>` keyed
  by `ClaimId`; `nextId` stands for the database's identity column.
- `text_checks.dfy` (`TextChecks`): the blank-string test shared by the
  `[Required]` annotation and the identity framework's role validator.
- `roles.dfy` (`Roles`): the role table as a duplicate-free sequence of
  non-blank names, the insert-if-absent functions `WithRole` / `WithRoles`, and the class
  `RoleStore` with `RoleExists` and `Create` as the identity framework offers
  them.
- `app_roles_controller.dfy` (`AppRolesController.Create`) and `program.dfy`
  (`Program.SeedRoles`): the two callers of insert-if-absent.

What the code does, and the model with it:

- A submission without a document, or with a zero-length one, is refused; then
  a file whose lower-cased extension is not `.pdf`, `.docx` or `.xlsx` is
  refused; otherwise the document path becomes `"/uploads/" + FileName` and the
  claim is inserted. Nothing else is checked: the action never consults the
  claim's own validation, so a claim with negative hours or a negative rate
  is stored as it is (`SubmitNegativeHoursClaim`); the upload test alone is
  `AllowedUploadAccepted`. (A blank lecturer name binds as null, and saving it
  fails on the NOT NULL column a non-nullable string property maps to; that
  failure is not modelled.)
- Submission never assigns `Status`; the stored status is whatever the bound
  claim carried, "Pending" for a claim built from the form.
- Approve and reject overwrite `Status` without looking at the previous value,
  so repeating one is a no-op success and each overwrites the other. There is
  no "Declined" status and no automatic decline on thresholds in this code;
  the database has a `DeclinedReason` column that no code shown reads or
  writes, and the model has neither.
- Approve, reject and delete on an unknown id report "not found" and leave the
  table unchanged.
- Creating a role with a blank name changes nothing: the form binder turns an
  empty or white-space-only field into a missing name, for which
  `RoleExistsAsync` throws, and the framework's role validator refuses a blank
  name in `CreateAsync` too.
- The role gates `[Authorize(Roles = "Co-ordinator,Manager")]` become a
  `requires IsReviewer(callerRoles)` on the gated actions (`IsReviewer`: the
  caller holds Co-ordinator or Manager). The POST
  `SubmitClaim` carries no role attribute (only the GET form does), so the
  model places no requirement on it.

## Model

| member | source | states |
|---|---|---|
| `PathText.Extension` | Controllers/ClaimController.cs:41 | the extension is non-empty exactly when some '.' that is not the last character has neither a '.' nor a directory separator after it, and it is then the suffix from that '.' |
| `PathText.LowerAscii` | Controllers/ClaimController.cs:41 | lower-casing keeps the length, lowers each ASCII capital and leaves no capital behind |
| `PathText.ExtensionOfLower` | Controllers/ClaimController.cs:41 | the extension of the lower-cased name is the lower-cased extension |
| `PathText.ExtensionOfDotted` | Controllers/ClaimController.cs:41 | stem + "." + a non-empty suffix free of '.' and separators has extension "." + suffix |
| `PathText.NoExtensionAfterFinalDot` | Controllers/ClaimController.cs:41 | a name ending in '.' has the empty extension |
| `ClaimsController.CheckUpload` | Controllers/ClaimController.cs:37-70 | no document or length <= 0 gives NoDocument; otherwise a disallowed extension gives BadExtension; otherwise the path is "/uploads/" + FileName |
| `ClaimsController.AllowedFileNameMeaning` | Controllers/ClaimController.cs:17-42 | the extension test `IsAllowedFileName`: a name passes exactly when it has an extension whose lower-cased text is ".pdf", ".docx" or ".xlsx" |
| `ClaimsController.AllowedFileNameIgnoresCase` | Controllers/ClaimController.cs:41-42 | two names equal up to ASCII case both pass or both fail |
| `ClaimsController.AllowedWithAllowedExtension` | Controllers/ClaimController.cs:17-42 | any stem followed by "." and pdf, docx or xlsx in any letter case passes |
| `ClaimsController.UpperCaseExtensionAccepted` | Controllers/ClaimController.cs:41-42 | "A.PDF" passes |
| `ClaimsController.LastExtensionDecides` | Controllers/ClaimController.cs:41-42 | "report.pdf.exe" fails |
| `ClaimsController.FinalDotRefused` | Controllers/ClaimController.cs:41-42 | "report.pdf." fails |
| `ClaimsController.Stored` | Controllers/ClaimController.cs:63-73 | the inserted claim has the new id and the document path, and keeps the submitted status, lecturer, notes, owner, hours, rate and payment |
| `ClaimsController.SubmittedFormClaimIsPending` | Controllers/ClaimController.cs:35-78 | a claim bound from the form is stored with status "Pending" |
| `ClaimsController.AllowedUploadAccepted` | Controllers/ClaimController.cs:37-63 | any non-empty upload named stem + "." + pdf, docx or xlsx (any case) is accepted with path "/uploads/" + name |
| `ClaimsController.SetStatus` | Controllers/ClaimController.cs:114-118 | same ids; the reviewed claim gets the new status with every other field unchanged; every other claim unchanged; an unknown id leaves the table as it was; keys stay equal to ClaimIds |
| `ClaimsController.SetStatusIdempotent` | Controllers/ClaimController.cs:114-118 | approving (or rejecting) twice equals doing it once |
| `ClaimsController.LastReviewWins` | Controllers/ClaimController.cs:140-144 | a second review overwrites the first whatever the two statuses |
| `ClaimsController.ReviewKeepsPayments` | Controllers/ClaimController.cs:114-118 | no review changes any claim's final payment |
| `ClaimsController.Removed` | Controllers/ClaimController.cs:183-188 | the id is gone, every other claim is unchanged, the table shrinks by one when the id existed and is unchanged otherwise |
| `ClaimsController.PendingClaims` | Controllers/ClaimController.cs:94 | exactly the stored claims whose status is "Pending", unchanged |
| `ClaimsController.ReviewLeavesPendingQueue` | Controllers/ClaimController.cs:94-118 | after approving or rejecting an id, the pending queue is the old one without that id |
| `ClaimsController.DeleteLeavesPendingQueue` | Controllers/ClaimController.cs:94-188 | after deleting an id, the pending queue is the old one without that id |
| `ClaimsController.ClaimsTable.SubmitClaim` | Controllers/ClaimController.cs:35-78 | a refused upload leaves the table unchanged and reports why; an accepted one inserts exactly one claim under a fresh id, with the document path and the submitted status |
| `ClaimsController.ClaimsTable.ApproveClaim` | Controllers/ClaimController.cs:107-131 | callable only when `IsReviewer` (Co-ordinator or Manager); the table becomes SetStatus(old, id, "Approved"); not-found exactly when the id is absent |
| `ClaimsController.ClaimsTable.RejectClaim` | Controllers/ClaimController.cs:134-157 | callable only when `IsReviewer` (Co-ordinator or Manager); the table becomes SetStatus(old, id, "Rejected"); not-found exactly when the id is absent |
| `ClaimsController.ClaimsTable.DeleteClaim` | Controllers/ClaimController.cs:179-195 | callable only when `IsReviewer` (Co-ordinator or Manager); the table becomes Removed(old, id); not-found exactly when the id is absent |
| `ClaimsController.ClaimsTable.ViewPendingClaims` | Controllers/ClaimController.cs:87-95 | callable only when `IsReviewer` (Co-ordinator or Manager); returns the pending queue of the current table |
| `ClaimsController.ClaimsTable.TrackClaims` | Controllers/ClaimController.cs:160-168 | returns every stored claim under its id |
| `ClaimsController.SubmitNegativeHoursClaim` | Controllers/ClaimController.cs:35-78 | a claim with negative hours sent with an acceptable document is stored with those hours, and the stored row fails `IsValid` |
| `ClaimModel.NewClaim` | Models/Claim.cs:45-50 | a new claim has status "Pending", no document path and zero hours and rate |
| `ClaimModel.BindClaim` | Models/Claim.cs:11-52 | a form-bound claim has the posted fields and still the status "Pending" |
| `ClaimModel.FinalPayment` | Models/Claim.cs:32-38 | the payment is non-negative when hours and rate are, and zero when either is zero |
| `ClaimModel.ValidClaimPaymentNonNegative` | Models/Claim.cs:15-38 | a claim that passes `IsValid` (lecturer name, status and document path not blank, hours and rate at least 0) is owed a non-negative amount |
| `ClaimModel.FinalPaymentDependsOnlyOnHoursAndRate` | Models/Claim.cs:32-38 | claims with equal hours and rate have equal payments, whatever their other fields |
| `ClaimModel.NewClaimNotValid` | Models/Claim.cs:15-50 | a freshly built claim fails `IsValid`: no lecturer name, no document path |
| `Roles.WithRole` | Controllers/AppRolesController.cs:43-47 | afterwards a non-blank name is a role, a blank or existing name changes nothing, no other role is added or removed, the old order is a prefix, and no duplicate or blank name appears |
| `Roles.WithRoleIdempotent` | Controllers/AppRolesController.cs:43-47 | creating a role twice equals creating it once |
| `Roles.WithRoles` | Program.cs:106-113 | afterwards the roles are exactly the old ones and the given non-blank names, the old table is a prefix, and no duplicate or blank name appears |
| `Roles.WithRolesAllPresent` | Program.cs:108-111 | when every name already exists or is blank, seeding changes nothing |
| `Roles.SeedingIdempotent` | Program.cs:104-113 | seeding twice gives the same table as seeding once |
| `Roles.WithRolesAllAbsent` | Program.cs:106-113 | names that are absent, distinct and not blank are appended in the order given |
| `Roles.DefaultRolesNotBlank` | Program.cs:104 | none of the four default role names is blank |
| `Roles.SeedingEmptyTable` | Program.cs:104-113 | seeding an empty table yields Lecturer, Manager, Co-ordinator, HR in that order |
| `Roles.RoleStore.RoleExists` | Program.cs:108 | true exactly when the name is in the table |
| `Roles.RoleStore.Create` | Program.cs:111 | succeeds exactly when the name is neither blank nor present, then adds it at the end; otherwise the table is unchanged; the table stays duplicate-free and free of blank names |
| `AppRolesController.Create` | Controllers/AppRolesController.cs:40-51 | a blank name ends in the missing-name exception and leaves the table unchanged; otherwise the table becomes WithRole(old, name) and the action redirects |
| `Program.SeedRoles` | Program.cs:100-114 | the table becomes WithRoles(old, the four default roles), kept duplicate-free by the loop, and all four roles exist afterwards |

## Left out

- File storage: creating the uploads directory, writing the file and silently overwriting a file of the same name are not modelled; only the stored path is.
- The 5 MB `_maxFileSize` constant is declared but never checked by the code, so the model has no size check either.
- Entity Framework and async: `FindAsync`, `SaveChangesAsync` and `ToListAsync` become reads and updates of the map; a failing save, the `catch` blocks, console logging, `ModelState` messages, views and redirects are not modelled (the outcome datatypes stand for the model errors and redirects).
- Id assignment: the database's identity column is modelled as a counter that hands out 1, 2, 3, …; real identity values may skip numbers, and a submitted non-zero `ClaimId` (which the database would refuse) is not modelled — the incoming id is replaced.
- `PathText.Extension` follows `Path.GetExtension` on Windows, where '/' and '\' both separate directories; on other hosts only '/' does. A null file name is not modelled.
- `PathText.LowerAscii` lowers ASCII letters only; `ToLower` uses the current culture and also lowers other letters, which cannot change whether an extension equals one of the three allowed ASCII ones.
- `TextChecks.IsBlank`, the blank test of `[Required]` and of the role validator, knows six ASCII white-space characters, not all of Unicode.
- `ClaimModel.IsValid`: the `double.MaxValue` upper bound of `[Range]`, the implicit requiredness of non-nullable string properties and C# nulls in non-nullable string fields are not modelled.
- `ClaimModel.FinalPayment` is the exact real product; the `double` rounding, the conversion to `decimal` and its overflow exception are not modelled.
- `ClaimsController.PendingClaims` compares the status with "Pending" exactly; in the application the filter runs as SQL in the database, where the column's collation decides (SQL Server's default ignores case and trailing spaces), so a status such as "pending" would be listed there and is not here.
- `AppRolesController.Create`: the exception for a missing name is the outcome `NameMissing`; the error page it leads to is not modelled.
- Role names are compared exactly; the identity framework compares normalised (upper-cased) names, and a role's other attributes are not modelled.
- Authentication (`[Authorize]` on `TrackClaims`) and the identity of the submitting user are not modelled; the role gates are preconditions on a caller role set.
- Concurrent requests are not modelled; each action runs alone.
- The GET actions that only render a view, the web-host set-up and migrations in `Program.cs`, `AccountController`, the `User` class and the database context are not part of this model.
