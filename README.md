# Job-application service of a job-marketplace backend

This project models the business logic of `JobApplicationService` in a
NestJS/TypeORM job-marketplace backend. The database is replaced by three
in-memory tables:

- the job applications, keyed by id: applicant (`userId`), `jobId`, the
  `confirm` flag, `expectedPrice`, `paymentDetails` and `cover`;
- the jobs, reduced to the user id of each job's publisher;
- the attachments, each a file tagged with the item it belongs to: an item
  type and an item id.

The acting user is reduced to its id and whether its role is CUSTOMER.

Every service method is either a read or an update of these tables guarded
by an access rule:

- `getById` and `getJobAppData` return the stored record or NotFound.
  `getJobAppData` makes no access check.
- `getList` selects by role. A customer sees the applications to the jobs it
  published. Any other user sees the applications it submitted.
- `create` and `update` run as database transactions over several writes.
  Either all of a transaction's writes take effect or, when one throws, none
  does and the caller gets InternalServerError.
- `update` and `delete` are allowed only for the applicant.
- `confirm` is allowed only for the publisher of the application's job.

Layout:

- `entities.dfy` (module `Entities`) holds the records, the error kinds and
  `Fault`. A `Fault` says which write of a transaction throws. Database
  failures cannot be seen from the service, so they enter as this input.
- `attachments.dfy` (module `Attachments`) holds the effect of the two
  attachment-service calls. `CreateJobApplyAttachments` writes one attachment
  per file, inside a transaction. `DeleteItemAttachmentsByIds` deletes listed
  attachments, scoped to one item.
- `job_application.dfy` (module `JobApplication`) holds the state as a value
  (`Store`). Each service method is a function from the state before the call
  to the result and the state after it. The lemmas relate these functions.
- `service.dfy` (module `Service`) holds the service as a class whose fields
  are the tables. `Create`, `Update`, `Confirm` and `Delete` update the fields
  step by step. A transaction works on a local copy and assigns the fields
  only at commit, so a rollback is a return before `Commit`. Each method is
  proved to produce exactly the result and the new state that the matching
  `JobApplication` function gives.

Ids are unbounded integers. Each table hands out ids in increasing order
(`Store.Valid`).

## Model

| member | source | states |
|---|---|---|
| `Attachments.AddAttachments` | src/modules/job-application/job-application.service.ts:47-51 | adding attachments for N files gives exactly N new rows with fresh consecutive ids, each tagged JOB_APPLICATION with the given item id and its file; every existing row is kept unchanged |
| `Attachments.CreateJobApplyAttachments` | src/modules/job-application/job-application.service.ts:84-88 | writing one attachment per file inside a transaction succeeds exactly when none of those writes throws; on success the table is the one `AddAttachments` describes and the id counter has moved on by N |
| `Attachments.AddAttachmentsCount` | src/modules/job-application/job-application.service.ts:47-51 | adding attachments for N files grows the table by exactly N rows |
| `Attachments.DeleteItemAttachmentsByIds` | src/modules/job-application/job-application.service.ts:90-95 | a row is deleted exactly when its id is listed AND it belongs to the given item type and item id; every surviving row is unchanged |
| `JobApplication.GetById` | src/modules/job-application/job-application.service.ts:25-29 | NotFound exactly when the id is absent; otherwise the stored record, unchanged |
| `JobApplication.GetJobAppData` | src/modules/job-application/job-application.service.ts:137-148 | NotFound exactly when the id is absent; otherwise the stored record together with its job's publisher when the job row exists; the acting user plays no part |
| `JobApplication.GetList` | src/modules/job-application/job-application.service.ts:150-162 | for a CUSTOMER, exactly the applications whose job was published by that user; for any other role, exactly the applications whose `userId` is that user; records are returned unchanged |
| `JobApplication.Create` | src/modules/job-application/job-application.service.ts:31-60 | succeeds exactly when none of the 1 + N writes throws; on failure InternalServerError and the state is unchanged; on success a record under a fresh id with `userId` = acting user, the request's job and fields, `confirm` false, plus the N attachments for it, and nothing else changes |
| `JobApplication.Update` | src/modules/job-application/job-application.service.ts:62-105 | NotFound for a missing id and Forbidden for a non-applicant, with the state unchanged; otherwise success exactly when no write throws (else InternalServerError, state unchanged); on success only `expectedPrice`, `paymentDetails` and `cover` change, and the attachments are the N new ones added and the listed ones of this application deleted |
| `JobApplication.Confirm` | src/modules/job-application/job-application.service.ts:107-123 | NotFound for a missing id, a server error when its job row is missing, Forbidden unless the acting user published the job, each with the state unchanged; on success only `confirm` becomes true |
| `JobApplication.Delete` | src/modules/job-application/job-application.service.ts:125-135 | NotFound for a missing id and Forbidden for a non-applicant, with the state unchanged; on success exactly that id is removed, every other record and all attachments are unchanged, and the record is returned as it was |
| `JobApplication.CreateIgnoresRequestUserId` | src/modules/job-application/job-application.service.ts:41-44 | a `userId` in the create request has no effect at all on the outcome or the state |
| `JobApplication.CreateIsAllOrNothing` | src/modules/job-application/job-application.service.ts:36-59 | after a successful create the new record reads back exactly as returned; after a failed one the whole state is unchanged |
| `JobApplication.CreatePersistsEveryFile` | src/modules/job-application/job-application.service.ts:47-51 | after a successful create the attachment table has grown by exactly one row per file |
| `JobApplication.CreateKeepsFileOrder` | src/modules/job-application/job-application.service.ts:47-51 | after a successful create, file j is stored under the j-th fresh attachment id |
| `JobApplication.CreateAttachesOnlyItsFiles` | src/modules/job-application/job-application.service.ts:41-51 | after a successful create, the attachments of the new application are exactly the rows it wrote; no earlier row belongs to it |
| `JobApplication.UpdateAttachmentEffect` | src/modules/job-application/job-application.service.ts:84-95 | a successful update keeps every attachment of other items; an attachment of this application, old or new, survives exactly when it is not listed; no other row appears |
| `JobApplication.ConfirmIsIdempotent` | src/modules/job-application/job-application.service.ts:118-122 | confirming again after a confirm gives the same result and the same state |
| `JobApplication.DeleteRemovesExactlyOne` | src/modules/job-application/job-application.service.ts:132-134 | after a successful delete the id reads NotFound, every other id reads as before, and there is one record fewer |
| `JobApplication.MutationsTouchOnlyTheirTarget` | src/modules/job-application/job-application.service.ts:62-135 | update, confirm and delete of one id leave every other record as it was, whatever their outcome |
| `JobApplication.CustomerListIsWhatItMayConfirm` | src/modules/job-application/job-application.service.ts:155-156 | for a customer, an application is listed exactly when that customer's confirm of it succeeds |
| `JobApplication.ApplicantListIsWhatItMayChange` | src/modules/job-application/job-application.service.ts:157-158 | for any other role, an application is listed exactly when that user's delete of it succeeds, and exactly when its update succeeds when no write throws |
| `JobApplication.CreatedIsListed` | src/modules/job-application/job-application.service.ts:41-45 | a created application is listed to its applicant (if not a customer) and to the customer who published its job |
| `JobApplication.UpdateKeepsAccess` | src/modules/job-application/job-application.service.ts:80-82 | a successful update does not change who sees the application in a list or who may confirm or delete it |
| `Service.JobApplicationService.constructor` | src/modules/job-application/job-application.service.ts:19-23 | the service starts over empty application and attachment tables and the given jobs |
| `Service.JobApplicationService.Commit` | src/modules/job-application/job-application.service.ts:53 | a commit makes the transaction's copy of the tables the stored state |
| `Service.JobApplicationService.Create` | src/modules/job-application/job-application.service.ts:31-60 | the step-by-step create (save, then the attachments, then commit, on a copy) returns and leaves exactly what `JobApplication.Create` describes |
| `Service.JobApplicationService.Update` | src/modules/job-application/job-application.service.ts:62-105 | the step-by-step update (checks, then attachments, deletion and save on a copy, then commit) returns and leaves exactly what `JobApplication.Update` describes |
| `Service.JobApplicationService.Confirm` | src/modules/job-application/job-application.service.ts:107-123 | setting `confirm` in place returns and leaves exactly what `JobApplication.Confirm` describes |
| `Service.JobApplicationService.Delete` | src/modules/job-application/job-application.service.ts:125-135 | removing the record in place returns and leaves exactly what `JobApplication.Delete` describes |

## Left out

- The user entity's columns, relations and password hashing (src/modules/user/user.entity.ts): the service only reads the user's id and role name.
- Module wiring (src/app.module.ts, src/modules/job/job.module.ts): dependency injection only, no logic.
- HTTP exceptions, Swagger and DTO validation: exceptions are the `Error` kinds and uploaded files are their names.
- Parsing `attachmentIdsForDelete` with `JSON.parse`: the model takes the parsed id list. A malformed list throws before the transaction opens, and that error is not modelled.
- The request DTOs are not part of this model. A create request is taken to carry the job id, the three editable fields and possibly a `userId`. The stored `confirm` starts false, which is the column's default; the entity declaring it is not part of this model.
- The internals of the attachment service are not part of this model. Its two calls are modelled by the effect their arguments imply: one row per file, and deletion of the listed ids scoped to this application.
- Connection handling: a failure to connect or to start a transaction is not modelled; only the writes themselves may throw. The query runner is never released in the source, and that connection leak is not modelled.
- Attachments.AddAttachments, JobApplication.CreateKeepsFileOrder: the attachment service is assumed to insert the files in the given order under consecutive ids, starting at the next free id. Its code is not part of this model, and a service that saved the files concurrently could number them in another order. `JobApplication.Create` (its `attachments == AddAttachments(...)` clause), `JobApplication.Update`, `JobApplication.CreateAttachesOnlyItsFiles` and `JobApplication.UpdateAttachmentEffect` rely on the same assumption through the exact id range [next, next + N).
- Id sequences: a rolled-back transaction restores both id counters, whereas a real database sequence may skip the ids it consumed. `JobApplication.CreateIsAllOrNothing` (a failed create leaves the state, counters included, equal to before), the failure clauses of `JobApplication.Create` and `JobApplication.Update`, and the exact id ranges above depend on this exact counter behaviour.
- JobApplication.Confirm, JobApplication.Delete: their single save or delete is taken to succeed. In the source a failing write there raises the database's own error (a server error), with nothing written.
- JobApplication.GetJobAppData: the applicant's user row, which the source loads alongside, is not returned; the job is reduced to its publisher id.
- Concurrency, async/await and isolation levels: calls are modelled one at a time.
