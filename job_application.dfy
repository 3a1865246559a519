/**
 * What each method of the job-application service does to the stored state,
 * as functions from the state before the call to the result and the state
 * after it. The state is the job-application table, the publisher of each
 * job and the attachment table; a transaction that rolls back leaves the
 * state exactly as it was before the call.
 */
module JobApplication {
  import opened Entities
  import opened Attachments

  /**
   * The stored state: applications keyed by id, the publisher's user id of
   * each job keyed by job id, attachments keyed by id, and the next id each
   * auto-incremented table will hand out.
   */
  datatype Store = Store(
    apps: map<int, JobApp>,
    jobs: map<int, int>,
    attachments: Table,
    nextAppId: int,
    nextAttachmentId: int)
  {
    /**
     * Ids are handed out in increasing order, every application is stored
     * under its own id, and a job-application attachment names an
     * application id that has been handed out.
     */
    predicate Valid()
    {
      && (forall k :: k in apps ==> k < nextAppId && apps[k].id == k)
      && KeysBelow(attachments, nextAttachmentId)
      && (forall k :: k in attachments && attachments[k].itemType == JobApplicationItem ==> attachments[k].itemId < nextAppId)
    }
  }

  /** What a mutating service method returns, and the state it leaves behind. */
  datatype Outcome = Outcome(result: Result<JobApp>, store: Store)

  /** A record with the publisher of its job, when that job row exists. */
  datatype JobAppData = JobAppData(app: JobApp, publisherId: Option<int>)

  /** `userId` published the job application `a` applies to. */
  predicate PublishedBy(s: Store, a: JobApp, userId: int)
  {
    a.jobId in s.jobs && s.jobs[a.jobId] == userId
  }

  /** The attachment with key `k` belongs to the application `id`. */
  predicate AttachedTo(s: Store, k: int, id: int)
  {
    k in s.attachments && s.attachments[k].itemType == JobApplicationItem && s.attachments[k].itemId == id
  }

  // ---------------------------------------------------------------- reads

  /** The stored record, or NotFound. */
  function GetById(s: Store, id: int): (r: Result<JobApp>)
    ensures r.Ok? <==> id in s.apps
    ensures r.Ok? ==> r.value == s.apps[id]
    ensures r.Err? ==> r.error == NotFound
  {
    if id in s.apps then Ok(s.apps[id]) else Err(NotFound)
  }

  /**
   * The stored record with its job loaded, or NotFound. The acting user
   * plays no part: anyone may read any application.
   */
  function GetJobAppData(s: Store, user: User, id: int): (r: Result<JobAppData>)
    ensures r.Ok? <==> id in s.apps
    ensures r.Err? ==> r.error == NotFound
    ensures r.Ok? ==> r.value.app == s.apps[id]
    ensures r.Ok? ==> (r.value.publisherId.Some? <==> s.apps[id].jobId in s.jobs)
    ensures r.Ok? && r.value.publisherId.Some? ==> PublishedBy(s, s.apps[id], r.value.publisherId.value)
  {
    if id !in s.apps then Err(NotFound)
    else
      var a := s.apps[id];
      Ok(JobAppData(a, if a.jobId in s.jobs then Some(s.jobs[a.jobId]) else None))
  }

  /**
   * The applications listed to `user`: for a customer, those to the jobs it
   * published; for anyone else, those it submitted. The query has no order.
   */
  function GetList(s: Store, user: User): (r: map<int, JobApp>)
    ensures user.role == Customer ==> forall id :: id in r <==> id in s.apps && PublishedBy(s, s.apps[id], user.id)
    ensures user.role != Customer ==> forall id :: id in r <==> id in s.apps && s.apps[id].userId == user.id
    ensures forall id :: id in r ==> r[id] == s.apps[id]
  {
    if user.role == Customer then
      map id | id in s.apps && PublishedBy(s, s.apps[id], user.id) :: s.apps[id]
    else
      map id | id in s.apps && s.apps[id].userId == user.id :: s.apps[id]
  }

  // ---------------------------------------------------------------- writes

  /** The record a create request produces under id `id`. */
  function NewJobApp(id: int, user: User, data: CreateData): (a: JobApp)
  {
    JobApp(id, user.id, data.jobId, false, data.expectedPrice, data.paymentDetails, data.cover)
  }

  /**
   * Create: one transaction that saves the new application (write 0) and
   * then one attachment per file (writes 1 to |files|). Any failing write
   * rolls everything back and yields InternalServerError.
   */
  function Create(s: Store, user: User, data: CreateData, files: seq<FileRef>, fault: Fault): (out: Outcome)
    requires s.Valid()
    ensures out.store.Valid()
    ensures out.result.Ok? <==> !FailsWithin(fault, 0, 1 + |files|)
    ensures out.result.Err? ==> out.result.error == InternalServerError && out.store == s
    ensures out.result.Ok? ==>
      var a := out.result.value;
      && a.id !in s.apps
      && a.userId == user.id
      && a.jobId == data.jobId
      && !a.confirm
      && a.expectedPrice == data.expectedPrice
      && a.paymentDetails == data.paymentDetails
      && a.cover == data.cover
      && out.store.apps == s.apps[a.id := a]
      && out.store.jobs == s.jobs
      && out.store.attachments == AddAttachments(s.attachments, s.nextAttachmentId, a.id, files)
      && out.store.nextAppId == s.nextAppId + 1
      && out.store.nextAttachmentId == s.nextAttachmentId + |files|
  {
    if FailsWithin(fault, 0, 1 + |files|) then
      Outcome(Err(InternalServerError), s)
    else
      var a := NewJobApp(s.nextAppId, user, data);
      var s' := Store(
        s.apps[a.id := a],
        s.jobs,
        AddAttachments(s.attachments, s.nextAttachmentId, a.id, files),
        s.nextAppId + 1,
        s.nextAttachmentId + |files|);
      Outcome(GetById(s', a.id), s')
  }

  /** The record after an update request: only the three editable fields change. */
  function Edited(a: JobApp, data: UpdateData): (edited: JobApp)
  {
    a.(expectedPrice := data.expectedPrice, paymentDetails := data.paymentDetails, cover := data.cover)
  }

  /**
   * Update: NotFound and Forbidden are decided before the transaction opens.
   * The transaction then writes one attachment per file (writes 0 to
   * |files| - 1), deletes the listed attachments of this application (write
   * |files|) and saves the edited record (write |files| + 1).
   */
  function Update(s: Store, user: User, id: int, data: UpdateData, files: seq<FileRef>, fault: Fault): (out: Outcome)
    requires s.Valid()
    ensures out.store.Valid()
    ensures id !in s.apps ==> out == Outcome(Err(NotFound), s)
    ensures id in s.apps && s.apps[id].userId != user.id ==> out == Outcome(Err(Forbidden), s)
    ensures out.result.Ok? <==> id in s.apps && s.apps[id].userId == user.id && !FailsWithin(fault, 0, |files| + 2)
    ensures out.result.Err? ==> out.store == s
    ensures id in s.apps && s.apps[id].userId == user.id && out.result.Err? ==> out.result.error == InternalServerError
    ensures out.result.Ok? ==>
      var before, a := s.apps[id], out.result.value;
      && a.id == id
      && a.userId == before.userId
      && a.jobId == before.jobId
      && a.confirm == before.confirm
      && a.expectedPrice == data.expectedPrice
      && a.paymentDetails == data.paymentDetails
      && a.cover == data.cover
      && out.store.apps == s.apps[id := a]
      && out.store.jobs == s.jobs
      && out.store.nextAppId == s.nextAppId
      && out.store.nextAttachmentId == s.nextAttachmentId + |files|
      && out.store.attachments == DeleteItemAttachmentsByIds(
           AddAttachments(s.attachments, s.nextAttachmentId, id, files),
           JobApplicationItem, id, data.attachmentIdsForDelete)
  {
    if id !in s.apps then Outcome(Err(NotFound), s)
    else if s.apps[id].userId != user.id then Outcome(Err(Forbidden), s)
    else if FailsWithin(fault, 0, |files| + 2) then Outcome(Err(InternalServerError), s)
    else
      var added := AddAttachments(s.attachments, s.nextAttachmentId, id, files);
      var s' := Store(
        s.apps[id := Edited(s.apps[id], data)],
        s.jobs,
        DeleteItemAttachmentsByIds(added, JobApplicationItem, id, data.attachmentIdsForDelete),
        s.nextAppId,
        s.nextAttachmentId + |files|);
      Outcome(GetById(s', id), s')
  }

  /**
   * Confirm: only the publisher of the application's job may set its
   * `confirm` flag. A record whose job row is missing has no job to read
   * the publisher from, and the call fails with a server error.
   */
  function Confirm(s: Store, user: User, id: int): (out: Outcome)
    requires s.Valid()
    ensures out.store.Valid()
    ensures out.result.Err? ==> out.store == s
    ensures id !in s.apps ==> out.result == Err(NotFound)
    ensures id in s.apps && s.apps[id].jobId !in s.jobs ==> out.result == Err(InternalServerError)
    ensures id in s.apps && s.apps[id].jobId in s.jobs && !PublishedBy(s, s.apps[id], user.id) ==> out.result == Err(Forbidden)
    ensures out.result.Ok? <==> id in s.apps && PublishedBy(s, s.apps[id], user.id)
    ensures out.result.Ok? ==>
      && out.result.value == s.apps[id].(confirm := true)
      && out.store == s.(apps := s.apps[id := out.result.value])
  {
    if id !in s.apps then Outcome(Err(NotFound), s)
    else if s.apps[id].jobId !in s.jobs then Outcome(Err(InternalServerError), s)
    else if s.jobs[s.apps[id].jobId] != user.id then Outcome(Err(Forbidden), s)
    else
      var s' := s.(apps := s.apps[id := s.apps[id].(confirm := true)]);
      Outcome(GetById(s', id), s')
  }

  /**
   * Delete: only the applicant may delete its application; the deleted
   * record is returned as it was. The attachments are not touched.
   */
  function Delete(s: Store, user: User, id: int): (out: Outcome)
    requires s.Valid()
    ensures out.store.Valid()
    ensures out.result.Err? ==> out.store == s
    ensures id !in s.apps ==> out.result == Err(NotFound)
    ensures id in s.apps && s.apps[id].userId != user.id ==> out.result == Err(Forbidden)
    ensures out.result.Ok? <==> id in s.apps && s.apps[id].userId == user.id
    ensures out.result.Ok? ==>
      && out.result.value == s.apps[id]
      && out.store.apps.Keys == s.apps.Keys - {id}
      && (forall k :: k in out.store.apps ==> out.store.apps[k] == s.apps[k])
      && out.store == s.(apps := out.store.apps)
  {
    if id !in s.apps then Outcome(Err(NotFound), s)
    else if s.apps[id].userId != user.id then Outcome(Err(Forbidden), s)
    else Outcome(Ok(s.apps[id]), s.(apps := s.apps - {id}))
  }

  // ---------------------------------------------------------------- lemmas

  /** Whatever `userId` the request carries, the stored applicant is the acting user. */
  lemma CreateIgnoresRequestUserId(s: Store, user: User, data: CreateData, files: seq<FileRef>, fault: Fault, claimed: int)
    requires s.Valid()
    ensures Create(s, user, data.(userId := Some(claimed)), files, fault) == Create(s, user, data.(userId := None), files, fault)
  {
  }

  /**
   * A create either persists the application, which then reads back as
   * returned, or persists nothing at all.
   */
  lemma CreateIsAllOrNothing(s: Store, user: User, data: CreateData, files: seq<FileRef>, fault: Fault)
    requires s.Valid()
    ensures var out := Create(s, user, data, files, fault);
      if out.result.Ok? then GetById(out.store, out.result.value.id) == out.result else out.store == s
  {
  }

  /** A successful create grows the attachment table by exactly one row per file. */
  lemma CreatePersistsEveryFile(s: Store, user: User, data: CreateData, files: seq<FileRef>, fault: Fault)
    requires s.Valid()
    requires Create(s, user, data, files, fault).result.Ok?
    ensures |Create(s, user, data, files, fault).store.attachments| == |s.attachments| + |files|
  {
    var out := Create(s, user, data, files, fault);
    AddAttachmentsCount(s.attachments, s.nextAttachmentId, out.result.value.id, files);
  }

  /** A successful create stores file j under the j-th fresh attachment id. */
  lemma CreateKeepsFileOrder(s: Store, user: User, data: CreateData, files: seq<FileRef>, fault: Fault, j: int)
    requires s.Valid()
    requires Create(s, user, data, files, fault).result.Ok?
    requires 0 <= j < |files|
    ensures Create(s, user, data, files, fault).store.attachments[s.nextAttachmentId + j].file == files[j]
  {
  }

  /**
   * After a successful create, the attachments of the new application are
   * exactly the rows it wrote: none of the earlier rows belongs to it.
   */
  lemma CreateAttachesOnlyItsFiles(s: Store, user: User, data: CreateData, files: seq<FileRef>, fault: Fault, k: int)
    requires s.Valid()
    requires Create(s, user, data, files, fault).result.Ok?
    ensures var out := Create(s, user, data, files, fault);
      AttachedTo(out.store, k, out.result.value.id) <==> s.nextAttachmentId <= k < s.nextAttachmentId + |files|
  {
  }

  /**
   * A successful update keeps every attachment of other items and every
   * attachment of this application not listed for deletion, keeps the new
   * ones unless listed, and removes the listed ones of this application.
   */
  lemma UpdateAttachmentEffect(s: Store, user: User, id: int, data: UpdateData, files: seq<FileRef>, fault: Fault, k: int)
    requires s.Valid()
    requires Update(s, user, id, data, files, fault).result.Ok?
    ensures var after := Update(s, user, id, data, files, fault).store;
      && (k in s.attachments && !AttachedTo(s, k, id) ==> k in after.attachments && after.attachments[k] == s.attachments[k])
      && (AttachedTo(s, k, id) ==> (k in after.attachments <==> k !in data.attachmentIdsForDelete))
      && (s.nextAttachmentId <= k < s.nextAttachmentId + |files| ==>
            (k in after.attachments <==> k !in data.attachmentIdsForDelete))
      && (k in after.attachments ==> k in s.attachments || s.nextAttachmentId <= k < s.nextAttachmentId + |files|)
  {
  }

  /** Confirming an application that the same user has just confirmed changes nothing more. */
  lemma ConfirmIsIdempotent(s: Store, user: User, id: int)
    requires s.Valid()
    ensures var once := Confirm(s, user, id);
      Confirm(once.store, user, id) == once
  {
  }

  /** After a successful delete the id is gone, and every other record reads as before. */
  lemma DeleteRemovesExactlyOne(s: Store, user: User, id: int, other: int)
    requires s.Valid()
    requires Delete(s, user, id).result.Ok?
    ensures GetById(Delete(s, user, id).store, id) == Err(NotFound)
    ensures other != id ==> GetById(Delete(s, user, id).store, other) == GetById(s, other)
    ensures |Delete(s, user, id).store.apps| == |s.apps| - 1
  {
  }

  /** Update, confirm and delete of `id` leave every other record as it was. */
  lemma MutationsTouchOnlyTheirTarget(s: Store, user: User, id: int, other: int, data: UpdateData, files: seq<FileRef>, fault: Fault)
    requires s.Valid()
    requires other != id
    ensures GetById(Update(s, user, id, data, files, fault).store, other) == GetById(s, other)
    ensures GetById(Confirm(s, user, id).store, other) == GetById(s, other)
    ensures GetById(Delete(s, user, id).store, other) == GetById(s, other)
  {
  }

  /** A customer's list is exactly the set of applications it may confirm. */
  lemma CustomerListIsWhatItMayConfirm(s: Store, user: User, id: int)
    requires s.Valid()
    requires user.role == Customer
    ensures id in GetList(s, user) <==> Confirm(s, user, id).result.Ok?
  {
  }

  /**
   * Anyone else's list is exactly the set of applications it may delete, and
   * update when no write fails.
   */
  lemma ApplicantListIsWhatItMayChange(s: Store, user: User, id: int, data: UpdateData, files: seq<FileRef>)
    requires s.Valid()
    requires user.role != Customer
    ensures id in GetList(s, user) <==> Delete(s, user, id).result.Ok?
    ensures id in GetList(s, user) <==> Update(s, user, id, data, files, NoFault).result.Ok?
  {
  }

  /** A new application shows up in its applicant's list, and in its job publisher's. */
  lemma CreatedIsListed(s: Store, user: User, data: CreateData, files: seq<FileRef>, fault: Fault, publisher: User)
    requires s.Valid()
    requires Create(s, user, data, files, fault).result.Ok?
    ensures var out := Create(s, user, data, files, fault);
      && (user.role != Customer ==> out.result.value.id in GetList(out.store, user))
      && (publisher.role == Customer && data.jobId in s.jobs && s.jobs[data.jobId] == publisher.id ==>
            out.result.value.id in GetList(out.store, publisher))
  {
  }

  /** An update does not change who may list, confirm or delete the application. */
  lemma UpdateKeepsAccess(s: Store, user: User, id: int, data: UpdateData, files: seq<FileRef>, fault: Fault, other: User)
    requires s.Valid()
    requires Update(s, user, id, data, files, fault).result.Ok?
    ensures var after := Update(s, user, id, data, files, fault).store;
      && (id in GetList(after, other) <==> id in GetList(s, other))
      && Confirm(after, other, id).result.Ok? == Confirm(s, other, id).result.Ok?
      && Delete(after, other, id).result.Ok? == Delete(s, other, id).result.Ok?
  {
  }
}
