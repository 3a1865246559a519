/**
 * The job-application service as the object it is: the repository tables
 * are fields that its methods update in place. A transaction works on a
 * local copy of the tables and assigns the fields only at commit, so a
 * rollback is simply returning without assigning them. Each method is
 * proved to leave the state, and to return the result, that the matching
 * function of module JobApplication describes.
 */
module Service {
  import opened Entities
  import opened Attachments
  import JobApplication

  class JobApplicationService {
    var apps: map<int, JobApp>
    var jobs: map<int, int>
    var attachments: Table
    var nextAppId: int
    var nextAttachmentId: int

    /** The tables as one value. */
    function State(): (s: JobApplication.Store)
      reads this
    {
      JobApplication.Store(apps, jobs, attachments, nextAppId, nextAttachmentId)
    }

    predicate Valid()
      reads this
    {
      State().Valid()
    }

    /** Empty application and attachment tables over the given jobs. */
    constructor (jobs: map<int, int>)
      ensures Valid()
      ensures State() == JobApplication.Store(map[], jobs, map[], 1, 1)
    {
      this.apps := map[];
      this.jobs := jobs;
      this.attachments := map[];
      this.nextAppId := 1;
      this.nextAttachmentId := 1;
    }

    /** Commits a transaction's copy of the tables this service writes. */
    method Commit(tx: JobApplication.Store)
      requires tx.jobs == jobs
      modifies this
      ensures State() == tx
    {
      apps := tx.apps;
      attachments := tx.attachments;
      nextAppId := tx.nextAppId;
      nextAttachmentId := tx.nextAttachmentId;
    }

    method Create(user: User, data: CreateData, files: seq<FileRef>, fault: Fault) returns (r: Result<JobApp>)
      requires Valid()
      modifies this
      ensures Valid()
      ensures JobApplication.Outcome(r, State()) == JobApplication.Create(old(State()), user, data, files, fault)
    {
      // begin the transaction on a copy of the tables
      var tx := State();
      if fault == FailAt(0) {
        return Err(InternalServerError);
      }
      var app := JobApplication.NewJobApp(tx.nextAppId, user, data);
      tx := tx.(apps := tx.apps[app.id := app], nextAppId := tx.nextAppId + 1);
      var ok, atts, next := CreateJobApplyAttachments(tx.attachments, tx.nextAttachmentId, app.id, files, fault, 1);
      if !ok {
        return Err(InternalServerError);
      }
      tx := tx.(attachments := atts, nextAttachmentId := next);
      Commit(tx);
      r := JobApplication.GetById(State(), app.id);
    }

    method Update(user: User, id: int, data: UpdateData, files: seq<FileRef>, fault: Fault) returns (r: Result<JobApp>)
      requires Valid()
      modifies this
      ensures Valid()
      ensures JobApplication.Outcome(r, State()) == JobApplication.Update(old(State()), user, id, data, files, fault)
    {
      var found := JobApplication.GetById(State(), id);
      if found.Err? {
        return found;
      }
      var app := found.value;
      if app.userId != user.id {
        return Err(Forbidden);
      }
      // begin the transaction on a copy of the tables
      var tx := State();
      app := JobApplication.Edited(app, data);
      var ok, atts, next := CreateJobApplyAttachments(tx.attachments, tx.nextAttachmentId, id, files, fault, 0);
      if !ok {
        return Err(InternalServerError);
      }
      tx := tx.(attachments := atts, nextAttachmentId := next);
      if fault == FailAt(|files|) {
        return Err(InternalServerError);
      }
      tx := tx.(attachments := DeleteItemAttachmentsByIds(tx.attachments, JobApplicationItem, id, data.attachmentIdsForDelete));
      if fault == FailAt(|files| + 1) {
        return Err(InternalServerError);
      }
      tx := tx.(apps := tx.apps[app.id := app]);
      Commit(tx);
      r := JobApplication.GetById(State(), id);
    }

    method Confirm(user: User, id: int) returns (r: Result<JobApp>)
      requires Valid()
      modifies this
      ensures Valid()
      ensures JobApplication.Outcome(r, State()) == JobApplication.Confirm(old(State()), user, id)
    {
      if id !in apps {
        return Err(NotFound);
      }
      var app := apps[id];
      if app.jobId !in jobs {
        return Err(InternalServerError);
      }
      if jobs[app.jobId] != user.id {
        return Err(Forbidden);
      }
      app := app.(confirm := true);
      apps := apps[id := app];
      r := JobApplication.GetById(State(), id);
    }

    method Delete(user: User, id: int) returns (r: Result<JobApp>)
      requires Valid()
      modifies this
      ensures Valid()
      ensures JobApplication.Outcome(r, State()) == JobApplication.Delete(old(State()), user, id)
    {
      var found := JobApplication.GetById(State(), id);
      if found.Err? {
        return found;
      }
      if found.value.userId != user.id {
        return Err(Forbidden);
      }
      apps := apps - {id};
      r := found;
    }
  }
}
