/**
 * The records the job-application service reads and writes, reduced to the
 * fields its business logic looks at, and the outcomes it reports.
 */
module Entities {

  /**
   * A role is compared by name only against the CUSTOMER role. `OtherRole`
   * stands for every other role name and never carries the customer's name.
   */
  datatype Role = Customer | OtherRole(name: string)

  /** The acting (authenticated) user: its id and its role. */
  datatype User = User(id: int, role: Role)

  /** A stored job application; `id` is its primary key. */
  datatype JobApp = JobApp(
    id: int,
    userId: int,
    jobId: int,
    confirm: bool,
    expectedPrice: int,
    paymentDetails: string,
    cover: string)

  /** The item types an attachment can belong to; only job applications matter here. */
  datatype ItemType = JobApplicationItem | OtherItem(name: string)

  /** An uploaded file, reduced to the name it was uploaded under. */
  type FileRef = string

  /** An attachment row: a file tagged with the item it belongs to. */
  datatype Attachment = Attachment(itemType: ItemType, itemId: int, file: FileRef)

  /** The fields a create request carries; `userId` is whatever the client sent, if anything. */
  datatype CreateData = CreateData(
    userId: Option<int>,
    jobId: int,
    expectedPrice: int,
    paymentDetails: string,
    cover: string)

  /** The fields an update request carries, with the attachment id list already parsed. */
  datatype UpdateData = UpdateData(
    expectedPrice: int,
    paymentDetails: string,
    cover: string,
    attachmentIdsForDelete: seq<int>)

  datatype Option<T> = None | Some(value: T)

  /** The three kinds of exception the service raises. */
  datatype Error = NotFound | Forbidden | InternalServerError

  datatype Result<T> = Ok(value: T) | Err(error: Error)

  /**
   * Which write of a transaction throws, counting the writes of one
   * transaction from 0; `NoFault` when none does. The database's own
   * failures are not visible in the service, so they enter as this input.
   */
  datatype Fault = NoFault | FailAt(write: nat)

  /** Some write numbered in [lo, hi) throws. */
  predicate FailsWithin(f: Fault, lo: int, hi: int)
  {
    f.FailAt? && lo <= f.write < hi
  }
}
