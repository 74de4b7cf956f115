// Entity shapes of the tender service (internal/models/*.go), the six storage
// error sentinels (internal/storage/errors.go) and the rows of the tables the
// storage layer reads and writes.
module Models {

  /** An opaque instant (Go's time.Time); only equality and "which call set it" matter. */
  type Timestamp = int

  /** One row of the `tender` table (models.Tender). */
  datatype Tender = Tender(
    id: string,
    name: string,
    description: string,
    serviceType: string,
    status: string,
    organizationId: string,
    version: int,
    createdAt: Timestamp,
    updatedAt: Timestamp)

  /** One row of the `bid` table (models.Bid). */
  datatype Bid = Bid(
    id: string,
    name: string,
    description: string,
    status: string,
    tenderId: string,
    authorType: string,
    authorId: string,
    version: int,
    createdAt: Timestamp,
    updatedAt: Timestamp)

  /** What GetFeedback returns for one review (models.FeedBack). */
  datatype Feedback = Feedback(id: string, description: string, createdAt: Timestamp)

  /** One row of the `employee` table, reduced to what the storage layer reads. */
  datatype Employee = Employee(id: string, username: string)

  /** One row of the `organization_responsible` table. */
  datatype Membership = Membership(organizationId: string, userId: string)

  /** One row of the `decisions` table. */
  datatype Decision = Decision(id: string, bidId: string, decision: string, createdAt: Timestamp, createdBy: string)

  /** One row of the `bid_reviews` table. */
  datatype Review = Review(id: string, bidId: string, review: string, reviewer: string, createdAt: Timestamp, bidAuthorId: string)

  /** The six sentinel errors of the storage layer. */
  datatype StorageError = ErrRights | ErrNoTender | ErrNoBid | ErrNoVersion | ErrNoReviews | ErrNoUser

  /** A value or one of the sentinels (the Go `(value, error)` pair). */
  datatype Result<T> = Ok(value: T) | Err(error: StorageError)

  /** An operation that returns only an error (Go's `error`, nil meaning Pass). */
  datatype Outcome = Pass | Fail(error: StorageError)

  datatype Option<T> = None | Some(value: T)

  /** The Go zero value `models.Tender{}`. */
  const EmptyTender := Tender("", "", "", "", "", "", 0, 0, 0)

  /** The Go zero value `models.Bid{}`. */
  const EmptyBid := Bid("", "", "", "", "", "", "", 0, 0, 0)

  // Status strings the storage layer compares against.
  const Created := "Created"
  const Published := "Published"
  const Closed := "Closed"
  const Canceled := "Canceled"
  const Approved := "Approved"
}
