// The versioning and authorization engine of the tender service
// (internal/storage/storage.go). One object of class DB stands for the
// database: the tables the storage layer reads and writes are its fields, and
// every storage call is one sequential run of a method on it.
module Storage {
  import opened Models
  import opened History
  import opened Listing

  /** math.MaxInt32, the page size GetFeedback asks GetMy for. */
  const MaxInt32: nat := 2147483647

  function TenderName(t: Tender): string { t.name }

  function BidName(b: Bid): string { b.name }

  /**
   * The row EditTender writes: the version goes up by one, updated_at is
   * stamped, and each of the four editable fields is overwritten by its
   * argument unless that argument is empty ("" means "leave unchanged").
   */
  function ApplyTenderEdit(t: Tender, name: string, description: string, serviceType: string,
                           status: string, now: Timestamp): (e: Tender)
    ensures e.id == t.id && e.organizationId == t.organizationId && e.createdAt == t.createdAt
    ensures e.version == t.version + 1 && e.updatedAt == now
    ensures name == "" ==> e.name == t.name
    ensures name != "" ==> e.name == name
    ensures description == "" ==> e.description == t.description
    ensures description != "" ==> e.description == description
    ensures serviceType == "" ==> e.serviceType == t.serviceType
    ensures serviceType != "" ==> e.serviceType == serviceType
    ensures status == "" ==> e.status == t.status
    ensures status != "" ==> e.status == status
  {
    t.(version := t.version + 1, updatedAt := now,
       status := if status != "" then status else t.status,
       name := if name != "" then name else t.name,
       description := if description != "" then description else t.description,
       serviceType := if serviceType != "" then serviceType else t.serviceType)
  }

  /**
   * The row EditBid writes: as for tenders, with name, description and status
   * editable; tender, author and creation time are never touched.
   */
  function ApplyBidEdit(b: Bid, name: string, description: string, status: string, now: Timestamp): (e: Bid)
    ensures e.id == b.id && e.tenderId == b.tenderId && e.authorType == b.authorType
    ensures e.authorId == b.authorId && e.createdAt == b.createdAt
    ensures e.version == b.version + 1 && e.updatedAt == now
    ensures name == "" ==> e.name == b.name
    ensures name != "" ==> e.name == name
    ensures description == "" ==> e.description == b.description
    ensures description != "" ==> e.description == description
    ensures status == "" ==> e.status == b.status
    ensures status != "" ==> e.status == status
  {
    b.(version := b.version + 1, updatedAt := now,
       status := if status != "" then status else b.status,
       name := if name != "" then name else b.name,
       description := if description != "" then description else b.description)
  }

  /**
   * The row UpdateStatus writes for a tender: the new status, whatever the
   * old one was, with the version one higher and updated_at stamped.
   */
  function WithStatus(t: Tender, status: string, now: Timestamp): (e: Tender)
    ensures e.status == status && e.version == t.version + 1 && e.updatedAt == now
    ensures e.id == t.id && e.name == t.name && e.description == t.description
    ensures e.serviceType == t.serviceType && e.organizationId == t.organizationId && e.createdAt == t.createdAt
  {
    t.(status := status, version := t.version + 1, updatedAt := now)
  }

  /** The row UpdateStatus writes for a bid. */
  function WithBidStatus(b: Bid, status: string, now: Timestamp): (e: Bid)
    ensures e.status == status && e.version == b.version + 1 && e.updatedAt == now
    ensures e.id == b.id && e.name == b.name && e.description == b.description && e.tenderId == b.tenderId
    ensures e.authorType == b.authorType && e.authorId == b.authorId && e.createdAt == b.createdAt
  {
    b.(status := status, version := b.version + 1, updatedAt := now)
  }

  /** The live rows of a table in scan order: the keys of `order` that are in `table`. */
  function RowsOf<V(==)>(order: seq<string>, table: map<string, V>): (rows: seq<V>)
    ensures forall v :: v in rows ==> v in table.Values
    ensures forall i :: 0 <= i < |order| && order[i] in table ==> table[order[i]] in rows
  {
    if order == [] then []
    else
      var init := RowsOf(order[..|order| - 1], table);
      var id := order[|order| - 1];
      assert forall i :: 0 <= i < |order| - 1 ==> order[..|order| - 1][i] == order[i];
      if id in table then init + [table[id]] else init
  }

  /**
   * A scan over a scan order that lists each key once, of a table whose rows
   * carry their own key, yields each row once.
   */
  lemma {:induction false} RowsOfOnce<V>(order: seq<string>, table: map<string, V>, key: V -> string)
    requires forall i, j :: 0 <= i < j < |order| ==> order[i] != order[j]
    requires forall k :: k in table ==> key(table[k]) == k
    ensures forall v :: v in RowsOf(order, table) ==> key(v) in order
    ensures forall i, j :: 0 <= i < j < |RowsOf(order, table)| ==>
      key(RowsOf(order, table)[i]) != key(RowsOf(order, table)[j])
  {
    if order != [] {
      var init := order[..|order| - 1];
      var id := order[|order| - 1];
      RowsOfOnce(init, table, key);
      assert id !in init by {
        forall i | 0 <= i < |init| ensures init[i] != id {
          assert init[i] == order[i];
        }
      }
    }
  }

  /** The first employee row with this id (the employee primary-key lookups). */
  function FirstWithId(es: seq<Employee>, id: string): (r: Option<Employee>)
    ensures r.Some? ==> r.value in es && r.value.id == id
    ensures r.None? <==> forall e :: e in es ==> e.id != id
  {
    if es == [] then None
    else if es[0].id == id then Some(es[0])
    else FirstWithId(es[1..], id)
  }

  /** The first employee row with this username (QueryRow on `employee`). */
  function FirstWithUsername(es: seq<Employee>, username: string): (r: Option<Employee>)
    ensures r.Some? ==> r.value in es && r.value.username == username
    ensures r.None? <==> forall e :: e in es ==> e.username != username
  {
    if es == [] then None
    else if es[0].username == username then Some(es[0])
    else FirstWithUsername(es[1..], username)
  }

  /** The reviews of `rs` as GetFeedback reports them: id, text and creation time. */
  function ToFeedback(rs: seq<Review>): (fs: seq<Feedback>)
    ensures |fs| == |rs|
    ensures forall i :: 0 <= i < |rs| ==> fs[i] == Feedback(rs[i].id, rs[i].review, rs[i].createdAt)
  {
    seq(|rs|, i requires 0 <= i < |rs| => Feedback(rs[i].id, rs[i].review, rs[i].createdAt))
  }

  // ----------------------------------------------------------- table invariants

  /**
   * The `tender` table with its scan order and `tender_history`: rows are
   * stored under their own id at a version of at least 1, the scan order
   * lists exactly the live rows, each once, the history of a tender at version n holds
   * the versions 1..n-1 in order, and history rows reference live tenders.
   */
  ghost predicate TenderTableValid(live: map<string, Tender>, order: seq<string>, history: seq<Tender>)
  {
    && (forall id :: id in live ==> live[id].id == id && live[id].version >= 1)
    && (forall i :: 0 <= i < |order| ==> order[i] in live)
    && (forall i, j :: 0 <= i < j < |order| ==> order[i] != order[j])
    && (forall id :: id in live ==> id in order)
    && (forall id :: id in live ==> VersionsOf(history, TenderKey, id) == Upto(live[id].version))
    && (forall i :: 0 <= i < |history| ==> history[i].id in live)
  }

  /** The same invariant for the `bid` table and `bid_history`. */
  ghost predicate BidTableValid(live: map<string, Bid>, order: seq<string>, history: seq<Bid>)
  {
    && (forall id :: id in live ==> live[id].id == id && live[id].version >= 1)
    && (forall i :: 0 <= i < |order| ==> order[i] in live)
    && (forall i, j :: 0 <= i < j < |order| ==> order[i] != order[j])
    && (forall id :: id in live ==> id in order)
    && (forall id :: id in live ==> VersionsOf(history, BidKey, id) == Upto(live[id].version))
    && (forall i :: 0 <= i < |history| ==> history[i].id in live)
  }

  /** Every bid references a live tender (bid.tender_id REFERENCES tender). */
  ghost predicate BidsReferenceTenders(bids: map<string, Bid>, tenders: map<string, Tender>)
  {
    forall id :: id in bids ==> bids[id].tenderId in tenders
  }

  /**
   * Snapshotting the live row of tender `id` and replacing it by a row one
   * version higher keeps the table invariant.
   */
  lemma TenderCommitKeepsValid(live: map<string, Tender>, order: seq<string>, history: seq<Tender>,
                               id: string, updated: Tender)
    requires TenderTableValid(live, order, history)
    requires id in live && updated.id == id && updated.version == live[id].version + 1
    ensures TenderTableValid(live[id := updated], order, history + [live[id]])
  {
    TenderHistoryAfterCommit(history, live, id, updated);
    var history' := history + [live[id]];
    assert forall i :: 0 <= i < |history'| ==> history'[i].id in live;
  }

  /** The history part of TenderCommitKeepsValid. */
  lemma TenderHistoryAfterCommit(history: seq<Tender>, live: map<string, Tender>, id: string, updated: Tender)
    requires id in live && live[id].id == id && live[id].version >= 1
    requires updated.version == live[id].version + 1
    requires forall k :: k in live ==> VersionsOf(history, TenderKey, k) == Upto(live[k].version)
    ensures forall k :: k in live[id := updated] ==>
      VersionsOf(history + [live[id]], TenderKey, k) == Upto(live[id := updated][k].version)
  {
    forall k | k in live[id := updated]
      ensures VersionsOf(history + [live[id]], TenderKey, k) == Upto(live[id := updated][k].version)
    {
      VersionsOfAppend(history, TenderKey, k, live[id]);
      if k == id {
        assert Upto(updated.version) == Upto(live[id].version) + [live[id].version];
      }
    }
  }

  /** Inserting a fresh tender at version 1 keeps the table invariant. */
  lemma TenderInsertKeepsValid(live: map<string, Tender>, order: seq<string>, history: seq<Tender>, t: Tender)
    requires TenderTableValid(live, order, history)
    requires t.id !in live && t.version == 1
    ensures TenderTableValid(live[t.id := t], order + [t.id], history)
  {
    VersionsOfAbsent(history, TenderKey, t.id);
  }

  /** The bid counterpart of TenderCommitKeepsValid. */
  lemma BidCommitKeepsValid(live: map<string, Bid>, order: seq<string>, history: seq<Bid>,
                            id: string, updated: Bid)
    requires BidTableValid(live, order, history)
    requires id in live && updated.id == id && updated.version == live[id].version + 1
    ensures BidTableValid(live[id := updated], order, history + [live[id]])
  {
    BidHistoryAfterCommit(history, live, id, updated);
    var history' := history + [live[id]];
    assert forall i :: 0 <= i < |history'| ==> history'[i].id in live;
  }

  /** The history part of BidCommitKeepsValid. */
  lemma BidHistoryAfterCommit(history: seq<Bid>, live: map<string, Bid>, id: string, updated: Bid)
    requires id in live && live[id].id == id && live[id].version >= 1
    requires updated.version == live[id].version + 1
    requires forall k :: k in live ==> VersionsOf(history, BidKey, k) == Upto(live[k].version)
    ensures forall k :: k in live[id := updated] ==>
      VersionsOf(history + [live[id]], BidKey, k) == Upto(live[id := updated][k].version)
  {
    forall k | k in live[id := updated]
      ensures VersionsOf(history + [live[id]], BidKey, k) == Upto(live[id := updated][k].version)
    {
      VersionsOfAppend(history, BidKey, k, live[id]);
      if k == id {
        assert Upto(updated.version) == Upto(live[id].version) + [live[id].version];
      }
    }
  }

  /** The bid counterpart of TenderInsertKeepsValid. */
  lemma BidInsertKeepsValid(live: map<string, Bid>, order: seq<string>, history: seq<Bid>, b: Bid)
    requires BidTableValid(live, order, history)
    requires b.id !in live && b.version == 1
    ensures BidTableValid(live[b.id := b], order + [b.id], history)
  {
    VersionsOfAbsent(history, BidKey, b.id);
  }

  class DB {
    // Tables the storage layer only reads.
    const employees: seq<Employee>
    const memberships: seq<Membership>
    // Tables it writes.
    var tenders: map<string, Tender>
    var bids: map<string, Bid>
    var tenderOrder: seq<string>    // scan order of the `tender` table
    var bidOrder: seq<string>       // scan order of the `bid` table
    var tenderHistory: seq<Tender>  // `tender_history`, a row per snapshot
    var bidHistory: seq<Bid>        // `bid_history`
    var decisions: seq<Decision>
    var reviews: seq<Review>

    // ---------------------------------------------------------------- invariant

    /** Employee ids are a primary key and usernames are UNIQUE. */
    ghost predicate EmployeesUnique()
    {
      forall i, j :: 0 <= i < j < |employees| ==>
        employees[i].id != employees[j].id && employees[i].username != employees[j].username
    }

    ghost predicate Valid()
      reads this`tenders, this`bids, this`tenderOrder, this`bidOrder, this`tenderHistory, this`bidHistory
    {
      && EmployeesUnique()
      && TenderTableValid(tenders, tenderOrder, tenderHistory)
      && BidTableValid(bids, bidOrder, bidHistory)
      && BidsReferenceTenders(bids, tenders)
    }

    /** A database with the given staff and memberships and nothing else yet. */
    constructor (employees: seq<Employee>, memberships: seq<Membership>)
      requires forall i, j :: 0 <= i < j < |employees| ==>
        employees[i].id != employees[j].id && employees[i].username != employees[j].username
      ensures Valid()
      ensures this.employees == employees && this.memberships == memberships
      ensures tenders == map[] && bids == map[] && tenderOrder == [] && bidOrder == []
      ensures tenderHistory == [] && bidHistory == [] && decisions == [] && reviews == []
    {
      this.employees := employees;
      this.memberships := memberships;
      tenders, bids := map[], map[];
      tenderOrder, bidOrder := [], [];
      tenderHistory, bidHistory := [], [];
      decisions, reviews := [], [];
    }

    // --------------------------------------------------- existence and lookups

    /** GetUser: some employee has this username (COUNT(*) > 0). */
    predicate UserExists(username: string)
      ensures UserExists(username) <==> FirstWithUsername(employees, username).Some?
    {
      exists e | e in employees :: e.username == username
    }

    /** GetUserByID: some employee has this id (COUNT(*) > 0). */
    predicate UserIdExists(id: string)
      ensures UserIdExists(id) <==> FirstWithId(employees, id).Some?
    {
      exists e | e in employees :: e.id == id
    }

    /** GetUsernameByID: the username of employee `id`, "" when there is none. */
    function UsernameById(id: string): (u: string)
      ensures !UserIdExists(id) ==> u == ""
      ensures UserIdExists(id) ==> IsNamed(id, u)
    {
      match FirstWithId(employees, id)
      case None => ""
      case Some(e) => e.username
    }

    /** The employee id AddFeedbackBid reads for a username, "" when there is none. */
    function EmployeeIdOf(username: string): (id: string)
      ensures !UserExists(username) ==> id == ""
      ensures UserExists(username) ==> IsNamed(id, username)
    {
      match FirstWithUsername(employees, username)
      case None => ""
      case Some(e) => e.id
    }

    /** Employee `userId` exists and is called `username` (the joins on `employee`). */
    predicate IsNamed(userId: string, username: string)
    {
      exists e | e in employees :: e.id == userId && e.username == username
    }

    /** GetVersion on `tender_history`: COUNT(*) > 0, i.e. some row is stored for `id` at `version`. */
    predicate TenderVersionExists(id: string, version: int)
      reads this`tenderHistory
      ensures TenderVersionExists(id, version) <==> CountRows(tenderHistory, TenderKey, id, version) > 0
    {
      HasVersionIffCounted(tenderHistory, TenderKey, id, version);
      HasVersion(tenderHistory, TenderKey, id, version)
    }

    /** GetVersion on `bid_history`: COUNT(*) > 0. */
    predicate BidVersionExists(id: string, version: int)
      reads this`bidHistory
      ensures BidVersionExists(id, version) <==> CountRows(bidHistory, BidKey, id, version) > 0
    {
      HasVersionIffCounted(bidHistory, BidKey, id, version);
      HasVersion(bidHistory, BidKey, id, version)
    }

    /** TenderByID: the live row, or the zero value when there is none. */
    function TenderById(id: string): (t: Tender)
      reads this`tenders
      ensures id in tenders ==> t == tenders[id]
      ensures id !in tenders ==> t == EmptyTender
    {
      if id in tenders then tenders[id] else EmptyTender
    }

    /** BidByID: the live row, or the zero value when there is none. */
    function BidById(id: string): (b: Bid)
      reads this`bids
      ensures id in bids ==> b == bids[id]
      ensures id !in bids ==> b == EmptyBid
    {
      if id in bids then bids[id] else EmptyBid
    }

    // ------------------------------------------------------------ authorization

    /** Organizations of the membership rows whose user is called `username`. */
    function OrgsOf(username: string): set<string>
    {
      set m | m in memberships && IsNamed(m.userId, username) :: m.organizationId
    }

    /** Organizations of the membership rows whose user is employee `userId`. */
    function OrgsOfId(userId: string): set<string>
    {
      set m | m in memberships && m.userId == userId :: m.organizationId
    }

    /**
     * IsUserResponsibleForOrganization: the first employee called `username`
     * has a membership row for the organization.
     */
    predicate ResponsibleForOrganization(username: string, organizationId: string)
      ensures ResponsibleForOrganization(username, organizationId) ==> organizationId in OrgsOf(username)
    {
      match FirstWithUsername(employees, username)
      case None => false
      case Some(e) =>
        var m := Membership(organizationId, e.id);
        assert m in memberships ==> IsNamed(m.userId, username) && m.organizationId in OrgsOf(username);
        m in memberships
    }

    /**
     * The organization of the FIRST membership row (in table order) whose
     * user is called `username`; isUserResponsibleForTender reads only that row.
     */
    function FirstOrgIn(ms: seq<Membership>, username: string): (r: Option<string>)
      ensures r.Some? ==> exists m :: m in ms && IsNamed(m.userId, username) && m.organizationId == r.value
      ensures r.None? <==> forall m :: m in ms ==> !IsNamed(m.userId, username)
    {
      if ms == [] then None
      else if IsNamed(ms[0].userId, username) then Some(ms[0].organizationId)
      else FirstOrgIn(ms[1..], username)
    }

    /**
     * isUserResponsibleForTender: the tender exists and the organization of
     * the requester's first membership row is the tender's organization.
     */
    predicate ResponsibleForTender(username: string, tenderId: string)
      reads this`tenders
      ensures ResponsibleForTender(username, tenderId) ==>
        tenderId in tenders && tenders[tenderId].organizationId in OrgsOf(username)
    {
      tenderId in tenders && FirstOrgIn(memberships, username) == Some(tenders[tenderId].organizationId)
    }

    /**
     * isUserResponsibleToUpdateBid: the bid exists and the requester shares
     * an organization with the bid's author.
     */
    predicate ResponsibleToUpdateBid(username: string, bidId: string)
      reads this`bids
      ensures ResponsibleToUpdateBid(username, bidId) ==>
        bidId in bids && exists org :: org in OrgsOfId(bids[bidId].authorId) && org in OrgsOf(username)
    {
      bidId in bids && OrgsOfId(bids[bidId].authorId) * OrgsOf(username) != {}
    }

    /**
     * isUserResponsibleForBid: the bid and its author's employee row exist,
     * and the requester is the author, shares an organization with the
     * author, or is responsible for the bid's tender.
     */
    predicate ResponsibleForBid(username: string, bidId: string)
      reads this`tenders, this`bids
      ensures ResponsibleForBid(username, bidId) ==> bidId in bids && UserIdExists(bids[bidId].authorId)
      ensures bidId in bids && UserIdExists(bids[bidId].authorId) && ResponsibleToUpdateBid(username, bidId) ==>
        ResponsibleForBid(username, bidId)
      ensures bidId in bids && UserIdExists(bids[bidId].authorId)
              && ResponsibleForTender(username, bids[bidId].tenderId) ==>
        ResponsibleForBid(username, bidId)
    {
      bidId in bids &&
      match FirstWithId(employees, bids[bidId].authorId)
      case None => false
      case Some(author) =>
        || author.username == username
        || ResponsibleToUpdateBid(username, bidId)
        || ResponsibleForTender(username, bids[bidId].tenderId)
    }

    // --------------------------------------------------------------- GetStatus

    /**
     * GetStatus for a tender: the user is checked before the tender; a
     * Created or Closed status is shown only to a responsible requester.
     */
    function GetTenderStatus(tenderId: string, username: string): (r: Result<string>)
      reads this`tenders
      ensures !UserExists(username) ==> r == Err(ErrNoUser)
      ensures UserExists(username) && tenderId !in tenders ==> r == Err(ErrNoTender)
      ensures r.Ok? ==> tenderId in tenders && r.value == tenders[tenderId].status
      ensures UserExists(username) && tenderId in tenders ==>
        (r.Err? <==> tenders[tenderId].status in {Created, Closed} && !ResponsibleForTender(username, tenderId))
      ensures r.Err? ==> r.error in {ErrNoUser, ErrNoTender, ErrRights}
    {
      if !UserExists(username) then Err(ErrNoUser)
      else if tenderId !in tenders then Err(ErrNoTender)
      else
        var status := tenders[tenderId].status;
        if (status == Created || status == Closed) && !ResponsibleForTender(username, tenderId) then Err(ErrRights)
        else Ok(status)
    }

    /**
     * GetStatus for a bid: a Created or Canceled status is shown only to a
     * requester for whom isUserResponsibleForBid holds.
     */
    function GetBidStatus(bidId: string, username: string): (r: Result<string>)
      reads this`tenders, this`bids
      ensures !UserExists(username) ==> r == Err(ErrNoUser)
      ensures UserExists(username) && bidId !in bids ==> r == Err(ErrNoBid)
      ensures r.Ok? ==> bidId in bids && r.value == bids[bidId].status
      ensures UserExists(username) && bidId in bids ==>
        (r.Err? <==> bids[bidId].status in {Created, Canceled} && !ResponsibleForBid(username, bidId))
      ensures r.Err? ==> r.error in {ErrNoUser, ErrNoBid, ErrRights}
    {
      if !UserExists(username) then Err(ErrNoUser)
      else if bidId !in bids then Err(ErrNoBid)
      else
        var status := bids[bidId].status;
        if (status == Created || status == Canceled) && !ResponsibleForBid(username, bidId) then Err(ErrRights)
        else Ok(status)
    }

    // ------------------------------------------------------------------ guards

    /** The checks of EditTender and of UpdateStatus on a tender, in order. */
    function TenderEditCheck(username: string, tenderId: string): (r: Option<StorageError>)
      reads this`tenders
      ensures r.None? <==> UserExists(username) && ResponsibleForTender(username, tenderId)
      ensures r.Some? ==> r.value == ErrNoUser || r.value == ErrNoTender || r.value == ErrRights
      ensures r == Some(ErrNoTender) <==> UserExists(username) && tenderId !in tenders
      ensures !UserExists(username) ==> r == Some(ErrNoUser)
      ensures UserExists(username) && tenderId in tenders && !ResponsibleForTender(username, tenderId) ==>
        r == Some(ErrRights)
    {
      if !UserExists(username) then Some(ErrNoUser)
      else if tenderId !in tenders then Some(ErrNoTender)
      else if !ResponsibleForTender(username, tenderId) then Some(ErrRights)
      else None
    }

    /** The checks of EditBid and of UpdateStatus on a bid, in order. */
    function BidEditCheck(username: string, bidId: string): (r: Option<StorageError>)
      reads this`bids
      ensures r.None? <==> UserExists(username) && ResponsibleToUpdateBid(username, bidId)
      ensures r.Some? ==> r.value == ErrNoUser || r.value == ErrNoBid || r.value == ErrRights
      ensures r == Some(ErrNoBid) <==> UserExists(username) && bidId !in bids
      ensures !UserExists(username) ==> r == Some(ErrNoUser)
      ensures UserExists(username) && bidId in bids && !ResponsibleToUpdateBid(username, bidId) ==>
        r == Some(ErrRights)
    {
      if !UserExists(username) then Some(ErrNoUser)
      else if bidId !in bids then Some(ErrNoBid)
      else if !ResponsibleToUpdateBid(username, bidId) then Some(ErrRights)
      else None
    }

    /** The checks of RollbackVersion on a tender: the version comes before rights. */
    function TenderRollbackCheck(username: string, tenderId: string, version: int): (r: Option<StorageError>)
      reads this`tenders, this`tenderHistory
      ensures r.None? <==>
        UserExists(username) && TenderVersionExists(tenderId, version) && ResponsibleForTender(username, tenderId)
      ensures r == Some(ErrNoVersion) <==>
        UserExists(username) && tenderId in tenders && !TenderVersionExists(tenderId, version)
      ensures r == Some(ErrRights) ==> TenderVersionExists(tenderId, version)
      ensures !UserExists(username) ==> r == Some(ErrNoUser)
      ensures UserExists(username) && tenderId !in tenders ==> r == Some(ErrNoTender)
      ensures (&& UserExists(username) && tenderId in tenders && TenderVersionExists(tenderId, version)
               && !ResponsibleForTender(username, tenderId)) ==> r == Some(ErrRights)
    {
      if !UserExists(username) then Some(ErrNoUser)
      else if tenderId !in tenders then Some(ErrNoTender)
      else if !TenderVersionExists(tenderId, version) then Some(ErrNoVersion)
      else if !ResponsibleForTender(username, tenderId) then Some(ErrRights)
      else None
    }

    /** The checks of RollbackVersion on a bid. */
    function BidRollbackCheck(username: string, bidId: string, version: int): (r: Option<StorageError>)
      reads this`bids, this`bidHistory
      ensures r.None? <==>
        UserExists(username) && BidVersionExists(bidId, version) && ResponsibleToUpdateBid(username, bidId)
      ensures r == Some(ErrNoVersion) <==>
        UserExists(username) && bidId in bids && !BidVersionExists(bidId, version)
      ensures r == Some(ErrRights) ==> BidVersionExists(bidId, version)
      ensures !UserExists(username) ==> r == Some(ErrNoUser)
      ensures UserExists(username) && bidId !in bids ==> r == Some(ErrNoBid)
      ensures (&& UserExists(username) && bidId in bids && BidVersionExists(bidId, version)
               && !ResponsibleToUpdateBid(username, bidId)) ==> r == Some(ErrRights)
    {
      if !UserExists(username) then Some(ErrNoUser)
      else if bidId !in bids then Some(ErrNoBid)
      else if !BidVersionExists(bidId, version) then Some(ErrNoVersion)
      else if !ResponsibleToUpdateBid(username, bidId) then Some(ErrRights)
      else None
    }

    /**
     * The checks of SubmitDecisionBid and AddFeedbackBid: the requester must
     * be responsible for the bid's tender (the counterparty, not the author).
     */
    function CounterpartyCheck(username: string, bidId: string): (r: Option<StorageError>)
      reads this`tenders, this`bids
      ensures r.None? <==>
        UserExists(username) && bidId in bids && ResponsibleForTender(username, bids[bidId].tenderId)
      ensures r.None? ==> bids[bidId].tenderId in tenders
      ensures r.Some? ==> r.value == ErrNoUser || r.value == ErrNoBid || r.value == ErrRights
      ensures !UserExists(username) ==> r == Some(ErrNoUser)
      ensures UserExists(username) && bidId !in bids ==> r == Some(ErrNoBid)
      ensures UserExists(username) && bidId in bids && !ResponsibleForTender(username, bids[bidId].tenderId) ==>
        r == Some(ErrRights)
    {
      if !UserExists(username) then Some(ErrNoUser)
      else if bidId !in bids then Some(ErrNoBid)
      else if !ResponsibleForTender(username, bids[bidId].tenderId) then Some(ErrRights)
      else None
    }

    // --------------------------------------------------------- history writes

    /**
     * Snapshot the live row of tender `tenderId` into tender_history at its
     * current version, then replace the live row by `updated`.
     */
    method CommitTender(tenderId: string, updated: Tender)
      requires Valid()
      requires tenderId in tenders
      requires updated.id == tenderId && updated.version == tenders[tenderId].version + 1
      modifies this`tenders, this`tenderHistory
      ensures Valid()
      ensures tenderHistory == old(tenderHistory) + [old(tenders[tenderId])]
      ensures tenders == old(tenders)[tenderId := updated]
    {
      TenderCommitKeepsValid(tenders, tenderOrder, tenderHistory, tenderId, updated);
      var current := tenders[tenderId];
      tenderHistory := tenderHistory + [current];
      tenders := tenders[tenderId := updated];
    }

    /** The bid counterpart of CommitTender. */
    method CommitBid(bidId: string, updated: Bid)
      requires Valid()
      requires bidId in bids
      requires updated.id == bidId && updated.version == bids[bidId].version + 1
      requires updated.tenderId == bids[bidId].tenderId
      modifies this`bids, this`bidHistory
      ensures Valid()
      ensures bidHistory == old(bidHistory) + [old(bids[bidId])]
      ensures bids == old(bids)[bidId := updated]
    {
      BidCommitKeepsValid(bids, bidOrder, bidHistory, bidId, updated);
      var current := bids[bidId];
      bidHistory := bidHistory + [current];
      bids := bids[bidId := updated];
    }

    // ---------------------------------------------------------------- creation

    /**
     * Add, tender branch: the creator must exist and be responsible for the
     * tender's organization. The handler passes a fresh id and version 1.
     */
    method AddTender(tender: Tender, username: string, now: Timestamp) returns (r: Outcome)
      requires Valid()
      requires tender.id !in tenders && tender.version == 1
      modifies this`tenders, this`tenderOrder
      ensures Valid()
      ensures !UserExists(username) ==> r == Fail(ErrNoUser)
      ensures UserExists(username) && !ResponsibleForOrganization(username, tender.organizationId) ==> r == Fail(ErrRights)
      ensures r.Fail? ==> tenders == old(tenders) && tenderOrder == old(tenderOrder)
      ensures UserExists(username) && ResponsibleForOrganization(username, tender.organizationId) ==>
        && r == Pass
        && tenders == old(tenders)[tender.id := tender.(updatedAt := now)]
        && tenderOrder == old(tenderOrder) + [tender.id]
    {
      if !UserExists(username) {
        return Fail(ErrNoUser);
      }
      if !ResponsibleForOrganization(username, tender.organizationId) {
        return Fail(ErrRights);
      }
      TenderInsertKeepsValid(tenders, tenderOrder, tenderHistory, tender.(updatedAt := now));
      tenders := tenders[tender.id := tender.(updatedAt := now)];
      tenderOrder := tenderOrder + [tender.id];
      r := Pass;
    }

    /**
     * Add, bid branch. The actor is given by employee id. The bid is refused
     * with ErrRights when the actor IS responsible for the tender, and that
     * test comes before the test that the tender exists.
     */
    method AddBid(bid: Bid, actorId: string, now: Timestamp) returns (r: Outcome)
      requires Valid()
      requires bid.id !in bids && bid.version == 1
      modifies this`bids, this`bidOrder
      ensures Valid()
      ensures !UserIdExists(actorId) ==> r == Fail(ErrNoUser)
      ensures UserIdExists(actorId) && ResponsibleForTender(UsernameById(actorId), bid.tenderId) ==> r == Fail(ErrRights)
      ensures (UserIdExists(actorId) && !ResponsibleForTender(UsernameById(actorId), bid.tenderId)
               && bid.tenderId !in tenders) ==> r == Fail(ErrNoTender)
      ensures r.Fail? ==> bids == old(bids) && bidOrder == old(bidOrder)
      ensures (UserIdExists(actorId) && !ResponsibleForTender(UsernameById(actorId), bid.tenderId)
               && bid.tenderId in tenders) ==>
        && r == Pass
        && bids == old(bids)[bid.id := bid.(updatedAt := now)]
        && bidOrder == old(bidOrder) + [bid.id]
    {
      if !UserIdExists(actorId) {
        return Fail(ErrNoUser);
      }
      if ResponsibleForTender(UsernameById(actorId), bid.tenderId) {
        return Fail(ErrRights);
      }
      if bid.tenderId !in tenders {
        return Fail(ErrNoTender);
      }
      BidInsertKeepsValid(bids, bidOrder, bidHistory, bid.(updatedAt := now));
      bids := bids[bid.id := bid.(updatedAt := now)];
      bidOrder := bidOrder + [bid.id];
      r := Pass;
    }

    // ----------------------------------------------------------------- edits

    /**
     * EditTender: after the checks, snapshot the live row and write the
     * partial edit with the version one higher; return the row read back.
     */
    method EditTender(tenderId: string, username: string, tenderName: string, description: string,
                      serviceType: string, status: string, now: Timestamp) returns (r: Result<Tender>)
      requires Valid()
      modifies this`tenders, this`tenderHistory
      ensures Valid()
      ensures old(TenderEditCheck(username, tenderId)).Some? ==>
        && r == Err(old(TenderEditCheck(username, tenderId)).value)
        && tenders == old(tenders) && tenderHistory == old(tenderHistory)
      ensures old(TenderEditCheck(username, tenderId)).None? ==>
        && tenderId in old(tenders)
        && r == Ok(ApplyTenderEdit(old(tenders[tenderId]), tenderName, description, serviceType, status, now))
        && tenderHistory == old(tenderHistory) + [old(tenders[tenderId])]
        && tenders == old(tenders)[tenderId := r.value]
    {
      if !UserExists(username) {
        return Err(ErrNoUser);
      }
      if tenderId !in tenders {
        return Err(ErrNoTender);
      }
      if !ResponsibleForTender(username, tenderId) {
        return Err(ErrRights);
      }
      var edited := ApplyTenderEdit(tenders[tenderId], tenderName, description, serviceType, status, now);
      CommitTender(tenderId, edited);
      r := Ok(TenderById(tenderId));
    }

    /** EditBid: as EditTender, authorized by sharing an organization with the author. */
    method EditBid(bidId: string, username: string, bidName: string, description: string,
                   status: string, now: Timestamp) returns (r: Result<Bid>)
      requires Valid()
      modifies this`bids, this`bidHistory
      ensures Valid()
      ensures old(BidEditCheck(username, bidId)).Some? ==>
        && r == Err(old(BidEditCheck(username, bidId)).value)
        && bids == old(bids) && bidHistory == old(bidHistory)
      ensures old(BidEditCheck(username, bidId)).None? ==>
        && bidId in old(bids)
        && r == Ok(ApplyBidEdit(old(bids[bidId]), bidName, description, status, now))
        && bidHistory == old(bidHistory) + [old(bids[bidId])]
        && bids == old(bids)[bidId := r.value]
    {
      if !UserExists(username) {
        return Err(ErrNoUser);
      }
      if bidId !in bids {
        return Err(ErrNoBid);
      }
      if !ResponsibleToUpdateBid(username, bidId) {
        return Err(ErrRights);
      }
      var edited := ApplyBidEdit(bids[bidId], bidName, description, status, now);
      CommitBid(bidId, edited);
      r := Ok(BidById(bidId));
    }

    /**
     * UpdateStatus on a tender: the same checks as EditTender, then snapshot
     * and set the status, whatever it was before (no transition is refused).
     */
    method UpdateTenderStatus(tenderId: string, status: string, username: string, now: Timestamp)
      returns (r: Result<Tender>)
      requires Valid()
      modifies this`tenders, this`tenderHistory
      ensures Valid()
      ensures old(TenderEditCheck(username, tenderId)).Some? ==>
        && r == Err(old(TenderEditCheck(username, tenderId)).value)
        && tenders == old(tenders) && tenderHistory == old(tenderHistory)
      ensures old(TenderEditCheck(username, tenderId)).None? ==>
        && tenderId in old(tenders)
        && r == Ok(WithStatus(old(tenders[tenderId]), status, now))
        && tenderHistory == old(tenderHistory) + [old(tenders[tenderId])]
        && tenders == old(tenders)[tenderId := r.value]
    {
      if !UserExists(username) {
        return Err(ErrNoUser);
      }
      if tenderId !in tenders {
        return Err(ErrNoTender);
      }
      if !ResponsibleForTender(username, tenderId) {
        return Err(ErrRights);
      }
      var current := tenders[tenderId];
      CommitTender(tenderId, WithStatus(current, status, now));
      r := Ok(TenderById(tenderId));
    }

    /** UpdateStatus on a bid: authorized like EditBid; any status may be set. */
    method UpdateBidStatus(bidId: string, status: string, username: string, now: Timestamp)
      returns (r: Result<Bid>)
      requires Valid()
      modifies this`bids, this`bidHistory
      ensures Valid()
      ensures old(BidEditCheck(username, bidId)).Some? ==>
        && r == Err(old(BidEditCheck(username, bidId)).value)
        && bids == old(bids) && bidHistory == old(bidHistory)
      ensures old(BidEditCheck(username, bidId)).None? ==>
        && bidId in old(bids)
        && r == Ok(WithBidStatus(old(bids[bidId]), status, now))
        && bidHistory == old(bidHistory) + [old(bids[bidId])]
        && bids == old(bids)[bidId := r.value]
    {
      if !UserExists(username) {
        return Err(ErrNoUser);
      }
      if bidId !in bids {
        return Err(ErrNoBid);
      }
      if !ResponsibleToUpdateBid(username, bidId) {
        return Err(ErrRights);
      }
      var current := bids[bidId];
      CommitBid(bidId, WithBidStatus(current, status, now));
      r := Ok(BidById(bidId));
    }

    // ---------------------------------------------------------------- rollback

    /**
     * RollbackVersion on a tender: read the snapshot at `version` and replay
     * its fields through EditTender, whose error is discarded. The result is
     * a new version, one above the current one; the counter is never reset.
     */
    method RollbackTender(tenderId: string, version: int, username: string, now: Timestamp)
      returns (r: Result<Tender>)
      requires Valid()
      modifies this`tenders, this`tenderHistory
      ensures Valid()
      ensures UserExists(username) && tenderId in old(tenders) ==>
        (r == Err(ErrNoVersion) <==> !(1 <= version < old(tenders[tenderId].version)))
      ensures old(TenderRollbackCheck(username, tenderId, version)).Some? ==>
        && r == Err(old(TenderRollbackCheck(username, tenderId, version)).value)
        && tenders == old(tenders) && tenderHistory == old(tenderHistory)
      ensures old(TenderRollbackCheck(username, tenderId, version)).None? ==>
        && tenderId in old(tenders)
        && old(FindVersion(tenderHistory, TenderKey, tenderId, version)).Some?
        && var snap := old(FindVersion(tenderHistory, TenderKey, tenderId, version)).value;
        && snap.id == tenderId && snap.version == version
        && r == Ok(ApplyTenderEdit(old(tenders[tenderId]), snap.name, snap.description, snap.serviceType, snap.status, now))
        && r.value.version == old(tenders[tenderId].version) + 1
        && tenderHistory == old(tenderHistory) + [old(tenders[tenderId])]
        && tenders == old(tenders)[tenderId := r.value]
    {
      if !UserExists(username) {
        return Err(ErrNoUser);
      }
      if tenderId !in tenders {
        return Err(ErrNoTender);
      }
      VersionExistsIff(tenderHistory, TenderKey, tenderId, tenders[tenderId].version, version);
      if !TenderVersionExists(tenderId, version) {
        return Err(ErrNoVersion);
      }
      if !ResponsibleForTender(username, tenderId) {
        return Err(ErrRights);
      }
      var snap := FindVersion(tenderHistory, TenderKey, tenderId, version).value;
      var edited := EditTender(tenderId, username, snap.name, snap.description, snap.serviceType, snap.status, now);
      r := Ok(if edited.Ok? then edited.value else EmptyTender);
    }

    /** RollbackVersion on a bid: replays name, description and status through EditBid. */
    method RollbackBid(bidId: string, version: int, username: string, now: Timestamp)
      returns (r: Result<Bid>)
      requires Valid()
      modifies this`bids, this`bidHistory
      ensures Valid()
      ensures UserExists(username) && bidId in old(bids) ==>
        (r == Err(ErrNoVersion) <==> !(1 <= version < old(bids[bidId].version)))
      ensures old(BidRollbackCheck(username, bidId, version)).Some? ==>
        && r == Err(old(BidRollbackCheck(username, bidId, version)).value)
        && bids == old(bids) && bidHistory == old(bidHistory)
      ensures old(BidRollbackCheck(username, bidId, version)).None? ==>
        && bidId in old(bids)
        && old(FindVersion(bidHistory, BidKey, bidId, version)).Some?
        && var snap := old(FindVersion(bidHistory, BidKey, bidId, version)).value;
        && snap.id == bidId && snap.version == version
        && r == Ok(ApplyBidEdit(old(bids[bidId]), snap.name, snap.description, snap.status, now))
        && r.value.version == old(bids[bidId].version) + 1
        && bidHistory == old(bidHistory) + [old(bids[bidId])]
        && bids == old(bids)[bidId := r.value]
    {
      if !UserExists(username) {
        return Err(ErrNoUser);
      }
      if bidId !in bids {
        return Err(ErrNoBid);
      }
      VersionExistsIff(bidHistory, BidKey, bidId, bids[bidId].version, version);
      if !BidVersionExists(bidId, version) {
        return Err(ErrNoVersion);
      }
      if !ResponsibleToUpdateBid(username, bidId) {
        return Err(ErrRights);
      }
      var snap := FindVersion(bidHistory, BidKey, bidId, version).value;
      var edited := EditBid(bidId, username, snap.name, snap.description, snap.status, now);
      r := Ok(if edited.Ok? then edited.value else EmptyBid);
    }

    // ------------------------------------------------------ decision, feedback

    /**
     * SubmitDecisionBid: record the decision (duplicates allowed); an
     * "Approved" decision also closes the bid's tender through UpdateStatus.
     * The bid itself is untouched and is returned as read before the decision.
     */
    method SubmitDecisionBid(bidId: string, decision: string, username: string,
                             decisionId: string, now: Timestamp) returns (r: Result<Bid>)
      requires Valid()
      modifies this`decisions, this`tenders, this`tenderHistory
      ensures Valid()
      ensures old(CounterpartyCheck(username, bidId)).Some? ==>
        && r == Err(old(CounterpartyCheck(username, bidId)).value)
        && decisions == old(decisions) && tenders == old(tenders) && tenderHistory == old(tenderHistory)
      ensures old(CounterpartyCheck(username, bidId)).None? ==>
        bidId in bids && r == Ok(bids[bidId]) && bids[bidId].tenderId in old(tenders)
      ensures old(CounterpartyCheck(username, bidId)).None? ==>
        decisions == old(decisions) + [Decision(decisionId, bidId, decision, now, username)]
      ensures old(CounterpartyCheck(username, bidId)).None? && decision == Approved ==>
        && tenders == old(tenders)[bids[bidId].tenderId := WithStatus(old(tenders[bids[bidId].tenderId]), Closed, now)]
        && tenderHistory == old(tenderHistory) + [old(tenders[bids[bidId].tenderId])]
      ensures decision != Approved ==> tenders == old(tenders) && tenderHistory == old(tenderHistory)
    {
      if !UserExists(username) {
        return Err(ErrNoUser);
      }
      if bidId !in bids {
        return Err(ErrNoBid);
      }
      var bid := BidById(bidId);
      var tenderId := bid.tenderId;
      if !ResponsibleForTender(username, tenderId) {
        return Err(ErrRights);
      }
      decisions := decisions + [Decision(decisionId, bidId, decision, now, username)];
      if decision == Approved {
        assert TenderEditCheck(username, tenderId) == None;
        var _ := UpdateTenderStatus(tenderId, Closed, username, now);
      }
      r := Ok(bid);
    }

    /**
     * AddFeedbackBid: only a requester responsible for the bid's tender may
     * review it; the review is stored against the bid's author.
     */
    method AddFeedbackBid(bidId: string, feedback: string, username: string,
                          reviewId: string, now: Timestamp) returns (r: Result<Bid>)
      requires Valid()
      modifies this`reviews
      ensures Valid()
      ensures old(CounterpartyCheck(username, bidId)).Some? ==>
        r == Err(old(CounterpartyCheck(username, bidId)).value) && reviews == old(reviews)
      ensures old(CounterpartyCheck(username, bidId)).None? ==>
        && bidId in bids
        && r == Ok(bids[bidId])
        && reviews == old(reviews) + [Review(reviewId, bidId, feedback, EmployeeIdOf(username), now, bids[bidId].authorId)]
    {
      if !UserExists(username) {
        return Err(ErrNoUser);
      }
      if bidId !in bids {
        return Err(ErrNoBid);
      }
      var bid := BidById(bidId);
      if !ResponsibleForTender(username, bid.tenderId) {
        return Err(ErrRights);
      }
      var reviewer := EmployeeIdOf(username);
      reviews := reviews + [Review(reviewId, bidId, feedback, reviewer, now, bid.authorId)];
      r := Ok(bid);
    }

    // ----------------------------------------------------------------- facts

    /**
     * Entities are created at version 1 and every write snapshots the row at
     * its current version before bumping it; so the history of a tender now
     * at version n holds each of the versions 1..n-1 exactly once and nothing
     * else.
     */
    lemma TenderHistoryExactlyOnce(tenderId: string, v: int)
      requires Valid() && tenderId in tenders
      ensures CountRows(tenderHistory, TenderKey, tenderId, v) == if 1 <= v < tenders[tenderId].version then 1 else 0
    {
      HistoryHoldsEachVersionOnce(tenderHistory, TenderKey, tenderId, tenders[tenderId].version, v);
    }

    /** The bid counterpart of TenderHistoryExactlyOnce. */
    lemma BidHistoryExactlyOnce(bidId: string, v: int)
      requires Valid() && bidId in bids
      ensures CountRows(bidHistory, BidKey, bidId, v) == if 1 <= v < bids[bidId].version then 1 else 0
    {
      HistoryHoldsEachVersionOnce(bidHistory, BidKey, bidId, bids[bidId].version, v);
    }

    /** GetVersion on a tender succeeds exactly for the versions the tender has left behind. */
    lemma TenderVersionExistsIff(tenderId: string, version: int)
      requires Valid() && tenderId in tenders
      ensures TenderVersionExists(tenderId, version) <==> 1 <= version < tenders[tenderId].version
    {
      VersionExistsIff(tenderHistory, TenderKey, tenderId, tenders[tenderId].version, version);
    }

    /** GetVersion on a bid. */
    lemma BidVersionExistsIff(bidId: string, version: int)
      requires Valid() && bidId in bids
      ensures BidVersionExists(bidId, version) <==> 1 <= version < bids[bidId].version
    {
      VersionExistsIff(bidHistory, BidKey, bidId, bids[bidId].version, version);
    }

    /**
     * One result row of the join in isUserResponsibleToUpdateBid: membership
     * `a` of the bid's author and membership `m` of an employee called
     * `username` name the same organization.
     */
    predicate JoinedRows(username: string, bidId: string, a: Membership, m: Membership)
      reads this`bids
    {
      && bidId in bids && a in memberships && m in memberships
      && a.userId == bids[bidId].authorId && m.organizationId == a.organizationId
      && IsNamed(m.userId, username)
    }

    /** isUserResponsibleToUpdateBid holds exactly when its join has a row. */
    lemma ResponsibleToUpdateBidIsJoin(username: string, bidId: string)
      ensures ResponsibleToUpdateBid(username, bidId) <==> exists a, m :: JoinedRows(username, bidId, a, m)
    {
      if ResponsibleToUpdateBid(username, bidId) {
        var org :| org in OrgsOfId(bids[bidId].authorId) * OrgsOf(username);
        var a :| a in memberships && a.userId == bids[bidId].authorId && a.organizationId == org;
        var m :| m in memberships && IsNamed(m.userId, username) && m.organizationId == org;
        assert JoinedRows(username, bidId, a, m);
      }
      if exists a, m :: JoinedRows(username, bidId, a, m) {
        var a, m :| JoinedRows(username, bidId, a, m);
        assert a.organizationId in OrgsOfId(bids[bidId].authorId);
        assert m.organizationId in OrgsOf(username);
        assert a.organizationId in OrgsOfId(bids[bidId].authorId) * OrgsOf(username);
      }
    }

    /** IsUserResponsibleForOrganization holds exactly for the organizations the user belongs to. */
    lemma ResponsibleForOrganizationIff(username: string, organizationId: string)
      requires EmployeesUnique()
      ensures ResponsibleForOrganization(username, organizationId) <==> organizationId in OrgsOf(username)
    {
      if organizationId in OrgsOf(username) {
        var m :| m in memberships && IsNamed(m.userId, username) && m.organizationId == organizationId;
        var e :| e in employees && e.id == m.userId && e.username == username;
        var first := FirstWithUsername(employees, username).value;
        var i :| 0 <= i < |employees| && employees[i] == e;
        var j :| 0 <= j < |employees| && employees[j] == first;
        assert i == j;
        assert Membership(organizationId, first.id) == m;
      }
    }

    /** isUserResponsibleForTender never grants rights outside the user's organizations. */
    lemma ResponsibleForTenderSound(username: string, tenderId: string)
      requires ResponsibleForTender(username, tenderId)
      ensures tenders[tenderId].organizationId in OrgsOf(username)
    {
      var m :| m in memberships && IsNamed(m.userId, username) && m.organizationId == tenders[tenderId].organizationId;
    }

    /** For a member of a single organization, the first-row test is exact. */
    lemma ResponsibleForTenderSingleOrganization(username: string, tenderId: string, organizationId: string)
      requires OrgsOf(username) == {organizationId}
      ensures ResponsibleForTender(username, tenderId) <==>
        tenderId in tenders && tenders[tenderId].organizationId == organizationId
    {
      assert organizationId in OrgsOf(username);
      var member :| member in memberships && IsNamed(member.userId, username) && member.organizationId == organizationId;
      var r := FirstOrgIn(memberships, username);
      assert r.Some?;
      var m :| m in memberships && IsNamed(m.userId, username) && m.organizationId == r.value;
      assert r.value in OrgsOf(username);
    }

    /**
     * Only the first membership row counts: a member of two organizations is
     * never responsible for tenders of both.
     */
    lemma ResponsibleForTenderFirstRowOnly(username: string, tender1: string, tender2: string)
      requires tender1 in tenders && tender2 in tenders
      requires tenders[tender1].organizationId != tenders[tender2].organizationId
      ensures !(ResponsibleForTender(username, tender1) && ResponsibleForTender(username, tender2))
    {
    }

    /**
     * Once the bid's author resolves to an employee, isUserResponsibleForBid
     * is the disjunction of its three grounds.
     */
    lemma ResponsibleForBidIff(username: string, bidId: string)
      requires bidId in bids && UserIdExists(bids[bidId].authorId)
      ensures ResponsibleForBid(username, bidId) <==>
        || UsernameById(bids[bidId].authorId) == username
        || ResponsibleToUpdateBid(username, bidId)
        || ResponsibleForTender(username, bids[bidId].tenderId)
    {
      var e :| e in employees && e.id == bids[bidId].authorId;
      assert FirstWithId(employees, bids[bidId].authorId).Some?;
    }

    /** Every Published tender of a requested service type is a row of the GetTenders query. */
    lemma PublishedTendersComplete(serviceTypes: seq<string>, tenderId: string)
      requires Valid() && tenderId in tenders
      requires tenders[tenderId].status == Published
      requires |serviceTypes| == 0 || tenders[tenderId].serviceType in serviceTypes
      ensures tenders[tenderId] in PublishedTenders(serviceTypes)
    {
      var i :| 0 <= i < |tenderOrder| && tenderOrder[i] == tenderId;
      assert tenders[tenderId] in TenderRows();
    }

    /** GetMy lists a tender exactly when the user belongs to its organization. */
    lemma MyTendersAreMembershipTenders(username: string, tenderId: string)
      requires Valid() && tenderId in tenders
      ensures tenders[tenderId] in MyTenderRows(username) <==> tenders[tenderId].organizationId in OrgsOf(username)
    {
      var i :| 0 <= i < |tenderOrder| && tenderOrder[i] == tenderId;
      assert tenders[tenderId] in TenderRows();
    }

    // ---------------------------------------------------------------- listings

    /** Rows of `tender` in scan order. */
    function TenderRows(): seq<Tender>
      reads this
    {
      RowsOf(tenderOrder, tenders)
    }

    /** Rows of `bid` in scan order. */
    function BidRows(): seq<Bid>
      reads this
    {
      RowsOf(bidOrder, bids)
    }

    /** Under the table invariant a scan of `tender` yields each tender once. */
    lemma TenderRowsOnce()
      requires Valid()
      ensures forall i, j :: 0 <= i < j < |TenderRows()| ==> TenderRows()[i].id != TenderRows()[j].id
    {
      RowsOfOnce(tenderOrder, tenders, (t: Tender) => t.id);
    }

    /** Under the table invariant a scan of `bid` yields each bid once. */
    lemma BidRowsOnce()
      requires Valid()
      ensures forall i, j :: 0 <= i < j < |BidRows()| ==> BidRows()[i].id != BidRows()[j].id
    {
      RowsOfOnce(bidOrder, bids, (b: Bid) => b.id);
    }

    /** The query of GetTenders: Published tenders, of the given service types when any are given. */
    function PublishedTenders(serviceTypes: seq<string>): (rows: seq<Tender>)
      reads this
      ensures forall t :: t in rows ==>
        t in tenders.Values && t.status == Published && (|serviceTypes| > 0 ==> t.serviceType in serviceTypes)
    {
      Filter(TenderRows(), (t: Tender) => t.status == Published && (|serviceTypes| == 0 || t.serviceType in serviceTypes))
    }

    /** Number of membership rows joining organization `org` to an employee called `username`. */
    function MembershipCount(username: string, org: string): (n: nat)
      ensures n > 0 <==> org in OrgsOf(username)
      ensures n == |set i | 0 <= i < |memberships| && memberships[i].organizationId == org
                                                   && IsNamed(memberships[i].userId, username)|
    {
      var keep := (m: Membership) => m.organizationId == org && IsNamed(m.userId, username);
      var rows := Filter(memberships, keep);
      FilterCount(memberships, keep);
      assert AcceptedIndices(memberships, keep)
          == (set i | 0 <= i < |memberships| && memberships[i].organizationId == org
                                             && IsNamed(memberships[i].userId, username));
      assert org in OrgsOf(username) ==> rows != [] by {
        if org in OrgsOf(username) {
          var m :| m in memberships && IsNamed(m.userId, username) && m.organizationId == org;
          assert m in rows;
        }
      }
      assert rows != [] ==> org in OrgsOf(username) by {
        if rows != [] {
          assert rows[0] in rows;
        }
      }
      |rows|
    }

    /**
     * The join of GetMy for tenders over the rows listed in `order`: each
     * tender once per membership row tying its organization to `username`.
     */
    function MyTenderRowsIn(order: seq<string>, username: string): (rows: seq<Tender>)
      reads this
      ensures forall t :: t in rows <==> t in RowsOf(order, tenders) && t.organizationId in OrgsOf(username)
    {
      if order == [] then []
      else
        var init := order[..|order| - 1];
        var id := order[|order| - 1];
        var rest := MyTenderRowsIn(init, username);
        assert order == init + [id];
        if id in tenders then
          var n := MembershipCount(username, tenders[id].organizationId);
          assert n > 0 ==> Repeat(tenders[id], n)[0] == tenders[id];
          rest + Repeat(tenders[id], n)
        else rest
    }

    /** The query of GetMy for tenders, over the whole table. */
    function MyTenderRows(username: string): (rows: seq<Tender>)
      reads this
      ensures forall t :: t in rows ==> t in tenders.Values && t.organizationId in OrgsOf(username)
      ensures forall i :: 0 <= i < |tenderOrder| && tenderOrder[i] in tenders
                          && tenders[tenderOrder[i]].organizationId in OrgsOf(username) ==>
        tenders[tenderOrder[i]] in rows
    {
      MyTenderRowsIn(tenderOrder, username)
    }

    /** The query of GetMy for bids: bids whose author is called `username`. */
    function MyBidRows(username: string): (rows: seq<Bid>)
      reads this
      ensures forall b :: b in rows <==> b in BidRows() && IsNamed(b.authorId, username)
    {
      Filter(BidRows(), (b: Bid) => IsNamed(b.authorId, username))
    }

    /** The query of GetTenderBids: bids on the tender. */
    function BidsOfTender(tenderId: string): (rows: seq<Bid>)
      reads this
      ensures forall b :: b in rows <==> b in BidRows() && b.tenderId == tenderId
    {
      Filter(BidRows(), (b: Bid) => b.tenderId == tenderId)
    }

    /** The rows the filtering loop of GetTenderBids keeps. */
    function VisibleBids(rows: seq<Bid>, username: string): (kept: seq<Bid>)
      reads this
      ensures |kept| <= |rows|
      ensures forall b :: b in kept <==> b in rows && ResponsibleForBid(username, b.id)
    {
      if rows == [] then []
      else
        var init := rows[..|rows| - 1];
        var last := rows[|rows| - 1];
        assert rows == init + [last];
        VisibleBids(init, username) + (if ResponsibleForBid(username, last.id) then [last] else [])
    }

    /** The review query of GetFeedback: reviews whose bid author is called `username`. */
    function ReviewsAbout(username: string): (fs: seq<Feedback>)
      reads this
      ensures forall f :: f in fs ==>
        exists rv :: rv in reviews && IsNamed(rv.bidAuthorId, username) && f == Feedback(rv.id, rv.review, rv.createdAt)
      ensures forall rv :: rv in reviews && IsNamed(rv.bidAuthorId, username) ==>
        Feedback(rv.id, rv.review, rv.createdAt) in fs
    {
      var rs := Filter(reviews, (rv: Review) => IsNamed(rv.bidAuthorId, username));
      var fs := ToFeedback(rs);
      assert forall i :: 0 <= i < |fs| ==> rs[i] in rs;
      forall rv | rv in reviews && IsNamed(rv.bidAuthorId, username)
        ensures Feedback(rv.id, rv.review, rv.createdAt) in fs
      {
        assert rv in rs;
        var j :| 0 <= j < |rs| && rs[j] == rv;
        assert fs[j] == Feedback(rv.id, rv.review, rv.createdAt);
      }
      fs
    }

    /** GetTenders: one page of Published tenders, sorted by name. */
    method GetTenders(limit: nat, offset: nat, serviceTypes: seq<string>) returns (r: seq<Tender>)
      ensures SortedByName(r, TenderName)
      ensures multiset(r) == multiset(Window(PublishedTenders(serviceTypes), limit, offset))
      ensures |r| <= limit
      ensures forall t :: t in r ==>
        t in tenders.Values && t.status == Published && (|serviceTypes| > 0 ==> t.serviceType in serviceTypes)
    {
      var rows := Window(PublishedTenders(serviceTypes), limit, offset);
      r := SortedCopy(rows, TenderName);
      assert forall t :: t in r ==> t in multiset(rows);
    }

    /** GetMy for tenders: one page of the tenders of the user's organizations, sorted by name. */
    method GetMyTenders(limit: nat, offset: nat, username: string) returns (r: Result<seq<Tender>>)
      ensures r.Err? <==> !UserExists(username) && username != ""
      ensures r.Err? ==> r.error == ErrNoUser
      ensures r.Ok? ==> SortedByName(r.value, TenderName)
      ensures r.Ok? ==> multiset(r.value) == multiset(Window(MyTenderRows(username), limit, offset))
      ensures r.Ok? ==> forall t :: t in r.value ==> t in tenders.Values && t.organizationId in OrgsOf(username)
    {
      if !UserExists(username) && username != "" {
        return Err(ErrNoUser);
      }
      var rows := Window(MyTenderRows(username), limit, offset);
      var sorted := SortedCopy(rows, TenderName);
      assert forall t :: t in sorted ==> t in multiset(rows);
      r := Ok(sorted);
    }

    /** GetMy for bids: one page of the bids the user authored, sorted by name. */
    method GetMyBids(limit: nat, offset: nat, username: string) returns (r: Result<seq<Bid>>)
      ensures r.Err? <==> !UserExists(username) && username != ""
      ensures r.Err? ==> r.error == ErrNoUser
      ensures r.Ok? ==> SortedByName(r.value, BidName)
      ensures r.Ok? ==> multiset(r.value) == multiset(Window(MyBidRows(username), limit, offset))
      ensures r.Ok? ==> forall b :: b in r.value ==> b in bids.Values && IsNamed(b.authorId, username)
    {
      if !UserExists(username) && username != "" {
        return Err(ErrNoUser);
      }
      var rows := Window(MyBidRows(username), limit, offset);
      var sorted := SortedCopy(rows, BidName);
      assert forall b :: b in sorted ==> b in multiset(rows);
      r := Ok(sorted);
    }

    /** The row loop of GetTenderBids: keeps the bids the requester is responsible for. */
    method KeepVisible(rows: seq<Bid>, username: string) returns (kept: seq<Bid>)
      ensures kept == VisibleBids(rows, username)
    {
      kept := [];
      var i := 0;
      while i < |rows|
        invariant 0 <= i <= |rows|
        invariant kept == VisibleBids(rows[..i], username)
      {
        assert rows[..i + 1] == rows[..i] + [rows[i]];
        if ResponsibleForBid(username, rows[i].id) {
          kept := kept + [rows[i]];
        }
        i := i + 1;
      }
      assert rows[..i] == rows;
    }

    /**
     * GetTenderBids: a tender that is not Published is listed only to a
     * requester responsible for it; of one page of its bids, only those the
     * requester is responsible for are kept, and none kept is ErrNoBid.
     */
    method GetTenderBids(tenderId: string, username: string, limit: nat, offset: nat)
      returns (r: Result<seq<Bid>>)
      ensures !UserExists(username) ==> r == Err(ErrNoUser)
      ensures UserExists(username) && tenderId !in tenders ==> r == Err(ErrNoTender)
      ensures UserExists(username) && tenderId in tenders ==>
        (r == Err(ErrRights) <==> tenders[tenderId].status != Published && !ResponsibleForTender(username, tenderId))
      ensures UserExists(username) && tenderId in tenders
              && (tenders[tenderId].status == Published || ResponsibleForTender(username, tenderId)) ==>
        (r == Err(ErrNoBid) <==> VisibleBids(Window(BidsOfTender(tenderId), limit, offset), username) == [])
      ensures (&& UserExists(username) && tenderId in tenders
               && (tenders[tenderId].status == Published || ResponsibleForTender(username, tenderId))
               && VisibleBids(Window(BidsOfTender(tenderId), limit, offset), username) != []) ==> r.Ok?
      ensures r.Ok? ==> SortedByName(r.value, BidName)
      ensures r.Ok? ==>
        multiset(r.value) == multiset(VisibleBids(Window(BidsOfTender(tenderId), limit, offset), username))
      ensures r.Ok? ==> forall b :: b in r.value ==>
        b in bids.Values && b.tenderId == tenderId && ResponsibleForBid(username, b.id)
    {
      if !UserExists(username) {
        return Err(ErrNoUser);
      }
      if tenderId !in tenders {
        return Err(ErrNoTender);
      }
      var status := match GetTenderStatus(tenderId, username)
        case Ok(s) => s
        case Err(_) => "";
      if status != Published && !ResponsibleForTender(username, tenderId) {
        return Err(ErrRights);
      }
      var rows := Window(BidsOfTender(tenderId), limit, offset);
      var kept := KeepVisible(rows, username);
      if |kept| == 0 {
        return Err(ErrNoBid);
      }
      var sorted := SortedCopy(kept, BidName);
      assert forall b :: b in sorted ==> b in multiset(kept);
      r := Ok(sorted);
    }

    /**
     * GetFeedback: both users must exist, the tender must exist and the
     * author must be responsible for it; the requester must have a bid on the
     * tender among their GetMy bids, or ErrNoReviews. The page returned holds
     * the reviews whose bid author is the requester.
     */
    method GetFeedback(tenderId: string, authorUsername: string, requesterUsername: string,
                       limit: nat, offset: nat) returns (r: Result<seq<Feedback>>)
      ensures !UserExists(authorUsername) ==> r == Err(ErrNoUser)
      ensures UserExists(authorUsername) && !UserExists(requesterUsername) ==> r == Err(ErrNoUser)
      ensures UserExists(authorUsername) && UserExists(requesterUsername) && tenderId !in tenders ==>
        r == Err(ErrNoTender)
      ensures UserExists(authorUsername) && UserExists(requesterUsername) && tenderId in tenders ==>
        (r == Err(ErrRights) <==> !ResponsibleForTender(authorUsername, tenderId))
      ensures UserExists(authorUsername) && UserExists(requesterUsername)
              && ResponsibleForTender(authorUsername, tenderId) ==>
        (r == Err(ErrNoReviews) <==>
           forall b :: b in Window(MyBidRows(requesterUsername), MaxInt32, 0) ==> b.tenderId != tenderId)
      ensures UserExists(authorUsername) && UserExists(requesterUsername) && tenderId in tenders
              && ResponsibleForTender(authorUsername, tenderId)
              && (exists b :: b in Window(MyBidRows(requesterUsername), MaxInt32, 0) && b.tenderId == tenderId) ==>
        r.Ok?
      ensures r.Ok? ==> r.value == Window(ReviewsAbout(requesterUsername), limit, offset)
    {
      if !UserExists(authorUsername) {
        return Err(ErrNoUser);
      }
      if !UserExists(requesterUsername) {
        return Err(ErrNoUser);
      }
      if tenderId !in tenders {
        return Err(ErrNoTender);
      }
      if !ResponsibleForTender(authorUsername, tenderId) {
        return Err(ErrRights);
      }
      var mine := GetMyBids(MaxInt32, 0, requesterUsername);
      var requesterBids := if mine.Ok? then mine.value else [];
      var ok := HasBidOn(requesterBids, tenderId);
      ghost var fetched := Window(MyBidRows(requesterUsername), MaxInt32, 0);
      assert forall b :: b in requesterBids <==> b in fetched by {
        forall b ensures b in requesterBids <==> b in fetched {
          assert b in requesterBids <==> b in multiset(requesterBids);
          assert b in fetched <==> b in multiset(fetched);
        }
      }
      if !ok {
        return Err(ErrNoReviews);
      }
      r := Ok(Window(ReviewsAbout(requesterUsername), limit, offset));
    }
  }

  /** The `ok` loop of GetFeedback: some bid of `bs` is on tender `tenderId`. */
  method HasBidOn(bs: seq<Bid>, tenderId: string) returns (ok: bool)
    ensures ok <==> exists b :: b in bs && b.tenderId == tenderId
  {
    ok := false;
    var i := 0;
    while i < |bs|
      invariant 0 <= i <= |bs|
      invariant ok <==> exists k :: 0 <= k < i && bs[k].tenderId == tenderId
    {
      if bs[i].tenderId == tenderId {
        ok := true;
      }
      i := i + 1;
    }
  }

  /** sort.Slice on a freshly built slice: a name-ascending permutation of `rows`. */
  method SortedCopy<T>(rows: seq<T>, name: T -> string) returns (r: seq<T>)
    ensures SortedByName(r, name)
    ensures multiset(r) == multiset(rows)
    ensures |r| == |rows|
  {
    var a := new T[|rows|](i requires 0 <= i < |rows| => rows[i]);
    assert a[..] == rows;
    SortByName(a, name);
    r := a[..];
  }
}
