/** The catalog's request handlers that carry business rules: the access
    checks in front of the views, the staff renewal of a rental copy's
    due-back date, the two borrowed-copy listings and the home page's
    counters. Requests and responses are reduced to the caller, the request
    kind and a tagged response; `today` is a parameter. */
module Views {
  import opened Wrappers
  import opened Models
  import Forms

  /** The permission that renewal, the all-borrowed listing and every edit view demand. */
  const CanMarkReturned: string := "catalog.can_mark_returned"

  /** The renewal form proposes a due-back date three weeks ahead. */
  const ProposedRenewalDays: int := 21

  /** Listings show ten rows per page. */
  const PageSize: nat := 10

  const NumVisitsKey: string := "num_visits"

  // ---------------------------------------------------------------------
  // Callers and access checks

  /** The requesting user: anonymous, or a logged-in account with its effective permissions. */
  datatype Caller = Anonymous | Account(user: UserId, perms: set<string>)

  /** What an access check decides: go on, send to the login page, or refuse with 403. */
  datatype Gate = Admit | ToLogin | Deny

  /** Login required: anonymous callers are sent to the login page. */
  function LoginRequired(c: Caller): (g: Gate)
    ensures g != Deny
    ensures g == Admit <==> c.Account?
  {
    if c.Anonymous? then ToLogin else Admit
  }

  /** The permission check of the class-based views: an anonymous caller is sent
      to the login page, a logged-in caller without the permission is refused. */
  function PermissionRequired(c: Caller, perm: string): (g: Gate)
    ensures g == Admit <==> c.Account? && perm in c.perms
    ensures g == ToLogin <==> c.Anonymous?
  {
    if c.Anonymous? then ToLogin
    else if perm in c.perms then Admit
    else Deny
  }

  /** The renewal view's two decorators: login first, then the permission, refusing with 403.
      Together they decide exactly as the class-based permission check does. */
  function RenewGate(c: Caller): (g: Gate)
    ensures g == PermissionRequired(c, CanMarkReturned)
  {
    if LoginRequired(c) == ToLogin then ToLogin
    else if CanMarkReturned in c.perms then Admit
    else Deny
  }

  /** The create, update and delete views of screenwriters, directors and movies. */
  datatype EditView =
    | ScreenwriterCreate | ScreenwriterUpdate | ScreenwriterDelete
    | DirectorCreate | DirectorUpdate | DirectorDelete
    | MovieCreate | MovieUpdate | MovieDelete

  /** The permission each edit view declares. */
  function PermissionOf(v: EditView): string
  {
    match v
    case ScreenwriterCreate => CanMarkReturned
    case ScreenwriterUpdate => CanMarkReturned
    case ScreenwriterDelete => CanMarkReturned
    case DirectorCreate => CanMarkReturned
    case DirectorUpdate => CanMarkReturned
    case DirectorDelete => CanMarkReturned
    case MovieCreate => CanMarkReturned
    case MovieUpdate => CanMarkReturned
    case MovieDelete => CanMarkReturned
  }

  /** Every edit view admits, redirects and refuses exactly the callers the renewal view does. */
  function EditGate(v: EditView, c: Caller): (g: Gate)
    ensures g == RenewGate(c)
    ensures g == Admit <==> c.Account? && CanMarkReturned in c.perms
  {
    PermissionRequired(c, PermissionOf(v))
  }

  // ---------------------------------------------------------------------
  // Requests and responses

  /** A renewal request: show the form, or submit a date. */
  datatype Request = Get | Post(renewalDate: Date)

  datatype Response =
    | LoginRedirect
    | Forbidden
    | NotFound
    | RenewForm(instance: Uuid, initialDate: Date)
    | RenewFormError(instance: Uuid, submittedDate: Date, error: string)
    | RedirectAllBorrowed
    | InstancePage(items: seq<MovieInstance>, isPaginated: bool)

  // ---------------------------------------------------------------------
  // Renewal of a rental copy

  /** Looks a rental copy up by primary key: the position of the first row with that id. */
  function FindInstance(rows: seq<MovieInstance>, pk: Uuid): (r: Option<nat>)
    ensures r.None? <==> forall i :: 0 <= i < |rows| ==> rows[i].id != pk
    ensures r.Some? ==> r.value < |rows| && rows[r.value].id == pk
    ensures r.Some? ==> forall i :: 0 <= i < r.value ==> rows[i].id != pk
  {
    if rows == [] then None
    else if rows[0].id == pk then Some(0)
    else
      match FindInstance(rows[1..], pk)
      case None => None
      case Some(k) => Some(k + 1)
  }

  /** The lookup reads nothing but the ids of the rows. */
  lemma {:induction false} FindInstanceReadsOnlyIds(rows: seq<MovieInstance>, rows': seq<MovieInstance>, pk: Uuid)
    requires |rows| == |rows'|
    requires forall i :: 0 <= i < |rows| ==> rows[i].id == rows'[i].id
    ensures FindInstance(rows, pk) == FindInstance(rows', pk)
  {
    if rows != [] {
      FindInstanceReadsOnlyIds(rows[1..], rows'[1..], pk);
    }
  }

  /** The catalog after differs from the one before at most in the due-back date of rows with id pk. */
  predicate OnlyDueBackChanged(db: Catalog, db': Catalog, pk: Uuid)
  {
    db'.(instances := db.instances) == db &&
    |db'.instances| == |db.instances| &&
    forall i :: 0 <= i < |db.instances| ==>
      db'.instances[i] == db.instances[i].(dueBack := db'.instances[i].dueBack) &&
      (db.instances[i].id != pk ==> db'.instances[i] == db.instances[i])
  }

  /** The renewal view as a function of the catalog: the response and the catalog afterwards.
      The checks run in order: login, permission, lookup, then the form. */
  function Renewal(db: Catalog, c: Caller, pk: Uuid, req: Request, today: Date): (r: (Response, Catalog))
    ensures OnlyDueBackChanged(db, r.1, pk)
    ensures r.1 != db ==> r.0 == RedirectAllBorrowed
    ensures c.Anonymous? ==> r == (LoginRedirect, db)
    ensures c.Account? && CanMarkReturned !in c.perms ==> r == (Forbidden, db)
    ensures RenewGate(c) == Admit && FindInstance(db.instances, pk).None? ==> r == (NotFound, db)
    ensures RenewGate(c) == Admit && FindInstance(db.instances, pk).Some? && req.Get? ==>
              r == (RenewForm(pk, today + ProposedRenewalDays), db)
    ensures r.0 == RedirectAllBorrowed <==>
              RenewGate(c) == Admit && FindInstance(db.instances, pk).Some? && req.Post? &&
              Forms.CleanRenewalDate(req.renewalDate, today).Success?
    ensures req.Post? && r.0 == RedirectAllBorrowed ==>
              var i := FindInstance(db.instances, pk).value;
              r.1.instances[i].dueBack == Some(req.renewalDate)
    ensures RenewGate(c) == Admit && FindInstance(db.instances, pk).Some? && req.Post? &&
            Forms.CleanRenewalDate(req.renewalDate, today).Failure? ==>
              r == (RenewFormError(pk, req.renewalDate, Forms.CleanRenewalDate(req.renewalDate, today).error), db)
    ensures DistinctIds(db.instances) && FindInstance(db.instances, pk).Some? ==>
              forall j :: 0 <= j < |db.instances| && j != FindInstance(db.instances, pk).value ==>
                r.1.instances[j] == db.instances[j]
    ensures Intact(db) ==> Intact(r.1)
    ensures DistinctIds(db.instances) ==> DistinctIds(r.1.instances)
  {
    if c.Anonymous? then (LoginRedirect, db)
    else if CanMarkReturned !in c.perms then (Forbidden, db)
    else
      match FindInstance(db.instances, pk)
      case None => (NotFound, db)
      case Some(i) =>
        match req
        case Get => (RenewForm(pk, today + ProposedRenewalDays), db)
        case Post(date) =>
          match Forms.CleanRenewalDate(date, today)
          case Success(d) =>
            var rows := db.instances[i := db.instances[i].(dueBack := Some(d))];
            (RedirectAllBorrowed, db.(instances := rows))
          case Failure(e) => (RenewFormError(pk, date, e), db)
  }

  /** Who borrowed a copy plays no part in renewal: any holder of the permission may renew it. */
  lemma RenewalIgnoresBorrower(db: Catalog, db': Catalog, c: Caller, pk: Uuid, req: Request, today: Date)
    requires db'.(instances := db.instances) == db
    requires |db'.instances| == |db.instances|
    requires forall i :: 0 <= i < |db.instances| ==>
               db'.instances[i] == db.instances[i].(borrower := db'.instances[i].borrower)
    ensures Renewal(db', c, pk, req, today).0 == Renewal(db, c, pk, req, today).0
  {
    FindInstanceReadsOnlyIds(db.instances, db'.instances, pk);
  }

  /** The store of catalog records, updated in place by the renewal view. */
  class Store {
    var db: Catalog

    /** Every reference resolves and every copy has its own id. */
    ghost predicate Valid()
      reads this
    {
      Intact(db) && DistinctIds(db.instances)
    }

    constructor (db0: Catalog)
      requires Intact(db0) && DistinctIds(db0.instances)
      ensures Valid() && db == db0
    {
      db := db0;
    }

    /** Handles one request to the renewal view; a valid submitted date is saved as the copy's due-back date. */
    method RenewMovieWorker(c: Caller, pk: Uuid, req: Request, today: Date) returns (resp: Response)
      requires Valid()
      modifies this
      ensures Valid()
      ensures (resp, db) == Renewal(old(db), c, pk, req, today)
    {
      if c.Anonymous? {
        return LoginRedirect;
      }
      if CanMarkReturned !in c.perms {
        return Forbidden;
      }
      var found := FindInstance(db.instances, pk);
      if found.None? {
        return NotFound;
      }
      var i := found.value;
      match req {
        case Get =>
          resp := RenewForm(pk, today + ProposedRenewalDays);
        case Post(date) =>
          var cleaned := Forms.CleanRenewalDate(date, today);
          if cleaned.Success? {
            var inst := db.instances[i];
            inst := inst.(dueBack := Some(cleaned.value));
            db := db.(instances := db.instances[i := inst]);
            resp := RedirectAllBorrowed;
          } else {
            resp := RenewFormError(pk, date, cleaned.error);
          }
      }
    }
  }

  // ---------------------------------------------------------------------
  // Borrowed-copy listings

  /** On loan, and to the given borrower when one is given. */
  predicate OnLoanTo(x: MovieInstance, borrower: Option<UserId>)
    ensures OnLoanTo(x, borrower) <==> x.status.Code() == 'o' && (borrower.Some? ==> x.borrower == borrower)
  {
    x.status == OnLoan && (borrower.Some? ==> x.borrower == borrower)
  }

  /** The rows on loan (to the given borrower), each as often as in the table. */
  function SelectOnLoan(rows: seq<MovieInstance>, borrower: Option<UserId>): (r: seq<MovieInstance>)
    ensures forall x :: multiset(r)[x] == if OnLoanTo(x, borrower) then multiset(rows)[x] else 0
    ensures |r| <= |rows|
  {
    if rows == [] then []
    else
      assert rows == [rows[0]] + rows[1..];
      (if OnLoanTo(rows[0], borrower) then [rows[0]] else []) + SelectOnLoan(rows[1..], borrower)
  }

  /** The copies the user has on loan, in due-back order. */
  function LoanedByUser(rows: seq<MovieInstance>, user: UserId): (r: seq<MovieInstance>)
    ensures SortedByDueBack(r)
    ensures forall x :: x in r <==> x in rows && x.borrower == Some(user) && x.status == OnLoan
    ensures forall x :: multiset(r)[x] == if OnLoanTo(x, Some(user)) then multiset(rows)[x] else 0
    ensures (forall i :: 0 <= i < |rows| ==> rows[i].status != OnLoan) ==> r == []
  {
    var r := SortByDueBack(SelectOnLoan(rows, Some(user)));
    assert forall x :: (x in r <==> multiset(r)[x] > 0) && (x in rows <==> multiset(rows)[x] > 0);
    r
  }

  /** Every copy on loan, whoever borrowed it, in due-back order. */
  function AllLoaned(rows: seq<MovieInstance>): (r: seq<MovieInstance>)
    ensures SortedByDueBack(r)
    ensures forall x :: x in r <==> x in rows && x.status == OnLoan
    ensures forall x :: multiset(r)[x] == if x.status == OnLoan then multiset(rows)[x] else 0
    ensures (forall i :: 0 <= i < |rows| ==> rows[i].status != OnLoan) ==> r == []
  {
    var r := SortByDueBack(SelectOnLoan(rows, None));
    assert forall x :: (x in r <==> multiset(r)[x] > 0) && (x in rows <==> multiset(rows)[x] > 0);
    r
  }

  /** One user's loans are among all loans. */
  lemma LoanedByUserWithinAllLoaned(rows: seq<MovieInstance>, user: UserId)
    ensures forall x :: x in LoanedByUser(rows, user) ==> x in AllLoaned(rows)
    ensures |LoanedByUser(rows, user)| <= |AllLoaned(rows)|
  {
    var mine, all := LoanedByUser(rows, user), AllLoaned(rows);
    assert multiset(mine) <= multiset(all);
    assert |multiset(mine)| <= |multiset(all)| by {
      assert multiset(all) == multiset(mine) + (multiset(all) - multiset(mine));
    }
  }

  /** A page of a listing: page numbers start at 1, the first page always exists,
      and a later page exists only if some row falls on it. */
  function Paginate(xs: seq<MovieInstance>, page: int): (r: Option<seq<MovieInstance>>)
    ensures r.Some? ==> page >= 1 && |r.value| <= PageSize
    ensures r.Some? ==> (page - 1) * PageSize + |r.value| <= |xs|
    ensures r.Some? ==> forall k :: 0 <= k < |r.value| ==> r.value[k] == xs[(page - 1) * PageSize + k]
    ensures r.Some? ==> |r.value| == if (page - 1) * PageSize + PageSize <= |xs| then PageSize
                                     else |xs| - (page - 1) * PageSize
    ensures page == 1 ==> r.Some?
    ensures page > 1 && (page - 1) * PageSize < |xs| ==> r.Some?
    ensures page > 1 && (page - 1) * PageSize >= |xs| ==> r.None?
  {
    if page < 1 || (page > 1 && (page - 1) * PageSize >= |xs|) then None
    else
      var start := (page - 1) * PageSize;
      var end := if start + PageSize <= |xs| then start + PageSize else |xs|;
      Some(xs[start..end])
  }

  /** Every row of a listing is shown on page i / 10 + 1, at position i % 10. */
  lemma {:induction false} RowOnItsPage(xs: seq<MovieInstance>, i: nat)
    requires i < |xs|
    ensures var p := Paginate(xs, i / PageSize + 1);
            p.Some? && i % PageSize < |p.value| && p.value[i % PageSize] == xs[i]
  {
    var page := i / PageSize + 1;
    var start := (page - 1) * PageSize;
    assert start == i / PageSize * PageSize;
    assert start <= i < start + PageSize;
    assert i - start == i % PageSize;
  }

  /** The "my borrowed" listing: login required, then one page of the caller's loans. */
  function LoanedByUserView(db: Catalog, c: Caller, page: int): (resp: Response)
    ensures c.Anonymous? <==> resp == LoginRedirect
    ensures resp != Forbidden
    ensures resp.InstancePage? ==> forall x :: x in resp.items ==>
              x in db.instances && x.borrower == Some(c.user) && x.status == OnLoan
    ensures c.Account? && page == 1 && (forall i :: 0 <= i < |db.instances| ==> db.instances[i].status != OnLoan) ==>
              resp == InstancePage([], false)
    ensures c.Account? && page == 1 ==> resp.InstancePage?
    ensures c.Account? && Paginate(LoanedByUser(db.instances, c.user), page).Some? ==>
              resp == InstancePage(Paginate(LoanedByUser(db.instances, c.user), page).value,
                                   |LoanedByUser(db.instances, c.user)| > PageSize)
    ensures c.Account? ==> (resp == NotFound <==> Paginate(LoanedByUser(db.instances, c.user), page).None?)
    ensures resp.InstancePage? ==>
              Paginate(LoanedByUser(db.instances, c.user), page) == Some(resp.items) &&
              resp.isPaginated == (|LoanedByUser(db.instances, c.user)| > PageSize)
  {
    if LoginRequired(c) == ToLogin then LoginRedirect
    else
      var all := LoanedByUser(db.instances, c.user);
      match Paginate(all, page)
      case None => NotFound
      case Some(items) => InstancePage(items, |all| > PageSize)
  }

  /** The "all borrowed" listing: the permission is required, then one page of all loans. */
  function AllLoanedView(db: Catalog, c: Caller, page: int): (resp: Response)
    ensures resp == LoginRedirect <==> c.Anonymous?
    ensures resp == Forbidden <==> PermissionRequired(c, CanMarkReturned) == Deny
    ensures resp.InstancePage? ==> forall x :: x in resp.items ==> x in db.instances && x.status == OnLoan
    ensures resp.InstancePage? ==> PermissionRequired(c, CanMarkReturned) == Admit
    ensures PermissionRequired(c, CanMarkReturned) == Admit && page == 1 ==> resp.InstancePage?
    ensures PermissionRequired(c, CanMarkReturned) == Admit && Paginate(AllLoaned(db.instances), page).Some? ==>
              resp == InstancePage(Paginate(AllLoaned(db.instances), page).value,
                                   |AllLoaned(db.instances)| > PageSize)
    ensures PermissionRequired(c, CanMarkReturned) == Admit ==>
              (resp == NotFound <==> Paginate(AllLoaned(db.instances), page).None?)
    ensures resp.InstancePage? ==>
              Paginate(AllLoaned(db.instances), page) == Some(resp.items) &&
              resp.isPaginated == (|AllLoaned(db.instances)| > PageSize)
  {
    match PermissionRequired(c, CanMarkReturned)
    case ToLogin => LoginRedirect
    case Deny => Forbidden
    case Admit =>
      var all := AllLoaned(db.instances);
      match Paginate(all, page)
      case None => NotFound
      case Some(items) => InstancePage(items, |all| > PageSize)
  }

  // ---------------------------------------------------------------------
  // Home page

  /** The status column of the table. */
  function StatusColumn(rows: seq<MovieInstance>): (col: seq<Status>)
    ensures |col| == |rows|
    ensures forall i :: 0 <= i < |rows| ==> col[i] == rows[i].status
  {
    seq(|rows|, i requires 0 <= i < |rows| => rows[i].status)
  }

  /** The number of rows with the given status. */
  function CountWithStatus(rows: seq<MovieInstance>, s: Status): (n: nat)
    ensures n <= |rows|
    ensures n == 0 <==> forall i :: 0 <= i < |rows| ==> rows[i].status != s
    ensures n == |rows| <==> forall i :: 0 <= i < |rows| ==> rows[i].status == s
  {
    if rows == [] then 0
    else (if rows[0].status == s then 1 else 0) + CountWithStatus(rows[1..], s)
  }

  /** The count is the number of times the status occurs in the status column. */
  lemma {:induction false} CountIsOccurrencesInColumn(rows: seq<MovieInstance>, s: Status)
    ensures CountWithStatus(rows, s) == multiset(StatusColumn(rows))[s]
  {
    if rows != [] {
      CountIsOccurrencesInColumn(rows[1..], s);
      assert StatusColumn(rows) == [rows[0].status] + StatusColumn(rows[1..]);
    }
  }

  /** Every row has exactly one of the four statuses, so the four counts add up to the row count. */
  lemma {:induction false} StatusCountsAddUp(rows: seq<MovieInstance>)
    ensures CountWithStatus(rows, Maintenance) + CountWithStatus(rows, OnLoan) +
            CountWithStatus(rows, Available) + CountWithStatus(rows, Reserved) == |rows|
  {
    if rows != [] {
      StatusCountsAddUp(rows[1..]);
    }
  }

  /** What the home page shows. */
  datatype HomeCounts = HomeCounts(numMovies: nat, numInstances: nat, numInstancesAvailable: nat,
                                   numScreenwriters: nat, numDirectors: nat, numGenres: nat,
                                   numVisits: int)

  /** The caller's session: a key-value store kept between requests. */
  class Session {
    var values: map<string, int>

    constructor ()
      ensures values == map[]
    {
      values := map[];
    }
  }

  /** The visits recorded in a session so far; none when the key is absent. */
  function VisitsSoFar(values: map<string, int>): (n: int)
    ensures NumVisitsKey !in values ==> n == 0
    ensures NumVisitsKey in values ==> n == values[NumVisitsKey]
  {
    if NumVisitsKey in values then values[NumVisitsKey] else 0
  }

  /** The home page: counts the records, shows the visits so far and records one more. */
  method Index(store: Store, session: Session) returns (ctx: HomeCounts)
    modifies session
    ensures ctx.numMovies == |store.db.movies| && ctx.numInstances == |store.db.instances|
    ensures ctx.numInstancesAvailable == CountWithStatus(store.db.instances, Available)
    ensures ctx.numInstancesAvailable <= ctx.numInstances
    ensures ctx.numScreenwriters == |store.db.screenwriters| && ctx.numDirectors == |store.db.directors|
    ensures ctx.numGenres == |store.db.genres|
    ensures ctx.numVisits == VisitsSoFar(old(session.values))
    ensures session.values == old(session.values)[NumVisitsKey := ctx.numVisits + 1]
    ensures VisitsSoFar(session.values) == VisitsSoFar(old(session.values)) + 1
  {
    var db := store.db;
    var numMovies := |db.movies|;
    var numInstances := |db.instances|;
    var numInstancesAvailable := CountWithStatus(db.instances, Available);
    var numScreenwriters := |db.screenwriters|;
    var numDirectors := |db.directors|;
    var numGenres := |db.genres|;
    var numVisits := VisitsSoFar(session.values);
    session.values := session.values[NumVisitsKey := numVisits + 1];
    ctx := HomeCounts(numMovies, numInstances, numInstancesAvailable,
                      numScreenwriters, numDirectors, numGenres, numVisits);
  }
}
