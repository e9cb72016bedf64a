# Movie rental catalog: loan and renewal rules in Dafny

This project models the business rules of a small movie-rental catalog web
application. The application keeps movies, their screenwriters, directors and
genres, and individually tracked rental copies ("movie instances"). Staff
holding the `catalog.can_mark_returned` permission may renew a copy's due-back
date. Users see the copies they have on loan, and staff see every copy on loan.

The model has four modules:

- `Wrappers` (`wrappers.dfy`): `Option` and `Result`.
- `Models` (`models.dfy`): the records of `catalog/models.py`.
  - The four loan-status codes and their default.
  - The overdue test.
  - The due-back ordering of rental copies.
  - The display string and the (last name, first name) ordering of screenwriters and directors.
  - The genre summary of a movie.
  - The `on_delete` rules as store-level delete functions over a `Catalog` value.
- `Forms` (`forms.dfy`): the renewal date check. `catalog/forms.py` is not part of this model. Its rules are taken from the tests that pin them.
- `Views` (`views.dfy`): the request handlers of `catalog/views.py`.
  - The login and permission checks, including the permission shared by every create/update/delete view.
  - The renewal view, as a pure function `Renewal` and as the imperative `Store.RenewMovieWorker`. The method updates the store's catalog in place and is proved equal to `Renewal`.
  - The two borrowed-copy listings (filter, sort and page).
  - The home page's counters and the session visit counter, updated in place by the method `Index`.

Conventions:

- Dates are integer day numbers, and `today` is a parameter.
- The caller is either `Anonymous` or an `Account` with its effective permission set.
- Responses are tagged values: login redirect, 403, 404, the renewal form, the form with an error, the redirect to the all-borrowed list, or a page of copies.
- The rental-copy table is a sequence of rows in storage order, and the copies' UUID keys are distinct. Genres, screenwriters, directors and movies are maps keyed by their integer primary keys.

Assumptions about the renewal date check:

- The date check lives in `catalog/forms.py`, which is not part of this model. The tests fix only three points: one week past is refused, five weeks ahead is refused, two weeks ahead is accepted.
- The model accepts every date from `today` to `today + 28` inclusive. Both boundary days, today itself and exactly four weeks ahead, are assumptions.
- The past is checked before the four-week limit.

## Model

| member | source | states |
|---|---|---|
| `Models.Status.Code` | catalog/models.py:49-54 | each status's one-letter code is paired with its label in the choices table, and reading the code back gives the same status |
| `Models.StatusFromCode` | catalog/models.py:49-62 | a stored code is a status exactly when it is one of the four codes of the choices table (`m`, `o`, `a`, `r`), and the status read has that code's label |
| `Models.NewInstance` | catalog/models.py:56-62 | a copy created without a status is in maintenance (`'m'`); a given status and every other field are stored as given |
| `Models.IsOverdue` | catalog/models.py:43-47 | a copy is overdue exactly when it has a due-back date and that date lies strictly before today: never without a date, not on its due day itself, always once the date has passed |
| `Models.OverdueIsMonotone` | catalog/models.py:43-47 | once a copy is overdue it stays overdue on every later day |
| `Models.InsertByDueBack` | catalog/models.py:64-65 | inserting a copy into a list in due-back order keeps it in due-back order and adds exactly that copy |
| `Models.SortByDueBack` | catalog/models.py:64-65 | the default ordering yields a permutation of the copies, non-decreasing in due-back date, with copies lacking a date first |
| `Models.DisplayName` | catalog/models.py:83-84 | the display string of a screenwriter (and, by the identical method at lines 98-99, of a director) is the last name, then `", "`, then the first name, and nothing else |
| `Models.DisplayNameRoundTrip` | catalog/tests/test_models.py:26-29 | splitting a display string at its first `", "` gives back exactly the last name and the first name, when the last name has no comma |
| `Models.LexLeReflexive` | catalog/models.py:77-78 | every string is ordered before or equal to itself |
| `Models.LexLeTotal` | catalog/models.py:77-78 | the string order used for names compares any two strings |
| `Models.LexLeTransitive` | catalog/models.py:77-78 | the string order used for names is transitive |
| `Models.LexLeAntisymmetric` | catalog/models.py:77-78 | two strings ordered both ways are equal |
| `Models.NameLe` | catalog/models.py:77-78 | people are ordered by last name first; people with the same last name are ordered by first name |
| `Models.NameOrderIsTotal` | catalog/models.py:77-78 | the (last name, first name) ordering of screenwriters compares any two people |
| `Models.NameOrderIsTransitive` | catalog/models.py:92-93 | the (last name, first name) ordering of directors is transitive |
| `Models.NameOrderIsAntisymmetric` | catalog/models.py:92-93 | two people ordered both ways have the same last name and the same first name |
| `Models.Join` | catalog/models.py:26 | joining gives the empty string for no parts, starts with the first part, and puts the separator right after it when more parts follow |
| `Models.JoinSnoc` | catalog/models.py:26 | whatever the parts contain, joining one more part appends the separator and that part to the joined string |
| `Models.JoinSplitRoundTrip` | catalog/models.py:26 | splitting a `", "`-joined list of comma-free names at each `", "` gives back exactly those names in order, so each separator is exactly a comma and a space |
| `Models.JoinLength` | catalog/models.py:25-26 | the length of a joined string is the names' total length plus the separator's length for each two neighbours |
| `Models.DisplayGenre` | catalog/models.py:25-26 | the genre summary is empty for a movie without genres, starts with the first genre's name otherwise, and depends on the first three genres only |
| `Models.DisplayGenreAppend` | catalog/models.py:25-26 | whatever the genre names contain, each of the first three names extends the summary by `", "` and that name |
| `Models.DisplayGenreRoundTrip` | catalog/models.py:25-26 | the summary lists exactly the first (at most three) genre names, in order, separated by `", "`: splitting it at each `", "` gives them back when no name contains a comma |
| `Models.DisplayGenreLength` | catalog/models.py:25-26 | the summary's length is the total length of the first (at most three) names plus two characters for each separator |
| `Models.GenreNamesOf` | catalog/models.py:23-26 | the names shown for a movie are the names of its linked genres, one per link, in the links' order |
| `Models.DisplayGenreOf` | catalog/models.py:25-26 | a stored movie's summary is empty when it has no genre links and otherwise starts with the name of its first linked genre |
| `Models.DisplayGenreOfRoundTrip` | catalog/models.py:23-26 | a stored movie's summary lists the names of its first (at most three) linked genres, in link order, separated by `", "`, when no genre name contains a comma |
| `Models.DeleteScreenwriter` | catalog/models.py:16 | deleting a screenwriter removes it and sets the screenwriter link of every movie that had it to `None`; no other field or table changes; referential integrity is preserved |
| `Models.DeleteDirector` | catalog/models.py:17 | deleting a director removes it and sets the director link of every movie that had it to `None`; no other field or table changes; referential integrity is preserved |
| `Models.DeleteMovie` | catalog/models.py:38 | deleting a movie is refused exactly when some rental copy refers to it; otherwise only that movie is removed and referential integrity is preserved |
| `Models.DeleteBorrower` | catalog/models.py:41 | deleting a user sets the borrower of every copy it had borrowed to `None` and changes nothing else; the copies keep their status |
| `Forms.CleanRenewalDate` | catalog/tests/test_views.py:228-246 | a renewal date is accepted exactly when it lies from today to four weeks ahead, and is then returned unchanged; a past date is refused with "Invalid date - renewal in past", a date more than 4 weeks ahead with "Invalid date - renewal more than 4 weeks ahead" |
| `Forms.RefusalReasons` | catalog/tests/test_views.py:234-246 | every refusal carries one of the two reasons, and the two reasons differ |
| `Views.LoginRequired` | catalog/views.py:76 | only anonymous callers are stopped, and they are sent to the login page, never refused |
| `Views.PermissionRequired` | catalog/views.py:67-71 | a caller is admitted exactly when logged in with the permission; anonymous callers go to the login page; logged-in callers lacking it get 403 |
| `Views.RenewGate` | catalog/views.py:76-77 | login checked first and then the permission (403) decide exactly as the class-based permission check with `catalog.can_mark_returned` |
| `Views.EditGate` | catalog/views.py:102-145 | every create, update and delete view of screenwriters, directors and movies admits, redirects and refuses exactly the callers the renewal view does |
| `Views.FindInstance` | catalog/views.py:79 | the lookup by primary key finds nothing exactly when no row has the id; otherwise it gives the first row with that id |
| `Views.FindInstanceReadsOnlyIds` | catalog/views.py:79 | the lookup depends on nothing but the rows' ids |
| `Views.Renewal` | catalog/views.py:76-100 | anonymous callers get the login redirect, then callers lacking the permission get 403, then an unknown id gets 404, each with the catalog unchanged; GET proposes today + 21 days and changes nothing; a POST redirects to the all-borrowed list exactly when the date is valid, and then the copy's due-back date is that date; an invalid date re-renders the form with the validator's reason and changes nothing; in every case only the due-back date of the copy with that id may change, so with distinct ids exactly one row can change; integrity and distinct ids are preserved |
| `Views.RenewalIgnoresBorrower` | catalog/views.py:77-79 | the response does not depend on who borrowed any copy, so a permission holder may renew a copy borrowed by another user |
| `Views.Store.RenewMovieWorker` | catalog/views.py:78-100 | the in-place renewal produces exactly the response and the new catalog of `Renewal` and keeps the store's invariant (intact references, distinct ids) |
| `Views.OnLoanTo` | catalog/views.py:65 | a copy passes the listing filter exactly when its stored status code is `'o'` and, when a borrower is given, it is borrowed by that user |
| `Views.SelectOnLoan` | catalog/views.py:65 | the filter keeps each row on loan (to the given borrower, when one is given) as often as it occurs, and drops every other row |
| `Views.LoanedByUser` | catalog/views.py:64-65 | the "my borrowed" result holds exactly the copies on loan to the user, each as often as in the table, in due-back order; it is empty when no copy is on loan |
| `Views.AllLoaned` | catalog/views.py:73-74 | the "all borrowed" result holds exactly the copies on loan, whoever borrowed them, each as often as in the table, in due-back order |
| `Views.LoanedByUserWithinAllLoaned` | catalog/views.py:64-74 | every copy in a user's list is in the all-borrowed list, which is at least as long |
| `Views.Paginate` | catalog/views.py:62 | a page holds the consecutive rows starting at (page - 1) * 10, ten of them or all that remain; page 1 always exists, even for an empty list; a later page exists exactly when some row falls on it; page numbers below 1 do not exist (404) |
| `Views.RowOnItsPage` | catalog/views.py:70 | every row of a listing appears on page i / 10 + 1 at position i % 10 |
| `Views.LoanedByUserView` | catalog/views.py:59-65 | anonymous callers, and only they, go to the login page; no caller is refused with 403; a logged-in caller gets exactly the requested page of `LoanedByUser` for that caller, with `is_paginated` set when there are more than ten, or 404 exactly when that page does not exist; page 1 is always shown, and is empty when nothing is on loan |
| `Views.AllLoanedView` | catalog/views.py:67-74 | anonymous callers go to the login page and callers without the permission get 403; a permission holder gets exactly the requested page of `AllLoaned`, with `is_paginated` set when there are more than ten, or 404 exactly when that page does not exist; page 1 is always shown to them |
| `Views.CountWithStatus` | catalog/views.py:18 | the count of copies with a status is at most the number of rows, zero exactly when no row has it and the row count exactly when every row has it |
| `Views.CountIsOccurrencesInColumn` | catalog/views.py:18 | the count is exactly the number of times the status occurs in the table's status column |
| `Views.StatusCountsAddUp` | catalog/views.py:18 | the counts of the four statuses add up to the number of copies |
| `Views.VisitsSoFar` | catalog/views.py:23 | the visits read from the session are the stored value, or 0 when the session holds none |
| `Views.Index` | catalog/views.py:13-36 | the home page reports the record counts and the number of available copies, reports the visits recorded so far (0 when none) and stores that number plus one back in the session, leaving other session keys alone |

## Left out

- `catalog/forms.py` is not part of this model. The renewal date check is modelled from the tests only, and its boundary days (today and today + 28, both accepted) are assumptions.
- A POST whose `renewal_date` is missing or is not a date is not modelled. Parsing form fields belongs to the web framework.
- `Views.Renewal`: the login redirect is a bare tag. Its `?next=` path is not modelled, because building URLs is routing.
- `Views.Renewal`: the duplicate-row case is not modelled. With duplicate ids, renewal would update the first matching row. The framework's lookup would raise instead, but the table's primary key rules duplicates out (`Store.Valid`).
- `Models.NameOrderIsTotal`: strings compare by character code. The real order is the database collation, which may differ, for example by ignoring case.
- `Models.SortByDueBack`: copies without a due-back date sort first, as in SQLite. Other databases may put them last. The order among copies with equal dates is left to the database; this model's order is only one of the possibilities.
- `Models.DisplayGenre`: the order of a movie's genres is the order the database returns them in, because no ordering is declared. The model takes it as given.
- The status field's `blank=True` and the database accepting any one-character code are not modelled. A status is always one of the four choices.
- `MovieInstance.__str__` and the `__str__` methods of `Movie` and `Genre` are not modelled. They only show fields, and the first formats UUIDs and dates. The first also fails when a copy has no movie.
- A movie's genre links are kept as a sequence in the order the database returns them. The catalog's integrity predicate requires them to be distinct and to name existing genres, as the link table does.
- Deleting a genre is not modelled. It only removes the genre's links to movies.
- The model allows a copy to be on loan with no borrower, as the source does. `Models.DeleteBorrower` creates exactly that state.
- The create/update form handling of the edit views, the detail and list views of movies, screenwriters and directors, and the page shown when a delete is refused are not modelled. The framework supplies them. Only the edit views' permission check (`Views.EditGate`) is modelled.
- The page number `last` is not modelled. Neither are superuser and inactive-account rules; the caller's effective permission set stands for them.
- The admin site registration and the URL table are not modelled. Neither are URL reversing, field lengths and help texts.
- Random UUID generation is not modelled; ids are opaque distinct keys.
- The wall clock and time zones are not modelled; `today` is a parameter.
- The calendar's range is not modelled. Dates are unbounded day numbers, so `today + 21` and `today + 28` always exist. Python's dates end at year 9999, where the proposed renewal date would raise an overflow error instead.
- Storage, sessions' serialisation and concurrent requests are not modelled. The store is one in-memory value, and each request runs alone.
