/** The catalog's records and the rules attached to them: loan status codes,
    the overdue test, the due-back ordering of rental copies, the display
    strings and name ordering of screenwriters and directors, the genre
    summary of a movie, and what deleting a referenced record does. */
module Models {
  import opened Wrappers

  /** Dates are day numbers. */
  type Date = int

  /** Integer primary keys of the framework-managed tables. */
  type GenreId = nat
  type PersonId = nat
  type MovieId = nat
  type UserId = nat

  /** A 128-bit UUID primary key; treated as an opaque, distinct key. */
  type Uuid = x: nat | x < 0x1_0000_0000_0000_0000_0000_0000_0000_0000

  // ---------------------------------------------------------------------
  // Loan status

  datatype Status = Maintenance | OnLoan | Available | Reserved {
    /** The one-letter code stored in the status column. */
    function Code(): (c: char)
      ensures (c, Label()) in LoanStatus
      ensures StatusFromCode(c) == Some(this)
    {
      match this
      case Maintenance => 'm'
      case OnLoan => 'o'
      case Available => 'a'
      case Reserved => 'r'
    }

    /** The human-readable label of the choice. */
    function Label(): string {
      match this
      case Maintenance => "Maintenance"
      case OnLoan => "On loan"
      case Available => "Available"
      case Reserved => "Reserved"
    }
  }

  /** The choices table of the status field, as (code, label) pairs. */
  const LoanStatus: seq<(char, string)> :=
    [('m', "Maintenance"), ('o', "On loan"), ('a', "Available"), ('r', "Reserved")]

  /** The status a new copy gets when none is given: maintenance. */
  const DefaultStatus: Status := Maintenance

  /** Reads a stored status code; only the four codes of the choices table are statuses. */
  function StatusFromCode(c: char): (r: Option<Status>)
    ensures r.Some? <==> exists i :: 0 <= i < |LoanStatus| && LoanStatus[i].0 == c
    ensures r.Some? ==> (c, r.value.Label()) in LoanStatus
  {
    assert LoanStatus[0].0 == 'm' && LoanStatus[1].0 == 'o';
    assert LoanStatus[2].0 == 'a' && LoanStatus[3].0 == 'r';
    if c == 'm' then Some(Maintenance)
    else if c == 'o' then Some(OnLoan)
    else if c == 'a' then Some(Available)
    else if c == 'r' then Some(Reserved)
    else None
  }

  // ---------------------------------------------------------------------
  // Records

  datatype Genre = Genre(name: string)

  /** A screenwriter or a director: the two record kinds have the same fields. */
  datatype Person = Person(firstName: string, lastName: string,
                           dateOfBirth: Option<Date>, dateOfDeath: Option<Date>)

  datatype Movie = Movie(title: string,
                         screenwriter: Option<PersonId>,
                         director: Option<PersonId>,
                         summary: string,
                         yearOfProduction: string,
                         genres: seq<GenreId>)

  /** A rental copy of a movie. */
  datatype MovieInstance = MovieInstance(id: Uuid,
                                         movie: Option<MovieId>,
                                         production: string,
                                         dueBack: Option<Date>,
                                         borrower: Option<UserId>,
                                         status: Status)

  /** The catalog's tables; the rental copies are the rows of their table in storage order. */
  datatype Catalog = Catalog(genres: map<GenreId, Genre>,
                             screenwriters: map<PersonId, Person>,
                             directors: map<PersonId, Person>,
                             movies: map<MovieId, Movie>,
                             instances: seq<MovieInstance>)

  /** The primary key of the rental copies' table: no two rows share an id. */
  predicate DistinctIds(rows: seq<MovieInstance>)
  {
    forall i, j :: 0 <= i < j < |rows| ==> rows[i].id != rows[j].id
  }

  /** Creates a rental copy; a copy created without a status is in maintenance. */
  function NewInstance(id: Uuid, movie: Option<MovieId>, production: string,
                       dueBack: Option<Date>, borrower: Option<UserId>,
                       status: Option<Status>): (r: MovieInstance)
    ensures status.None? ==> r.status == DefaultStatus && r.status.Code() == 'm'
    ensures status.Some? ==> r.status == status.value
    ensures r.id == id && r.movie == movie && r.production == production
    ensures r.dueBack == dueBack && r.borrower == borrower
  {
    MovieInstance(id, movie, production, dueBack, borrower,
                  if status.Some? then status.value else DefaultStatus)
  }

  // ---------------------------------------------------------------------
  // Overdue

  /** A copy is overdue when it has a due-back date that lies before today. */
  predicate IsOverdue(inst: MovieInstance, today: Date)
    ensures inst.dueBack.None? ==> !IsOverdue(inst, today)
    ensures inst.dueBack == Some(today) ==> !IsOverdue(inst, today)
    ensures IsOverdue(inst, today) ==> inst.dueBack.value < today
    ensures inst.dueBack.Some? && inst.dueBack.value < today ==> IsOverdue(inst, today)
  {
    inst.dueBack.Some? && today > inst.dueBack.value
  }

  /** Once overdue, a copy stays overdue on every later day. */
  lemma OverdueIsMonotone(inst: MovieInstance, today: Date, later: Date)
    requires IsOverdue(inst, today) && today <= later
    ensures IsOverdue(inst, later)
  {
  }

  // ---------------------------------------------------------------------
  // Ordering of rental copies by due-back date (a missing date sorts first)

  predicate DueBackLe(a: Option<Date>, b: Option<Date>)
  {
    a.None? || (b.Some? && a.value <= b.value)
  }

  predicate SortedByDueBack(xs: seq<MovieInstance>)
  {
    forall i, j :: 0 <= i < j < |xs| ==> DueBackLe(xs[i].dueBack, xs[j].dueBack)
  }

  /** Inserts one copy into a list already in due-back order. */
  function InsertByDueBack(x: MovieInstance, xs: seq<MovieInstance>): (r: seq<MovieInstance>)
    requires SortedByDueBack(xs)
    ensures SortedByDueBack(r)
    ensures multiset(r) == multiset(xs) + multiset{x}
    ensures |r| == |xs| + 1
  {
    if xs == [] then [x]
    else if DueBackLe(x.dueBack, xs[0].dueBack) then
      PrependSorted(x, xs);
      [x] + xs
    else
      var rest := InsertByDueBack(x, xs[1..]);
      assert xs == [xs[0]] + xs[1..];
      BoundOfInsert(xs[0], x, xs[1..], rest);
      PrependSorted(xs[0], rest);
      [xs[0]] + rest
  }

  /** A copy due no later than the head of a sorted list can go in front of it. */
  lemma PrependSorted(y: MovieInstance, s: seq<MovieInstance>)
    requires SortedByDueBack(s)
    requires s != [] ==> DueBackLe(y.dueBack, s[0].dueBack)
    ensures SortedByDueBack([y] + s)
  {
    forall i, j | 0 <= i < j < |[y] + s|
      ensures DueBackLe(([y] + s)[i].dueBack, ([y] + s)[j].dueBack)
    {
      if i == 0 && j > 1 {
        assert DueBackLe(s[0].dueBack, s[j - 1].dueBack);
      }
    }
  }

  /** The head of a sorted list, due no later than x, bounds the list with x inserted. */
  lemma BoundOfInsert(y: MovieInstance, x: MovieInstance, s: seq<MovieInstance>, r: seq<MovieInstance>)
    requires SortedByDueBack([y] + s)
    requires !DueBackLe(x.dueBack, y.dueBack)
    requires multiset(r) == multiset(s) + multiset{x}
    ensures r != [] ==> DueBackLe(y.dueBack, r[0].dueBack)
  {
    if r != [] {
      assert r[0] in multiset(r);
      if r[0] != x {
        assert r[0] in multiset(s);
        var k :| 0 <= k < |s| && s[k] == r[0];
        assert ([y] + s)[0] == y && ([y] + s)[k + 1] == r[0];
        assert DueBackLe(([y] + s)[0].dueBack, ([y] + s)[k + 1].dueBack);
      }
    }
  }

  /** Puts copies in due-back order, as the default ordering of the table does. */
  function SortByDueBack(xs: seq<MovieInstance>): (r: seq<MovieInstance>)
    ensures SortedByDueBack(r)
    ensures multiset(r) == multiset(xs)
    ensures |r| == |xs|
  {
    if xs == [] then []
    else
      assert xs == [xs[0]] + xs[1..];
      InsertByDueBack(xs[0], SortByDueBack(xs[1..]))
  }

  // ---------------------------------------------------------------------
  // Screenwriters and directors: display string and (last name, first name) order

  /** The display string: the last name, a comma and a space, then the first name. */
  function DisplayName(p: Person): (s: string)
    ensures |s| == |p.lastName| + 2 + |p.firstName|
    ensures s[..|p.lastName|] == p.lastName
    ensures s[|p.lastName|..|p.lastName| + 2] == ", "
    ensures s[|p.lastName| + 2..] == p.firstName
  {
    p.lastName + ", " + p.firstName
  }

  /** Splits a string into two at its first `", "`: the text before it and the text after it.
      (`SplitAtCommas` below splits at every `", "` into a list, for the genre summary.) */
  function SplitAtComma(s: string): (r: (string, string))
  {
    if s == [] then ([], [])
    else if |s| >= 2 && s[0] == ',' && s[1] == ' ' then ([], s[2..])
    else
      var (last, first) := SplitAtComma(s[1..]);
      ([s[0]] + last, first)
  }

  /** A display string gives back the last and first name when the last name has no comma. */
  lemma {:induction false} DisplayNameRoundTrip(p: Person)
    requires ',' !in p.lastName
    ensures SplitAtComma(DisplayName(p)) == (p.lastName, p.firstName)
  {
    SplitAfterPrefix(p.lastName, p.firstName);
  }

  lemma {:induction false} SplitAfterPrefix(last: string, first: string)
    requires ',' !in last
    ensures SplitAtComma(last + ", " + first) == (last, first)
  {
    if last != [] {
      var s := last + ", " + first;
      assert s[0] == last[0] && s[1..] == last[1..] + ", " + first;
      assert ',' !in last[1..] by {
        forall c | c in last[1..] ensures c in last { }
      }
      SplitAfterPrefix(last[1..], first);
      assert last == [last[0]] + last[1..];
    } else {
      assert ([] + ", " + first)[2..] == first;
    }
  }

  /** Lexicographic order of strings by character code. */
  predicate LexLe(a: string, b: string)
  {
    a == [] || (b != [] && (a[0] < b[0] || (a[0] == b[0] && LexLe(a[1..], b[1..]))))
  }

  lemma {:induction false} LexLeReflexive(a: string)
    ensures LexLe(a, a)
  {
    if a != [] {
      LexLeReflexive(a[1..]);
    }
  }

  lemma {:induction false} LexLeTotal(a: string, b: string)
    ensures LexLe(a, b) || LexLe(b, a)
  {
    if a != [] && b != [] && a[0] == b[0] {
      LexLeTotal(a[1..], b[1..]);
    }
  }

  lemma {:induction false} LexLeTransitive(a: string, b: string, c: string)
    requires LexLe(a, b) && LexLe(b, c)
    ensures LexLe(a, c)
  {
    if a != [] && a[0] == b[0] && b[0] == c[0] {
      LexLeTransitive(a[1..], b[1..], c[1..]);
    }
  }

  lemma {:induction false} LexLeAntisymmetric(a: string, b: string)
    requires LexLe(a, b) && LexLe(b, a)
    ensures a == b
  {
    if a != [] {
      LexLeAntisymmetric(a[1..], b[1..]);
      assert a == [a[0]] + a[1..] && b == [b[0]] + b[1..];
    }
  }

  /** The default order of screenwriters and of directors: by last name, then by first name. */
  predicate NameLe(p: Person, q: Person)
    ensures NameLe(p, q) ==> LexLe(p.lastName, q.lastName)
    ensures p.lastName == q.lastName ==> (NameLe(p, q) <==> LexLe(p.firstName, q.firstName))
    ensures p.lastName != q.lastName && LexLe(p.lastName, q.lastName) ==> NameLe(p, q)
  {
    LexLeReflexive(p.lastName);
    LexLe(p.lastName, q.lastName) && (p.lastName == q.lastName ==> LexLe(p.firstName, q.firstName))
  }

  lemma NameOrderIsTotal(p: Person, q: Person)
    ensures NameLe(p, q) || NameLe(q, p)
  {
    LexLeTotal(p.lastName, q.lastName);
    LexLeTotal(p.firstName, q.firstName);
    if LexLe(p.lastName, q.lastName) && LexLe(q.lastName, p.lastName) {
      LexLeAntisymmetric(p.lastName, q.lastName);
    }
  }

  lemma NameOrderIsTransitive(p: Person, q: Person, r: Person)
    requires NameLe(p, q) && NameLe(q, r)
    ensures NameLe(p, r)
  {
    LexLeTransitive(p.lastName, q.lastName, r.lastName);
    if p.lastName == r.lastName {
      LexLeAntisymmetric(p.lastName, q.lastName);
      LexLeTransitive(p.firstName, q.firstName, r.firstName);
    }
  }

  /** Two people ordered both ways have the same last and first names. */
  lemma NameOrderIsAntisymmetric(p: Person, q: Person)
    requires NameLe(p, q) && NameLe(q, p)
    ensures p.lastName == q.lastName && p.firstName == q.firstName
  {
    LexLeAntisymmetric(p.lastName, q.lastName);
    LexLeAntisymmetric(p.firstName, q.firstName);
  }

  // ---------------------------------------------------------------------
  // Genre summary of a movie

  const GenreSeparator: string := ", "
  const MaxDisplayedGenres: nat := 3

  /** The parts in order, with the separator between each two neighbours. */
  function Join(xs: seq<string>, sep: string): (s: string)
    ensures xs == [] ==> s == ""
    ensures xs != [] ==> xs[0] <= s
    ensures |xs| > 1 ==> xs[0] + sep <= s
  {
    if xs == [] then ""
    else if |xs| == 1 then xs[0]
    else xs[0] + sep + Join(xs[1..], sep)
  }

  /** Joining reads left to right: one more part adds the separator and that part at the end,
      whatever the parts contain. */
  lemma {:induction false} JoinSnoc(xs: seq<string>, y: string, sep: string)
    requires xs != []
    ensures Join(xs + [y], sep) == Join(xs, sep) + sep + y
  {
    if |xs| == 1 {
      assert xs + [y] == [xs[0], y];
      assert [xs[0], y][1..] == [y];
    } else {
      var t := xs[1..];
      assert (xs + [y])[0] == xs[0] && (xs + [y])[1..] == t + [y];
      assert Join(xs + [y], sep) == xs[0] + sep + Join(t + [y], sep);
      JoinSnoc(t, y, sep);
      var jt := Join(t, sep);
      assert Join(xs, sep) == xs[0] + sep + jt;
      assert xs[0] + sep + (jt + sep + y) == (xs[0] + sep + jt) + sep + y;
    }
  }

  function TotalLength(xs: seq<string>): nat
  {
    if xs == [] then 0 else |xs[0]| + TotalLength(xs[1..])
  }

  /** A joined string holds every part and one separator between each two neighbours. */
  lemma {:induction false} JoinLength(xs: seq<string>, sep: string)
    requires xs != []
    ensures |Join(xs, sep)| == TotalLength(xs) + (|xs| - 1) * |sep|
  {
    if |xs| > 1 {
      JoinLength(xs[1..], sep);
    }
  }

  /** Splits a string at every occurrence of the separator `", "` into a list; any other comma
      stays as text. (`SplitAtComma` above splits only at the first one, into a pair.) */
  function SplitAtCommas(s: string): (r: seq<string>)
    ensures |r| >= 1
    decreases |s|
  {
    if s == [] then [""]
    else if |s| >= 2 && s[0] == ',' && s[1] == ' ' then [""] + SplitAtCommas(s[2..])
    else
      var parts := SplitAtCommas(s[1..]);
      [[s[0]] + parts[0]] + parts[1..]
  }

  /** A comma-free text in front of a string joins the first part of the split. */
  lemma {:induction false} SplitAfterCommaFreeText(a: string, rest: string)
    requires ',' !in a
    ensures SplitAtCommas(a + rest) ==
            [a + SplitAtCommas(rest)[0]] + SplitAtCommas(rest)[1..]
  {
    if a != [] {
      assert (a + rest)[0] == a[0] && (a + rest)[1..] == a[1..] + rest;
      assert ',' !in a[1..] by {
        forall c | c in a[1..] ensures c in a { }
      }
      assert a[0] in a;
      SplitAfterCommaFreeText(a[1..], rest);
      var parts := SplitAtCommas(a[1..] + rest);
      assert SplitAtCommas(a + rest) == [[a[0]] + parts[0]] + parts[1..];
      assert [a[0]] + (a[1..] + SplitAtCommas(rest)[0]) == a + SplitAtCommas(rest)[0];
    } else {
      var parts := SplitAtCommas(rest);
      assert [] + rest == rest && a + parts[0] == parts[0];
      assert parts == [parts[0]] + parts[1..];
    }
  }

  predicate CommaFree(xs: seq<string>)
  {
    forall i :: 0 <= i < |xs| ==> ',' !in xs[i]
  }

  /** Splitting a joined list of comma-free parts gives the parts back. */
  lemma {:induction false} JoinSplitRoundTrip(xs: seq<string>)
    requires xs != [] && CommaFree(xs)
    ensures SplitAtCommas(Join(xs, GenreSeparator)) == xs
  {
    if |xs| == 1 {
      SplitAfterCommaFreeText(xs[0], "");
      assert xs[0] + "" == xs[0];
    } else {
      var tail := Join(xs[1..], GenreSeparator);
      JoinSplitRoundTrip(xs[1..]);
      assert CommaFree(xs[1..]);
      var sepTail := GenreSeparator + tail;
      assert sepTail[..2] == GenreSeparator && sepTail[2..] == tail;
      assert SplitAtCommas(sepTail) == [""] + xs[1..];
      assert Join(xs, GenreSeparator) == xs[0] + sepTail;
      SplitAfterCommaFreeText(xs[0], sepTail);
      assert xs[0] + "" == xs[0];
      assert xs == [xs[0]] + xs[1..];
    }
  }

  /** The names of at most the first three genres, joined by a comma and a space. */
  function DisplayGenre(names: seq<string>): (s: string)
    ensures names == [] ==> s == ""
    ensures names != [] ==> names[0] <= s
    ensures |names| > MaxDisplayedGenres ==> s == DisplayGenre(names[..MaxDisplayedGenres])
  {
    Join(if |names| <= MaxDisplayedGenres then names else names[..MaxDisplayedGenres], GenreSeparator)
  }

  /** The summary lists exactly the first (at most three) names, in order: splitting it at its
      commas gives them back when no name contains a comma. */
  lemma DisplayGenreRoundTrip(names: seq<string>)
    requires names != [] && CommaFree(names)
    ensures var k := if |names| <= MaxDisplayedGenres then |names| else MaxDisplayedGenres;
            SplitAtCommas(DisplayGenre(names)) == names[..k]
  {
    var k := if |names| <= MaxDisplayedGenres then |names| else MaxDisplayedGenres;
    assert names[..k] == if |names| <= MaxDisplayedGenres then names else names[..MaxDisplayedGenres];
    JoinSplitRoundTrip(names[..k]);
  }

  /** Each of the first three names extends the summary by `", "` and that name, whatever
      the names contain. */
  lemma DisplayGenreAppend(names: seq<string>, j: nat)
    requires 1 <= j < |names| && j < MaxDisplayedGenres
    ensures DisplayGenre(names[..j + 1]) == DisplayGenre(names[..j]) + ", " + names[j]
  {
    assert names[..j + 1] == names[..j] + [names[j]];
    JoinSnoc(names[..j], names[j], GenreSeparator);
  }

  /** The names of a movie's genres, in the order its genre links list them. */
  function GenreNamesOf(genres: map<GenreId, Genre>, ids: seq<GenreId>): (r: seq<string>)
    requires forall g :: g in ids ==> g in genres
    ensures |r| == |ids|
    ensures forall i :: 0 <= i < |ids| ==> r[i] == genres[ids[i]].name
  {
    seq(|ids|, i requires 0 <= i < |ids| => genres[ids[i]].name)
  }

  /** The links of a movie all name stored genres. */
  predicate GenresStored(db: Catalog, m: MovieId)
  {
    m in db.movies && forall g :: g in db.movies[m].genres ==> g in db.genres
  }

  /** The genre summary of a stored movie, from its genre links in the order they are listed. */
  function DisplayGenreOf(db: Catalog, m: MovieId): (s: string)
    requires GenresStored(db, m)
    ensures db.movies[m].genres == [] ==> s == ""
    ensures db.movies[m].genres != [] ==> db.genres[db.movies[m].genres[0]].name <= s
  {
    DisplayGenre(GenreNamesOf(db.genres, db.movies[m].genres))
  }

  /** A movie's summary lists the names of its first (at most three) linked genres, in link
      order, separated by `", "`, when no genre name contains a comma. */
  lemma DisplayGenreOfRoundTrip(db: Catalog, m: MovieId)
    requires GenresStored(db, m) && db.movies[m].genres != []
    requires forall g :: g in db.movies[m].genres ==> ',' !in db.genres[g].name
    ensures var links := db.movies[m].genres;
            var k := if |links| <= MaxDisplayedGenres then |links| else MaxDisplayedGenres;
            var parts := SplitAtCommas(DisplayGenreOf(db, m));
            |parts| == k && forall i :: 0 <= i < k ==> parts[i] == db.genres[links[i]].name
  {
    var links := db.movies[m].genres;
    var names := GenreNamesOf(db.genres, links);
    assert CommaFree(names) by {
      forall i | 0 <= i < |names| ensures ',' !in names[i] {
        assert links[i] in links;
      }
    }
    DisplayGenreRoundTrip(names);
  }

  /** The summary's length: the first (at most three) names and a two-character separator between each. */
  lemma DisplayGenreLength(names: seq<string>)
    requires names != []
    ensures var k := if |names| <= MaxDisplayedGenres then |names| else MaxDisplayedGenres;
            |DisplayGenre(names)| == TotalLength(names[..k]) + 2 * (k - 1)
  {
    var k := if |names| <= MaxDisplayedGenres then |names| else MaxDisplayedGenres;
    assert names[..k] == if |names| <= MaxDisplayedGenres then names else names[..MaxDisplayedGenres];
    JoinLength(names[..k], GenreSeparator);
  }

  // ---------------------------------------------------------------------
  // References between records and what deleting a referenced record does

  predicate RefersTo<K, V>(r: Option<K>, table: map<K, V>)
  {
    r.None? || r.value in table
  }

  /** No reference in the catalog points at a missing record. */
  predicate Intact(db: Catalog)
  {
    (forall m :: m in db.movies ==>
       RefersTo(db.movies[m].screenwriter, db.screenwriters) &&
       RefersTo(db.movies[m].director, db.directors) &&
       (forall g :: g in db.movies[m].genres ==> g in db.genres) &&
       (forall i, j :: 0 <= i < j < |db.movies[m].genres| ==>
          db.movies[m].genres[i] != db.movies[m].genres[j])) &&
    (forall i :: 0 <= i < |db.instances| ==> RefersTo(db.instances[i].movie, db.movies))
  }

  /** Deleting a screenwriter clears the screenwriter link of the movies that had it. */
  function DeleteScreenwriter(db: Catalog, sid: PersonId): (r: Catalog)
    ensures r.screenwriters == db.screenwriters - {sid}
    ensures r.movies.Keys == db.movies.Keys
    ensures forall m :: m in r.movies ==> r.movies[m].screenwriter != Some(sid)
    ensures forall m :: m in db.movies && db.movies[m].screenwriter == Some(sid) ==>
              r.movies[m].screenwriter == None
    ensures forall m :: m in r.movies ==>
              r.movies[m] == db.movies[m].(screenwriter := r.movies[m].screenwriter)
    ensures forall m :: m in r.movies && db.movies[m].screenwriter != Some(sid) ==>
              r.movies[m] == db.movies[m]
    ensures r.genres == db.genres && r.directors == db.directors && r.instances == db.instances
    ensures Intact(db) ==> Intact(r)
  {
    var movies := map m | m in db.movies ::
      if db.movies[m].screenwriter == Some(sid) then db.movies[m].(screenwriter := None)
      else db.movies[m];
    db.(screenwriters := db.screenwriters - {sid}, movies := movies)
  }

  /** Deleting a director clears the director link of the movies that had it. */
  function DeleteDirector(db: Catalog, did: PersonId): (r: Catalog)
    ensures r.directors == db.directors - {did}
    ensures r.movies.Keys == db.movies.Keys
    ensures forall m :: m in r.movies ==> r.movies[m].director != Some(did)
    ensures forall m :: m in db.movies && db.movies[m].director == Some(did) ==>
              r.movies[m].director == None
    ensures forall m :: m in r.movies ==>
              r.movies[m] == db.movies[m].(director := r.movies[m].director)
    ensures forall m :: m in r.movies && db.movies[m].director != Some(did) ==>
              r.movies[m] == db.movies[m]
    ensures r.genres == db.genres && r.screenwriters == db.screenwriters && r.instances == db.instances
    ensures Intact(db) ==> Intact(r)
  {
    var movies := map m | m in db.movies ::
      if db.movies[m].director == Some(did) then db.movies[m].(director := None)
      else db.movies[m];
    db.(directors := db.directors - {did}, movies := movies)
  }

  datatype DeleteError = Restricted

  predicate HasCopies(db: Catalog, mid: MovieId)
  {
    exists i :: 0 <= i < |db.instances| && db.instances[i].movie == Some(mid)
  }

  /** Deleting a movie is refused while some rental copy still refers to it. */
  function DeleteMovie(db: Catalog, mid: MovieId): (r: Result<Catalog, DeleteError>)
    ensures r.Failure? <==> HasCopies(db, mid)
    ensures r.Failure? ==> r.error == Restricted
    ensures r.Success? ==> r.value.movies == db.movies - {mid}
    ensures r.Success? ==> r.value.(movies := db.movies) == db
    ensures r.Success? && Intact(db) ==> Intact(r.value)
  {
    if exists i :: 0 <= i < |db.instances| && db.instances[i].movie == Some(mid) then
      Failure(Restricted)
    else
      Success(db.(movies := db.movies - {mid}))
  }

  /** Deleting a user account clears the borrower of the copies it had borrowed; nothing else changes. */
  function DeleteBorrower(db: Catalog, uid: UserId): (r: Catalog)
    ensures |r.instances| == |db.instances|
    ensures forall i :: 0 <= i < |r.instances| ==> r.instances[i].borrower != Some(uid)
    ensures forall i :: 0 <= i < |r.instances| && db.instances[i].borrower == Some(uid) ==>
              r.instances[i].borrower == None
    ensures forall i :: 0 <= i < |r.instances| ==>
              r.instances[i] == db.instances[i].(borrower := r.instances[i].borrower)
    ensures forall i :: 0 <= i < |r.instances| && db.instances[i].borrower != Some(uid) ==>
              r.instances[i] == db.instances[i]
    ensures r.(instances := db.instances) == db
    ensures Intact(db) ==> Intact(r)
  {
    var rows := seq(|db.instances|, i requires 0 <= i < |db.instances| =>
      if db.instances[i].borrower == Some(uid) then db.instances[i].(borrower := None)
      else db.instances[i]);
    db.(instances := rows)
  }
}
