/** The server's tables and request handlers: POST /signup, POST /login,
    GET /movies, GET /bookings, POST /bookings and the first-run movie seed. Each
    table is a sequence of rows in insertion order with the AUTOINCREMENT counter
    that SQLite keeps for it. */
module Store {
  import opened Records
  import SeatJson
  import Bcrypt

  datatype Reply = Reply(success: bool, message: string)
  datatype LoginReply = LoginReply(success: bool, message: string, user: Option<UserView>)
  datatype SaveReply = SaveReply(success: bool, id: nat)

  const UserExists := "User already exists"
  const SignupOk := "Signup successful"
  const UserNotFound := "User not found"
  const InvalidPassword := "Invalid password"
  const LoginOk := "Login successful"

  // ---- Table invariants ----

  /** Ids handed out by an AUTOINCREMENT key: positive, increasing in insertion
      order and never above the table's counter. */
  ghost predicate AutoIncrement(ids: seq<nat>, last: nat) {
    && (forall i, j :: 0 <= i < j < |ids| ==> ids[i] < ids[j])
    && (forall i :: 0 <= i < |ids| ==> 0 < ids[i] <= last)
  }

  function UserIds(users: seq<UserRow>): seq<nat> {
    seq(|users|, k requires 0 <= k < |users| => users[k].id)
  }

  function MovieIds(movies: seq<MovieRow>): seq<nat> {
    seq(|movies|, k requires 0 <= k < |movies| => movies[k].id)
  }

  function BookingIds(bookings: seq<BookingRow>): seq<nat> {
    seq(|bookings|, k requires 0 <= k < |bookings| => bookings[k].id)
  }

  /** The UNIQUE constraint on `users.email`. */
  ghost predicate EmailsUnique(users: seq<UserRow>) {
    forall i, j :: 0 <= i < j < |users| ==> users[i].email != users[j].email
  }

  /** The `seats` column holds what POST /bookings writes there: the
      `JSON.stringify` text of a list of strings. */
  ghost predicate StoredSeats(text: string) {
    exists seats :: SeatJson.Encode(seats) == text
  }

  /** Stored seat text parses, and the parsed list stringifies back to it. */
  lemma StoredParses(text: string)
    requires StoredSeats(text)
    ensures SeatJson.Decode(text).Some?
    ensures SeatJson.Encode(SeatJson.Decode(text).value) == text
  {
    var seats :| SeatJson.Encode(seats) == text;
    SeatJson.DecodeEncode(seats);
  }

  // ---- Queries ----

  /** `SELECT * FROM users WHERE email = ?` with `.get`: the first matching row. */
  function FindUser(users: seq<UserRow>, email: string): (r: Option<UserRow>)
    ensures r.None? <==> forall u :: u in users ==> u.email != email
    ensures r.Some? ==> r.value in users && r.value.email == email
  {
    if users == [] then None
    else if users[0].email == email then Some(users[0])
    else FindUser(users[1..], email)
  }

  /** Under the UNIQUE constraint the matching row is the only one. */
  lemma FindUserUnique(users: seq<UserRow>, email: string, u: UserRow)
    requires EmailsUnique(users)
    requires u in users && u.email == email
    ensures FindUser(users, email) == Some(u)
  {
    var v := FindUser(users, email).value;
    var i :| 0 <= i < |users| && users[i] == u;
    var j :| 0 <= j < |users| && users[j] == v;
    assert i == j;
  }

  /** The identity projection: the row without its password hash. */
  function Project(u: UserRow): (v: UserView)
    ensures v.id == u.id && v.name == u.name && v.email == u.email
  {
    UserView(u.id, u.name, u.email)
  }

  /** The reply of POST /login. */
  function Authenticate(users: seq<UserRow>, email: string, password: string, crypt: Bcrypt.Hasher): (r: LoginReply)
    ensures r.success <==> r.user.Some?
    ensures r.message == UserNotFound <==> forall u :: u in users ==> u.email != email
    ensures r.success ==> exists u :: u in users && u.email == email
                                  && crypt.compare(password, u.password) && r.user == Some(Project(u))
    ensures !r.success ==> r.message == UserNotFound || r.message == InvalidPassword
  {
    match FindUser(users, email)
    case None => LoginReply(false, UserNotFound, None)
    case Some(u) =>
      if !crypt.compare(password, u.password) then LoginReply(false, InvalidPassword, None)
      else LoginReply(true, LoginOk, Some(Project(u)))
  }

  /** Under the UNIQUE constraint login succeeds exactly when the one row with the
      email holds a hash the password matches, and fails with "Invalid password"
      exactly when that row exists and does not match. */
  lemma AuthenticateUnique(users: seq<UserRow>, email: string, password: string, crypt: Bcrypt.Hasher, u: UserRow)
    requires EmailsUnique(users)
    requires u in users && u.email == email
    ensures Authenticate(users, email, password, crypt).success <==> crypt.compare(password, u.password)
    ensures Authenticate(users, email, password, crypt).success ==> Authenticate(users, email, password, crypt).user == Some(Project(u))
    ensures Authenticate(users, email, password, crypt).message == InvalidPassword <==> !crypt.compare(password, u.password)
  {
    FindUserUnique(users, email, u);
  }

  /** A user just signed up with a fresh email logs in with the same password. */
  lemma LoginAfterSignup(users: seq<UserRow>, id: nat, name: string, email: string, password: string,
                         salt: nat, crypt: Bcrypt.Hasher)
    requires Bcrypt.Sound(crypt)
    requires forall u :: u in users ==> u.email != email
    ensures var added := UserRow(id, name, email, crypt.hash(password, Bcrypt.SaltRounds, salt));
            Authenticate(users + [added], email, password, crypt) == LoginReply(true, LoginOk, Some(UserView(id, name, email)))
  {
    var added := UserRow(id, name, email, crypt.hash(password, Bcrypt.SaltRounds, salt));
    var all := users + [added];
    assert added in all;
    var found := FindUser(all, email).value;
    assert found !in users;
    assert found == added;
  }

  // ---- ORDER BY date DESC ----

  /** SQLite's comparison of two TEXT values under the default BINARY collation:
      code point by code point, a proper prefix first. */
  predicate TextLe(a: string, b: string)
    decreases |a|
  {
    a == [] || (b != [] && (a[0] < b[0] || (a[0] == b[0] && TextLe(a[1..], b[1..]))))
  }

  lemma {:induction false} TextLeTotal(a: string, b: string)
    ensures TextLe(a, b) || TextLe(b, a)
    decreases |a|
  {
    if a != [] && b != [] && a[0] == b[0] {
      TextLeTotal(a[1..], b[1..]);
    }
  }

  lemma {:induction false} TextLeTransitive(a: string, b: string, c: string)
    requires TextLe(a, b) && TextLe(b, c)
    ensures TextLe(a, c)
    decreases |a|
  {
    if a != [] && b != [] && c != [] && a[0] == b[0] && b[0] == c[0] {
      TextLeTransitive(a[1..], b[1..], c[1..]);
    }
  }

  lemma {:induction false} TextLeAntisymmetric(a: string, b: string)
    requires TextLe(a, b) && TextLe(b, a)
    ensures a == b
    decreases |a|
  {
    if a != [] {
      TextLeAntisymmetric(a[1..], b[1..]);
      assert a == [a[0]] + a[1..] && b == [b[0]] + b[1..];
    }
  }

  /** Latest first: no row is followed by a row with a later date. */
  ghost predicate DateDescending(rows: seq<BookingRow>) {
    forall i, j :: 0 <= i < j < |rows| ==> TextLe(rows[j].date, rows[i].date)
  }

  /** Places `b` in front of the first row whose date is not later than its own. */
  function InsertByDate(b: BookingRow, sorted: seq<BookingRow>): (r: seq<BookingRow>)
    ensures |r| == |sorted| + 1
  {
    if sorted == [] then [b]
    else if TextLe(sorted[0].date, b.date) then [b] + sorted
    else [sorted[0]] + InsertByDate(b, sorted[1..])
  }

  /** The row order of `SELECT * FROM bookings ORDER BY date DESC`. */
  function SortByDateDesc(rows: seq<BookingRow>): (r: seq<BookingRow>)
    ensures |r| == |rows|
  {
    if rows == [] then [] else InsertByDate(rows[0], SortByDateDesc(rows[1..]))
  }

  lemma {:induction false} InsertByDatePermutes(b: BookingRow, sorted: seq<BookingRow>)
    ensures multiset(InsertByDate(b, sorted)) == multiset(sorted) + multiset{b}
  {
    if sorted != [] && !TextLe(sorted[0].date, b.date) {
      InsertByDatePermutes(b, sorted[1..]);
      assert sorted == [sorted[0]] + sorted[1..];
    }
  }

  /** Every row of the result is `b` or a row of `sorted`, and is not later than
      any bound on both. */
  lemma InsertByDateBounded(b: BookingRow, sorted: seq<BookingRow>, top: string)
    requires TextLe(b.date, top)
    requires forall k :: 0 <= k < |sorted| ==> TextLe(sorted[k].date, top)
    ensures forall k :: 0 <= k < |InsertByDate(b, sorted)| ==> TextLe(InsertByDate(b, sorted)[k].date, top)
  {
    var r := InsertByDate(b, sorted);
    InsertByDatePermutes(b, sorted);
    forall k | 0 <= k < |r| ensures TextLe(r[k].date, top) {
      assert r[k] in multiset(r);
      if r[k] != b {
        assert r[k] in multiset(sorted);
        var m :| 0 <= m < |sorted| && sorted[m] == r[k];
      }
    }
  }

  lemma {:induction false} InsertByDateSorted(b: BookingRow, sorted: seq<BookingRow>)
    requires DateDescending(sorted)
    ensures DateDescending(InsertByDate(b, sorted))
  {
    if sorted == [] {
    } else if TextLe(sorted[0].date, b.date) {
      var r := [b] + sorted;
      forall i, j | 0 <= i < j < |r| ensures TextLe(r[j].date, r[i].date) {
        if i == 0 {
          if j > 1 {
            TextLeTransitive(r[j].date, sorted[0].date, b.date);
          }
        } else {
          assert r[i] == sorted[i - 1] && r[j] == sorted[j - 1];
        }
      }
    } else {
      var rest := InsertByDate(b, sorted[1..]);
      InsertByDateSorted(b, sorted[1..]);
      TextLeTotal(sorted[0].date, b.date);
      InsertByDateBounded(b, sorted[1..], sorted[0].date);
      var r := [sorted[0]] + rest;
      forall i, j | 0 <= i < j < |r| ensures TextLe(r[j].date, r[i].date) {
        if i == 0 {
          assert r[j] == rest[j - 1];
        } else {
          assert r[i] == rest[i - 1] && r[j] == rest[j - 1];
        }
      }
    }
  }

  /** The ordered rows are the table's rows, latest first. */
  lemma {:induction false} SortByDateDescKeeps(rows: seq<BookingRow>)
    ensures multiset(SortByDateDesc(rows)) == multiset(rows)
    ensures DateDescending(SortByDateDesc(rows))
  {
    if rows != [] {
      SortByDateDescKeeps(rows[1..]);
      InsertByDatePermutes(rows[0], SortByDateDesc(rows[1..]));
      InsertByDateSorted(rows[0], SortByDateDesc(rows[1..]));
      assert rows == [rows[0]] + rows[1..];
    }
  }

  /** Of two bookings with different dates, the later one is listed first. */
  lemma LaterListedFirst(rows: seq<BookingRow>, i: nat, j: nat)
    requires DateDescending(rows)
    requires i < |rows| && j < |rows|
    requires TextLe(rows[i].date, rows[j].date) && rows[i].date != rows[j].date
    ensures j < i
  {
    if i < j {
      TextLeAntisymmetric(rows[i].date, rows[j].date);
    }
  }

  /** A stored row with its `seats` text parsed. */
  function Decoded(b: BookingRow): BookingView
    requires StoredSeats(b.seats)
  {
    StoredParses(b.seats);
    BookingView(b.id, b.userId, b.movieId, b.title, b.showtime, SeatJson.Decode(b.seats).value, b.price, b.date)
  }

  /** A listed booking written back as a row, `seats` stringified again. */
  function Stored(v: BookingView): BookingRow {
    BookingRow(v.id, v.userId, v.movieId, v.title, v.showtime, SeatJson.Encode(v.seats), v.price, v.date)
  }

  /** Writing a parsed row back gives the row that was read: the parsed seat list
      stringifies back to the stored text. */
  lemma DecodedStored(b: BookingRow)
    requires StoredSeats(b.seats)
    ensures Stored(Decoded(b)) == b
  {
    StoredParses(b.seats);
  }

  // ---- The database ----

  class Database {
    const crypt: Bcrypt.Hasher
    var users: seq<UserRow>
    var movies: seq<MovieRow>
    var bookings: seq<BookingRow>
    var lastUserId: nat
    var lastMovieId: nat
    var lastBookingId: nat

    ghost predicate Valid()
      reads this
    {
      && AutoIncrement(UserIds(users), lastUserId)
      && EmailsUnique(users)
      && AutoIncrement(MovieIds(movies), lastMovieId)
      && AutoIncrement(BookingIds(bookings), lastBookingId)
      && (forall b :: b in bookings ==> StoredSeats(b.seats))
    }

    /** A new database file: the three tables created empty. */
    constructor (crypt: Bcrypt.Hasher)
      ensures Valid()
      ensures this.crypt == crypt
      ensures users == [] && movies == [] && bookings == []
      ensures lastUserId == 0 && lastMovieId == 0 && lastBookingId == 0
    {
      this.crypt := crypt;
      users, movies, bookings := [], [], [];
      lastUserId, lastMovieId, lastBookingId := 0, 0, 0;
    }

    /** `INSERT INTO movies (title, description, price, image) VALUES (...)`. */
    method InsertMovie(title: string, description: string, price: int, image: string) returns (id: nat)
      requires Valid()
      modifies this`movies, this`lastMovieId
      ensures Valid()
      ensures id == old(lastMovieId) + 1 && lastMovieId == id
      ensures movies == old(movies) + [MovieRow(id, title, description, price, image)]
    {
      id := lastMovieId + 1;
      movies := movies + [MovieRow(id, title, description, price, image)];
      lastMovieId := id;
      assert MovieIds(movies) == MovieIds(old(movies)) + [id];
    }

    /** The first-run seed: three movies, inserted only when the table is empty. */
    method SeedMoviesIfEmpty()
      requires Valid()
      modifies this`movies, this`lastMovieId
      ensures Valid()
      ensures old(movies) != [] ==> movies == old(movies) && lastMovieId == old(lastMovieId)
      ensures old(movies) == [] ==> movies == SeedMovies(old(lastMovieId)) && lastMovieId == old(lastMovieId) + 3
    {
      if |movies| == 0 {
        var _ := InsertMovie("Avengers: Endgame",
          "The Avengers assemble for the final battle.", 300,
          "http://www.impawards.com/2019/posters/avengers_endgame_ver2.jpg");
        var _ := InsertMovie("Inception",
          "A thief who steals corporate secrets through dream-sharing tech.", 250,
          "https://m.media-amazon.com/images/I/51oD-VR5w7L._AC_.jpg");
        var _ := InsertMovie("Interstellar",
          "A journey through space and time to save humanity.", 280,
          "https://m.media-amazon.com/images/I/71n58mY1v+L._AC_SY679_.jpg");
      }
    }

    /** POST /signup. */
    method Signup(name: string, email: string, password: string, salt: nat) returns (reply: Reply)
      requires Valid()
      modifies this`users, this`lastUserId
      ensures Valid()
      ensures (exists u :: u in old(users) && u.email == email) ==>
        reply == Reply(false, UserExists) && users == old(users) && lastUserId == old(lastUserId)
      ensures (forall u :: u in old(users) ==> u.email != email) ==>
        && reply == Reply(true, SignupOk)
        && lastUserId == old(lastUserId) + 1
        && users == old(users) + [UserRow(lastUserId, name, email, crypt.hash(password, Bcrypt.SaltRounds, salt))]
      ensures reply.success && Bcrypt.Sound(crypt) ==> crypt.compare(password, users[|users| - 1].password)
    {
      var existing := FindUser(users, email);
      if existing.Some? {
        return Reply(false, UserExists);
      }
      var hashed := crypt.hash(password, Bcrypt.SaltRounds, salt);
      var id := lastUserId + 1;
      var row := UserRow(id, name, email, hashed);
      assert EmailsUnique(users + [row]) by {
        var all := users + [row];
        forall i, j | 0 <= i < j < |all| ensures all[i].email != all[j].email {
          if j == |users| {
            assert all[i] in users;
          } else {
            assert all[i] == users[i] && all[j] == users[j];
          }
        }
      }
      assert UserIds(users + [row]) == UserIds(users) + [id];
      users := users + [row];
      lastUserId := id;
      reply := Reply(true, SignupOk);
    }

    /** POST /login. */
    method Login(email: string, password: string) returns (reply: LoginReply)
      requires Valid()
      ensures reply == Authenticate(users, email, password, crypt)
      ensures reply.success <==> exists u :: u in users && u.email == email && crypt.compare(password, u.password)
    {
      var user := FindUser(users, email);
      if user.None? {
        return LoginReply(false, UserNotFound, None);
      }
      var u := user.value;
      AuthenticateUnique(users, email, password, crypt, u);
      var valid := crypt.compare(password, u.password);
      if !valid {
        return LoginReply(false, InvalidPassword, None);
      }
      reply := LoginReply(true, LoginOk, Some(Project(u)));
    }

    /** GET /movies: every movie row in table order. */
    method ListMovies() returns (result: seq<MovieRow>)
      ensures result == movies
    {
      result := movies;
    }

    /** GET /bookings: the rows latest first, each `seats` text parsed back. */
    method ListBookings() returns (result: seq<BookingView>)
      requires Valid()
      ensures |result| == |bookings|
      ensures forall k :: 0 <= k < |result| ==> Stored(result[k]) == SortByDateDesc(bookings)[k]
      ensures forall i, j :: 0 <= i < j < |result| ==> TextLe(result[j].date, result[i].date)
      ensures forall v :: v in result ==> Stored(v) in bookings
    {
      var rows := SortByDateDesc(bookings);
      SortByDateDescKeeps(bookings);
      forall r | r in rows ensures r in bookings && StoredSeats(r.seats) {
        assert r in multiset(rows);
      }
      result := ParseSeatsColumn(rows);
      forall k | 0 <= k < |result| ensures Stored(result[k]) == rows[k] {
        DecodedStored(rows[k]);
      }
      forall v | v in result ensures Stored(v) in bookings {
        var k :| 0 <= k < |result| && result[k] == v;
        assert Stored(v) == rows[k];
      }
      forall i, j | 0 <= i < j < |result| ensures TextLe(result[j].date, result[i].date) {
        assert result[i].date == rows[i].date && result[j].date == rows[j].date;
      }
    }

    /** POST /bookings: the body stored as one new row, the seat list as JSON text. */
    method SaveBooking(req: BookingRequest) returns (reply: SaveReply)
      requires Valid()
      modifies this`bookings, this`lastBookingId
      ensures Valid()
      ensures reply == SaveReply(true, old(lastBookingId) + 1) && lastBookingId == reply.id
      ensures forall b :: b in old(bookings) ==> b.id < reply.id
      ensures bookings == old(bookings) + [BookingRow(reply.id, req.userId, req.movieId, req.title,
                                                      req.showtime, SeatJson.Encode(req.seats), req.price, req.date)]
    {
      var id := lastBookingId + 1;
      var text := SeatJson.Encode(req.seats);
      SeatJson.DecodeEncode(req.seats);
      var row := BookingRow(id, req.userId, req.movieId, req.title, req.showtime, text, req.price, req.date);
      assert BookingIds(bookings + [row]) == BookingIds(bookings) + [id];
      forall b | b in bookings ensures b.id < id {
        var i :| 0 <= i < |bookings| && bookings[i] == b;
        assert BookingIds(bookings)[i] == b.id;
      }
      bookings := bookings + [row];
      lastBookingId := id;
      reply := SaveReply(true, id);
    }
  }

  /** `bookings.forEach(b => b.seats = JSON.parse(b.seats))`: parses the `seats`
      column of every row, keeping the rows' order. */
  method ParseSeatsColumn(rows: seq<BookingRow>) returns (views: seq<BookingView>)
    requires forall r :: r in rows ==> StoredSeats(r.seats)
    ensures |views| == |rows|
    ensures forall k :: 0 <= k < |rows| ==> rows[k] in rows && views[k] == Decoded(rows[k])
  {
    views := [];
    var k := 0;
    while k < |rows|
      invariant 0 <= k <= |rows|
      invariant |views| == k
      invariant forall m :: 0 <= m < k ==> rows[m] in rows && views[m] == Decoded(rows[m])
    {
      assert rows[k] in rows;
      var view := Decoded(rows[k]);
      views := views + [view];
      k := k + 1;
    }
  }

  /** The three movies of the first-run seed, numbered after `last`. */
  function SeedMovies(last: nat): seq<MovieRow> {
    [ MovieRow(last + 1, "Avengers: Endgame", "The Avengers assemble for the final battle.", 300,
               "http://www.impawards.com/2019/posters/avengers_endgame_ver2.jpg"),
      MovieRow(last + 2, "Inception", "A thief who steals corporate secrets through dream-sharing tech.", 250,
               "https://m.media-amazon.com/images/I/51oD-VR5w7L._AC_.jpg"),
      MovieRow(last + 3, "Interstellar", "A journey through space and time to save humanity.", 280,
               "https://m.media-amazon.com/images/I/71n58mY1v+L._AC_SY679_.jpg") ]
  }
}
