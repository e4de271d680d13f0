/** Client and server together: the confirm button's POST /bookings followed by the
    GET /bookings that refreshes the booking history, and a signup followed by a
    login and a second signup with the same email. */
module Flow {
  import opened Records
  import Client
  import Store
  import SeatJson
  import Bcrypt

  /** A booking the client sends is stored under a new id and is listed back with
      exactly the seat labels, price and date it was sent with. */
  method ConfirmAndRefresh(app: Client.App, db: Store.Database, showtime: string, date: string)
    returns (outcome: Client.Confirmation, history: seq<BookingView>)
    requires app.Valid() && db.Valid()
    modifies db`bookings, db`lastBookingId
    ensures db.Valid()
    ensures outcome.Blocked? ==>
      db.bookings == old(db.bookings) && db.lastBookingId == old(db.lastBookingId) && history == []
    ensures outcome.Submit? ==>
      && app.currentMovie.Some?
      && db.lastBookingId == old(db.lastBookingId) + 1
      && db.bookings == old(db.bookings) + [BookingRow(db.lastBookingId, None, app.currentMovie.value.id,
           app.currentMovie.value.title, showtime, SeatJson.Encode(Client.Labels(app.selectedSeats)),
           |app.selectedSeats| * app.currentMovie.value.price, date)]
      && exists k :: 0 <= k < |history| && history[k].id == db.lastBookingId
           && history[k].seats == Client.Labels(app.selectedSeats)
           && history[k].price == |app.selectedSeats| * app.currentMovie.value.price
           && history[k].date == date && history[k].userId == None
  {
    outcome := app.ConfirmBooking(showtime, date);
    history := [];
    if outcome.Submit? {
      var req := outcome.booking;
      var saved := db.SaveBooking(req);
      history := db.ListBookings();
      var row := db.bookings[|db.bookings| - 1];
      Store.SortByDateDescKeeps(db.bookings);
      assert row in multiset(Store.SortByDateDesc(db.bookings));
      var k :| 0 <= k < |history| && Store.SortByDateDesc(db.bookings)[k] == row;
      assert Store.Stored(history[k]) == row;
      SeatJson.EncodeInjective(history[k].seats, req.seats);
    }
  }

  /** Signing up with a fresh email succeeds once; the same email and password
      then log in with the new user's projection, and a second signup with the
      email is refused. */
  method SignupLoginSignup(db: Store.Database, name: string, email: string, password: string, salt: nat, salt2: nat)
    returns (first: Store.Reply, login: Store.LoginReply, second: Store.Reply)
    requires db.Valid() && Bcrypt.Sound(db.crypt)
    requires forall u :: u in db.users ==> u.email != email
    modifies db`users, db`lastUserId
    ensures db.Valid()
    ensures db.lastUserId == old(db.lastUserId) + 1
    ensures db.users == old(db.users) + [UserRow(db.lastUserId, name, email, db.crypt.hash(password, Bcrypt.SaltRounds, salt))]
    ensures first == Store.Reply(true, Store.SignupOk)
    ensures login == Store.LoginReply(true, Store.LoginOk, Some(UserView(db.lastUserId, name, email)))
    ensures second == Store.Reply(false, Store.UserExists)
  {
    ghost var before := db.users;
    first := db.Signup(name, email, password, salt);
    Store.LoginAfterSignup(before, db.lastUserId, name, email, password, salt, db.crypt);
    login := db.Login(email, password);
    assert db.users[|db.users| - 1] in db.users;
    second := db.Signup(name, email, password, salt2);
  }
}
