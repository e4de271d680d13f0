# Movie ticket booking demo: a Dafny model of the booking data path

This project models the two parts of the movie-ticket booking demo that hold state.

- **The browser client** (`frontend/app.js`) keeps the following module-level state:
  - the loaded catalog;
  - the logged-in user;
  - the movie whose booking modal is open;
  - the set of selected seats.

  The seat map has 48 seats, numbered 0..47 and labelled `A1`..`F8`. A click toggles a seat. Confirming either raises an alert or builds the booking record that is posted to the server. The catalog view filters by a case-insensitive title match and can sort by price.
- **The server** (`backend/server.js`) keeps the `users`, `movies` and `bookings` tables. Its handlers are signup, login, listing movies, listing bookings latest first and saving a booking. A seed inserts three movies on the first run.

Modules, one per concern:

| file | module | models |
|---|---|---|
| `records.dfy` | `Records` | table rows and JSON bodies |
| `seats.dfy` | `Seats` | seat index ↔ label |
| `catalog.dfy` | `Catalog` | lower-casing, `includes`, title filter, in-place price sort on an `array` |
| `client.dfy` | `Client` | class `App`: the client's mutable state and its handlers |
| `seat_json.dfy` | `SeatJson` | `JSON.stringify` / `JSON.parse` of the seat list |
| `bcrypt.dfy` | `Bcrypt` | the hash/compare pair, as opaque function values |
| `store.dfy` | `Store` | class `Database`: the three tables with their AUTOINCREMENT counters, and the handlers |
| `flow.dfy` | `Flow` | client and server together |

Modelling choices:

- **Seat selection order.** A JavaScript `Set` iterates in insertion order, and `Array.from` keeps that order. So the selection is a sequence without repetitions. Clicking the same seat twice always gives back the same set of seats. It gives back the same order when the seat was not selected before. When it was selected, the seat ends up last, so the order changes unless it was already last. `Client.ToggleTwice` proves all three facts.
- **The client never sends `userId`.** The `bookings` table has a `userId` column (backend/server.js:34), and POST /bookings stores whatever arrives (backend/server.js:120-124). The client's record (frontend/app.js:197-204) has no `userId`, so `userId` is always `None` in the bookings it sends.
- **Replies.** Failures are not error statuses. Replies carry a `success` flag and the messages "User already exists", "User not found" or "Invalid password" (backend/server.js:76, 93, 96).
- **Movie rows.** The model uses the schema created at backend/server.js:24-30: id, title, description, price and image. backend/db.js holds a second schema, which is left out.
- **bcrypt.** bcrypt is a pair of function values. The random salt is an explicit argument. The only property used is `Bcrypt.Sound`: a password matches every hash made of it. It appears as a `requires` wherever it is needed.
- **Seat clicks need an open modal.** `Client.App.ToggleSeat` requires a current movie and a seat index below 48. The seat elements exist only after `openBookingModal` has drawn the 48 seats of the modal.
- **Login projection.** `Store.Project` builds the reply's user from the row's id, name and email. `UserView` has no field for the hash, so a login reply cannot carry it.
- **Booking order.** `ORDER BY date DESC` compares TEXT under SQLite's BINARY collation. For a Dafny string, this is code-point order with a proper prefix first. ISO dates in that order are in time order.

## Model

| member | source | states |
|---|---|---|
| `Seats.SeatLabel` | frontend/app.js:177 | seat i gets a two-character label: row letter `A`+i/8 in A..F, then column digit i%8+1 in 1..8 |
| `Seats.LabelRoundTrip` | frontend/app.js:174-177 | every seat's label lies on the A..F × 1..8 grid and reads back as that seat |
| `Seats.ParseRoundTrip` | frontend/app.js:174-177 | every grid label is the label of some seat 0..47, so the map covers the whole grid |
| `Seats.LabelInjective` | frontend/app.js:201 | distinct seats get distinct labels |
| `Catalog.Lower` | frontend/app.js:146-147 | `toLowerCase` for ASCII: same length, no capital A..Z left, each capital replaced by its lower-case letter and every other character kept |
| `Catalog.Includes` | frontend/app.js:147 | `includes` is true exactly when the pattern occurs at some position of the text |
| `Catalog.Filter` | frontend/app.js:147 | a movie is kept exactly when it is in the list and its lower-cased title contains the query; the result is no longer than the input |
| `Catalog.FilterAppend` | frontend/app.js:147 | filtering distributes over concatenation, so kept movies stay in their original order |
| `Catalog.FilterCount` | frontend/app.js:147 | a matching movie keeps every copy it had, and a non-matching one keeps none |
| `Catalog.FilterEmptyQuery` | frontend/app.js:146-147 | an empty search keeps every movie in order |
| `Catalog.SortByPrice` | frontend/app.js:150-151 | the in-place sort leaves the array a permutation of its old contents, ordered by price ascending or descending |
| `Client.Delete` | frontend/app.js:185 | `Set.delete` cuts the seat out at its first (only) place and keeps every other seat in insertion order; an absent seat leaves the selection as it is; a repetition-free selection stays repetition-free and loses exactly that seat |
| `Client.Toggled` | frontend/app.js:183-191 | toggling seat i flips i's membership and leaves every other seat's membership as it was |
| `Client.ToggleTwice` | frontend/app.js:183-191 | toggling twice restores the set of seats; the order is restored too when the seat was not selected, and otherwise the seat moves to the end |
| `Client.Labels` | frontend/app.js:201 | one label per selected seat in selection order, the k-th reading back as the k-th seat; a repetition-free selection gives pairwise distinct labels |
| `Client.AssembleBooking` | frontend/app.js:197-204 | the record has no userId and carries the movie's id and title, the showtime and the date; it has one label per selected seat, each reading back as its seat, and price = seat count × unit price |
| `Client.App.constructor` | frontend/app.js:20-25 | page load: no movies, no current movie, an empty selection, and the user kept in storage |
| `Client.App.LoadMovies` | frontend/app.js:93-97 | the fetched catalog replaces the movie list, nothing else changes and the selection invariant is kept |
| `Client.App.ApplyFiltersAndSearch` | frontend/app.js:143-154 | shows exactly the movies whose lower-cased title contains the lower-cased search, as a permutation of the filtered list; prices ascend for `price-asc` and descend for `price-desc`; with any other choice the filtered list is shown in order |
| `Client.App.OpenBookingModal` | frontend/app.js:160-166 | sets the current movie and empties the selection, whatever it held before |
| `Client.App.ToggleSeat` | frontend/app.js:183-191 | the new selection is the old one toggled at i; the selection invariant is kept |
| `Client.App.ConfirmBooking` | frontend/app.js:193-204 | an empty selection, or no logged-in user, raises the matching alert and sends nothing; otherwise it sends the assembled record, with one label per selected seat and price = seat count × unit price |
| `SeatJson.Encode` | backend/server.js:124 | `JSON.stringify` of the seat list: the text is bracketed by `[` and `]`, and it is `[]` exactly for the empty list; the round trip is `SeatJson.DecodeEncode` |
| `SeatJson.Decode` | backend/server.js:114 | `JSON.parse` of the stored text: a text it accepts opens with `[`, and it reads the empty list exactly from `[]`; what it reads back from stored text is `SeatJson.DecodeEncode` |
| `SeatJson.DecodeEncode` | backend/server.js:114-124 | parsing the stored JSON text of a seat list gives back exactly that list |
| `SeatJson.EncodeInjective` | backend/server.js:124 | different seat lists are stored as different texts |
| `Store.FindUser` | backend/server.js:75 | the lookup finds nothing exactly when no row has the email; a found row is in the table and has that email |
| `Store.FindUserUnique` | backend/server.js:20 | under the UNIQUE email constraint, the lookup returns the one row with the email |
| `Store.Project` | backend/server.js:101 | the login projection carries the row's id, name and email; `UserView` has no hash field |
| `Store.Authenticate` | backend/server.js:89-103 | "User not found" exactly when no row has the email; on success the user is the projection of a row with that email whose hash the password matches; any other failure is "Invalid password" |
| `Store.AuthenticateUnique` | backend/server.js:91-96 | with unique emails, login succeeds exactly when the password matches the email's row; it returns that row's projection; "Invalid password" exactly when the row exists and does not match |
| `Store.LoginAfterSignup` | backend/server.js:78-102 | if compare accepts every hash of a password, a user appended with a fresh email logs in with the same password and gets back its {id, name, email}, whatever the earlier rows hold |
| `Store.TextLeTotal` | backend/server.js:113 | any two date texts are comparable |
| `Store.TextLeTransitive` | backend/server.js:113 | the text order is transitive |
| `Store.TextLeAntisymmetric` | backend/server.js:113 | texts that are each at most the other are equal |
| `Store.SortByDateDesc` | backend/server.js:113 | `ORDER BY date DESC`: its contract gives only the length; sortedness and permutation are `Store.SortByDateDescKeeps` |
| `Store.SortByDateDescKeeps` | backend/server.js:113 | the ordered listing is a permutation of the table, latest date first |
| `Store.LaterListedFirst` | backend/server.js:113 | of two listed bookings with different dates, the later one comes first |
| `Store.StoredParses` | backend/server.js:114-124 | text that `JSON.stringify` wrote into the `seats` column parses, and the parsed list stringifies back to the same text |
| `Store.DecodedStored` | backend/server.js:114 | a row whose `seats` text was written by `JSON.stringify`, read with its `seats` parsed and written back with the list stringified again, is the row that was read |
| `Store.ParseSeatsColumn` | backend/server.js:114 | the `forEach` loop: one entry per row in row order, each the row with its `seats` text parsed |
| `Store.Database.constructor` | backend/server.js:13-42 | a new database has the three tables empty and the three AUTOINCREMENT counters at zero, so the first row of each table gets id 1, and it satisfies the table invariants |
| `Store.Database.InsertMovie` | backend/server.js:47-49 | appends one movie row under the next AUTOINCREMENT id |
| `Store.Database.SeedMoviesIfEmpty` | backend/server.js:45-69 | an empty movie table receives the three seed movies under the next three ids; a non-empty one is left unchanged |
| `Store.Database.Signup` | backend/server.js:72-86 | a known email gets "User already exists" and leaves the users unchanged; a fresh email appends exactly one user with the name, the email, the hash of the password and the next id; emails stay unique; under `Sound`, compare accepts the stored hash |
| `Store.Database.Login` | backend/server.js:89-103 | replies as `Authenticate`; under the table invariant, succeeds exactly when some row has the email and a hash the password matches |
| `Store.Database.ListMovies` | backend/server.js:106-109 | every movie row, in table order |
| `Store.Database.ListBookings` | backend/server.js:112-116 | one entry per booking row, latest date first; each entry, with its seats stringified again, is the row at its place in the ordered table |
| `Store.Database.SaveBooking` | backend/server.js:119-126 | appends exactly one row holding the body with the seat list as JSON text; returns success and an id above every earlier booking id; the other tables are untouched |
| `Flow.ConfirmAndRefresh` | frontend/app.js:193-215 | a blocked confirm changes no table and no counter; a sent booking takes the next id and appends exactly one row after the old ones (no user, the movie's id and title, the showtime, the labels as JSON text, seat count × unit price, the date), and the refreshed listing has an entry with the new id whose seats are exactly the selection's labels |
| `Flow.SignupLoginSignup` | backend/server.js:72-103 | a fresh email signs up under the next id, with exactly one row appended after the old ones holding the name, the email and the salted hash; it logs in with the same password and gets its projection; a second signup with that email is refused |

## Left out

- DOM rendering is user interface only. This covers the `moviesGrid` early return of `applyFiltersAndSearch`, `renderMovies`, the element building in `renderSeats`, the `renderBookings` HTML, CSS class toggling and `closeBookingModal`.
- `fetch`, `localStorage`, page redirects and `console` are browser input and output. Fetched data and the stored user are parameters. An `alert` is the `Blocked` message of a confirm.
- The login, signup and logout form handlers (frontend/app.js:27-70 and 84-90) are not modelled. They only forward to the server, write local storage and redirect. The server side of each is modelled.
- The index page's load step (frontend/app.js:73-82) is not modelled as a member. It redirects to the login page when no user is stored, and otherwise shows the user's name and calls `loadMovies` and `renderBookings`. The stored user is the parameter of `Client.App.constructor`, and `Client.App.LoadMovies` models the movie load.
- Express routing, CORS, `dotenv` and port binding (backend/server.js:1-10, 128-132) are framework wiring.
- bcrypt's algorithm and salt generation are a foreign library. The salt is a parameter.
- The SQLite engine and its DDL are not modelled. Tables are sequences of rows, and ids follow the AUTOINCREMENT counter.
- `new Date().toISOString()` is a clock, so the booking date is a parameter. `showtimeSelect.value` is a parameter too.
- backend/db.js and backend/seed.js are not part of this model. They hold a second schema and a one-shot seeding script.
- Seat conflicts, double booking and concurrent requests are not modelled, because the code has no check or coordination for them.
- JSON request bodies with missing fields are not modelled. The server would store such a field as NULL. Bodies are typed records, and `seats` is always a list of strings, as the client sends it.
- Integer widths are not modelled. Ids and prices are unbounded. SQLite uses 64-bit integers and JavaScript uses doubles.
- Catalog.Lower: handles ASCII letters only. JavaScript's `toLowerCase` also lower-cases non-ASCII letters.
- Catalog.SortByPrice: proves sorted and permutation, but not that the sort is stable. JavaScript's `Array.prototype.sort` is stable.
- Store.SortByDateDesc: puts bookings with equal dates in table order. SQLite promises no order among equal keys.
- SeatJson.Decode: reads only the grammar that `JSON.stringify` writes for an array of strings. It rejects white space, other JSON values and `\u` escapes of surrogate pairs. Only such text ever reaches it.
