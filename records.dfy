/** Record shapes shared by the browser client and the server: the rows of the
    `users`, `movies` and `bookings` tables (backend/server.js:16-42) and the
    JSON bodies the client and the server exchange. */
module Records {

  datatype Option<+T> = None | Some(value: T)

  /** A row of the `movies` table; GET /movies hands these to the client as they are. */
  datatype MovieRow = MovieRow(id: nat, title: string, description: string, price: int, image: string)

  /** A row of the `users` table; `password` holds the bcrypt hash, never the password. */
  datatype UserRow = UserRow(id: nat, name: string, email: string, password: string)

  /** The identity projection returned by a successful login and kept by the client. */
  datatype UserView = UserView(id: nat, name: string, email: string)

  /** The body of POST /bookings. The client never sends `userId`. */
  datatype BookingRequest = BookingRequest(
    userId: Option<int>, movieId: nat, title: string, showtime: string,
    seats: seq<string>, price: int, date: string)

  /** A row of the `bookings` table; `seats` holds the JSON text of the seat list. */
  datatype BookingRow = BookingRow(
    id: nat, userId: Option<int>, movieId: nat, title: string, showtime: string,
    seats: string, price: int, date: string)

  /** A booking as GET /bookings returns it, with `seats` parsed back into a list. */
  datatype BookingView = BookingView(
    id: nat, userId: Option<int>, movieId: nat, title: string, showtime: string,
    seats: seq<string>, price: int, date: string)
}
