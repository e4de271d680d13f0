/** The browser client's module-level state and the handlers that change it: the
    loaded catalog, the logged-in user, the movie whose booking modal is open and
    the set of selected seats. */
module Client {
  import opened Records
  import opened Seats
  import Catalog

  /** A JavaScript `Set` of seat indices is a sequence without repetitions in the
      order the seats were added, which is the order `Array.from` yields them. */
  predicate Distinct(s: seq<nat>) {
    forall i, j :: 0 <= i < j < |s| ==> s[i] != s[j]
  }

  /** The seats of a selection, without order. */
  function Elements(s: seq<nat>): set<nat> {
    set x | x in s
  }

  /** The place of the first `x` in `s`. */
  function IndexOf(s: seq<nat>, x: nat): (k: nat)
    requires x in s
    ensures k < |s| && s[k] == x && x !in s[..k]
  {
    if s[0] == x then 0
    else
      var k := IndexOf(s[1..], x);
      assert s[..k + 1] == [s[0]] + s[1..][..k];
      1 + k
  }

  /** `set.delete(x)`: drops `x`, keeping the order of the rest. */
  function Delete(s: seq<nat>, x: nat): (r: seq<nat>)
    ensures forall y :: y in r ==> y in s
    ensures Distinct(s) ==> Distinct(r)
    ensures Distinct(s) ==> forall y :: y in r <==> y in s && y != x
    ensures x !in s ==> r == s
    ensures x in s ==> r == s[..IndexOf(s, x)] + s[IndexOf(s, x) + 1..]
  {
    if s == [] then []
    else if s[0] == x then
      assert s[..0] == [] && s[0 + 1..] == s[1..];
      s[1..]
    else
      var rest := Delete(s[1..], x);
      DeleteConsMembers(s, x, rest);
      DeleteConsOrder(s, x, rest);
      [s[0]] + rest
  }

  /** A kept head in front of the rest with `x` deleted keeps the seats apart. */
  lemma DeleteConsMembers(s: seq<nat>, x: nat, rest: seq<nat>)
    requires s != [] && s[0] != x
    requires forall y :: y in rest ==> y in s[1..]
    requires Distinct(s[1..]) ==> Distinct(rest)
    requires Distinct(s[1..]) ==> forall y :: y in rest <==> y in s[1..] && y != x
    ensures forall y :: y in [s[0]] + rest ==> y in s
    ensures Distinct(s) ==> Distinct([s[0]] + rest)
    ensures Distinct(s) ==> forall y :: y in [s[0]] + rest <==> y in s && y != x
  {
    if Distinct(s) {
      assert Distinct(s[1..]) && s[0] !in rest;
    }
  }

  /** A kept head in front of the rest with `x` deleted: `x` is cut out at its
      first place, one further along. */
  lemma DeleteConsOrder(s: seq<nat>, x: nat, rest: seq<nat>)
    requires s != [] && s[0] != x
    requires x !in s[1..] ==> rest == s[1..]
    requires x in s[1..] ==> rest == s[1..][..IndexOf(s[1..], x)] + s[1..][IndexOf(s[1..], x) + 1..]
    ensures x !in s ==> [s[0]] + rest == s
    ensures x in s ==> [s[0]] + rest == s[..IndexOf(s, x)] + s[IndexOf(s, x) + 1..]
  {
    if x in s {
      assert x in s[1..];
      var j := IndexOf(s[1..], x);
      assert IndexOf(s, x) == j + 1;
      assert s[..j + 1] == [s[0]] + s[1..][..j];
      assert s[j + 2..] == s[1..][j + 1..];
    } else {
      assert x !in s[1..];
    }
  }

  /** The selection after a click on seat `i`: deleted if selected, else appended. */
  function Toggled(s: seq<nat>, i: nat): (r: seq<nat>)
    ensures Distinct(s) ==> Distinct(r)
    ensures Distinct(s) ==> (i in r <==> i !in s)
    ensures Distinct(s) ==> forall j :: j != i ==> (j in r <==> j in s)
  {
    if i in s then Delete(s, i) else s + [i]
  }

  /** Deleting a seat that was just appended restores the sequence. */
  lemma {:induction false} DeleteAppended(s: seq<nat>, i: nat)
    requires i !in s
    ensures Delete(s + [i], i) == s
  {
    if s != [] {
      assert (s + [i])[0] == s[0] && (s + [i])[1..] == s[1..] + [i];
      DeleteAppended(s[1..], i);
    }
  }

  /** Two clicks on the same seat give back the same set of seats; when the seat
      was not selected the selection comes back exactly, order included. When it
      was, it comes back as the last one added. */
  lemma ToggleTwice(s: seq<nat>, i: nat)
    requires Distinct(s)
    ensures Elements(Toggled(Toggled(s, i), i)) == Elements(s)
    ensures i !in s ==> Toggled(Toggled(s, i), i) == s
    ensures i in s ==> Toggled(Toggled(s, i), i) == Delete(s, i) + [i]
  {
    if i !in s {
      DeleteAppended(s, i);
    } else {
      var d := Delete(s, i);
      assert Toggled(s, i) == d && i !in d;
      assert Toggled(d, i) == d + [i];
      assert Elements(d + [i]) == Elements(s) by {
        forall y ensures y in d + [i] <==> y in s {
          assert y in d + [i] <==> y in d || y == i;
        }
      }
    }
  }

  /** The labels of the selected seats in selection order. */
  function Labels(seats: seq<nat>): (r: seq<string>)
    requires forall x :: x in seats ==> x < SeatCount
    ensures |r| == |seats|
    ensures forall k :: 0 <= k < |seats| ==> ParseSeatLabel(r[k]) == Some(seats[k])
    ensures Distinct(seats) ==> forall a, b :: 0 <= a < b < |r| ==> r[a] != r[b]
  {
    var r := seq(|seats|, k requires 0 <= k < |seats| => assert seats[k] in seats; SeatLabel(seats[k]));
    assert forall k :: 0 <= k < |seats| ==> ParseSeatLabel(r[k]) == Some(seats[k]) by {
      forall k | 0 <= k < |seats| ensures ParseSeatLabel(r[k]) == Some(seats[k]) {
        assert seats[k] in seats;
        LabelRoundTrip(seats[k]);
      }
    }
    assert forall a, b :: 0 <= a < b < |r| && r[a] == r[b] ==> seats[a] == seats[b] by {
      forall a, b | 0 <= a < b < |r| && r[a] == r[b] ensures seats[a] == seats[b] {
        assert seats[a] in seats && seats[b] in seats;
        LabelInjective(seats[a], seats[b]);
      }
    }
    r
  }

  /** The booking record the confirm handler sends. */
  function AssembleBooking(movie: MovieRow, seats: seq<nat>, showtime: string, date: string): (b: BookingRequest)
    requires forall x :: x in seats ==> x < SeatCount
    ensures b.userId == None
    ensures b.movieId == movie.id && b.title == movie.title
    ensures b.showtime == showtime && b.date == date
    ensures |b.seats| == |seats|
    ensures forall k :: 0 <= k < |seats| ==> ParseSeatLabel(b.seats[k]) == Some(seats[k])
    ensures b.price == |seats| * movie.price
  {
    BookingRequest(None, movie.id, movie.title, showtime, Labels(seats), |seats| * movie.price, date)
  }

  /** What a click on the confirm button does: an alert and nothing sent, or the
      booking record posted to the server. */
  datatype Confirmation = Blocked(alert: string) | Submit(booking: BookingRequest)

  class App {
    var movies: seq<MovieRow>
    var currentUser: Option<UserView>
    var currentMovie: Option<MovieRow>
    var selectedSeats: seq<nat>

    /** The selection holds seats of the map, each once; seats can only be
        selected in an open modal, so a movie is set whenever one is selected. */
    ghost predicate Valid()
      reads this
    {
      Distinct(selectedSeats)
      && (forall x :: x in selectedSeats ==> x < SeatCount)
      && (selectedSeats != [] ==> currentMovie.Some?)
    }

    /** Page load: the user is whatever was kept in local storage. */
    constructor (storedUser: Option<UserView>)
      ensures Valid()
      ensures currentUser == storedUser
      ensures movies == [] && currentMovie == None && selectedSeats == []
    {
      movies := [];
      currentUser := storedUser;
      currentMovie := None;
      selectedSeats := [];
    }

    /** `loadMovies`: the catalog fetched from GET /movies replaces the list. */
    method LoadMovies(fetched: seq<MovieRow>)
      requires Valid()
      modifies this`movies
      ensures Valid()
      ensures movies == fetched
    {
      movies := fetched;
    }

    /** `applyFiltersAndSearch`: the movies to render for the search box text and
        the sort choice. */
    method ApplyFiltersAndSearch(searchText: string, sort: string) returns (shown: seq<MovieRow>)
      ensures forall m :: m in shown <==> m in movies && Catalog.Matches(m, Catalog.Lower(searchText))
      ensures multiset(shown) == multiset(Catalog.Filter(movies, Catalog.Lower(searchText)))
      ensures sort == "price-asc" ==> Catalog.SortedByKey(shown, false)
      ensures sort == "price-desc" ==> Catalog.SortedByKey(shown, true)
      ensures sort != "price-asc" && sort != "price-desc" ==> shown == Catalog.Filter(movies, Catalog.Lower(searchText))
    {
      var filtered := movies;
      var search := Catalog.Lower(searchText);
      if search != [] {
        filtered := Catalog.Filter(filtered, search);
      } else {
        Catalog.FilterEmptyQuery(movies);
      }
      if sort == "price-asc" {
        filtered := SortedCopy(filtered, false);
      }
      if sort == "price-desc" {
        filtered := SortedCopy(filtered, true);
      }
      shown := filtered;
      assert forall m :: m in shown <==> m in multiset(shown);
      assert forall m :: m in Catalog.Filter(movies, search) <==> m in multiset(Catalog.Filter(movies, search));
    }

    /** `openBookingModal(movie)`. */
    method OpenBookingModal(movie: MovieRow)
      modifies this`currentMovie, this`selectedSeats
      ensures Valid()
      ensures currentMovie == Some(movie) && selectedSeats == []
    {
      currentMovie := Some(movie);
      selectedSeats := [];
    }

    /** `toggleSeat(i)`: a click on seat `i` of the open modal. */
    method ToggleSeat(i: nat)
      requires Valid() && i < SeatCount && currentMovie.Some?
      modifies this`selectedSeats
      ensures Valid()
      ensures selectedSeats == Toggled(old(selectedSeats), i)
    {
      if i in selectedSeats {
        selectedSeats := Delete(selectedSeats, i);
      } else {
        selectedSeats := selectedSeats + [i];
      }
    }

    /** The confirm button's handler, up to the POST request. The selection is
        left as it is. */
    method ConfirmBooking(showtime: string, date: string) returns (outcome: Confirmation)
      requires Valid()
      ensures selectedSeats == [] ==> outcome == Blocked("Select at least one seat.")
      ensures selectedSeats != [] && currentUser == None ==> outcome == Blocked("You must login to book.")
      ensures outcome.Submit? <==> selectedSeats != [] && currentUser != None
      ensures outcome.Submit? ==>
        && outcome.booking == AssembleBooking(currentMovie.value, selectedSeats, showtime, date)
        && |outcome.booking.seats| == |selectedSeats|
        && outcome.booking.price == |selectedSeats| * currentMovie.value.price
    {
      if |selectedSeats| == 0 {
        return Blocked("Select at least one seat.");
      }
      if currentUser == None {
        return Blocked("You must login to book.");
      }
      var movie := currentMovie.value;
      outcome := Submit(AssembleBooking(movie, selectedSeats, showtime, date));
    }
  }

  /** A copy of `s` put through the in-place price sort. */
  method SortedCopy(s: seq<MovieRow>, descending: bool) returns (r: seq<MovieRow>)
    ensures multiset(r) == multiset(s)
    ensures Catalog.SortedByKey(r, descending)
  {
    var a := new MovieRow[|s|](k requires 0 <= k < |s| => s[k]);
    assert a[..] == s;
    Catalog.SortByPrice(a, descending);
    r := a[..];
  }
}
