/** The seat map of the booking modal: 48 seats in 6 rows of 8, numbered 0..47 and
    labelled by a row letter and a column number, `A1` .. `F8`. */
module Seats {
  import opened Records

  const Rows: nat := 6
  const Columns: nat := 8
  const SeatCount: nat := 48

  /** The label of seat `i`: the letter with code 65 + i / 8 followed by the decimal
      text of i % 8 + 1, which is a single digit. */
  function SeatLabel(i: nat): (text: string)
    requires i < SeatCount
    ensures |text| == 2
    ensures 'A' <= text[0] <= 'F' && '1' <= text[1] <= '8'
    ensures text[0] as int - 'A' as int == i / Columns
    ensures text[1] as int - '0' as int == i % Columns + 1
  {
    [(65 + i / Columns) as char, (48 + (i % Columns + 1)) as char]
  }

  /** The grid of labels: a row letter A..F followed by a column digit 1..8. */
  predicate IsGridLabel(text: string) {
    |text| == 2 && 'A' <= text[0] <= 'F' && '1' <= text[1] <= '8'
  }

  /** Reads a seat text back into its seat index. */
  function ParseSeatLabel(text: string): Option<nat> {
    if IsGridLabel(text) then
      Some((text[0] as int - 'A' as int) * Columns + (text[1] as int - '1' as int))
    else None
  }

  /** Every seat's text lies on the grid and reads back as that seat. */
  lemma LabelRoundTrip(i: nat)
    requires i < SeatCount
    ensures IsGridLabel(SeatLabel(i))
    ensures ParseSeatLabel(SeatLabel(i)) == Some(i)
  {
    var text := SeatLabel(i);
    assert (text[0] as int - 'A' as int) * Columns + (text[1] as int - '1' as int)
        == (i / Columns) * Columns + i % Columns;
  }

  /** Every grid text is the text of exactly the seat it reads back as. */
  lemma ParseRoundTrip(text: string)
    requires IsGridLabel(text)
    ensures ParseSeatLabel(text).Some?
    ensures ParseSeatLabel(text).value < SeatCount
    ensures SeatLabel(ParseSeatLabel(text).value) == text
  {
    var r := text[0] as int - 'A' as int;
    var c := text[1] as int - '1' as int;
    var i := r * Columns + c;
    assert 0 <= r < Rows && 0 <= c < Columns;
    assert i / Columns == r && i % Columns == c;
    assert SeatLabel(i)[0] == text[0] && SeatLabel(i)[1] == text[1];
  }

  /** Distinct seats get distinct labels. */
  lemma LabelInjective(i: nat, j: nat)
    requires i < SeatCount && j < SeatCount
    ensures SeatLabel(i) == SeatLabel(j) ==> i == j
  {
    LabelRoundTrip(i);
    LabelRoundTrip(j);
  }
}
