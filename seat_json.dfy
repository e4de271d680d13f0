/** The JSON text of a booking's seat list: POST /bookings stores
    `JSON.stringify(seats)` in the `seats` column and GET /bookings reads it back
    with `JSON.parse`. The encoder writes what JSON.stringify writes for an array of
    strings; the decoder reads that grammar (no white space, strings only). */
module SeatJson {
  import opened Records

  /** Lower-case hexadecimal digit, as JSON.stringify writes in `\u00XX`. */
  function HexDigit(d: nat): char
    requires d < 16
  {
    if d < 10 then (48 + d) as char else (87 + d) as char
  }

  /** JSON.stringify's escape of one character inside a string literal: the two
      quoting characters and the control characters below U+0020 are escaped,
      every other character is written as is. */
  function EscapeChar(c: char): string {
    if c == '"' then ['\\', '"']
    else if c == '\\' then ['\\', '\\']
    else if c == '\U{8}' then ['\\', 'b']
    else if c == '\t' then ['\\', 't']
    else if c == '\n' then ['\\', 'n']
    else if c == '\U{C}' then ['\\', 'f']
    else if c == '\r' then ['\\', 'r']
    else if c < ' ' then ['\\', 'u', '0', '0', HexDigit(c as int / 16), HexDigit(c as int % 16)]
    else [c]
  }

  function Escape(s: string): string {
    if s == [] then [] else EscapeChar(s[0]) + Escape(s[1..])
  }

  /** The items written as quoted strings separated by commas. */
  function Items(items: seq<string>): string {
    if items == [] then []
    else if |items| == 1 then ['"'] + Escape(items[0]) + ['"']
    else ['"'] + Escape(items[0]) + ['"', ','] + Items(items[1..])
  }

  /** `JSON.stringify(seats)` for an array of strings. */
  function Encode(seats: seq<string>): (text: string)
    ensures |text| >= 2 && text[0] == '[' && text[|text| - 1] == ']'
    ensures text == ['[', ']'] <==> seats == []
  {
    assert seats != [] ==> Items(seats)[0] == '"';
    ['['] + Items(seats) + [']']
  }

  function HexValue(c: char): Option<nat> {
    if '0' <= c <= '9' then Some(c as int - '0' as int)
    else if 'a' <= c <= 'f' then Some(c as int - 'a' as int + 10)
    else if 'A' <= c <= 'F' then Some(c as int - 'A' as int + 10)
    else None
  }

  /** Reads the escape sequence at the head of `s` (which starts with a backslash):
      the character it stands for and how many characters it takes. A `\u` escape
      that names half of a surrogate pair is refused. */
  function Unescape(s: string): (r: Option<(char, nat)>)
    requires |s| >= 2 && s[0] == '\\'
    ensures r.Some? ==> 2 <= r.value.1 <= |s|
  {
    match s[1]
    case '"' => Some(('"', 2))
    case '\\' => Some(('\\', 2))
    case '/' => Some(('/', 2))
    case 'b' => Some(('\U{8}', 2))
    case 'f' => Some(('\U{C}', 2))
    case 'n' => Some(('\n', 2))
    case 'r' => Some(('\r', 2))
    case 't' => Some(('\t', 2))
    case 'u' =>
      if |s| < 6 then None
      else
        var h0, h1, h2, h3 := HexValue(s[2]), HexValue(s[3]), HexValue(s[4]), HexValue(s[5]);
        if h0.None? || h1.None? || h2.None? || h3.None? then None
        else
          var v := ((h0.value * 16 + h1.value) * 16 + h2.value) * 16 + h3.value;
          if 0xD800 <= v < 0xE000 then None else Some((v as char, 6))
    case _ => None
  }

  function Prepend(c: char, r: Option<(string, string)>): Option<(string, string)> {
    match r
    case None => None
    case Some((text, rest)) => Some(([c] + text, rest))
  }

  /** Reads the body of a string literal, the opening quote already consumed: the
      decoded text and what follows the closing quote. */
  function ParseString(s: string): (r: Option<(string, string)>)
    ensures r.Some? ==> |r.value.1| < |s|
    decreases |s|
  {
    if s == [] then None
    else if s[0] == '"' then Some(([], s[1..]))
    else if s[0] < ' ' then None
    else if s[0] != '\\' then Prepend(s[0], ParseString(s[1..]))
    else if |s| < 2 then None
    else
      match Unescape(s)
      case None => None
      case Some((c, n)) => Prepend(c, ParseString(s[n..]))
  }

  /** Reads one or more comma-separated string literals and the closing bracket,
      which must end the text. */
  function ParseItems(s: string): (r: Option<seq<string>>)
    ensures r.Some? ==> r.value != []
    decreases |s|
  {
    if s == [] || s[0] != '"' then None
    else
      match ParseString(s[1..])
      case None => None
      case Some((item, rest)) =>
        if rest == [']'] then Some([item])
        else if rest != [] && rest[0] == ',' then
          match ParseItems(rest[1..])
          case None => None
          case Some(more) => Some([item] + more)
        else None
  }

  /** `JSON.parse(text)` for text holding an array of strings; `None` where
      JSON.parse would throw or would yield something else. */
  function Decode(text: string): (r: Option<seq<string>>)
    ensures r.Some? ==> text != [] && text[0] == '['
    ensures r == Some([]) <==> text == ['[', ']']
  {
    if text == ['[', ']'] then Some([])
    else if text != [] && text[0] == '[' then ParseItems(text[1..])
    else None
  }

  /** One escaped character followed by anything reads back as that character. */
  lemma ParseEscapedChar(c: char, tail: string)
    ensures ParseString(EscapeChar(c) + tail) == Prepend(c, ParseString(tail))
  {
    var s := EscapeChar(c) + tail;
    if |EscapeChar(c)| == 1 {
      assert s[0] == c && s[1..] == tail;
    } else {
      var n := |EscapeChar(c)|;
      assert s[0] == '\\';
      if n == 6 {
        assert s[2] == '0' && s[3] == '0';
        assert HexValue(s[4]) == Some(c as int / 16);
        assert HexValue(s[5]) == Some(c as int % 16);
      }
      assert Unescape(s) == Some((c, n));
      assert s[n..] == tail;
    }
  }

  /** An escaped string and its closing quote read back as that string. */
  lemma {:induction false} ParseEscaped(text: string, rest: string)
    ensures ParseString(Escape(text) + ['"'] + rest) == Some((text, rest))
  {
    if text == [] {
      assert Escape(text) + ['"'] + rest == ['"'] + rest;
    } else {
      var tail := Escape(text[1..]) + ['"'] + rest;
      assert Escape(text) + ['"'] + rest == EscapeChar(text[0]) + tail;
      ParseEscapedChar(text[0], tail);
      ParseEscaped(text[1..], rest);
      assert [text[0]] + text[1..] == text;
    }
  }

  /** A quoted item followed by `after` reads as that item, then as `after` reads. */
  lemma ParseQuotedItem(item: string, after: string)
    ensures ParseString((['"'] + Escape(item) + ['"'] + after)[1..]) == Some((item, after))
  {
    assert (['"'] + Escape(item) + ['"'] + after)[1..] == Escape(item) + ['"'] + after;
    ParseEscaped(item, after);
  }

  /** A last item and the closing bracket read as a one-element list. */
  lemma ParseLastItem(item: string)
    ensures ParseItems(['"'] + Escape(item) + ['"', ']']) == Some([item])
  {
    var s := ['"'] + Escape(item) + ['"', ']'];
    assert s == ['"'] + Escape(item) + ['"'] + [']'];
    ParseQuotedItem(item, [']']);
  }

  /** An item and a comma in front of a readable list extend that list. */
  lemma ParseNextItem(item: string, rest: string, more: seq<string>)
    requires ParseItems(rest) == Some(more)
    ensures ParseItems(['"'] + Escape(item) + ['"', ','] + rest) == Some([item] + more)
  {
    var after := [','] + rest;
    var s := ['"'] + Escape(item) + ['"', ','] + rest;
    assert s == ['"'] + Escape(item) + ['"'] + after;
    ParseQuotedItem(item, after);
    assert after != [']'] && after[0] == ',' && after[1..] == rest;
  }

  lemma {:induction false} ParseItemsRoundTrip(items: seq<string>)
    requires items != []
    ensures ParseItems(Items(items) + [']']) == Some(items)
  {
    if |items| == 1 {
      assert Items(items) + [']'] == ['"'] + Escape(items[0]) + ['"', ']'];
      ParseLastItem(items[0]);
      assert items == [items[0]];
    } else {
      var rest := Items(items[1..]) + [']'];
      assert Items(items) + [']'] == ['"'] + Escape(items[0]) + ['"', ','] + rest;
      ParseItemsRoundTrip(items[1..]);
      ParseNextItem(items[0], rest, items[1..]);
      assert [items[0]] + items[1..] == items;
    }
  }

  /** Parsing what was stringified gives back exactly the stored list. */
  lemma DecodeEncode(seats: seq<string>)
    ensures Decode(Encode(seats)) == Some(seats)
  {
    var text := Encode(seats);
    if seats != [] {
      assert Items(seats)[0] == '"';
      assert text != ['[', ']'];
      assert text[1..] == Items(seats) + [']'];
      ParseItemsRoundTrip(seats);
    }
  }

  /** Two seat lists with the same JSON text are the same list. */
  lemma EncodeInjective(a: seq<string>, b: seq<string>)
    ensures Encode(a) == Encode(b) ==> a == b
  {
    DecodeEncode(a);
    DecodeEncode(b);
  }
}
