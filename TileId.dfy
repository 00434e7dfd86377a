/**
 * Tile identifiers `<row letter><column digits>`, read with the pattern
 * `^([a-z])(\d+)$` under the case-insensitive flag, and the grid cell they name.
 */
module TileId {
  import opened Wrappers
  import opened Decimal

  /** `[a-z]` under the case-insensitive flag: exactly the 52 ASCII letters. */
  predicate IsAsciiLetter(c: char) { 'a' <= c <= 'z' || 'A' <= c <= 'Z' }

  /** The whole id matches `^([a-z])(\d+)$` (case-insensitive). */
  predicate Matches(id: string) { |id| >= 2 && IsAsciiLetter(id[0]) && AllDigits(id[1..]) }

  /** `\d+` anchored at the end: one or more ASCII digits and nothing else. */
  function ScanDigits(s: string): (b: bool)
    ensures b <==> |s| >= 1 && AllDigits(s)
  {
    if s == [] then false
    else IsDigit(s[0]) && (|s| == 1 || ScanDigits(s[1..]))
  }

  /** The two capture groups of the match, or None when the id does not match. */
  function ParseId(id: string): (r: Option<(char, string)>)
    ensures r.Some? <==> Matches(id)
    ensures r.Some? ==> id == [r.value.0] + r.value.1 && IsAsciiLetter(r.value.0)
    ensures r.Some? ==> |r.value.1| >= 1 && AllDigits(r.value.1)
  {
    if |id| == 0 || !IsAsciiLetter(id[0]) then None
    else if ScanDigits(id[1..]) then Some((id[0], id[1..]))
    else None
  }

  /** A grid cell: the row as a character code, the column as an integer. */
  datatype Cell = Cell(row: int, col: int)

  /** `row = r.charCodeAt(0), col = +c` for the captured letter `r` and digits `c`. */
  function ParseCell(id: string): (r: Option<Cell>)
    ensures r.Some? <==> Matches(id)
    ensures r.Some? ==> r.value.row == id[0] as int && IsAsciiLetter(id[0])
    ensures r.Some? ==> 'A' as int <= r.value.row <= 'z' as int
    ensures r.Some? ==> r.value.col == DigitsValue(id[1..]) && r.value.col >= 0
  {
    match ParseId(id)
    case None => None
    case Some((letter, digits)) => Some(Cell(letter as int, DigitsValue(digits)))
  }

  /** A cell whose row code can be rendered as one character. */
  predicate Renderable(c: Cell) { 0 <= c.row < 0xD800 }

  /** `String.fromCharCode(row) + col`. */
  function FormatCell(c: Cell): (s: string)
    requires Renderable(c)
    ensures |s| >= 2 && s[0] as int == c.row && s[1..] == FormatInt(c.col)
  {
    [c.row as char] + FormatInt(c.col)
  }

  /** The id with its column digits stripped of leading zeros (`a007` becomes `a7`). */
  function CanonicalId(id: string): (s: string)
    requires Matches(id)
    ensures Matches(s) && s[0] == id[0] && IsCanonical(s[1..])
  {
    [id[0]] + StripLeadingZeros(id[1..])
  }

  /** A cell on a lettered row and a non-negative column survives rendering and re-parsing. */
  lemma ParseFormatCell(c: Cell)
    requires 0 <= c.row < 0xD800 && IsAsciiLetter(c.row as char) && c.col >= 0
    ensures Matches(FormatCell(c)) && ParseCell(FormatCell(c)) == Some(c)
  {
    var s := FormatCell(c);
    DigitsValueOfFormatNat(c.col);
    assert s[1..] == FormatNat(c.col);
  }

  /** Re-rendering a parsed id yields its canonical form. */
  lemma FormatParseCell(id: string)
    requires Matches(id)
    ensures FormatCell(ParseCell(id).value) == CanonicalId(id)
  {
    CanonicalRendering(id[1..]);
  }

  /** Leading zeros in the column do not change the cell an id names. */
  lemma ParseCanonicalId(id: string)
    requires Matches(id)
    ensures ParseCell(CanonicalId(id)) == ParseCell(id)
  {
    var s := CanonicalId(id);
    assert s[1..] == StripLeadingZeros(id[1..]);
    DigitsValueOfStripped(id[1..]);
  }
}
