/**
 * The `direction` attribute: the getter that normalises it, the four
 * recognised direction names, and the single-axis step each of them makes.
 */
module Directions {
  import opened Wrappers
  import opened TileId

  /** `toLowerCase` on one character, for the ASCII letters. */
  function LowerChar(c: char): char
  {
    if 'A' <= c <= 'Z' then (c as int - 'A' as int + 'a' as int) as char else c
  }

  function LowerAscii(s: string): (r: string)
    ensures |r| == |s| && forall i | 0 <= i < |s| :: r[i] == LowerChar(s[i])
    ensures forall i | 0 <= i < |s| :: LowerChar(r[i]) == LowerChar(s[i])
    ensures NoUpperCase(r) && forall i | 0 <= i < |r| :: LowerChar(r[i]) == r[i]
  {
    seq(|s|, i requires 0 <= i < |s| => LowerChar(s[i]))
  }

  /** Lowercasing twice is lowercasing once. */
  lemma LowerAsciiIdempotent(s: string)
    ensures LowerAscii(LowerAscii(s)) == LowerAscii(s)
  {
  }

  predicate NoUpperCase(s: string) { forall i | 0 <= i < |s| :: !('A' <= s[i] <= 'Z') }

  /**
   * `get direction()`: the attribute (None when absent), falling back to
   * "up-right" when absent or empty, lowercased, and not checked against
   * the four names.
   */
  function DirectionText(attr: Option<string>): (r: string)
    ensures |r| >= 1 && NoUpperCase(r)
    ensures attr == None || attr == Some("") ==> r == "up-right"
    ensures attr.Some? && attr.value != "" ==>
      |r| == |attr.value| && forall i | 0 <= i < |r| :: LowerChar(r[i]) == LowerChar(attr.value[i])
  {
    var raw := if attr == None || attr == Some("") then "up-right" else attr.value;
    LowerAscii(raw)
  }

  /** The normalised direction, written back as the attribute, reads the same. */
  lemma DirectionTextStable(attr: Option<string>)
    ensures DirectionText(Some(DirectionText(attr))) == DirectionText(attr)
  {
    var t := DirectionText(attr);
    assert LowerAscii(t) == t;
  }

  /** The four names the resolver's `switch` recognises, and anything else kept verbatim. */
  datatype Direction = UpRight | DownRight | DownLeft | UpLeft | Other(text: string)

  predicate IsKnownName(t: string)
  {
    t == "up-right" || t == "down-right" || t == "down-left" || t == "up-left"
  }

  function Name(d: Direction): string
  {
    match d
    case UpRight => "up-right"
    case DownRight => "down-right"
    case DownLeft => "down-left"
    case UpLeft => "up-left"
    case Other(t) => t
  }

  /** A direction value that some text classifies to. */
  predicate WellFormed(d: Direction) { d.Other? ==> !IsKnownName(d.text) }

  /** Which `case` of the switch a (normalised) direction text selects. */
  function Classify(t: string): (d: Direction)
    ensures Name(d) == t && WellFormed(d)
    ensures d.Other? <==> !IsKnownName(t)
  {
    if t == "up-right" then UpRight
    else if t == "down-right" then DownRight
    else if t == "down-left" then DownLeft
    else if t == "up-left" then UpLeft
    else Other(t)
  }

  /** Classification and naming are inverse. */
  lemma ClassifyName(d: Direction)
    requires WellFormed(d)
    ensures Classify(Name(d)) == d
  {
  }

  /**
   * The direction that undoes a recognised one. The element never computes
   * it; it pairs the `col++`/`col--` and `row++`/`row--` cases of the step.
   */
  function Opposite(d: Direction): (o: Direction)
    requires !d.Other?
    ensures !o.Other? && o != d
    ensures MovesColumn(o) == MovesColumn(d) && MovesForward(o) != MovesForward(d)
    ensures forall c :: Step(Step(c, d), o) == c
  {
    match d
    case UpRight => DownLeft
    case DownLeft => UpRight
    case DownRight => UpLeft
    case UpLeft => DownRight
  }

  /** The direction moves along the column axis (`col++` / `col--`). */
  predicate MovesColumn(d: Direction) { d == UpRight || d == DownLeft }

  /** The direction increases its coordinate (`col++` / `row++`). */
  predicate MovesForward(d: Direction) { d == UpRight || d == DownRight }

  /** The `switch (this.direction)` of the resolver: bump one coordinate, or none. */
  function Step(c: Cell, d: Direction): (r: Cell)
    ensures d.Other? ==> r == c
    ensures !d.Other? ==> (r.row == c.row) != (r.col == c.col)
    ensures !d.Other? && MovesColumn(d) ==> r.row == c.row && r.col - c.col == (if MovesForward(d) then 1 else -1)
    ensures !d.Other? && !MovesColumn(d) ==> r.col == c.col && r.row - c.row == (if MovesForward(d) then 1 else -1)
  {
    match d
    case UpRight => Cell(c.row, c.col + 1)
    case DownRight => Cell(c.row + 1, c.col)
    case DownLeft => Cell(c.row, c.col - 1)
    case UpLeft => Cell(c.row - 1, c.col)
    case Other(_) => c
  }
}
