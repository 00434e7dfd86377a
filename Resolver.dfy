/**
 * The neighbour resolver of the conveyor-belt element: from a tile's id and
 * direction attribute to the id of the tile it hands off to, and the lookup
 * of that tile among the descendants of the tile's parent.
 */
module Resolver {
  import opened Wrappers
  import opened Decimal
  import opened TileId
  import opened Directions

  /**
   * The id `#findNextBelt` computes: parse the id, step one coordinate as
   * the direction says, render `String.fromCharCode(row) + col`.
   * None is the early `return null` for an id that does not match.
   */
  function FindNextId(id: string, attr: Option<string>): (r: Option<string>)
    ensures r.None? <==> !Matches(id)
  {
    match ParseCell(id)
    case None => None
    case Some(c) => Some(FormatCell(Step(c, Classify(DirectionText(attr)))))
  }

  /**
   * The same id as `#relay` computes it, with its `switch` on the direction
   * text written out case by case.
   */
  function RelayNextId(id: string, attr: Option<string>): (r: Option<string>)
    ensures r.None? <==> !Matches(id)
  {
    match ParseId(id)
    case None => None
    case Some((r, c)) =>
      var row, col := r as int, DigitsValue(c);
      var dir := DirectionText(attr);
      var next :=
        if dir == "up-right" then Cell(row, col + 1)
        else if dir == "down-right" then Cell(row + 1, col)
        else if dir == "down-left" then Cell(row, col - 1)
        else if dir == "up-left" then Cell(row - 1, col)
        else Cell(row, col);
      Some([next.row as char] + FormatInt(next.col))
  }

  /** `#relay` and `#findNextBelt` compute the same neighbour id. */
  lemma RelayAgreesWithFindNextBelt(id: string, attr: Option<string>)
    ensures RelayNextId(id, attr) == FindNextId(id, attr)
  {
  }

  /** The cell the tile's id names, stepped in the tile's direction. */
  function SteppedCell(id: string, attr: Option<string>): Cell
    requires Matches(id)
  {
    Step(ParseCell(id).value, Classify(DirectionText(attr)))
  }

  /**
   * The neighbour id is itself a tile id exactly when the stepped cell is on
   * a lettered row with a non-negative column, and then it names that cell.
   */
  lemma NeighbourNamesSteppedCell(id: string, attr: Option<string>)
    requires Matches(id)
    ensures var n, c := FindNextId(id, attr).value, SteppedCell(id, attr);
      && (Matches(n) <==> IsAsciiLetter(c.row as char) && c.col >= 0)
      && (Matches(n) ==> ParseCell(n) == Some(c))
  {
    var n, c := FindNextId(id, attr).value, SteppedCell(id, attr);
    if IsAsciiLetter(c.row as char) && c.col >= 0 {
      ParseFormatCell(c);
    } else if c.col < 0 {
      assert n[1] == '-';
    }
  }

  /** `up-right`: same row letter, column one higher. */
  lemma UpRightNeighbour(id: string, attr: Option<string>)
    requires Matches(id) && DirectionText(attr) == "up-right"
    ensures var n, c := FindNextId(id, attr).value, ParseCell(id).value;
      n[0] == id[0] && n[1..] == FormatNat(c.col + 1) && ParseCell(n) == Some(Cell(c.row, c.col + 1))
  {
    NeighbourNamesSteppedCell(id, attr);
  }

  /**
   * `down-left`: same row letter, column one lower, with no lower bound:
   * from column 0 the neighbour id ends in "-1" and is not a tile id.
   */
  lemma DownLeftNeighbour(id: string, attr: Option<string>)
    requires Matches(id) && DirectionText(attr) == "down-left"
    ensures var n, c := FindNextId(id, attr).value, ParseCell(id).value;
      && n[0] == id[0] && n[1..] == FormatInt(c.col - 1)
      && (c.col == 0 ==> n == [id[0], '-', '1'] && !Matches(n))
      && (c.col > 0 ==> ParseCell(n) == Some(Cell(c.row, c.col - 1)))
  {
    NeighbourNamesSteppedCell(id, attr);
    var n := FindNextId(id, attr).value;
    if ParseCell(id).value.col == 0 {
      assert n[1..] == "-1";
    }
  }

  /**
   * `down-right` and `up-left`: the row character code moves by one with no
   * range check, and the column is re-rendered unchanged.
   */
  lemma RowNeighbour(id: string, attr: Option<string>)
    requires Matches(id) && (DirectionText(attr) == "down-right" || DirectionText(attr) == "up-left")
    ensures var n, c := FindNextId(id, attr).value, ParseCell(id).value;
      && n[0] as int == id[0] as int + (if DirectionText(attr) == "down-right" then 1 else -1)
      && n[1..] == StripLeadingZeros(id[1..])
      && (IsAsciiLetter(n[0]) ==> ParseCell(n) == Some(Cell(n[0] as int, c.col)))
  {
    NeighbourNamesSteppedCell(id, attr);
    CanonicalRendering(id[1..]);
  }

  /**
   * Letter case survives a row step: when the stepped row is still a letter,
   * it is upper-case exactly when the tile's row letter is.
   */
  lemma RowStepKeepsCase(id: string, attr: Option<string>)
    requires Matches(id) && (DirectionText(attr) == "down-right" || DirectionText(attr) == "up-left")
    ensures var n := FindNextId(id, attr).value;
      IsAsciiLetter(n[0]) ==> (('A' <= n[0] <= 'Z') <==> ('A' <= id[0] <= 'Z'))
  {
    RowNeighbour(id, attr);
  }

  /**
   * A direction text the `switch` does not recognise moves nothing: the
   * neighbour id is the tile's own id with its column made canonical.
   */
  lemma UnknownDirectionNeighbour(id: string, attr: Option<string>)
    requires Matches(id) && !IsKnownName(DirectionText(attr))
    ensures FindNextId(id, attr) == Some(CanonicalId(id))
  {
    FormatParseCell(id);
  }

  /** Every direction reads the column through its value: leading zeros never matter. */
  lemma LeadingZerosIgnored(id: string, attr: Option<string>)
    requires Matches(id)
    ensures FindNextId(CanonicalId(id), attr) == FindNextId(id, attr)
  {
    ParseCanonicalId(id);
  }

  /** `a0` stepping `down-left` reaches column -1. */
  lemma DownLeftFromColumnZero()
    ensures FindNextId("a0", Some("down-left")) == Some("a-1")
  {
    assert "a0"[1..] == "0" && DigitsValue("0") == 0 by { assert "0"[..0] == ""; }
    assert LowerAscii("down-left") == "down-left";
    assert FormatInt(-1) == "-1";
    assert FormatCell(Cell('a' as int, -1)) == "a-1";
  }

  /** Row steps leave the letters: `z` becomes `{` and `a` becomes a backquote. */
  lemma RowStepsLeaveTheAlphabet()
    ensures FindNextId("z5", Some("down-right")) == Some("{5")
    ensures FindNextId("a3", Some("up-left")) == Some("`3")
  {
    assert "z5"[1..] == "5" && DigitsValue("5") == 5 by { assert "5"[..0] == ""; }
    assert "a3"[1..] == "3" && DigitsValue("3") == 3 by { assert "3"[..0] == ""; }
    assert LowerAscii("down-right") == "down-right";
    assert LowerAscii("up-left") == "up-left";
    assert FormatNat(5) == "5" && FormatNat(3) == "3";
    assert FormatCell(Cell('z' as int + 1, 5)) == "{5";
    assert FormatCell(Cell('a' as int - 1, 3)) == "`3";
  }

  /** An upper-case id keeps its case: `B2` stepping `Down-Right` gives `C2`. */
  lemma UpperCaseId()
    ensures FindNextId("B2", Some("Down-Right")) == Some("C2")
  {
    assert "B2"[1..] == "2" && DigitsValue("2") == 2 by { assert "2"[..0] == ""; }
    assert LowerAscii("Down-Right") == "down-right";
    assert FormatNat(2) == "2";
    assert FormatCell(Cell('B' as int + 1, 2)) == "C2";
  }

  /** `a007` is re-rendered as `a7` for an unknown direction and becomes `a8` by default. */
  lemma LeadingZerosDropped()
    ensures FindNextId("a007", Some("sideways")) == Some("a7")
    ensures FindNextId("a007", None) == Some("a8")
  {
    assert "a007"[1..] == "007";
    assert DigitsValue("007") == 7 by {
      assert "007"[..2] == "00";
      assert "00"[..1] == "0";
      assert "0"[..0] == "";
    }
    assert LowerAscii("sideways") == "sideways";
    assert LowerAscii("up-right") == "up-right";
    assert FormatNat(7) == "7" && FormatNat(8) == "8";
    assert FormatCell(Cell('a' as int, 7)) == "a7";
    assert DirectionText(None) == "up-right";
    assert FormatCell(Cell('a' as int, 8)) == "a8";
  }

  /** Ids that do not match the pattern have no neighbour. */
  lemma MalformedIds()
    ensures FindNextId("", None) == None
    ensures FindNextId("a", Some("up-right")) == None
    ensures FindNextId("7a", Some("up-right")) == None
    ensures FindNextId("a1b", Some("up-right")) == None
    ensures FindNextId("ab1", Some("up-right")) == None
  {
    assert !AllDigits("a1b"[1..]) by { assert "a1b"[1..][1] == 'b'; }
    assert !AllDigits("ab1"[1..]) by { assert "ab1"[1..][0] == 'b'; }
  }

  /** An element among the parent's descendants, in document order. */
  datatype Element = Element(isBelt: bool, id: string, hasSpawn: bool)

  /** The element matches the selector `conveyor-belt[id="<id>"]`. */
  predicate Selects(e: Element, id: string) { e.isBelt && e.id == id }

  /** `querySelector`: the index of the first matching element, or None. */
  function QuerySelector(elems: seq<Element>, id: string): (r: Option<nat>)
    ensures r.Some? ==> r.value < |elems| && Selects(elems[r.value], id)
    ensures r.Some? ==> forall j | 0 <= j < r.value :: !Selects(elems[j], id)
    ensures r.None? ==> forall j | 0 <= j < |elems| :: !Selects(elems[j], id)
  {
    if elems == [] then None
    else if Selects(elems[0], id) then Some(0)
    else match QuerySelector(elems[1..], id)
      case None => None
      case Some(k) => Some(k + 1)
  }

  /**
   * `#findNextBelt`: the first conveyor-belt among the descendants of the
   * parent (None when there is no parent) whose id is the neighbour id.
   */
  function FindNextBelt(parent: Option<seq<Element>>, id: string, attr: Option<string>): (r: Option<nat>)
    ensures r.Some? ==> parent.Some? && Matches(id) && r.value < |parent.value|
    ensures r.Some? ==> Selects(parent.value[r.value], FindNextId(id, attr).value)
    ensures r.Some? ==> forall j | 0 <= j < r.value :: !Selects(parent.value[j], FindNextId(id, attr).value)
    ensures r.None? && parent.Some? && Matches(id) ==>
      forall j | 0 <= j < |parent.value| :: !Selects(parent.value[j], FindNextId(id, attr).value)
  {
    match FindNextId(id, attr)
    case None => None
    case Some(n) => if parent.None? then None else QuerySelector(parent.value, n)
  }

  /**
   * The guard `if (next?.spawn)` in `spawn`: the tile handed off to, if any.
   * At most one tile per call, and only when the lookup found one that
   * exposes `spawn`.
   */
  function HandoffTarget(parent: Option<seq<Element>>, id: string, attr: Option<string>): (r: Option<nat>)
    ensures r.Some? <==> FindNextBelt(parent, id, attr).Some? && parent.value[FindNextBelt(parent, id, attr).value].hasSpawn
    ensures r.Some? ==> r == FindNextBelt(parent, id, attr)
    ensures !Matches(id) || parent.None? ==> r.None?
  {
    var next := FindNextBelt(parent, id, attr);
    if next.Some? && parent.value[next.value].hasSpawn then next else None
  }

  /** `#relay`: looks up the tile named by its own id computation and calls `next?.spawn?.()`. */
  function RelayTarget(parent: Option<seq<Element>>, id: string, attr: Option<string>): (r: Option<nat>)
    ensures r.Some? ==> parent.Some? && Matches(id) && r.value < |parent.value|
    ensures r.Some? ==> parent.value[r.value].hasSpawn && Selects(parent.value[r.value], RelayNextId(id, attr).value)
  {
    match RelayNextId(id, attr)
    case None => None
    case Some(n) =>
      if parent.None? then None
      else match QuerySelector(parent.value, n)
        case None => None
        case Some(k) => if parent.value[k].hasSpawn then Some(k) else None
  }

  /** `#relay` spawns on exactly the tile that `spawn` would schedule a handoff to. */
  lemma RelayHandsOffLikeSpawn(parent: Option<seq<Element>>, id: string, attr: Option<string>)
    ensures RelayTarget(parent, id, attr) == HandoffTarget(parent, id, attr)
  {
    RelayAgreesWithFindNextBelt(id, attr);
  }

  /**
   * With an unrecognised direction, a tile whose id is canonical and comes
   * first among the belts with that id hands off to itself.
   */
  lemma UnknownDirectionHandsOffToSelf(parent: seq<Element>, k: nat, attr: Option<string>)
    requires k < |parent| && parent[k].isBelt && parent[k].hasSpawn
    requires Matches(parent[k].id) && IsCanonical(parent[k].id[1..])
    requires forall j | 0 <= j < k :: !Selects(parent[j], parent[k].id)
    requires !IsKnownName(DirectionText(attr))
    ensures HandoffTarget(Some(parent), parent[k].id, attr) == Some(k)
  {
    var id := parent[k].id;
    UnknownDirectionNeighbour(id, attr);
    assert CanonicalId(id) == id;
    var r := QuerySelector(parent, id);
    assert r.Some?;
  }
}
