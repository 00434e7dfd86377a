# Conveyor belt neighbour resolver

A model of the `conveyor-belt` custom element in `ConveyorBelt.js`. It covers the part of the element that
does any computation. A tile's id is `<row letter><column digits>`, read case-insensitively against
`^([a-z])(\d+)$`. From that id and the tile's `direction` attribute, the element works out the id of the
neighbouring tile. It looks that tile up among the descendants of its parent and hands its travelling
token (a suitcase icon) on to it.

- `Decimal`: reading a digit string as a number (`+c`) and rendering an integer in canonical decimal
  (`"" + col`).
- `TileId`: the id pattern, the cell an id names (row as a character code, column as an integer) and
  `String.fromCharCode(row) + col`.
- `Directions`: the `direction` getter, the four direction names the resolver's `switch` recognises, and
  the one-coordinate step each of them makes.
- `Resolver`: the neighbour id as `#findNextBelt` and `#relay` compute it, the lookup
  `parentElement?.querySelector('conveyor-belt[id="…"]')` as "first matching element of the parent's
  descendants in document order", and the guard `if (next?.spawn)` in `spawn`.
- `Belt`: the element as a class whose `Spawn` appends a token and returns the tile it schedules a handoff
  to.

A tile's parent is a parameter: `Option<seq<Element>>`, where `None` means there is no parent element.
Each element records whether it is a conveyor-belt, its id, and whether it exposes `spawn`. The tile
itself is among its parent's descendants. So when the neighbour id equals its own id and no earlier
descendant carries that id, the lookup finds the tile itself (`UnknownDirectionHandsOffToSelf`).

Behaviour of the code that is easy to misread, which the model follows:
- An unrecognised `direction` is not replaced by `up-right`. The getter only lowercases it. The resolver
  then moves neither coordinate.
- Each direction moves one axis only, and letter case is kept: `B2` with `down-right` gives `C2`.
- The column is not bounded below: `a0` with `down-left` gives `a-1`. The row is not range-checked:
  `z` steps to `{` and `a` steps to a backquote.

## Model

| member | source | states |
|---|---|---|
| Decimal.DigitsValue | ConveyorBelt.js:87 | `+c` on a digit string; a string with no leading zero has a positive value (the value itself is pinned by the round trips below) |
| Decimal.FormatNat | ConveyorBelt.js:94 | rendering a column gives a canonical numeral: one or more digits, no leading zero unless it is "0" |
| Decimal.FormatInt | ConveyorBelt.js:94 | a negative column is rendered with a leading '-' followed by a canonical numeral, a non-negative one as a canonical numeral |
| Decimal.DigitsValueOfFormatNat | ConveyorBelt.js:87-94 | reading back a rendered column (`+c`) gives the same number |
| Decimal.FormatNatOfCanonical | ConveyorBelt.js:87-94 | rendering the value of a canonical numeral gives that numeral back |
| Decimal.CanonicalRendering | ConveyorBelt.js:87-94 | reading then rendering any digit string drops its leading zeros (`007` becomes `7`) |
| Decimal.FormatIntInjective | ConveyorBelt.js:94 | distinct columns render to distinct text |
| TileId.ScanDigits | ConveyorBelt.js:84 | the `\d+$` part accepts exactly the non-empty all-digit strings |
| TileId.ParseId | ConveyorBelt.js:84-86 | the match succeeds exactly for one ASCII letter (either case) followed by one or more ASCII digits; the groups are that letter and those digits, and together they make up the whole id |
| TileId.ParseCell | ConveyorBelt.js:84-87 | an id yields a cell exactly when it matches; the row is the character code of the id's first character, an ASCII letter, and the column is the value of the remaining digits |
| TileId.FormatCell | ConveyorBelt.js:94 | the rendered id is the row character followed by the column's decimal text |
| TileId.CanonicalId | ConveyorBelt.js:87-94 | the canonical form of a matching id still matches, keeps the row letter, and has a canonical column |
| TileId.ParseFormatCell | ConveyorBelt.js:84-94 | a cell on a lettered row with a non-negative column survives rendering and re-parsing |
| TileId.FormatParseCell | ConveyorBelt.js:84-94 | re-rendering a parsed id gives its canonical form |
| TileId.ParseCanonicalId | ConveyorBelt.js:84-87 | an id and its canonical form name the same cell |
| Directions.LowerAscii | ConveyorBelt.js:100 | `toLowerCase` keeps the length, leaves no upper-case letter, keeps every character up to case, and lowercasing any character of its result again changes nothing |
| Directions.LowerAsciiIdempotent | ConveyorBelt.js:100 | lowercasing an already lowercased text gives the same text |
| Directions.DirectionText | ConveyorBelt.js:100 | the getter gives "up-right" when the attribute is absent or empty; otherwise the attribute lowercased, with the same length, the same letters up to case and no upper-case letter |
| Directions.DirectionTextStable | ConveyorBelt.js:100 | writing the normalised direction back as the attribute reads the same direction |
| Directions.Classify | ConveyorBelt.js:88-93 | the `switch` picks one of the four cases exactly for the four names; any other text is kept verbatim, and naming the result gives the text back |
| Directions.ClassifyName | ConveyorBelt.js:88-93 | classifying a direction's name gives the direction back |
| Directions.Opposite | ConveyorBelt.js:89-92 | derived, not computed by the element: the opposite of a recognised direction moves the same axis the other way, and stepping in a direction and then in its opposite returns to any start cell |
| Directions.Step | ConveyorBelt.js:88-93 | an unrecognised direction changes nothing. Each recognised one changes exactly one of row and column, by exactly 1: up-right/down-left move the column, down-right/up-left the row, and up-right/down-right increase it |
| Resolver.FindNextId | ConveyorBelt.js:83-94 | there is a neighbour id exactly when the tile's id matches the pattern (an empty or missing id has none) |
| Resolver.RelayNextId | ConveyorBelt.js:104-115 | `#relay`'s own id computation returns early exactly for a non-matching id; its value is pinned by RelayAgreesWithFindNextBelt |
| Resolver.RelayAgreesWithFindNextBelt | ConveyorBelt.js:103-115 | `#relay` and `#findNextBelt` compute the same neighbour id for every id and direction |
| Resolver.NeighbourNamesSteppedCell | ConveyorBelt.js:84-94 | the neighbour id matches the pattern exactly when the stepped cell has a letter row and a non-negative column, and then it names that cell |
| Resolver.UpRightNeighbour | ConveyorBelt.js:87-94 | up-right keeps the row letter and names the column one higher |
| Resolver.DownLeftNeighbour | ConveyorBelt.js:87-94 | down-left keeps the row letter and renders the column one lower. From column 0 this is the text "-1", which is no tile id |
| Resolver.RowNeighbour | ConveyorBelt.js:87-94 | down-right/up-left move the row character code by +1/-1 without a range check and re-render the column canonically |
| Resolver.RowStepKeepsCase | ConveyorBelt.js:86-94 | after a down-right or up-left step that stays on a letter, the row letter is upper-case exactly when the tile's was |
| Resolver.UnknownDirectionNeighbour | ConveyorBelt.js:87-94 | an unrecognised direction gives back the tile's own id with its column made canonical |
| Resolver.LeadingZerosIgnored | ConveyorBelt.js:84-94 | for every direction, an id and its canonical form have the same neighbour |
| Resolver.DownLeftFromColumnZero | ConveyorBelt.js:91-94 | `a0` with down-left gives `a-1` |
| Resolver.RowStepsLeaveTheAlphabet | ConveyorBelt.js:90-94 | `z5` with down-right gives `{5`; `a3` with up-left gives a backquote followed by `3` |
| Resolver.UpperCaseId | ConveyorBelt.js:84-94 | `B2` with `Down-Right` gives `C2` |
| Resolver.LeadingZerosDropped | ConveyorBelt.js:87-100 | `a007` gives `a7` for an unknown direction and `a8` with no direction attribute |
| Resolver.MalformedIds | ConveyorBelt.js:84-85 | the empty id, `a`, `7a`, `a1b` and `ab1` have no neighbour |
| Resolver.QuerySelector | ConveyorBelt.js:95 | the lookup returns the first conveyor-belt whose id is the one asked for, and finds nothing only when no element matches |
| Resolver.FindNextBelt | ConveyorBelt.js:83-96 | a tile is found only when there is a parent and the id matches; it is the first belt among the parent's descendants carrying the neighbour id, and nothing is found only when no belt carries it |
| Resolver.HandoffTarget | ConveyorBelt.js:67-76 | at most one handoff per call, scheduled exactly when the lookup found a tile that exposes `spawn`, and to that tile; none for a non-matching id or a tile without a parent |
| Resolver.RelayTarget | ConveyorBelt.js:116-120 | `#relay` calls `spawn` only when there is a parent and the id matches, and only on a belt that carries `#relay`'s neighbour id and exposes `spawn` |
| Resolver.RelayHandsOffLikeSpawn | ConveyorBelt.js:103-120 | `#relay` calls `spawn` on exactly the tile that `spawn` schedules its handoff to |
| Resolver.UnknownDirectionHandsOffToSelf | ConveyorBelt.js:87-100 | with an unrecognised direction, a canonical-id tile that is the first belt with its id hands off to itself |
| Belt.ConveyorBelt.Direction | ConveyorBelt.js:100 | the element's getter gives "up-right" when its attribute is absent or empty, and never an empty text or an upper-case letter |
| Belt.ConveyorBelt.Spawn | ConveyorBelt.js:58-76 | appends one token whose animation is `travel-<direction>` and leaves id and direction untouched; schedules at most one handoff, to the tile the guard selects, which exposes `spawn` and carries the neighbour id |

## Left out

- The shadow root's markup and styles, the belt's animation class and `#applyDir` (lines 7-45, 101): they only control rendering.
- `connectedCallback`, `attributeChangedCallback`, `requestAnimationFrame`, `setTimeout` (lines 49-55, 75): browser scheduling.
  `Spawn` returns the tile it schedules, rather than modelling the timer.
- The `animationend` listener that removes a token (line 79): event-loop callback. So `tokens` only grows in the model.
- The handoff delay from `getComputedStyle(...).animationDuration`, `parseFloat` and `* 0.55 * 1000` (lines 70-71): floating point and CSS computation.
- `CSS.escape` and selector parsing (lines 95, 117). The lookup is modelled as an exact id comparison on elements that are conveyor-belts.
- `customElements.define` (line 123) and the `console.log` in `#relay` (line 119).
- Decimal.DigitsValue: JavaScript numbers are doubles, so `+c` loses precision for very long digit strings and `String(col)` switches to exponent notation at 10^21. The model uses unbounded integers.
- Directions.LowerAscii: `toLowerCase` is modelled on ASCII letters only. Outside ASCII, two characters lowercase to text holding an ASCII letter. The Kelvin sign becomes `k`, which no direction name contains. `İ` (U+0130) becomes `i` followed by the combining mark U+0307, and that mark stays in the text, so it cannot form a direction name either. So which of the four names is selected is exact. Only the text kept for an unrecognised direction may differ.
- `next?.spawn?.()` in `#relay` and `if (next?.spawn)` in `spawn` are modelled as one flag per element ("exposes spawn"). The model does not separate a `spawn` property that is not a function.
