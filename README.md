# Blood type compatibility visualizer — a Dafny model

The visualizer shows the eight ABO/Rh blood types (O-, O+, A-, A+, B-, B+, AB-, AB+) as a grid of
cards. The user picks a type and a mode. In donor mode the panel lists the types the selection can
donate to. In recipient mode it lists the types the selection can receive from. The grid highlights
the selected card and the compatible cards.

All of this rests on one constant table in `src/components/BloodTypeVisualizer.tsx`. Each row holds
a type symbol, a display label, a `canDonateTo` list and a `canReceiveFrom` list. The UI reads the
table through a few expressions: a ternary that picks a list by mode, a `find` by symbol with a
non-null assertion `!`, and the `isSelected` and `isCompatible` flags of each card. The source never
checks the table's consistency. This model checks it.

Modules:

- `Wrappers` (`wrappers.dfy`): the `Option` type returned by the lookup.
- `BloodTypes` (`blood_types.dfy`): the eight types and their symbols. It also holds the declaration
  order `AllTypes` and the ABO/Rh rule `CanTransfuse`. Under that rule, donor d may give to recipient
  r when r carries every red-cell antigen of d (A, B, and RhD for Rh positive). `RelatedFrom` filters
  the declaration order by that rule. It is the independent reference that every row is checked
  against.
- `Compatibility` (`compatibility.dfy`): the table `Table`, the component's eight literal rows
  (lines 9-16), and `Find`, modelling `Array.prototype.find` by symbol. It proves the table's invariants:
  - one row per type, with distinct keys;
  - reflexivity and transposition;
  - agreement with the ABO/Rh rule;
  - every list in declaration order, with no repeats;
  - the extremal types O- and AB+;
  - the lookup never fails for a listed type.
- `Visualizer` (`visualizer.dfy`): mode dispatch, the panel's cards and count, the per-card
  `IsSelected` and `IsCompatible` flags, the grid and its two rings. The selected entry (`Option<Entry>`) and the
  mode are plain parameters.

The mode-dispatch expression appears twice in the source, in `getCompatibleTypes` (lines 126-128)
and in `CompatibilityVisualization` (line 83). It is modelled once, as `CompatibleTypes`.

Two facts about the code shape the model:

- The lookup at line 104 has no error path: the code asserts success with `!`. `Find` returns
  `None` for an unknown key (the `undefined` that `find` gives), and `LookupTotal` proves that
  every key the UI looks up is found.
- The two lists are ordered arrays, and the panel renders them in order (lines 103-107). The model
  keeps them as sequences and proves that they follow the table's declaration order.

## Model

| member | source | states |
|---|---|---|
| BloodTypes.SymbolInjective | src/components/BloodTypeVisualizer.tsx:183-184 | two types have equal symbols exactly when they are the same type, so the source's string comparisons `===` and `includes` compare types |
| BloodTypes.Rank | src/components/BloodTypeVisualizer.tsx:8-17 | every type has a position in the table's declaration order, and that position holds the type |
| BloodTypes.AllTypesComplete | src/components/BloodTypeVisualizer.tsx:8-17 | the declaration order has 8 types, contains every type, and gives each type its own position |
| BloodTypes.InTableOrderHasNoDuplicates | src/components/BloodTypeVisualizer.tsx:107 | a list in declaration order holds no type twice |
| BloodTypes.CanTransfuseReflexive | src/components/BloodTypeVisualizer.tsx:9-16 | under the ABO/Rh rule every type may receive its own type |
| BloodTypes.ExtremalTypes | src/components/BloodTypeVisualizer.tsx:198-206 | under the rule O- gives to every type and receives only from O-, and AB+ receives from every type and gives only to AB+ |
| BloodTypes.RelatedFromMembers | src/components/BloodTypeVisualizer.tsx:9-16 | the filtered declaration order contains a type exactly when the type is at or after the start position and the rule relates it to the given type in the given direction |
| BloodTypes.RelatedFromOrdered | src/components/BloodTypeVisualizer.tsx:9-16 | the filtered declaration order is strictly increasing in table position |
| Compatibility.OMinusDonates | src/components/BloodTypeVisualizer.tsx:9 | row 0 is O-, and its donate list is the declaration order filtered to the types O- may give to |
| Compatibility.OMinusReceives | src/components/BloodTypeVisualizer.tsx:9 | O-'s receive list is the declaration order filtered to the types that may give to O- |
| Compatibility.OPlusDonates | src/components/BloodTypeVisualizer.tsx:10 | row 1 is O+, and its donate list follows the rule |
| Compatibility.OPlusReceives | src/components/BloodTypeVisualizer.tsx:10 | O+'s receive list follows the rule |
| Compatibility.AMinusDonates | src/components/BloodTypeVisualizer.tsx:11 | row 2 is A-, and its donate list follows the rule |
| Compatibility.AMinusReceives | src/components/BloodTypeVisualizer.tsx:11 | A-'s receive list follows the rule |
| Compatibility.APlusDonates | src/components/BloodTypeVisualizer.tsx:12 | row 3 is A+, and its donate list follows the rule |
| Compatibility.APlusReceives | src/components/BloodTypeVisualizer.tsx:12 | A+'s receive list follows the rule |
| Compatibility.BMinusDonates | src/components/BloodTypeVisualizer.tsx:13 | row 4 is B-, and its donate list follows the rule |
| Compatibility.BMinusReceives | src/components/BloodTypeVisualizer.tsx:13 | B-'s receive list follows the rule |
| Compatibility.BPlusDonates | src/components/BloodTypeVisualizer.tsx:14 | row 5 is B+, and its donate list follows the rule |
| Compatibility.BPlusReceives | src/components/BloodTypeVisualizer.tsx:14 | B+'s receive list follows the rule |
| Compatibility.ABMinusDonates | src/components/BloodTypeVisualizer.tsx:15 | row 6 is AB-, and its donate list follows the rule |
| Compatibility.ABMinusReceives | src/components/BloodTypeVisualizer.tsx:15 | AB-'s receive list follows the rule |
| Compatibility.ABPlusDonates | src/components/BloodTypeVisualizer.tsx:16 | row 7 is AB+, and its donate list follows the rule |
| Compatibility.ABPlusReceives | src/components/BloodTypeVisualizer.tsx:16 | AB+'s receive list follows the rule |
| Compatibility.RowOf | src/components/BloodTypeVisualizer.tsx:9-16 | the row at a type's position has that type as key, and both its lists follow the ABO/Rh rule |
| Compatibility.TableFollowsRule | src/components/BloodTypeVisualizer.tsx:8-17 | the table has one row per position of the declaration order, keyed by that position's type, and every row follows the rule |
| Compatibility.TableMeaning | src/components/BloodTypeVisualizer.tsx:9-16 | a type is in a row's donate list exactly when the row's type may give to it, and in its receive list exactly when it may give to the row's type |
| Compatibility.TableComplete | src/components/BloodTypeVisualizer.tsx:8-17 | the table has exactly 8 rows in declaration order, every type has a row, and no two rows share a key |
| Compatibility.TableReflexive | src/components/BloodTypeVisualizer.tsx:9-16 | every row's type is in its own donate list and in its own receive list |
| Compatibility.TableTransposed | src/components/BloodTypeVisualizer.tsx:9-16 | for all rows i and j: j's type is in i's donate list exactly when i's type is in j's receive list |
| Compatibility.TableListsOrdered | src/components/BloodTypeVisualizer.tsx:9-16 | every list of every row is a subsequence of the declaration order and holds no type twice |
| Compatibility.Find | src/components/BloodTypeVisualizer.tsx:104 | the lookup yields nothing exactly when no entry has the key; otherwise it yields the first entry that has the key |
| Compatibility.LookupTotal | src/components/BloodTypeVisualizer.tsx:104 | looking up any type's symbol yields that type's row, so the non-null assertion never fails |
| Compatibility.LookupUnknown | src/components/BloodTypeVisualizer.tsx:104 | the lookup yields nothing exactly when the key is not the symbol of any of the eight types |
| Compatibility.ListedFromTransposes | src/components/BloodTypeVisualizer.tsx:9-16 | the types whose donate lists name t, collected in table order, are exactly the rule's donors of t, and the types whose receive lists name t are exactly its recipients |
| Compatibility.ViewsAreTransposes | src/components/BloodTypeVisualizer.tsx:9-16 | a type's receive list equals the types whose donate lists contain it (same order), and its donate list equals the types whose receive lists contain it |
| Compatibility.ExtremalRows | src/components/BloodTypeVisualizer.tsx:198-206 | looking up "O-" finds the row that donates to all 8 types in table order and receives only from O-, and looking up "AB+" finds the row that receives from all 8 and donates only to AB+ |
| Visualizer.CompatibleTypesMeaning | src/components/BloodTypeVisualizer.tsx:126-128 | for a selected row, the mode's list holds exactly the types the selection may give to (donor mode) or receive from (recipient mode), in declaration order, with no repeats |
| Visualizer.DisplayedCountMeaning | src/components/BloodTypeVisualizer.tsx:98 | the panel's count equals the number of distinct types the rule relates to the selection in the mode's direction |
| Visualizer.DistinctCount | src/components/BloodTypeVisualizer.tsx:98 | a list without repeats has as many elements as the set of its elements, so the panel's count counts distinct types |
| Visualizer.PanelCardsFound | src/components/BloodTypeVisualizer.tsx:103-104 | the panel has one card per listed type, and each card's lookup finds the row of its listed type |
| Visualizer.PanelKeysDistinct | src/components/BloodTypeVisualizer.tsx:107 | for a selected row, the React keys of the panel's cards are pairwise distinct |
| Visualizer.IsSelectedMeaning | src/components/BloodTypeVisualizer.tsx:183 | a card is selected exactly when there is a selection of the card's type, and, for entries of the table, exactly when the card is the selected entry |
| Visualizer.IsCompatibleMeaning | src/components/BloodTypeVisualizer.tsx:184 | with no selection no card is compatible; with a row selected, a card is compatible exactly when the rule relates its type to the selection in the mode's direction |
| Visualizer.SelectedIsCompatible | src/components/BloodTypeVisualizer.tsx:35-36 | the selected card is always compatible too, which is why the green ring is drawn only on compatible cards that are not selected |
| Visualizer.Grid | src/components/BloodTypeVisualizer.tsx:179-188 | the grid has one card per table row, in table order |
| Visualizer.CompatibleCardsCount | src/components/BloodTypeVisualizer.tsx:179-188 | with a row selected, the grid's compatible cards from position k on are as many as the rule-related types from position k on |
| Visualizer.SelectedCardsCount | src/components/BloodTypeVisualizer.tsx:179-188 | with a row selected, the grid's selected cards from position k on are one if the selection's position is at or after k, and none otherwise |
| Visualizer.GridAgreesWithPanel | src/components/BloodTypeVisualizer.tsx:179-188 | with a row selected, exactly one card is selected and the number of highlighted compatible cards equals the panel's count |
| Visualizer.CompatibleSplitsByRing | src/components/BloodTypeVisualizer.tsx:35-36 | when every selected card is compatible, the compatible cards are exactly the selected (yellow-ringed) ones plus the green-ringed ones |
| Visualizer.GridRings | src/components/BloodTypeVisualizer.tsx:35-36 | with a row selected, exactly one card has the yellow ring, no card has both rings, and the green-ringed cards (also those with the glow of line 65) number the panel's count less one |
| Visualizer.GridWithoutSelection | src/components/BloodTypeVisualizer.tsx:183-184 | with no selection no grid card is selected or highlighted as compatible |

## Left out

- `src/app/page.tsx`: static page layout and headings, with no logic.
- Animation (framer-motion delays, durations, opacity keyframes): presentation only, in floating point.
- Tailwind class strings, the `color` field of each row, lucide icons and the markup of buttons and
  cards: pure rendering. Only the conditions under which the rings, the pulse and the glow are drawn
  (lines 35-36, 50, 65) are modelled: `selected` for the yellow ring and the pulse, `GreenRing` for the
  green ring and the glow.
- The panel heading text (line 94) and the educational prose (lines 192-215). The prose is cited only
  for the extremal-type lemmas.
- The React state hooks and `onClick` setters (lines 123-124, 136, 147, 185). The selection and the
  mode are parameters of the model's functions.
- String-typed lists: in the source the lists hold type symbols (strings). The model's lists hold
  `BloodType` values, and `IsCompatible` tests membership of the card's type rather than of its
  symbol. `SymbolInjective` shows the two tests agree.
