/**
 * The queries the visualizer runs over the compatibility table on every render:
 * the mode-dependent list of compatible types, the cards of the compatibility
 * panel with their count, and the selection and compatibility flags of each card
 * in the grid. The selected entry and the mode, which the component keeps in
 * React state, are parameters here.
 */
module Visualizer {
  import opened Wrappers
  import opened BloodTypes
  import opened Compatibility

  datatype Mode = Donor | Recipient

  /** The list the panel and the grid highlight follow: the selected type's donate list
      in donor mode, its receive list in recipient mode. */
  function CompatibleTypes(e: Entry, mode: Mode): seq<BloodType> {
    if mode == Donor then e.canDonateTo else e.canReceiveFrom
  }

  /** For a row of the table, the mode-chosen list holds exactly the types the ABO/Rh rule
      relates to it, in declaration order and without repetition. */
  lemma CompatibleTypesMeaning(s: BloodType, mode: Mode)
    ensures forall t :: t in CompatibleTypes(Table[Rank(s)], mode) <==>
      (if mode == Donor then CanTransfuse(s, t) else CanTransfuse(t, s))
    ensures CompatibleTypes(Table[Rank(s)], mode) == RelatedFrom(0, s, mode == Donor)
    ensures InTableOrder(CompatibleTypes(Table[Rank(s)], mode))
    ensures NoDuplicates(CompatibleTypes(Table[Rank(s)], mode))
  {
    TableComplete();
    RowOf(s);
    forall t ensures t in CompatibleTypes(Table[Rank(s)], mode) <==>
      (if mode == Donor then CanTransfuse(s, t) else CanTransfuse(t, s))
    {
      TableMeaning(Rank(s), t);
    }
    TableListsOrdered(Rank(s));
  }

  /** The number shown as "N compatible blood types". */
  function DisplayedCount(e: Entry, mode: Mode): nat {
    |CompatibleTypes(e, mode)|
  }

  /** The displayed count is the number of distinct types the rule relates to the selection. */
  lemma DisplayedCountMeaning(s: BloodType, mode: Mode)
    ensures DisplayedCount(Table[Rank(s)], mode) == |set t | t in AllTypes && Related(s, t, mode == Donor)|
  {
    var list := CompatibleTypes(Table[Rank(s)], mode);
    CompatibleTypesMeaning(s, mode);
    forall t ensures t in list <==> t in AllTypes && Related(s, t, mode == Donor) {
      RelatedFromMembers(0, s, mode == Donor, t);
    }
    SetOfListed(list, s, mode == Donor);
    DistinctCount(list);
  }

  lemma SetOfListed(list: seq<BloodType>, s: BloodType, asDonor: bool)
    requires forall t :: t in list <==> t in AllTypes && Related(s, t, asDonor)
    ensures (set t | t in AllTypes && Related(s, t, asDonor)) == set t | t in list
  {
  }

  /** A sequence without repetition has as many elements as the set of its elements. */
  lemma {:induction false} DistinctCount<T>(xs: seq<T>)
    requires NoDuplicates(xs)
    ensures |set x | x in xs| == |xs|
  {
    if xs != [] {
      var tail := xs[1..];
      assert NoDuplicates(tail) by {
        forall i, j | 0 <= i < j < |tail| ensures tail[i] != tail[j] {
          assert tail[i] == xs[i + 1] && tail[j] == xs[j + 1];
        }
      }
      DistinctCount(tail);
      assert xs[0] !in tail by {
        forall j | 0 <= j < |tail| ensures tail[j] != xs[0] {
          assert tail[j] == xs[j + 1];
        }
      }
      assert (set x | x in xs) == {xs[0]} + (set x | x in tail) by {
        assert xs == [xs[0]] + tail;
      }
    }
  }

  /** The panel's cards: each listed type looked up in the table by its symbol. */
  function PanelCards(e: Entry, mode: Mode): seq<Option<Entry>> {
    var list := CompatibleTypes(e, mode);
    seq(|list|, k requires 0 <= k < |list| => Find(Table, Symbol(list[k])))
  }

  /** The React keys of the panel's cards. */
  function PanelKeys(e: Entry, mode: Mode): seq<string> {
    var list := CompatibleTypes(e, mode);
    seq(|list|, k requires 0 <= k < |list| => Symbol(list[k]))
  }

  /** Every panel card's lookup succeeds and finds the row of the listed type: the non-null
      assertion on the panel's lookup never fails. */
  lemma PanelCardsFound(e: Entry, mode: Mode)
    ensures |PanelCards(e, mode)| == DisplayedCount(e, mode)
    ensures forall k :: 0 <= k < |PanelCards(e, mode)| ==>
      PanelCards(e, mode)[k] == Some(Table[Rank(CompatibleTypes(e, mode)[k])]) &&
      PanelCards(e, mode)[k].value.bloodType == CompatibleTypes(e, mode)[k]
  {
    TableComplete();
    var list := CompatibleTypes(e, mode);
    forall k | 0 <= k < |list| ensures PanelCards(e, mode)[k] == Some(Table[Rank(list[k])]) {
      LookupTotal(list[k]);
    }
  }

  /** For a selection from the table the panel's card keys are distinct. */
  lemma PanelKeysDistinct(s: BloodType, mode: Mode)
    ensures NoDuplicates(PanelKeys(Table[Rank(s)], mode))
  {
    var list := CompatibleTypes(Table[Rank(s)], mode);
    CompatibleTypesMeaning(s, mode);
    var keys := PanelKeys(Table[Rank(s)], mode);
    forall a, b | 0 <= a < b < |keys| ensures keys[a] != keys[b] {
      SymbolInjective(list[a], list[b]);
    }
  }

  /** A card is selected when its symbol equals the selected entry's symbol; with no
      selection nothing is selected. */
  function IsSelected(selected: Option<Entry>, card: Entry): bool {
    selected.Some? && Symbol(selected.value.bloodType) == Symbol(card.bloodType)
  }

  /** A card is highlighted as compatible when its type is in the selection's mode-chosen
      list; with no selection no card is. */
  function IsCompatible(selected: Option<Entry>, mode: Mode, card: Entry): bool {
    match selected
    case None => false
    case Some(s) => card.bloodType in CompatibleTypes(s, mode)
  }

  /** For entries of the table, being selected is being the selected entry. */
  lemma IsSelectedMeaning(selected: Option<Entry>, card: Entry)
    ensures IsSelected(selected, card) <==> selected.Some? && selected.value.bloodType == card.bloodType
    ensures card in Table && (selected.Some? ==> selected.value in Table) ==>
      (IsSelected(selected, card) <==> selected == Some(card))
  {
    if selected.Some? {
      SymbolInjective(selected.value.bloodType, card.bloodType);
      TableComplete();
    }
  }

  /** With no selection no card is compatible; with a row of the table selected, a card is
      compatible exactly when the ABO/Rh rule relates it to the selection in the mode's
      direction. */
  lemma IsCompatibleMeaning(s: BloodType, mode: Mode, card: Entry)
    ensures !IsCompatible(None, mode, card)
    ensures IsCompatible(Some(Table[Rank(s)]), mode, card) <==>
      (if mode == Donor then CanTransfuse(s, card.bloodType) else CanTransfuse(card.bloodType, s))
  {
    CompatibleTypesMeaning(s, mode);
  }

  /** The selected card is always also compatible, which is why the grid draws the green
      compatibility ring only on compatible cards that are not selected. */
  lemma SelectedIsCompatible(selected: Option<Entry>, mode: Mode, card: Entry)
    requires selected.Some? ==> selected.value in Table
    ensures IsSelected(selected, card) ==> IsCompatible(selected, mode, card)
  {
    if IsSelected(selected, card) {
      var i :| 0 <= i < |Table| && Table[i] == selected.value;
      IsSelectedMeaning(selected, card);
      TableReflexive(i);
    }
  }

  /** What the grid passes to one card. */
  datatype CardView = CardView(entry: Entry, selected: bool, compatible: bool)

  /** The grid: one card per row of the table, in table order. */
  function Grid(selected: Option<Entry>, mode: Mode): (g: seq<CardView>)
    ensures |g| == |Table|
    ensures forall k :: 0 <= k < |g| ==> g[k].entry == Table[k]
  {
    seq(|Table|, k requires 0 <= k < |Table| =>
      CardView(Table[k], IsSelected(selected, Table[k]), IsCompatible(selected, mode, Table[k])))
  }

  /** The number of compatible cards at position k of the grid and later. */
  function CompatibleCardsFrom(g: seq<CardView>, k: nat): nat
    requires k <= |g|
    decreases |g| - k
  {
    if k == |g| then 0 else (if g[k].compatible then 1 else 0) + CompatibleCardsFrom(g, k + 1)
  }

  /** The number of selected cards at position k of the grid and later. */
  function SelectedCardsFrom(g: seq<CardView>, k: nat): nat
    requires k <= |g|
    decreases |g| - k
  {
    if k == |g| then 0 else (if g[k].selected then 1 else 0) + SelectedCardsFrom(g, k + 1)
  }

  /** With a row selected, the compatible cards from position k on are as many as the
      types the rule relates to the selection from position k on. */
  lemma {:induction false} CompatibleCardsCount(s: BloodType, mode: Mode, k: nat)
    requires k <= |Table|
    ensures CompatibleCardsFrom(Grid(Some(Table[Rank(s)]), mode), k) == |RelatedFrom(k, s, mode == Donor)|
    decreases |Table| - k
  {
    TableComplete();
    if k < |Table| {
      CompatibleCardsCount(s, mode, k + 1);
      IsCompatibleMeaning(s, mode, Table[k]);
    }
  }

  /** With a row selected, the only selected card is the one at the selection's position. */
  lemma {:induction false} SelectedCardsCount(s: BloodType, k: nat)
    requires k <= |Table|
    ensures forall mode :: SelectedCardsFrom(Grid(Some(Table[Rank(s)]), mode), k) == if k <= Rank(s) then 1 else 0
    decreases |Table| - k
  {
    TableComplete();
    if k < |Table| {
      SelectedCardsCount(s, k + 1);
      IsSelectedMeaning(Some(Table[Rank(s)]), Table[k]);
    }
  }

  /** With a row of the table selected, exactly one grid card is selected and the number of
      cards highlighted as compatible equals the count the panel displays. */
  lemma GridAgreesWithPanel(s: BloodType, mode: Mode)
    ensures SelectedCardsFrom(Grid(Some(Table[Rank(s)]), mode), 0) == 1
    ensures CompatibleCardsFrom(Grid(Some(Table[Rank(s)]), mode), 0) == DisplayedCount(Table[Rank(s)], mode)
  {
    SelectedCardsCount(s, 0);
    CompatibleCardsCount(s, mode, 0);
    CompatibleTypesMeaning(s, mode);
  }

  /** The green ring of a card: compatible but not selected. The compatibility glow uses
      the same condition; the yellow ring and the pulse are drawn when `selected` holds. */
  function GreenRing(c: CardView): bool {
    c.compatible && !c.selected
  }

  /** The number of green-ringed cards at position k of the grid and later. */
  function GreenRingCardsFrom(g: seq<CardView>, k: nat): nat
    requires k <= |g|
    decreases |g| - k
  {
    if k == |g| then 0 else (if GreenRing(g[k]) then 1 else 0) + GreenRingCardsFrom(g, k + 1)
  }

  /** When every selected card is also compatible, the compatible cards split into the
      selected ones and the green-ringed ones. */
  lemma {:induction false} CompatibleSplitsByRing(g: seq<CardView>, k: nat)
    requires k <= |g|
    requires forall i :: 0 <= i < |g| && g[i].selected ==> g[i].compatible
    ensures CompatibleCardsFrom(g, k) == SelectedCardsFrom(g, k) + GreenRingCardsFrom(g, k)
    decreases |g| - k
  {
    if k < |g| {
      CompatibleSplitsByRing(g, k + 1);
    }
  }

  /** With a row of the table selected, one card carries the yellow ring, no card carries
      both rings, and the green-ringed cards are the panel's count less the selected one. */
  lemma GridRings(s: BloodType, mode: Mode)
    ensures SelectedCardsFrom(Grid(Some(Table[Rank(s)]), mode), 0) == 1
    ensures forall k :: 0 <= k < |Table| ==>
      !(Grid(Some(Table[Rank(s)]), mode)[k].selected && GreenRing(Grid(Some(Table[Rank(s)]), mode)[k]))
    ensures GreenRingCardsFrom(Grid(Some(Table[Rank(s)]), mode), 0) == DisplayedCount(Table[Rank(s)], mode) - 1
  {
    var g := Grid(Some(Table[Rank(s)]), mode);
    TableComplete();
    forall i | 0 <= i < |g| && g[i].selected ensures g[i].compatible {
      SelectedIsCompatible(Some(Table[Rank(s)]), mode, Table[i]);
    }
    CompatibleSplitsByRing(g, 0);
    GridAgreesWithPanel(s, mode);
  }

  /** With no selection no grid card is selected or highlighted as compatible. */
  lemma GridWithoutSelection(mode: Mode)
    ensures forall k :: 0 <= k < |Table| ==> !Grid(None, mode)[k].selected && !Grid(None, mode)[k].compatible
  {
  }
}
