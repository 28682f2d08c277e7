/**
 * The constant compatibility table of the visualizer: one entry per blood type
 * with the list of types it can donate to and the list it can receive from,
 * and the `find` by symbol that the compatibility panel uses on it.
 */
module Compatibility {
  import opened Wrappers
  import opened BloodTypes

  /** One row of the component's `bloodTypes` array (fields `type`, `label`, `canDonateTo`,
      `canReceiveFrom`; the first two are `bloodType` and `displayName` here). */
  datatype Entry = Entry(
    bloodType: BloodType,
    displayName: string,
    canDonateTo: seq<BloodType>,
    canReceiveFrom: seq<BloodType>)

  /** The component's `bloodTypes` array: the eight rows in declaration order (the display
      colour is left out). */
  const Table: seq<Entry> := [
    Entry(OMinus, "O Negative", [OMinus, OPlus, AMinus, APlus, BMinus, BPlus, ABMinus, ABPlus], [OMinus]),
    Entry(OPlus, "O Positive", [OPlus, APlus, BPlus, ABPlus], [OMinus, OPlus]),
    Entry(AMinus, "A Negative", [AMinus, APlus, ABMinus, ABPlus], [OMinus, AMinus]),
    Entry(APlus, "A Positive", [APlus, ABPlus], [OMinus, OPlus, AMinus, APlus]),
    Entry(BMinus, "B Negative", [BMinus, BPlus, ABMinus, ABPlus], [OMinus, BMinus]),
    Entry(BPlus, "B Positive", [BPlus, ABPlus], [OMinus, OPlus, BMinus, BPlus]),
    Entry(ABMinus, "AB Negative", [ABMinus, ABPlus], [OMinus, AMinus, BMinus, ABMinus]),
    Entry(ABPlus, "AB Positive", [ABPlus], [OMinus, OPlus, AMinus, APlus, BMinus, BPlus, ABMinus, ABPlus])
  ]

  /** ABO/Rh agreement of one row: each list is the declaration order filtered by the rule. */
  predicate RowFollowsRule(e: Entry) {
    && e.canDonateTo == RelatedFrom(0, e.bloodType, true)
    && e.canReceiveFrom == RelatedFrom(0, e.bloodType, false)
  }

  // One lemma per list of each row, rows in declaration order: `XDonates` states that
  // the row's key is X and its donate list follows the rule, `XReceives` that its receive
  // list does. Evaluating the rule is costly enough that one list per proof keeps each
  // proof small.

  lemma OMinusDonates()
    ensures Table[0].bloodType == OMinus && Table[0].canDonateTo == RelatedFrom(0, OMinus, true)
  {
  }

  lemma OMinusReceives()
    ensures Table[0].canReceiveFrom == RelatedFrom(0, OMinus, false)
  {
  }

  lemma OPlusDonates()
    ensures Table[1].bloodType == OPlus && Table[1].canDonateTo == RelatedFrom(0, OPlus, true)
  {
  }

  lemma OPlusReceives()
    ensures Table[1].canReceiveFrom == RelatedFrom(0, OPlus, false)
  {
  }

  lemma AMinusDonates()
    ensures Table[2].bloodType == AMinus && Table[2].canDonateTo == RelatedFrom(0, AMinus, true)
  {
  }

  lemma AMinusReceives()
    ensures Table[2].canReceiveFrom == RelatedFrom(0, AMinus, false)
  {
  }

  lemma APlusDonates()
    ensures Table[3].bloodType == APlus && Table[3].canDonateTo == RelatedFrom(0, APlus, true)
  {
  }

  lemma APlusReceives()
    ensures Table[3].canReceiveFrom == RelatedFrom(0, APlus, false)
  {
  }

  lemma BMinusDonates()
    ensures Table[4].bloodType == BMinus && Table[4].canDonateTo == RelatedFrom(0, BMinus, true)
  {
  }

  lemma BMinusReceives()
    ensures Table[4].canReceiveFrom == RelatedFrom(0, BMinus, false)
  {
  }

  lemma BPlusDonates()
    ensures Table[5].bloodType == BPlus && Table[5].canDonateTo == RelatedFrom(0, BPlus, true)
  {
  }

  lemma BPlusReceives()
    ensures Table[5].canReceiveFrom == RelatedFrom(0, BPlus, false)
  {
  }

  lemma ABMinusDonates()
    ensures Table[6].bloodType == ABMinus && Table[6].canDonateTo == RelatedFrom(0, ABMinus, true)
  {
  }

  lemma ABMinusReceives()
    ensures Table[6].canReceiveFrom == RelatedFrom(0, ABMinus, false)
  {
  }

  lemma ABPlusDonates()
    ensures Table[7].bloodType == ABPlus && Table[7].canDonateTo == RelatedFrom(0, ABPlus, true)
  {
  }

  lemma ABPlusReceives()
    ensures Table[7].canReceiveFrom == RelatedFrom(0, ABPlus, false)
  {
  }

  /** The row of type t sits at t's place in the declaration order and follows the rule. */
  lemma RowOf(t: BloodType)
    ensures Table[Rank(t)].bloodType == t && RowFollowsRule(Table[Rank(t)])
  {
    match t
    case OMinus => OMinusDonates(); OMinusReceives();
    case OPlus => OPlusDonates(); OPlusReceives();
    case AMinus => AMinusDonates(); AMinusReceives();
    case APlus => APlusDonates(); APlusReceives();
    case BMinus => BMinusDonates(); BMinusReceives();
    case BPlus => BPlusDonates(); BPlusReceives();
    case ABMinus => ABMinusDonates(); ABMinusReceives();
    case ABPlus => ABPlusDonates(); ABPlusReceives();
  }

  /** The rows are keyed by the declaration order and every row follows the ABO/Rh rule. */
  lemma TableFollowsRule()
    ensures |Table| == |AllTypes|
    ensures forall k :: 0 <= k < |Table| ==> Table[k].bloodType == AllTypes[k] && RowFollowsRule(Table[k])
  {
    AllTypesComplete();
    forall k | 0 <= k < |Table| ensures Table[k].bloodType == AllTypes[k] && RowFollowsRule(Table[k]) {
      RowOf(AllTypes[k]);
    }
  }

  /** Every row of the table, read as a relation, follows the ABO/Rh rule in both lists. */
  lemma TableMeaning(k: nat, t: BloodType)
    requires k < |Table|
    ensures t in Table[k].canDonateTo <==> CanTransfuse(Table[k].bloodType, t)
    ensures t in Table[k].canReceiveFrom <==> CanTransfuse(t, Table[k].bloodType)
  {
    TableFollowsRule();
    RelatedFromMembers(0, Table[k].bloodType, true, t);
    RelatedFromMembers(0, Table[k].bloodType, false, t);
  }

  /** The table has one row per blood type, in declaration order, with distinct keys. */
  lemma TableComplete()
    ensures |Table| == 8
    ensures forall k :: 0 <= k < |Table| ==> Table[k].bloodType == AllTypes[k]
    ensures forall t: BloodType :: Table[Rank(t)].bloodType == t
    ensures forall i, j :: 0 <= i < j < |Table| ==> Table[i].bloodType != Table[j].bloodType
  {
    TableFollowsRule();
    AllTypesComplete();
  }

  /** Reflexivity: every row lists its own type among those it donates to and receives from. */
  lemma TableReflexive(k: nat)
    requires k < |Table|
    ensures Table[k].bloodType in Table[k].canDonateTo
    ensures Table[k].bloodType in Table[k].canReceiveFrom
  {
    TableMeaning(k, Table[k].bloodType);
    CanTransfuseReflexive(Table[k].bloodType);
  }

  /** Transposition: row j's type is in row i's donate list exactly when row i's type
      is in row j's receive list. */
  lemma TableTransposed(i: nat, j: nat)
    requires i < |Table| && j < |Table|
    ensures Table[j].bloodType in Table[i].canDonateTo <==> Table[i].bloodType in Table[j].canReceiveFrom
  {
    TableMeaning(i, Table[j].bloodType);
    TableMeaning(j, Table[i].bloodType);
  }

  /** Each list of each row is a subsequence of the declaration order, so it holds no type twice. */
  lemma TableListsOrdered(k: nat)
    requires k < |Table|
    ensures InTableOrder(Table[k].canDonateTo) && NoDuplicates(Table[k].canDonateTo)
    ensures InTableOrder(Table[k].canReceiveFrom) && NoDuplicates(Table[k].canReceiveFrom)
  {
    TableFollowsRule();
    RelatedFromOrdered(0, Table[k].bloodType, true);
    RelatedFromOrdered(0, Table[k].bloodType, false);
    InTableOrderHasNoDuplicates(Table[k].canDonateTo);
    InTableOrderHasNoDuplicates(Table[k].canReceiveFrom);
  }

  /** `Array.prototype.find` on the table by symbol: the first entry whose symbol is `key`. */
  function Find(entries: seq<Entry>, key: string): (r: Option<Entry>)
    ensures r.None? <==> forall k :: 0 <= k < |entries| ==> Symbol(entries[k].bloodType) != key
    ensures r.Some? ==> Symbol(r.value.bloodType) == key
    ensures r.Some? ==> exists k :: 0 <= k < |entries| && entries[k] == r.value && FirstWithKey(entries, key, k)
  {
    if entries == [] then None
    else if Symbol(entries[0].bloodType) == key then
      assert FirstWithKey(entries, key, 0);
      Some(entries[0])
    else
      var r := Find(entries[1..], key);
      if r.Some? then
        var k :| 0 <= k < |entries[1..]| && entries[1..][k] == r.value && FirstWithKey(entries[1..], key, k);
        assert FirstWithKey(entries, key, k + 1);
        r
      else
        r
  }

  /** No entry before position k has symbol `key`. */
  predicate FirstWithKey(entries: seq<Entry>, key: string, k: nat)
    requires k <= |entries|
  {
    forall j :: 0 <= j < k ==> Symbol(entries[j].bloodType) != key
  }

  /** Looking up the symbol of any blood type finds that type's row: the non-null assertion
      on the lookup never fails. */
  lemma LookupTotal(t: BloodType)
    ensures Find(Table, Symbol(t)) == Some(Table[Rank(t)])
  {
    TableComplete();
    var r := Find(Table, Symbol(t));
    assert Symbol(Table[Rank(t)].bloodType) == Symbol(t);
    var k :| 0 <= k < |Table| && Table[k] == r.value && FirstWithKey(Table, Symbol(t), k);
    SymbolInjective(Table[k].bloodType, t);
  }

  /** A key that is not the symbol of any blood type is not found. */
  lemma LookupUnknown(key: string)
    ensures Find(Table, key).None? <==> forall t: BloodType :: Symbol(t) != key
  {
    TableComplete();
    if Find(Table, key).Some? {
      assert Symbol(Find(Table, key).value.bloodType) == key;
    } else {
      forall t: BloodType ensures Symbol(t) != key {
        assert Symbol(Table[Rank(t)].bloodType) != key;
      }
    }
  }

  /** The types whose row's donate list (when `byDonateList`) or receive list contains t,
      collected from row k of the table on. */
  function ListedFrom(k: nat, t: BloodType, byDonateList: bool): seq<BloodType>
    requires k <= |Table|
    decreases |Table| - k
  {
    if k == |Table| then []
    else
      var rest := ListedFrom(k + 1, t, byDonateList);
      var list := if byDonateList then Table[k].canDonateTo else Table[k].canReceiveFrom;
      if t in list then [Table[k].bloodType] + rest else rest
  }

  /** Collecting, in table order, the types whose donate list names t gives exactly t's
      receive list, and the types whose receive list names t gives exactly its donate list. */
  lemma {:induction false} ListedFromTransposes(k: nat, t: BloodType)
    requires k <= |Table|
    ensures ListedFrom(k, t, true) == RelatedFrom(k, t, false)
    ensures ListedFrom(k, t, false) == RelatedFrom(k, t, true)
    decreases |Table| - k
  {
    TableComplete();
    if k < |Table| {
      ListedFromTransposes(k + 1, t);
      TableMeaning(k, t);
    }
  }

  /** The receive view of a type is the transpose of the donate lists and vice versa. */
  lemma ViewsAreTransposes(t: BloodType)
    ensures ListedFrom(0, t, true) == Table[Rank(t)].canReceiveFrom
    ensures ListedFrom(0, t, false) == Table[Rank(t)].canDonateTo
  {
    ListedFromTransposes(0, t);
    RowOf(t);
  }

  /** O- donates to every type and receives only from O-; AB+ receives from every type and
      donates only to AB+. */
  lemma ExtremalRows()
    ensures Find(Table, "O-") == Some(Table[0])
    ensures Table[0].canDonateTo == AllTypes && Table[0].canReceiveFrom == [OMinus]
    ensures Find(Table, "AB+") == Some(Table[7])
    ensures Table[7].canReceiveFrom == AllTypes && Table[7].canDonateTo == [ABPlus]
  {
    LookupTotal(OMinus);
    LookupTotal(ABPlus);
    RowOf(OMinus);
    RowOf(ABPlus);
  }
}
