/**
 * The eight ABO/Rh blood types, their display symbols, the order in which the
 * compatibility table declares them, and the immunological rule that the
 * table's literal rows encode.
 */
module BloodTypes {

  datatype BloodType = OMinus | OPlus | AMinus | APlus | BMinus | BPlus | ABMinus | ABPlus

  /** The string the user interface shows for a type and compares with `===`. */
  function Symbol(t: BloodType): string {
    match t
    case OMinus => "O-"
    case OPlus => "O+"
    case AMinus => "A-"
    case APlus => "A+"
    case BMinus => "B-"
    case BPlus => "B+"
    case ABMinus => "AB-"
    case ABPlus => "AB+"
  }

  /** Distinct types have distinct symbols, so comparing symbols is comparing types. */
  lemma SymbolInjective(a: BloodType, b: BloodType)
    ensures Symbol(a) == Symbol(b) <==> a == b
  {
    match a
    case OMinus =>
    case OPlus =>
    case AMinus =>
    case APlus =>
    case BMinus =>
    case BPlus =>
    case ABMinus =>
    case ABPlus =>
  }

  /** The declaration order of the table: O-, O+, A-, A+, B-, B+, AB-, AB+. */
  const AllTypes: seq<BloodType> := [OMinus, OPlus, AMinus, APlus, BMinus, BPlus, ABMinus, ABPlus]

  /** The position of a type in the declaration order. */
  function Rank(t: BloodType): (k: nat)
    ensures k < |AllTypes| && AllTypes[k] == t
  {
    match t
    case OMinus => 0
    case OPlus => 1
    case AMinus => 2
    case APlus => 3
    case BMinus => 4
    case BPlus => 5
    case ABMinus => 6
    case ABPlus => 7
  }

  /** The declaration order lists every type exactly once. */
  lemma AllTypesComplete()
    ensures |AllTypes| == 8
    ensures forall t: BloodType :: t in AllTypes
    ensures forall k :: 0 <= k < |AllTypes| ==> Rank(AllTypes[k]) == k
  {
    forall t: BloodType ensures t in AllTypes {
      assert AllTypes[Rank(t)] == t;
    }
  }

  /** A sequence of types whose positions in the declaration order strictly increase:
      it is a subsequence of AllTypes and so holds no type twice. */
  predicate InTableOrder(xs: seq<BloodType>) {
    forall i, j :: 0 <= i < j < |xs| ==> Rank(xs[i]) < Rank(xs[j])
  }

  predicate NoDuplicates<T(==)>(xs: seq<T>) {
    forall i, j :: 0 <= i < j < |xs| ==> xs[i] != xs[j]
  }

  lemma InTableOrderHasNoDuplicates(xs: seq<BloodType>)
    requires InTableOrder(xs)
    ensures NoDuplicates(xs)
  {
  }

  // Red-cell antigens carried by each type.
  predicate HasAntigenA(t: BloodType) {
    match t case AMinus | APlus | ABMinus | ABPlus => true case _ => false
  }

  predicate HasAntigenB(t: BloodType) {
    match t case BMinus | BPlus | ABMinus | ABPlus => true case _ => false
  }

  predicate RhPositive(t: BloodType) {
    match t case OPlus | APlus | BPlus | ABPlus => true case _ => false
  }

  /** The ABO/Rh red-cell rule: donor d may give to recipient r exactly when every
      ABO antigen of d is also carried by r and, if d is Rh positive, so is r. */
  predicate CanTransfuse(d: BloodType, r: BloodType) {
    && (HasAntigenA(d) ==> HasAntigenA(r))
    && (HasAntigenB(d) ==> HasAntigenB(r))
    && (RhPositive(d) ==> RhPositive(r))
  }

  /** Every type may receive its own type. */
  lemma CanTransfuseReflexive(t: BloodType)
    ensures CanTransfuse(t, t)
  {
  }

  /** O- is the universal donor and receives only from itself; AB+ is the universal
      recipient and donates only to itself. */
  lemma ExtremalTypes(t: BloodType)
    ensures CanTransfuse(OMinus, t) && CanTransfuse(t, ABPlus)
    ensures CanTransfuse(t, OMinus) <==> t == OMinus
    ensures CanTransfuse(ABPlus, t) <==> t == ABPlus
  {
    match t
    case OMinus =>
    case OPlus =>
    case AMinus =>
    case APlus =>
    case BMinus =>
    case BPlus =>
    case ABMinus =>
    case ABPlus =>
  }

  predicate Related(self: BloodType, other: BloodType, asDonor: bool) {
    if asDonor then CanTransfuse(self, other) else CanTransfuse(other, self)
  }

  /**
   * The types from position k of the declaration order on, in that order, that are
   * related to `self` by the rule: those `self` may donate to when `asDonor`, those
   * it may receive from otherwise.
   */
  function RelatedFrom(k: nat, self: BloodType, asDonor: bool): seq<BloodType>
    requires k <= |AllTypes|
    decreases |AllTypes| - k
  {
    if k == |AllTypes| then []
    else
      var rest := RelatedFrom(k + 1, self, asDonor);
      if Related(self, AllTypes[k], asDonor) then [AllTypes[k]] + rest else rest
  }

  /** RelatedFrom keeps exactly the related types at positions k and later. */
  lemma {:induction false} RelatedFromMembers(k: nat, self: BloodType, asDonor: bool, t: BloodType)
    requires k <= |AllTypes|
    ensures t in RelatedFrom(k, self, asDonor) <==> k <= Rank(t) && Related(self, t, asDonor)
    decreases |AllTypes| - k
  {
    if k < |AllTypes| {
      RelatedFromMembers(k + 1, self, asDonor, t);
      AllTypesComplete();
      var rest := RelatedFrom(k + 1, self, asDonor);
      if AllTypes[k] == t {
        assert Rank(t) == k;
      } else {
        assert Rank(t) != k;
        assert t in RelatedFrom(k, self, asDonor) <==> t in rest;
      }
    }
  }

  /** RelatedFrom lists its types in declaration order, each at position k or later. */
  lemma {:induction false} RelatedFromOrdered(k: nat, self: BloodType, asDonor: bool)
    requires k <= |AllTypes|
    ensures InTableOrder(RelatedFrom(k, self, asDonor))
    ensures forall t :: t in RelatedFrom(k, self, asDonor) ==> k <= Rank(t)
    decreases |AllTypes| - k
  {
    if k < |AllTypes| {
      RelatedFromOrdered(k + 1, self, asDonor);
      var rest := RelatedFrom(k + 1, self, asDonor);
      if Related(self, AllTypes[k], asDonor) {
        var r := [AllTypes[k]] + rest;
        assert Rank(AllTypes[k]) == k;
        forall i, j | 0 <= i < j < |r| ensures Rank(r[i]) < Rank(r[j]) {
          assert r[j] == rest[j - 1];
          if i == 0 {
            assert r[j] in rest;
          } else {
            assert r[i] == rest[i - 1];
          }
        }
      }
    }
  }
}
