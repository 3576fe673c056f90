/**
 * The rules both client files share: what makes the guest list ready to
 * confirm, how a patch is merged into a guest, and removing a guest by index.
 */
module Checkin {
  import opened Wrappers
  import opened JsObject
  import opened Text
  import opened Guests

  /** `!g.name || !g.name.trim()`. */
  predicate IsBlank(name: string) {
    Trim(name) == ""
  }

  /** `parseInt(g.age) >= 18`; `NaN` compares false. */
  predicate IsAdult(age: string) {
    var n := ParseInt(age);
    n.Some? && n.value >= 18
  }

  /** An adult must pick at least one gift. */
  predicate MissingAdultGift(g: Guest) {
    IsAdult(g.age) && !AnyTruthy(g.gifts)
  }

  /** Why the confirmation is refused, in the order the checks are made. */
  datatype Rejection = NoGuests | BlankName | AdultWithoutGift

  /** `guests.some(g => !g.name || !g.name.trim())`. */
  predicate SomeBlank(gs: seq<Guest>) {
    exists i | 0 <= i < |gs| :: IsBlank(gs[i].name)
  }

  /** `guests.some(g => parseInt(g.age) >= 18 && !Object.values(g.gifts).some(v => v))`. */
  predicate SomeAdultWithoutGift(gs: seq<Guest>) {
    exists i | 0 <= i < |gs| :: MissingAdultGift(gs[i])
  }

  /**
   * The checks `confirmAllAndSend` makes before it sends anything: the list
   * is refused when it is empty, then when a name is blank, then when an
   * adult has picked no gift; otherwise it goes ahead.
   */
  function Validate(gs: seq<Guest>): (r: Option<Rejection>)
    ensures r == None <==>
      gs != [] && forall i | 0 <= i < |gs| :: !IsBlank(gs[i].name) && !MissingAdultGift(gs[i])
    ensures r == Some(NoGuests) <==> gs == []
    ensures r == Some(BlankName) <==> gs != [] && exists i | 0 <= i < |gs| :: IsBlank(gs[i].name)
    ensures r == Some(AdultWithoutGift) <==>
      && gs != []
      && (forall i | 0 <= i < |gs| :: !IsBlank(gs[i].name))
      && exists i | 0 <= i < |gs| :: MissingAdultGift(gs[i])
  {
    if gs == [] then Some(NoGuests)
    else if SomeBlank(gs) then Some(BlankName)
    else if SomeAdultWithoutGift(gs) then Some(AdultWithoutGift)
    else None
  }

  /** A list that passes has only non-empty names, so no request it leads to lacks a name. */
  lemma ValidNamesAreNonEmpty(gs: seq<Guest>)
    requires Validate(gs) == None
    ensures forall i | 0 <= i < |gs| :: gs[i].name != "" && !IsBlank(gs[i].name)
  {
    forall i | 0 <= i < |gs| ensures gs[i].name != "" {
      assert !IsBlank(gs[i].name);
    }
  }

  /** `prev.filter((_, idx) => idx !== i)`: drops the element at `i`, when there is one, and keeps the rest in order. */
  method DropIndex<T>(s: seq<T>, i: int) returns (r: seq<T>)
    ensures 0 <= i < |s| ==> r == s[..i] + s[i + 1..]
    ensures !(0 <= i < |s|) ==> r == s
  {
    r := [];
    var j := 0;
    while j < |s|
      invariant 0 <= j <= |s|
      invariant r == if 0 <= i < j then s[..i] + s[i + 1..j] else s[..j]
    {
      if j != i {
        r := r + [s[j]];
      }
      j := j + 1;
    }
    assert s[..|s|] == s;
  }

  /** The fields of a patch; an absent field leaves the guest's own. */
  datatype Patch = Patch(name: Option<string>, age: Option<string>, gifts: Option<Gifts>, mimo: Option<string>)

  function Or<T>(o: Option<T>, d: T): T {
    if o.Some? then o.value else d
  }

  /** `{ ...g, ...patch }` on a guest of the list. */
  function Merge(g: Guest, p: Patch): Guest {
    Guest(Or(p.name, g.name), Or(p.age, g.age), Or(p.gifts, g.gifts), Or(p.mimo, g.mimo))
  }

  /** `{ ...g, ...patch }` on a guest as the server sends it back. */
  function MergeBody(g: GuestBody, p: Patch): GuestBody {
    GuestBody(Or(p.name, g.name), Or(p.age, g.age), if p.gifts.Some? then p.gifts else g.gifts, Or(p.mimo, g.mimo))
  }

  /** Two patches in a row, the later one winning field by field. */
  function Then(p1: Patch, p2: Patch): Patch {
    Patch(if p2.name.Some? then p2.name else p1.name,
          if p2.age.Some? then p2.age else p1.age,
          if p2.gifts.Some? then p2.gifts else p1.gifts,
          if p2.mimo.Some? then p2.mimo else p1.mimo)
  }

  /**
   * Spreading is last-wins: an empty patch changes nothing, a patch sets
   * exactly its own fields, and two patches in a row are one combined patch.
   */
  lemma MergeLaws(g: Guest, p1: Patch, p2: Patch)
    ensures Merge(g, Patch(None, None, None, None)) == g
    ensures Merge(Merge(g, p1), p2) == Merge(g, Then(p1, p2))
    ensures p1.name.Some? ==> Merge(g, p1).name == p1.name.value
    ensures p1.name.None? ==> Merge(g, p1).name == g.name
    ensures p1.gifts.Some? ==> Merge(g, p1).gifts == p1.gifts.value
    ensures p1.gifts.None? ==> Merge(g, p1).gifts == g.gifts
    ensures p1.age.Some? ==> Merge(g, p1).age == p1.age.value
    ensures p1.age.None? ==> Merge(g, p1).age == g.age
    ensures p1.mimo.Some? ==> Merge(g, p1).mimo == p1.mimo.value
    ensures p1.mimo.None? ==> Merge(g, p1).mimo == g.mimo
  {
  }

  /**
   * The same laws for a guest the server sent back: a patch without `gifts`
   * keeps the guest's, even when the guest has none.
   */
  lemma MergeBodyLaws(g: GuestBody, p1: Patch, p2: Patch)
    ensures MergeBody(g, Patch(None, None, None, None)) == g
    ensures MergeBody(MergeBody(g, p1), p2) == MergeBody(g, Then(p1, p2))
    ensures p1.name.Some? ==> MergeBody(g, p1).name == p1.name.value
    ensures p1.name.None? ==> MergeBody(g, p1).name == g.name
    ensures p1.age.Some? ==> MergeBody(g, p1).age == p1.age.value
    ensures p1.age.None? ==> MergeBody(g, p1).age == g.age
    ensures p1.gifts.Some? ==> MergeBody(g, p1).gifts == p1.gifts
    ensures p1.gifts.None? ==> MergeBody(g, p1).gifts == g.gifts
    ensures p1.mimo.Some? ==> MergeBody(g, p1).mimo == p1.mimo.value
    ensures p1.mimo.None? ==> MergeBody(g, p1).mimo == g.mimo
  {
  }
}
