/**
 * app.js: an Express app over the `guests` and `totals` nodes. It seeds
 * `totals` with the maximum counts when the node is absent, serves both nodes
 * with fallbacks, and on `POST /api/guests` stores the guest, then lowers by
 * one each selected size whose current total is positive, skipping the rest.
 */
module AppServer {
  import opened Wrappers
  import opened JsObject
  import opened Catalog
  import opened Guests

  datatype Reply = Reply(status: int, text: string)

  const GuestAndGifts := "Convidado e presente registrados"
  const NothingToUpdate := "Convidado adicionado (sem presentes para atualizar ou sem estoque)"
  const GuestAdded := "Convidado adicionado"

  /** The `updates` object of the route: each selected size with a positive current total, one lower. */
  function Decrements(current: map<string, int>, gifts: seq<(string, bool)>): (r: map<string, int>)
    ensures forall k | k in r :: k in Selected(gifts) && k in current && r[k] == current[k] - 1 >= 0
    ensures forall k | k in Selected(gifts) && k in current && current[k] > 0 :: k in r
  {
    map k | k in Selected(gifts) && k in current && current[k] > 0 :: current[k] - 1
  }

  /**
   * `update(totalsRef, updates)` when there is something to update: those
   * children change, the others stay. An existing node keeps its keys; an
   * absent one is created with the decremented sizes alone.
   */
  function Written(stored: map<string, int>, gifts: seq<(string, bool)>): (r: map<string, int>)
    ensures stored != map[] ==> r.Keys == stored.Keys
    ensures stored == map[] ==> forall k | k in r :: k in Selected(gifts) && k in MaxGifts && r[k] == MaxGifts[k] - 1
  {
    var d := Decrements(StoredOrDefault(stored), gifts);
    if d == map[] then stored else stored + d
  }

  /**
   * What a post does to `totals`: a selected size with a positive current
   * total (the stored one, or the maximum when `totals` is absent) goes down
   * by exactly one; every other stored size keeps its total; and a store
   * whose totals are all non-negative stays that way.
   */
  lemma WrittenEffect(stored: map<string, int>, gifts: seq<(string, bool)>)
    ensures var current, t := StoredOrDefault(stored), Written(stored, gifts);
      && (forall k | k in Selected(gifts) && k in current && current[k] > 0 :: k in t && t[k] == current[k] - 1)
      && (forall k | k in stored && !(k in Selected(gifts) && current[k] > 0) :: k in t && t[k] == stored[k])
      && (forall k | k in t :: k in stored || k in Selected(gifts))
      && ((forall k | k in stored :: stored[k] >= 0) ==> forall k | k in t :: t[k] >= 0)
  {
    var current := StoredOrDefault(stored);
    var d := Decrements(current, gifts);
    assert forall k | k in Selected(gifts) && k in current && current[k] > 0 :: k in d;
    assert forall k | k in MaxGifts :: MaxGifts[k] >= 0;
  }

  /**
   * The flaw of the fallback: with `totals` absent, a post that selects
   * "Fralda P" writes only that size, so the node then exists with one key
   * and the other sizes have no total at all.
   */
  lemma UnseededPostLeavesOneSize()
    ensures Written(map[], [(P, true)]) == map[P := 19]
  {
    var e := [(P, true)];
    assert e[0].0 == P && e[0].1;
    assert Selected(e) == {P};
    assert Decrements(MaxGifts, e) == map[P := 19];
  }

  /** One more entry adds its size to the decrements exactly when it is selected and positive. */
  lemma DecrementsStep(current: map<string, int>, gifts: seq<(string, bool)>, n: nat)
    requires n < |gifts|
    ensures var (k, v) := gifts[n];
      Decrements(current, gifts[..n + 1])
        == if v && k in current && current[k] > 0 then Decrements(current, gifts[..n])[k := current[k] - 1]
           else Decrements(current, gifts[..n])
  {
    SelectedStep(gifts, n);
  }

  /**
   * The `forEach` of the route over `Object.keys(gifts)`: collects the
   * decrements and whether there is any.
   */
  method CollectDecrements(current: map<string, int>, gifts: Gifts) returns (updates: map<string, int>, hasUpdate: bool)
    ensures updates == Decrements(current, gifts)
    ensures forall k | k in updates :: k in Selected(gifts) && k in current && updates[k] == current[k] - 1 >= 0
    ensures hasUpdate <==> updates != map[]
  {
    updates := map[];
    hasUpdate := false;
    var i := 0;
    while i < |gifts|
      invariant 0 <= i <= |gifts|
      invariant updates == Decrements(current, gifts[..i])
      invariant hasUpdate <==> updates != map[]
    {
      var (size, selected) := gifts[i];
      DecrementsStep(current, gifts, i);
      if selected && size in current && current[size] > 0 {
        updates := updates[size := current[size] - 1];
        assert size in updates;
        hasUpdate := true;
      }
      i := i + 1;
    }
    assert gifts[..i] == gifts;
  }

  /** The app's database: `guests` by id and `totals` by size; an empty map is an absent node. */
  class Server {
    var guests: map<int, GuestBody>
    var totals: map<string, int>

    constructor (guests: map<int, GuestBody>, totals: map<string, int>)
      ensures this.guests == guests && this.totals == totals
    {
      this.guests := guests;
      this.totals := totals;
    }

    /** The start-up listener: writes the maximum counts only when `totals` is absent. */
    method Init()
      modifies this`totals
      ensures old(totals) == map[] ==> totals == MaxGifts
      ensures old(totals) != map[] ==> totals == old(totals)
    {
      if totals == map[] {
        totals := MaxGifts;
      }
    }

    /** `GET /api/data`: the guests (`{}` when there are none) and the totals, or the maximum counts when there are none. */
    method GetData() returns (data: (map<int, GuestBody>, map<string, int>))
      ensures data.0 == guests
      ensures data.1 == StoredOrDefault(totals)
      ensures totals == map[] ==> data.1 == MaxGifts
    {
      data := (guests, if totals != map[] then totals else MaxGifts);
    }

    /**
     * `POST /api/guests` with `body` stored under the fresh id `id`: the
     * guest is written first, then the totals are read (with the same
     * fallback) and the decrements, if any, are written.
     */
    method PostGuest(body: GuestBody, id: int) returns (reply: Reply)
      modifies this
      ensures guests == old(guests)[id := body]
      ensures body.gifts.None? || body.gifts.value == [] ==> totals == old(totals) && reply == Reply(200, GuestAdded)
      ensures body.gifts.Some? && body.gifts.value != [] ==>
        && totals == Written(old(totals), body.gifts.value)
        && reply == Reply(200, if Decrements(StoredOrDefault(old(totals)), body.gifts.value) == map[]
                               then NothingToUpdate else GuestAndGifts)
    {
      guests := guests[id := body];
      if body.gifts.Some? && |body.gifts.value| > 0 {
        var current := if totals != map[] then totals else MaxGifts;
        var updates, hasUpdate := CollectDecrements(current, body.gifts.value);
        if hasUpdate {
          totals := totals + updates;
          reply := Reply(200, GuestAndGifts);
        } else {
          reply := Reply(200, NothingToUpdate);
        }
      } else {
        reply := Reply(200, GuestAdded);
      }
    }
  }
}
