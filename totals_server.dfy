/**
 * server.js: the stand-alone Express server. Its `POST /api/guests` does not
 * read the stored totals at all: it recomputes them from the maximum counts,
 * one lower for each size this one guest selected, and writes them over the
 * stored ones. A listener keeps the `totals` node seeded with the maximum
 * counts whenever it is empty.
 */
module TotalsServer {
  import opened Wrappers
  import opened JsObject
  import opened Catalog
  import opened Guests

  /**
   * What the route answers: a status and text, or a synchronous throw inside
   * the handler, which Express answers with its default 500 page.
   */
  datatype Reply = Reply(status: int, text: string) | Thrown

  const GuestAdded := "Convidado adicionado"

  /** The sum of the counts of `m` over `keys`. */
  function SumOver(keys: seq<string>, m: map<string, int>): int
    requires forall i | 0 <= i < |keys| :: keys[i] in m
  {
    if keys == [] then 0 else SumOver(keys[..|keys| - 1], m) + m[keys[|keys| - 1]]
  }

  /** `TOTAL_GIFTS`: the maximum counts summed over the sizes, 90 gifts in all. */
  function TotalGifts(): (n: int)
    ensures n == MaxGifts[RN] + MaxGifts[P] + MaxGifts[M] + MaxGifts[G]
    ensures n == 90
  {
    var s := Sizes;
    assert s[..3][..2] == s[..2] && s[..2][..1] == s[..1] && s[..1][..0] == [];
    assert s[..3][2] == M && s[..2][1] == P && s[..1][0] == RN;
    assert SumOver(s[..1], MaxGifts) == MaxGifts[RN];
    assert SumOver(s[..2], MaxGifts) == MaxGifts[RN] + MaxGifts[P];
    assert SumOver(s[..3], MaxGifts) == MaxGifts[RN] + MaxGifts[P] + MaxGifts[M];
    SumOver(s, MaxGifts)
  }

  /**
   * `newTotals` of the route: the maximum counts, each selected size one
   * lower. A selected key outside the catalogue makes `undefined - 1`, that
   * is `NaN`, which the database refuses: such an object has no value here.
   */
  predicate AllKnown(gifts: seq<(string, bool)>) {
    Selected(gifts) <= MaxGifts.Keys
  }

  function NewTotals(gifts: seq<(string, bool)>): map<string, int> {
    map k | k in MaxGifts :: if k in Selected(gifts) then MaxGifts[k] - 1 else MaxGifts[k]
  }

  /** The loop over `Object.keys(gifts)` on a copy of the maximum counts. */
  method ComputeTotals(gifts: Gifts) returns (newTotals: map<string, int>, nan: bool)
    ensures nan <==> !AllKnown(gifts)
    ensures !nan ==> newTotals == NewTotals(gifts)
  {
    newTotals := MaxGifts;
    nan := false;
    var i := 0;
    while i < |gifts|
      invariant 0 <= i <= |gifts|
      invariant nan <==> !AllKnown(gifts[..i])
      invariant !nan ==> newTotals == NewTotals(gifts[..i])
    {
      var (size, selected) := gifts[i];
      SelectedStep(gifts, i);
      if selected {
        if size in newTotals && !nan {
          newTotals := newTotals[size := newTotals[size] - 1];
        } else {
          nan := true;
        }
      }
      i := i + 1;
    }
    assert gifts[..i] == gifts;
  }

  /**
   * Every catalogue size is written, and its total depends only on whether
   * this guest selected it: each total is the maximum or one below it.
   */
  lemma NewTotalsBounds(gifts: seq<(string, bool)>)
    ensures NewTotals(gifts).Keys == MaxGifts.Keys
    ensures forall k | k in MaxGifts ::
      NewTotals(gifts)[k] == MaxGifts[k] - 1 <==> k in Selected(gifts)
    ensures forall k | k in MaxGifts :: MaxGifts[k] - 1 <= NewTotals(gifts)[k] <= MaxGifts[k]
  {
  }

  /**
   * The totals written forget every earlier guest: whatever was stored, the
   * catalogue sizes read the same after a post with the same gifts, and a
   * second such post changes nothing more.
   */
  lemma PostForgetsHistory(before1: map<string, int>, before2: map<string, int>, gifts: seq<(string, bool)>)
    ensures forall k | k in MaxGifts :: (before1 + NewTotals(gifts))[k] == (before2 + NewTotals(gifts))[k]
    ensures (before1 + NewTotals(gifts)) + NewTotals(gifts) == before1 + NewTotals(gifts)
  {
  }

  /** The database of server.js: `guests` by id and `totals` by size; an empty map is an absent node. */
  class Server {
    var guests: map<int, GuestBody>
    var totals: map<string, int>

    constructor (guests: map<int, GuestBody>, totals: map<string, int>)
      ensures this.guests == guests && this.totals == totals
    {
      this.guests := guests;
      this.totals := totals;
    }

    /** The listener on `totals`: whenever the node is empty it writes the maximum counts. */
    method OnTotals()
      modifies this`totals
      ensures totals == StoredOrDefault(old(totals))
    {
      if totals == map[] {
        totals := MaxGifts;
      }
    }

    /** `GET /api/data`: the guests (`{}` when there are none) and the totals, or the maximum counts when there are none. */
    method GetData() returns (data: (map<int, GuestBody>, map<string, int>))
      ensures data.0 == guests
      ensures data.1 == StoredOrDefault(totals)
    {
      data := (guests, if totals != map[] then totals else MaxGifts);
    }

    /**
     * `POST /api/guests` with `body`, stored under the fresh id `id`: when
     * `gifts` is there the recomputed totals are written over the stored
     * ones, then the guest is written.
     */
    method PostGuest(body: GuestBody, id: int) returns (reply: Reply)
      modifies this
      ensures body.gifts.Some? && !AllKnown(body.gifts.value) ==>
        reply == Thrown && guests == old(guests) && totals == old(totals)
      ensures body.gifts.None? || AllKnown(body.gifts.value) ==>
        && reply == Reply(200, GuestAdded)
        && guests == old(guests)[id := body]
        && totals == if body.gifts.None? then old(totals) else old(totals) + NewTotals(body.gifts.value)
    {
      if body.gifts.Some? {
        var newTotals, nan := ComputeTotals(body.gifts.value);
        if nan {
          return Thrown;
        }
        totals := totals + newTotals;
      }
      guests := guests[id := body];
      reply := Reply(200, GuestAdded);
    }
  }

  /**
   * The flaw of recomputing: after one guest takes a "Fralda RN" and a second
   * takes a "Fralda P", the stored "Fralda RN" total is back at its maximum.
   */
  lemma SecondGuestRestoresFirstGift(stored: map<string, int>)
    ensures var t := (stored + NewTotals([(RN, true)])) + NewTotals([(P, true)]);
      t[RN] == MaxGifts[RN] && t[P] == MaxGifts[P] - 1
  {
    var e := [(P, true)];
    assert e[0].0 == P && e[0].1;
    assert Selected(e) == {P};
  }
}
