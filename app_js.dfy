/**
 * src/App.js: the earlier client. Its guests come back from the server, so a
 * guest may have no `gifts` object; every edit posts the edited guest to
 * `POST /api/guests` of app.js; toggling a gift checks no stock; confirming
 * only validates the list before the message is built.
 */
module AppJs {
  import opened Wrappers
  import opened JsObject
  import opened Guests
  import opened Checkin
  import opened Catalog
  import AppServer

  /** A guest as the checks read it: `g.gifts || {}`. */
  function AsGuest(b: GuestBody): Guest {
    Guest(b.name, b.age, if b.gifts.Some? then b.gifts.value else [], b.mimo)
  }

  /** An adult whose gifts are missing or all unpicked. */
  predicate MissingAdultGiftBody(b: GuestBody) {
    IsAdult(b.age) && !(b.gifts.Some? && AnyTruthy(b.gifts.value))
  }

  /**
   * The checks of `confirmAllAndSend`: an empty list, a blank name, or an
   * adult without a picked gift (a missing `gifts` counting as none) refuses
   * the confirmation.
   */
  function ConfirmChecks(gs: seq<GuestBody>): (r: Option<Rejection>)
    ensures r == None <==>
      gs != [] && forall i | 0 <= i < |gs| :: !IsBlank(gs[i].name) && !MissingAdultGiftBody(gs[i])
    ensures r == Some(NoGuests) <==> gs == []
    ensures r == Some(BlankName) <==> gs != [] && exists i | 0 <= i < |gs| :: IsBlank(gs[i].name)
    ensures r == Some(AdultWithoutGift) <==>
      && gs != []
      && (forall i | 0 <= i < |gs| :: !IsBlank(gs[i].name))
      && exists i | 0 <= i < |gs| :: MissingAdultGiftBody(gs[i])
  {
    var view := seq(|gs|, i requires 0 <= i < |gs| => AsGuest(gs[i]));
    assert forall i | 0 <= i < |gs| ::
      (view[i].name == gs[i].name && (MissingAdultGift(view[i]) <==> MissingAdultGiftBody(gs[i])));
    Validate(view)
  }

  /** The state of the screen: the guest list as last fetched and edited. */
  class Invitation {
    var guests: seq<GuestBody>

    constructor (guests: seq<GuestBody>)
      ensures this.guests == guests
    {
      this.guests := guests;
    }

    /**
     * `updateGuest(index, patch)`: the patch is spread over that one guest,
     * with no check on the age, and the edited guest is posted to `server`
     * as a new guest under the fresh id `id`. The reply is not read.
     */
    method UpdateGuest(index: int, patch: Patch, server: AppServer.Server, id: int) returns (posted: GuestBody)
      requires 0 <= index < |guests|
      modifies this`guests, server
      ensures guests == old(guests)[index := MergeBody(old(guests)[index], patch)]
      ensures posted == guests[index]
      ensures server.guests == old(server.guests)[id := posted]
      ensures posted.gifts.None? || posted.gifts.value == [] ==> server.totals == old(server.totals)
      ensures posted.gifts.Some? && posted.gifts.value != [] ==>
        server.totals == AppServer.Written(old(server.totals), posted.gifts.value)
    {
      guests := guests[index := MergeBody(guests[index], patch)];
      posted := guests[index];
      var _ := server.PostGuest(posted, id);
    }

    /** `removeGuest(i)`: local only, nothing is sent. */
    method RemoveGuest(i: int)
      modifies this`guests
      ensures 0 <= i < |old(guests)| ==> guests == old(guests)[..i] + old(guests)[i + 1..]
      ensures !(0 <= i < |old(guests)|) ==> guests == old(guests)
    {
      guests := DropIndex(guests, i);
    }

    /**
     * `GiftsEditor.toggle(type)`, with `size` for `type`: flips that one
     * flag, whatever the stock, and posts the guest. Reading a flag of a
     * guest without `gifts` throws, and then nothing changes.
     */
    method Toggle(index: int, size: string, server: AppServer.Server, id: int)
      requires 0 <= index < |guests|
      modifies this`guests, server
      ensures |guests| == |old(guests)|
      ensures old(guests)[index].gifts.None? ==>
        guests == old(guests) && server.guests == old(server.guests) && server.totals == old(server.totals)
      ensures old(guests)[index].gifts.Some? ==>
        var before, after := old(guests)[index].gifts.value, guests[index].gifts;
        && (forall j | 0 <= j < |guests| && j != index :: guests[j] == old(guests)[j])
        && after.Some?
        && Truthy(after.value, size) == !Truthy(before, size)
        && (forall k | k != size :: Truthy(after.value, k) == Truthy(before, k))
        && guests[index] == old(guests)[index].(gifts := after)
        && server.guests == old(server.guests)[id := guests[index]]
        && server.totals == AppServer.Written(old(server.totals), after.value)
    {
      var g := guests[index];
      if g.gifts.None? {
        return;
      }
      var gifts := g.gifts.value;
      var _ := UpdateGuest(index, Patch(None, None, Some(Put(gifts, size, !Truthy(gifts, size))), None), server, id);
    }
  }

  /**
   * The flaw of posting every edit: a guest who picks "Fralda RN" and then
   * has any other field edited is posted twice with that size picked, and
   * while at least two RN are left each post takes one, so one guest's pick
   * costs two.
   */
  lemma EditAfterPickTakesTwo(stored: map<string, int>)
    requires RN in StoredOrDefault(stored) && StoredOrDefault(stored)[RN] >= 2
    ensures var twice := AppServer.Written(AppServer.Written(stored, [(RN, true)]), [(RN, true)]);
      RN in twice && twice[RN] == StoredOrDefault(stored)[RN] - 2
  {
    var e := [(RN, true)];
    assert e[0].0 == RN && e[0].1;
    assert RN in Selected(e);
    AppServer.WrittenEffect(stored, e);
    var once := AppServer.Written(stored, e);
    assert StoredOrDefault(once) == once;
    AppServer.WrittenEffect(once, e);
  }
}
