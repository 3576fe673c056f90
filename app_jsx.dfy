/**
 * src/App.jsx: the check-in screen. Each guest row holds a `gifts` object; a
 * size is offered to a guest only while the stock the server reports exceeds
 * the number of guests on the list who already picked it. Confirming sends
 * one reservation request per guest with a gift, in list order, and stops at
 * the first one refused.
 */
module AppJsx {
  import opened Wrappers
  import opened JsObject
  import opened Text
  import opened Catalog
  import opened Guests
  import opened Checkin
  import opened Http
  import Reservar

  /** `!!g.gifts[k]`, counted as 0 or 1. */
  function Picks(g: Guest, k: string): nat {
    if Truthy(g.gifts, k) then 1 else 0
  }

  /** `totalsUsed[k]`: how many guests of the list picked size `k`. */
  function UsedCount(gs: seq<Guest>, k: string): (n: nat)
    ensures n <= |gs|
  {
    if gs == [] then 0 else UsedCount(gs[..|gs| - 1], k) + Picks(gs[|gs| - 1], k)
  }

  /** The positions of the guests that picked size `k`. */
  function Holders(gs: seq<Guest>, k: string): set<int> {
    set i | 0 <= i < |gs| && Truthy(gs[i].gifts, k)
  }

  /** The count is the number of guests holding the size. */
  lemma {:induction false} UsedCountIsHolders(gs: seq<Guest>, k: string)
    ensures UsedCount(gs, k) == |Holders(gs, k)|
  {
    if gs != [] {
      var n := |gs| - 1;
      var init := gs[..n];
      UsedCountIsHolders(init, k);
      assert Holders(gs, k) == Holders(init, k) + (if Truthy(gs[n].gifts, k) then {n} else {}) by {
        forall i | 0 <= i < n ensures gs[i] == init[i] {}
      }
    }
  }

  /** The count of a list made of two lists is the sum of their counts. */
  lemma {:induction false} UsedCountConcat(a: seq<Guest>, b: seq<Guest>, k: string)
    ensures UsedCount(a + b, k) == UsedCount(a, k) + UsedCount(b, k)
  {
    if b != [] {
      var n := |b| - 1;
      assert (a + b)[..|a + b| - 1] == a + b[..n];
      UsedCountConcat(a, b[..n], k);
    } else {
      assert a + b == a;
    }
  }

  /** Replacing one guest changes each count by what that guest gave and takes. */
  lemma UsedCountReplace(gs: seq<Guest>, j: nat, g: Guest, k: string)
    requires j < |gs|
    ensures UsedCount(gs[j := g], k) == UsedCount(gs, k) - Picks(gs[j], k) + Picks(g, k)
  {
    assert gs == gs[..j] + [gs[j]] + gs[j + 1..];
    assert gs[j := g] == gs[..j] + [g] + gs[j + 1..];
    UsedCountConcat(gs[..j] + [gs[j]], gs[j + 1..], k);
    UsedCountConcat(gs[..j] + [g], gs[j + 1..], k);
    UsedCountConcat(gs[..j], [gs[j]], k);
    UsedCountConcat(gs[..j], [g], k);
    assert [gs[j]][..0] == [] && [g][..0] == [];
  }

  /** The `used` object of `totalsUsed`: the four sizes and their counts. */
  function UsedMap(gs: seq<Guest>): map<string, int> {
    map k | k in Sizes :: UsedCount(gs, k)
  }

  /** The inner `forEach` over the keys of `used` for one guest. */
  method CountGuest(used: map<string, int>, g: Guest) returns (r: map<string, int>)
    requires forall k | k in Sizes :: k in used
    ensures r.Keys == used.Keys
    ensures forall k | k in used :: r[k] == if k in Sizes then used[k] + Picks(g, k) else used[k]
  {
    r := used;
    var j := 0;
    while j < |Sizes|
      invariant 0 <= j <= |Sizes|
      invariant r.Keys == used.Keys
      invariant forall k | k in used :: r[k] == if k in Sizes[..j] then used[k] + Picks(g, k) else used[k]
    {
      var k := Sizes[j];
      assert Sizes[..j + 1] == Sizes[..j] + [k];
      assert k !in Sizes[..j];
      if Truthy(g.gifts, k) {
        r := r[k := r[k] + 1];
      }
      j := j + 1;
    }
    assert Sizes[..j] == Sizes;
  }

  /** `totalsUsed`: the nested `forEach` over the guests and the sizes. */
  method TotalsUsed(gs: seq<Guest>) returns (used: map<string, int>)
    ensures used == UsedMap(gs)
    ensures forall k | k in used :: 0 <= used[k] <= |gs| && used[k] == |Holders(gs, k)|
  {
    used := map[RN := 0, P := 0, M := 0, G := 0];
    var i := 0;
    while i < |gs|
      invariant 0 <= i <= |gs|
      invariant used.Keys == set k | k in Sizes
      invariant forall k | k in Sizes :: used[k] == UsedCount(gs[..i], k)
    {
      assert gs[..i + 1][..i] == gs[..i];
      used := CountGuest(used, gs[i]);
      i := i + 1;
    }
    assert gs[..i] == gs;
    forall k | k in used ensures used[k] == |Holders(gs, k)| {
      UsedCountIsHolders(gs, k);
    }
  }

  /** `totals[type] || 0`. */
  function TotalLeft(totals: map<string, int>, k: string): int {
    if k in totals then totals[k] else 0
  }

  /**
   * `isBlockedFor(size, guestIndex)`: a missing guest is blocked; a guest
   * who holds the size never is; otherwise the size is blocked once the
   * guests holding it reach the stock reported. A key outside the four sizes
   * has no count, and comparing with `undefined` is false.
   */
  function IsBlockedFor(gs: seq<Guest>, totals: map<string, int>, size: string, index: int): (b: bool)
    ensures !(0 <= index < |gs|) ==> b
    ensures 0 <= index < |gs| && Truthy(gs[index].gifts, size) ==> !b
    ensures 0 <= index < |gs| && size in Sizes ==>
      (b <==> TotalLeft(totals, size) <= |Holders(gs, size)| && !Truthy(gs[index].gifts, size))
    ensures 0 <= index < |gs| && size !in Sizes ==> !b
  {
    if !(0 <= index < |gs|) then true
    else if size !in Sizes then false
    else
      UsedCountIsHolders(gs, size);
      TotalLeft(totals, size) <= UsedCount(gs, size) && !Truthy(gs[index].gifts, size)
  }

  /** `availableGifts`: the stock minus the count, per size; a size the stock lacks gives `NaN`, here `None`. */
  function AvailableGifts(totals: map<string, int>, gs: seq<Guest>): (a: map<string, Option<int>>)
    ensures a.Keys == set k | k in Sizes
    ensures forall k | k in a :: a[k].Some? <==> k in totals
    ensures forall k | k in a && k in totals :: a[k].value == totals[k] - |Holders(gs, k)|
  {
    forall k | k in Sizes ensures UsedCount(gs, k) == |Holders(gs, k)| {
      UsedCountIsHolders(gs, k);
    }
    map k | k in Sizes :: if k in totals then Some(totals[k] - UsedCount(gs, k)) else None
  }

  /** The counter shown beside a box and the blocking rule agree, for a guest who has not picked the size. */
  lemma BlockedIffNoneAvailable(gs: seq<Guest>, totals: map<string, int>, index: int, k: string)
    requires 0 <= index < |gs| && k in Sizes && !Truthy(gs[index].gifts, k)
    ensures var a := AvailableGifts(totals, gs)[k];
      IsBlockedFor(gs, totals, k, index) <==> a.None? || a.value <= 0
  {
    UsedCountIsHolders(gs, k);
  }

  /** No size is held by more guests than the stock reported. */
  predicate WithinStock(gs: seq<Guest>, totals: map<string, int>) {
    forall k | k in Sizes :: UsedCount(gs, k) <= TotalLeft(totals, k)
  }

  /** `patch.age && (parseInt(patch.age) > 120 || parseInt(patch.age) < 0)`. */
  predicate AgeRejected(age: string) {
    var n := ParseInt(age);
    age != "" && n.Some? && (n.value > 120 || n.value < 0)
  }

  /** The age box keeps only digits, so a typed age is refused exactly when it is above 120. */
  lemma TypedAgeRejected(age: string)
    requires forall i | 0 <= i < |age| :: IsDigit(age[i])
    ensures AgeRejected(age) <==> age != "" && DecimalValue(age) > 120
  {
    if age != "" {
      ParseDigits(age);
    }
  }

  predicate PatchRejected(p: Patch) {
    p.age.Some? && AgeRejected(p.age.value)
  }

  /**
   * `AddGuestRow.handleAdd` with the `onAdd` it is given: a blank name or an
   * age out of range is refused; otherwise the new row holds the trimmed
   * name and age, every size unpicked and no mimo.
   */
  function HandleAdd(name: string, age: string): (r: Option<Guest>)
    ensures r.None? <==> IsBlank(name) || AgeRejected(age)
    ensures r.Some? ==> r.value.name == Trim(name) && !IsBlank(r.value.name)
    ensures r.Some? ==> r.value.age == Trim(age) && r.value.mimo == ""
    ensures r.Some? ==> Keys(r.value.gifts) == (set k | k in Sizes) && Selected(r.value.gifts) == {}
  {
    TrimIdempotent(name);
    if IsBlank(name) then None
    else if AgeRejected(age) then None
    else Some(Guest(Trim(name), if age != "" then Trim(age) else "", NoGifts(), ""))
  }

  /** A new row picks nothing, so adding it never breaks the stock bound. */
  lemma AddKeepsWithinStock(gs: seq<Guest>, totals: map<string, int>, name: string, age: string)
    requires WithinStock(gs, totals) && HandleAdd(name, age).Some?
    ensures WithinStock(gs + [HandleAdd(name, age).value], totals)
  {
    var g := HandleAdd(name, age).value;
    forall k | k in Sizes ensures UsedCount(gs + [g], k) <= TotalLeft(totals, k) {
      UsedCountConcat(gs, [g], k);
      assert [g][..0] == [];
    }
  }

  /** Dropping a guest can only lower the counts. */
  lemma RemoveKeepsWithinStock(gs: seq<Guest>, totals: map<string, int>, i: nat)
    requires WithinStock(gs, totals) && i < |gs|
    ensures WithinStock(gs[..i] + gs[i + 1..], totals)
  {
    forall k | k in Sizes ensures UsedCount(gs[..i] + gs[i + 1..], k) <= TotalLeft(totals, k) {
      assert gs == gs[..i] + ([gs[i]] + gs[i + 1..]);
      UsedCountConcat(gs[..i], [gs[i]] + gs[i + 1..], k);
      UsedCountConcat([gs[i]], gs[i + 1..], k);
      UsedCountConcat(gs[..i], gs[i + 1..], k);
    }
  }

  /**
   * `GiftsEditor.toggle(size)` for the guest at `index`: a blocked size the
   * guest has not picked is left alone; otherwise exactly that flag flips
   * and everything else stays.
   */
  function Toggled(gs: seq<Guest>, totals: map<string, int>, index: int, size: string): (r: seq<Guest>)
    requires 0 <= index < |gs|
    ensures |r| == |gs| && forall j | 0 <= j < |gs| && j != index :: r[j] == gs[j]
    ensures IsBlockedFor(gs, totals, size, index) ==> r == gs
    ensures !IsBlockedFor(gs, totals, size, index) ==>
      && Truthy(r[index].gifts, size) == !Truthy(gs[index].gifts, size)
      && (forall k | k != size :: Truthy(r[index].gifts, k) == Truthy(gs[index].gifts, k))
      && r[index] == gs[index].(gifts := r[index].gifts)
  {
    var g := gs[index];
    if IsBlockedFor(gs, totals, size, index) && !Truthy(g.gifts, size) then gs
    else gs[index := Merge(g, Patch(None, None, Some(Put(g.gifts, size, !Truthy(g.gifts, size))), None))]
  }

  /** Toggling never lets a size be held by more guests than the stock reported. */
  lemma ToggleKeepsWithinStock(gs: seq<Guest>, totals: map<string, int>, index: int, size: string)
    requires 0 <= index < |gs| && WithinStock(gs, totals)
    ensures WithinStock(Toggled(gs, totals, index, size), totals)
  {
    var r := Toggled(gs, totals, index, size);
    if r != gs {
      forall k | k in Sizes ensures UsedCount(r, k) <= TotalLeft(totals, k) {
        assert r == gs[index := r[index]];
        UsedCountReplace(gs, index, r[index], k);
      }
    }
  }

  /** The positions of the guests with at least one gift, in list order: those a confirmation sends a request for. */
  function RequestIndices(gs: seq<Guest>): seq<nat> {
    if gs == [] then []
    else RequestIndices(gs[..|gs| - 1]) + (if AnyTruthy(gs[|gs| - 1].gifts) then [|gs| - 1] else [])
  }

  /** Requests go in list order, one for each guest with a gift and for no one else. */
  lemma {:induction false} RequestIndicesSpec(gs: seq<Guest>)
    ensures var r := RequestIndices(gs);
      && (forall j, l | 0 <= j < l < |r| :: r[j] < r[l])
      && (forall i :: i in r <==> 0 <= i < |gs| && AnyTruthy(gs[i].gifts))
  {
    if gs != [] {
      var n := |gs| - 1;
      var init := gs[..n];
      RequestIndicesSpec(init);
      forall i | 0 <= i < n ensures gs[i] == init[i] {}
      var r0 := RequestIndices(init);
      assert forall j | 0 <= j < |r0| :: r0[j] < n by {
        forall j | 0 <= j < |r0| ensures r0[j] < n {
          assert r0[j] in r0;
        }
      }
    }
  }

  /** `res.ok && result.success`. */
  predicate Accepted(reply: Reservar.Reply) {
    200 <= reply.status < 300 && reply.body.Success?
  }

  datatype Outcome = Rejected(reason: Rejection) | Failed(at: nat, reply: Reservar.Reply) | Sent

  /**
   * The handler's store while the confirmation goes on, the positions a
   * request was made for, and `Sent` until a request is refused.
   */
  datatype Sending = Sending(
    estoque: map<string, int>,
    reservas: map<string, map<string, Reservar.Record>>,
    sent: seq<nat>,
    outcome: Outcome)

  /**
   * The reservations of a confirmation, guest by guest in list order: a guest
   * with no gift is skipped; the request of any other guest is answered 400
   * when the name is empty, and otherwise the handler's walk runs on the
   * stock as the previous requests left it. A stop is a 500 that keeps its
   * decrements and ends the confirmation; a success writes the guest's
   * records. After the first refusal nothing more is sent. The handler reads
   * its clock once per request; `stamps[n]` is the time it reads for the
   * request of the guest at position `n`.
   */
  function Sends(estoque: map<string, int>, reservas: map<string, map<string, Reservar.Record>>,
                 gs: seq<Guest>, stamps: seq<string>): Sending
    requires |gs| <= |stamps|
  {
    if gs == [] then Sending(estoque, reservas, [], Sent)
    else
      var n := |gs| - 1;
      var s := Sends(estoque, reservas, gs[..n], stamps);
      var g := gs[n];
      if s.outcome.Failed? || !AnyTruthy(g.gifts) then s
      else if g.name == "" then
        s.(sent := s.sent + [n], outcome := Failed(n, Reservar.Reply(400, Reservar.Failure(Reservar.MissingData))))
      else
        var r := Reservar.RunEntries(s.estoque, g.gifts, stamps[n]);
        if r.stoppedAt.Some? then
          Sending(r.stock, s.reservas, s.sent + [n],
                  Failed(n, Reservar.Reply(500, Reservar.Failure(Reservar.OutOfStock(r.stoppedAt.value)))))
        else Sending(r.stock, Reservar.WriteRecords(s.reservas, g.name, r.updates), s.sent + [n], Sent)
  }

  /** Once a request has been refused, the guests after it change nothing. */
  lemma {:induction false} FailedStays(estoque: map<string, int>, reservas: map<string, map<string, Reservar.Record>>,
                                       gs: seq<Guest>, n: nat, stamps: seq<string>)
    requires |gs| <= |stamps|
    requires n <= |gs|
    requires Sends(estoque, reservas, gs[..n], stamps).outcome.Failed?
    ensures Sends(estoque, reservas, gs, stamps) == Sends(estoque, reservas, gs[..n], stamps)
    decreases |gs| - n
  {
    if n < |gs| {
      assert gs[..n + 1][..n] == gs[..n];
      FailedStays(estoque, reservas, gs, n + 1, stamps);
    } else {
      assert gs[..n] == gs;
    }
  }

  /**
   * Where a confirmation ends: `Sent` after a request for every guest with a
   * gift, or `Failed` at a position where the guests before it ended `Sent`
   * and nothing after it mattered.
   */
  lemma {:induction false} SendsEnds(estoque: map<string, int>, reservas: map<string, map<string, Reservar.Record>>,
                                     gs: seq<Guest>, stamps: seq<string>)
    requires |gs| <= |stamps|
    ensures var s := Sends(estoque, reservas, gs, stamps);
      && (s.outcome.Sent? || s.outcome.Failed?)
      && (s.outcome.Sent? ==> s.sent == RequestIndices(gs))
      && (s.outcome.Failed? ==>
            && s.outcome.at < |gs|
            && Sends(estoque, reservas, gs[..s.outcome.at + 1], stamps) == s
            && Sends(estoque, reservas, gs[..s.outcome.at], stamps).outcome.Sent?)
  {
    if gs != [] {
      var n := |gs| - 1;
      SendsEnds(estoque, reservas, gs[..n], stamps);
      var s := Sends(estoque, reservas, gs[..n], stamps);
      if s.outcome.Failed? {
        assert Sends(estoque, reservas, gs, stamps) == s;
        var at := s.outcome.at;
        assert gs[..n][..at + 1] == gs[..at + 1] && gs[..n][..at] == gs[..at];
      } else {
        SendsSentStep(estoque, reservas, gs, stamps);
      }
    }
  }

  /** One more guest after an accepted prefix: either one more request in list order, or a failure right there. */
  lemma SendsSentStep(estoque: map<string, int>, reservas: map<string, map<string, Reservar.Record>>,
                      gs: seq<Guest>, stamps: seq<string>)
    requires gs != [] && |gs| <= |stamps|
    requires var s0 := Sends(estoque, reservas, gs[..|gs| - 1], stamps);
      s0.outcome.Sent? && s0.sent == RequestIndices(gs[..|gs| - 1])
    ensures var s := Sends(estoque, reservas, gs, stamps);
      && (s.outcome.Sent? || s.outcome.Failed?)
      && (s.outcome.Sent? ==> s.sent == RequestIndices(gs))
      && (s.outcome.Failed? ==> s.outcome.at == |gs| - 1 && gs[..s.outcome.at + 1] == gs)
  {
    assert gs[..|gs|] == gs;
  }

  /**
   * The order of a confirmation: it ends `Sent` after a request for every
   * guest with a gift, or `Failed` at the first refused request, every
   * earlier one having been accepted; the refused reply is a 400 only for an
   * empty name and otherwise a 500.
   */
  lemma SendsOrder(estoque: map<string, int>, reservas: map<string, map<string, Reservar.Record>>,
                   gs: seq<Guest>, stamps: seq<string>)
    requires |gs| <= |stamps|
    ensures var s := Sends(estoque, reservas, gs, stamps);
      && (s.outcome.Sent? || s.outcome.Failed?)
      && (s.outcome.Sent? ==> s.sent == RequestIndices(gs))
      && (s.outcome.Failed? ==>
            var at := s.outcome.at;
            && at < |gs| && AnyTruthy(gs[at].gifts)
            && s.sent == RequestIndices(gs[..at + 1]) && s.sent[|s.sent| - 1] == at
            && Sends(estoque, reservas, gs[..at], stamps).outcome.Sent?
            && !Accepted(s.outcome.reply)
            && (s.outcome.reply.status == 400 <==> gs[at].name == "")
            && (s.outcome.reply.status == 400 || s.outcome.reply.status == 500))
  {
    SendsEnds(estoque, reservas, gs, stamps);
    var s := Sends(estoque, reservas, gs, stamps);
    if s.outcome.Failed? {
      var at := s.outcome.at;
      SendsEnds(estoque, reservas, gs[..at], stamps);
      SendsFailStep(estoque, reservas, gs, stamps, at);
      var head := gs[..at + 1];
      assert head[..at] == gs[..at] && head[at] == gs[at];
    }
  }

  /** The request that fails right after an accepted prefix: its guest has a gift, and the reply is a 400 or a 500. */
  lemma SendsFailStep(estoque: map<string, int>, reservas: map<string, map<string, Reservar.Record>>,
                      gs: seq<Guest>, stamps: seq<string>, n: nat)
    requires n < |gs| <= |stamps|
    requires Sends(estoque, reservas, gs[..n], stamps).outcome.Sent?
    requires Sends(estoque, reservas, gs[..n + 1], stamps).outcome.Failed?
    ensures var s0, s := Sends(estoque, reservas, gs[..n], stamps), Sends(estoque, reservas, gs[..n + 1], stamps);
      && s.outcome.at == n && AnyTruthy(gs[n].gifts)
      && s.sent == s0.sent + [n]
      && !Accepted(s.outcome.reply)
      && (s.outcome.reply.status == 400 <==> gs[n].name == "")
      && (s.outcome.reply.status == 400 || s.outcome.reply.status == 500)
  {
    var head := gs[..n + 1];
    assert head[..n] == gs[..n] && head[n] == gs[n];
  }

  /** One more guest takes no record away. */
  lemma SendsStepGrows(estoque: map<string, int>, reservas: map<string, map<string, Reservar.Record>>,
                       gs: seq<Guest>, stamps: seq<string>)
    requires |gs| <= |stamps|
    requires gs != []
    ensures var s0, s := Sends(estoque, reservas, gs[..|gs| - 1], stamps), Sends(estoque, reservas, gs, stamps);
      forall c | c in s0.reservas :: c in s.reservas && s0.reservas[c].Keys <= s.reservas[c].Keys
  {
  }

  /** Nothing a confirmation does takes a record away: every guest recorded before keeps every size it had. */
  lemma {:induction false} SendsKeepsRecords(estoque: map<string, int>, reservas: map<string, map<string, Reservar.Record>>,
                                             gs: seq<Guest>, stamps: seq<string>)
    requires |gs| <= |stamps|
    ensures var s := Sends(estoque, reservas, gs, stamps);
      forall c | c in reservas :: c in s.reservas && reservas[c].Keys <= s.reservas[c].Keys
  {
    if gs != [] {
      SendsKeepsRecords(estoque, reservas, gs[..|gs| - 1], stamps);
      SendsStepGrows(estoque, reservas, gs, stamps);
    }
  }

  /** Every guest whose request was accepted has each size it picked recorded under its name. */
  lemma {:induction false} SendsRecordsAccepted(estoque: map<string, int>, reservas: map<string, map<string, Reservar.Record>>,
                                                gs: seq<Guest>, stamps: seq<string>)
    requires |gs| <= |stamps|
    ensures var s := Sends(estoque, reservas, gs, stamps);
      forall i | i in s.sent && 0 <= i < |gs| && !(s.outcome.Failed? && s.outcome.at == i) ::
        gs[i].name in s.reservas && Selected(gs[i].gifts) <= s.reservas[gs[i].name].Keys
  {
    if gs != [] {
      var n := |gs| - 1;
      var init := gs[..n];
      SendsRecordsAccepted(estoque, reservas, init, stamps);
      SendsStepGrows(estoque, reservas, gs, stamps);
      var s0, s := Sends(estoque, reservas, init, stamps), Sends(estoque, reservas, gs, stamps);
      assert forall i | i in s0.sent :: i < n by {
        SendsOrder(estoque, reservas, init, stamps);
        RequestIndicesSpec(init);
        if s0.outcome.Failed? {
          RequestIndicesSpec(init[..s0.outcome.at + 1]);
        }
      }
      if s != s0 {
        var g := gs[n];
        assert s.sent == s0.sent + [n] && !s0.outcome.Failed?;
        forall i | i in s.sent && 0 <= i < |gs| && !(s.outcome.Failed? && s.outcome.at == i)
          ensures gs[i].name in s.reservas && Selected(gs[i].gifts) <= s.reservas[gs[i].name].Keys
        {
          if i == n {
            var r := Reservar.RunEntries(s0.estoque, g.gifts, stamps[n]);
            Reservar.RunEntriesEffect(s0.estoque, g.gifts, stamps[n]);
            assert Selected(g.gifts) != {} by {
              var j :| 0 <= j < |g.gifts| && g.gifts[j].1;
              assert g.gifts[j].0 in Selected(g.gifts);
            }
          } else {
            assert i in s0.sent && init[i] == gs[i];
          }
        }
      }
    }
  }

  /** A confirmation keeps every stock key and never takes a non-negative stock below zero. */
  lemma {:induction false} SendsKeepsStock(estoque: map<string, int>, reservas: map<string, map<string, Reservar.Record>>,
                                           gs: seq<Guest>, stamps: seq<string>)
    requires |gs| <= |stamps|
    ensures var s := Sends(estoque, reservas, gs, stamps);
      && s.estoque.Keys == estoque.Keys
      && forall k | k in estoque && estoque[k] >= 0 :: s.estoque[k] >= 0
  {
    if gs != [] {
      var n := |gs| - 1;
      SendsKeepsStock(estoque, reservas, gs[..n], stamps);
      var s := Sends(estoque, reservas, gs[..n], stamps);
      Reservar.NeverBelowZero(s.estoque, gs[n].gifts, stamps[n]);
    }
  }

  /** The state of the screen: the guest list and the stock last fetched. */
  class Invitation {
    var guests: seq<Guest>
    var totals: map<string, int>

    constructor (guests: seq<Guest>, totals: map<string, int>)
      ensures this.guests == guests && this.totals == totals
    {
      this.guests := guests;
      this.totals := totals;
    }

    /** `updateGuest(index, patch)`: an age out of range leaves the list alone; otherwise the patch is spread over that one guest. */
    method UpdateGuest(index: int, patch: Patch)
      requires 0 <= index < |guests|
      modifies this`guests
      ensures PatchRejected(patch) ==> guests == old(guests)
      ensures !PatchRejected(patch) ==> guests == old(guests)[index := Merge(old(guests)[index], patch)]
    {
      if PatchRejected(patch) {
        return;
      }
      guests := guests[index := Merge(guests[index], patch)];
    }

    /** `removeGuest(i)`. */
    method RemoveGuest(i: int)
      modifies this`guests
      ensures 0 <= i < |old(guests)| ==> guests == old(guests)[..i] + old(guests)[i + 1..]
      ensures !(0 <= i < |old(guests)|) ==> guests == old(guests)
    {
      guests := DropIndex(guests, i);
    }

    /** The add row's save button: appends the new guest, unless it is refused. */
    method AddGuest(name: string, age: string) returns (added: bool)
      modifies this`guests
      ensures added <==> HandleAdd(name, age).Some?
      ensures added ==> guests == old(guests) + [HandleAdd(name, age).value]
      ensures !added ==> guests == old(guests)
    {
      var g := HandleAdd(name, age);
      added := g.Some?;
      if added {
        guests := guests + [g.value];
      }
    }

    /** `GiftsEditor.toggle(size)` on the guest at `index`, through `updateGuest`. */
    method Toggle(index: int, size: string)
      requires 0 <= index < |guests|
      modifies this`guests
      ensures guests == Toggled(old(guests), totals, index, size)
    {
      var g := guests[index];
      if IsBlockedFor(guests, totals, size, index) && !Truthy(g.gifts, size) {
        return;
      }
      UpdateGuest(index, Patch(None, None, Some(Put(g.gifts, size, !Truthy(g.gifts, size))), None));
    }

    /**
     * `confirmAllAndSend` against the reservation handler: the list is
     * checked first and nothing is sent when it fails; then the requests go
     * out as `Sends` describes, and the list is cleared only when every one
     * was accepted. A list that passes has no empty name, so a refused
     * request is always a 500.
     */
    method ConfirmAllAndSend(server: Reservar.Database, stamps: seq<string>) returns (outcome: Outcome, sent: seq<nat>)
      requires |guests| <= |stamps|
      modifies this`guests, server
      ensures Validate(old(guests)).Some? ==>
        && outcome == Rejected(Validate(old(guests)).value) && sent == []
        && guests == old(guests)
        && server.estoque == old(server.estoque) && server.reservas == old(server.reservas)
      ensures Validate(old(guests)).None? ==>
        var s := Sends(old(server.estoque), old(server.reservas), old(guests), stamps);
        && outcome == s.outcome && sent == s.sent
        && server.estoque == s.estoque && server.reservas == s.reservas
        && (outcome.Failed? ==> outcome.reply.status == 500)
      ensures outcome.Sent? ==> guests == []
      ensures !outcome.Sent? ==> guests == old(guests)
    {
      var rejection := Validate(guests);
      if rejection.Some? {
        return Rejected(rejection.value), [];
      }
      ValidNamesAreNonEmpty(guests);
      SendsOrder(server.estoque, server.reservas, guests, stamps);
      outcome, sent := SendAll(server, guests, stamps);
      if outcome.Sent? {
        guests := [];
      }
    }
  }

  /**
   * The `for` loop of `confirmAllAndSend`: one `POST /api/reservar` with
   * `{ gifts, convidado }` per guest with a gift, in list order, stopping at
   * the first reply that is not a success. The request for the guest at
   * position `i` is handled at time `stamps[i]`.
   */
  method SendAll(server: Reservar.Database, gs: seq<Guest>, stamps: seq<string>) returns (outcome: Outcome, sent: seq<nat>)
    requires |gs| <= |stamps|
    modifies server
    ensures Sends(old(server.estoque), old(server.reservas), gs, stamps)
      == Sending(server.estoque, server.reservas, sent, outcome)
  {
    sent := [];
    var i := 0;
    while i < |gs|
      invariant 0 <= i <= |gs|
      invariant Sends(old(server.estoque), old(server.reservas), gs[..i], stamps)
        == Sending(server.estoque, server.reservas, sent, Sent)
    {
      var g := gs[i];
      assert gs[..i + 1][..i] == gs[..i];
      if AnyTruthy(g.gifts) {
        var reply := server.Handle(Post, Some(g.gifts), Some(g.name), stamps[i]);
        sent := sent + [i];
        if !Accepted(reply) {
          FailedStays(old(server.estoque), old(server.reservas), gs, i + 1, stamps);
          return Failed(i, reply), sent;
        }
      }
      i := i + 1;
    }
    assert gs[..i] == gs;
    outcome := Sent;
  }
}
