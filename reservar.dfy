/**
 * api/reservar.js: the serverless handler that reserves gifts for one guest.
 * It walks the guest's `gifts` object entry by entry; for each selected size
 * it reads `estoque/<size>`, refuses the whole request when that stock is
 * missing or not positive, and otherwise writes the stock back one lower.
 * The reservation records are collected on the way and written to
 * `reservas/<convidado>/<size>` only after the walk has finished, so a size
 * that runs out half-way leaves the decrements of the sizes before it in
 * place and records nothing.
 */
module Reservar {
  import opened Wrappers
  import opened JsObject
  import opened Http

  /** The record written at `reservas/<convidado>/<size>`. */
  datatype Record = Record(reservado: bool, quantidade: int, data: string)

  datatype Body =
    | NoBody                                      // `res.status(200).end()`
    | Error(error: string)                        // `{ error }`
    | Failure(error: string)                      // `{ success: false, error }`
    | Success(message: string, convidado: string) // `{ success: true, message, convidado }`

  datatype Reply = Reply(status: int, body: Body)

  const NotAllowed := "Método não permitido"
  const MissingData := "Faltando dados de presentes ou nome do convidado."
  const Registered := "Reservas registradas com sucesso."

  /** The message of the error the loop throws for a size without stock. */
  function OutOfStock(size: string): string {
    "Estoque insuficiente para " + size
  }

  /** `!gifts || !convidado` fails: an object is always truthy, an empty name is not. */
  predicate Requested(gifts: Option<Gifts>, convidado: Option<string>) {
    gifts.Some? && convidado.Some? && convidado.value != ""
  }

  /** The state of the loop: the stock as written so far, the records collected so far and the size it stopped on, if any. */
  datatype Run = Run(stock: map<string, int>, updates: map<string, Record>, stoppedAt: Option<string>)

  /** The loop over `Object.entries(gifts)`, one entry at a time. */
  function RunEntries(stock: map<string, int>, gifts: seq<(string, bool)>, timestamp: string): (r: Run)
    ensures r.stock.Keys == stock.Keys
  {
    if gifts == [] then Run(stock, map[], None)
    else
      var r := RunEntries(stock, gifts[..|gifts| - 1], timestamp);
      var (size, selected) := gifts[|gifts| - 1];
      if r.stoppedAt.Some? || !selected then r
      else if size !in r.stock || r.stock[size] <= 0 then r.(stoppedAt := Some(size))
      else Run(r.stock[size := r.stock[size] - 1], r.updates[size := Record(true, 1, timestamp)], None)
  }

  /**
   * `db.ref().update(updates)` with paths `reservas/<convidado>/<size>`: sets
   * those children and keeps every other one; nothing is written when there
   * is nothing to write.
   */
  function WriteRecords(reservas: map<string, map<string, Record>>, convidado: string, updates: map<string, Record>)
    : (r: map<string, map<string, Record>>)
    ensures updates == map[] ==> r == reservas
    ensures forall g | g in reservas && g != convidado :: g in r && r[g] == reservas[g]
    ensures updates != map[] ==> convidado in r && r[convidado].Keys == updates.Keys + (if convidado in reservas then reservas[convidado].Keys else {})
    ensures updates != map[] ==> forall s | s in updates :: r[convidado][s] == updates[s]
  {
    if updates == map[] then reservas
    else reservas[convidado := (if convidado in reservas then reservas[convidado] else map[]) + updates]
  }

  /**
   * The frame of that `update`: no guest appears but `convidado`, and only
   * when there is something to write; this guest's records for the sizes not
   * written keep their values.
   */
  lemma WriteRecordsFrame(reservas: map<string, map<string, Record>>, convidado: string, updates: map<string, Record>)
    ensures var r := WriteRecords(reservas, convidado, updates);
      && r.Keys == reservas.Keys + (if updates == map[] then {} else {convidado})
      && (updates != map[] && convidado in reservas ==>
            forall s | s in reservas[convidado] && s !in updates :: r[convidado][s] == reservas[convidado][s])
  {
  }

  /** Once the loop has stopped, the entries after that point change nothing. */
  lemma {:induction false} StoppedStays(stock: map<string, int>, gifts: seq<(string, bool)>, n: nat, timestamp: string)
    requires n <= |gifts|
    requires RunEntries(stock, gifts[..n], timestamp).stoppedAt.Some?
    ensures RunEntries(stock, gifts, timestamp) == RunEntries(stock, gifts[..n], timestamp)
    decreases |gifts| - n
  {
    if n < |gifts| {
      assert gifts[..n + 1][..n] == gifts[..n];
      StoppedStays(stock, gifts, n + 1, timestamp);
    } else {
      assert gifts[..n] == gifts;
    }
  }

  /**
   * What one call does to the stock, whether it succeeds or stops: every
   * recorded size was in stock with a positive count and went down by exactly
   * one, every other size kept its count, and no new key appears. On success
   * the recorded sizes are exactly the selected ones; on a stop, the size it
   * stopped on is selected and out of stock, and the sizes recorded are the
   * selected ones before it in entry order.
   */
  lemma {:induction false} RunEntriesEffect(stock: map<string, int>, gifts: seq<(string, bool)>, timestamp: string)
    requires DistinctKeys(gifts)
    ensures var r := RunEntries(stock, gifts, timestamp);
      && r.stock.Keys == stock.Keys
      && (forall k | k in stock :: r.stock[k] == if k in r.updates then stock[k] - 1 else stock[k])
      && (forall k | k in r.updates :: k in stock && stock[k] > 0 && r.updates[k] == Record(true, 1, timestamp))
      && r.updates.Keys <= Selected(gifts)
      && (r.stoppedAt.None? ==> r.updates.Keys == Selected(gifts))
      && (r.stoppedAt.Some? ==>
            var f := r.stoppedAt.value;
            && f !in r.updates && (f !in stock || stock[f] <= 0)
            && exists j | 0 <= j < |gifts| :: gifts[j] == (f, true) && r.updates.Keys == Selected(gifts[..j]))
  {
    if gifts != [] {
      var n := |gifts| - 1;
      var init := gifts[..n];
      assert DistinctKeys(init);
      RunEntriesEffect(stock, init, timestamp);
      SelectedStep(gifts, n);
      assert gifts[..n + 1] == gifts;
      var r' := RunEntries(stock, init, timestamp);
      var (size, selected) := gifts[n];
      assert forall i | 0 <= i < n :: init[i].0 != size by {
        forall i | 0 <= i < n ensures init[i].0 != size {
          assert init[i] == gifts[i];
        }
      }
      assert size !in Keys(init);
      assert size !in r'.updates by {
        assert Selected(init) <= Keys(init);
      }
      if r'.stoppedAt.Some? {
        var f := r'.stoppedAt.value;
        var j :| 0 <= j < |init| && init[j] == (f, true) && r'.updates.Keys == Selected(init[..j]);
        assert init[..j] == gifts[..j];
        assert gifts[j] == (f, true);
      } else if selected && (size !in r'.stock || r'.stock[size] <= 0) {
        assert gifts[n] == (size, true);
      }
    }
  }

  /** A call goes through exactly when every selected size is in stock with a positive count. */
  lemma SucceedsIffAllInStock(stock: map<string, int>, gifts: Gifts, timestamp: string)
    ensures RunEntries(stock, gifts, timestamp).stoppedAt.None?
        <==> forall k | k in Selected(gifts) :: k in stock && stock[k] > 0
  {
    RunEntriesEffect(stock, gifts, timestamp);
  }

  /** A single call never takes a size below zero. */
  lemma NeverBelowZero(stock: map<string, int>, gifts: Gifts, timestamp: string)
    ensures var r := RunEntries(stock, gifts, timestamp);
      && r.stock.Keys == stock.Keys
      && forall k | k in stock && stock[k] >= 0 :: r.stock[k] >= 0
  {
    RunEntriesEffect(stock, gifts, timestamp);
  }

  /**
   * The flaw of the sequential loop: with one "Fralda RN" and no "Fralda P"
   * left, asking for both takes the last "Fralda RN" and then stops, and the
   * record that would account for it is never written.
   */
  lemma PartialFailureLosesStock(timestamp: string)
    ensures var r := RunEntries(map["Fralda RN" := 1, "Fralda P" := 0], [("Fralda RN", true), ("Fralda P", true)], timestamp);
      && r.stoppedAt == Some("Fralda P")
      && r.stock == map["Fralda RN" := 0, "Fralda P" := 0]
  {
    var stock := map["Fralda RN" := 1, "Fralda P" := 0];
    var gifts := [("Fralda RN", true), ("Fralda P", true)];
    assert gifts[..1] == [("Fralda RN", true)];
    assert gifts[..1][..0] == [];
    assert RunEntries(stock, [], timestamp) == Run(stock, map[], None);
    var r1 := RunEntries(stock, gifts[..1], timestamp);
    assert r1.stock == stock["Fralda RN" := 0] && r1.stoppedAt.None?;
    assert r1.stock["Fralda P"] == 0;
  }

  /** The database of api/reservar.js: `estoque` and `reservas`. */
  class Database {
    var estoque: map<string, int>
    var reservas: map<string, map<string, Record>>

    constructor (estoque: map<string, int>, reservas: map<string, map<string, Record>>)
      ensures this.estoque == estoque && this.reservas == reservas
    {
      this.estoque := estoque;
      this.reservas := reservas;
    }

    /** The handler, for a request with method `verb` and body `{ gifts, convidado }`; `timestamp` is the ISO time the records carry. */
    method Handle(verb: Verb, gifts: Option<Gifts>, convidado: Option<string>, timestamp: string) returns (reply: Reply)
      modifies this
      ensures verb == Options ==> reply == Reply(200, NoBody)
      ensures verb != Options && verb != Post ==> reply == Reply(405, Error(NotAllowed))
      ensures verb == Post && !Requested(gifts, convidado) ==> reply == Reply(400, Failure(MissingData))
      ensures verb != Post || !Requested(gifts, convidado) ==> estoque == old(estoque) && reservas == old(reservas)
      ensures verb == Post && Requested(gifts, convidado) ==>
        var r := RunEntries(old(estoque), gifts.value, timestamp);
        && estoque == r.stock
        && (r.stoppedAt.Some? ==>
              reservas == old(reservas) && reply == Reply(500, Failure(OutOfStock(r.stoppedAt.value))))
        && (r.stoppedAt.None? ==>
              reservas == WriteRecords(old(reservas), convidado.value, r.updates)
              && reply == Reply(200, Success(Registered, convidado.value)))
      ensures estoque.Keys == old(estoque).Keys
      ensures forall k | k in old(estoque) && old(estoque)[k] >= 0 :: estoque[k] >= 0
      ensures reply.status == 200 ==> reply.body.NoBody? || reply.body.Success?
    {
      if verb == Options {
        return Reply(200, NoBody);
      }
      if verb != Post {
        return Reply(405, Error(NotAllowed));
      }
      if !Requested(gifts, convidado) {
        return Reply(400, Failure(MissingData));
      }
      var entries, who := gifts.value, convidado.value;
      var updates, stoppedAt := Walk(entries, timestamp);
      RunEntriesEffect(old(estoque), entries, timestamp);
      if stoppedAt.Some? {
        return Reply(500, Failure(OutOfStock(stoppedAt.value)));
      }
      if |updates.Keys| > 0 {
        reservas := WriteRecords(reservas, who, updates);
      }
      reply := Reply(200, Success(Registered, who));
    }

    /**
     * The `for` loop of the handler: reads, checks and writes back the stock
     * of each selected size and collects its record, and stops at the first
     * selected size whose stock is missing or not positive.
     */
    method Walk(entries: Gifts, timestamp: string) returns (updates: map<string, Record>, stoppedAt: Option<string>)
      modifies this`estoque
      ensures RunEntries(old(estoque), entries, timestamp) == Run(estoque, updates, stoppedAt)
    {
      updates := map[];
      var i := 0;
      while i < |entries|
        invariant 0 <= i <= |entries|
        invariant RunEntries(old(estoque), entries[..i], timestamp) == Run(estoque, updates, None)
      {
        var (size, selected) := entries[i];
        assert entries[..i + 1][..i] == entries[..i];
        if selected {
          if size !in estoque || estoque[size] <= 0 {
            StoppedStays(old(estoque), entries, i + 1, timestamp);
            return updates, Some(size);
          }
          estoque := estoque[size := estoque[size] - 1];
          updates := updates[size := Record(true, 1, timestamp)];
        }
        i := i + 1;
      }
      assert entries[..i] == entries;
      stoppedAt := None;
    }
  }
}
