/**
 * api/server.js: an Express app with two routes. `GET /api/estoque` returns
 * the stored stock or the defaults and never writes; `POST /api/reservar`
 * only records, per guest, which sizes were chosen, under a key with the
 * first space of the size turned into `_`, and never touches the stock.
 */
module ApiServer {
  import opened Wrappers
  import opened JsObject
  import opened Catalog
  import opened Text

  datatype Reply =
    | Stock(status: int, data: map<string, int>) // `res.json(data)`
    | Message(status: int, message: string)      // `{ message }`
    | Error(status: int, error: string)          // `{ error }`

  const EstoqueFailed := "Falha no servidor ao buscar estoque"
  const MissingGifts := "Faltando dados de presentes."
  const Registered := "Reservas registradas com sucesso."
  const ReserveFailed := "Falha ao registrar a reserva."

  /**
   * The key a size is recorded under: `tamanho.replace(' ', '_')`. It has the
   * same length, and the only character that can differ is a space, which
   * becomes `_`.
   */
  function PresentKey(size: string): (r: string)
    ensures |r| == |size|
    ensures forall i | 0 <= i < |size| && r[i] != size[i] :: size[i] == ' ' && r[i] == '_'
  {
    ReplaceFirstSpace(size)
  }

  /** The first path segment under `reservas`: the name, or `undefined` when the body has none. */
  function GuestKey(convidado: Option<string>): string {
    if convidado.Some? then convidado.value else "undefined"
  }

  /** The keys the loop sets to `true`: the selected sizes, each renamed. */
  function PresentKeys(gifts: seq<(string, bool)>): set<string> {
    set k | k in Selected(gifts) :: PresentKey(k)
  }

  /** The `updates` object the loop builds, with paths relative to `reservas/<convidado>`. */
  function Flags(gifts: seq<(string, bool)>): map<string, bool> {
    map k | k in PresentKeys(gifts) :: true
  }

  /**
   * What the route records for a guest: every selected catalogue size is
   * there as "Fralda_" plus its suffix, every key is the renaming of a
   * selected key, every value is `true`, and nothing selected records
   * nothing.
   */
  lemma FlagsRecordSelection(gifts: seq<(string, bool)>)
    ensures var r := Flags(gifts);
      && (forall s | s in Selected(gifts) && s in Sizes :: |s| > 7 && "Fralda_" + s[7..] in r)
      && (forall k | k in r :: r[k] && exists s | s in Selected(gifts) :: PresentKey(s) == k)
      && (Selected(gifts) == {} <==> r == map[])
  {
    forall s | s in Selected(gifts) && s in Sizes ensures |s| > 7 && "Fralda_" + s[7..] in Flags(gifts) {
      CatalogPresentKey(s);
    }
    if Selected(gifts) != {} {
      var s :| s in Selected(gifts);
      assert PresentKey(s) in Flags(gifts);
    }
  }

  /** A size named "Fralda <x>" is recorded under "Fralda_<x>". */
  lemma FraldaKey(x: string)
    requires ' ' !in x
    ensures PresentKey("Fralda " + x) == "Fralda_" + x
  {
    assert "Fralda " + x == "Fralda" + " " + x;
    assert "Fralda_" + x == "Fralda" + "_" + x;
    ReplaceAtFirstSpace("Fralda", x);
  }

  /** Each of the four sizes is recorded under its name with the space turned into `_`. */
  lemma CatalogPresentKey(size: string)
    requires size in Sizes
    ensures |size| > 7 && PresentKey(size) == "Fralda_" + size[7..]
  {
    if size == RN {
      FraldaKey("RN");
      assert "Fralda " + "RN" == RN;
    } else if size == P {
      FraldaKey("P");
      assert "Fralda " + "P" == P;
    } else if size == M {
      FraldaKey("M");
      assert "Fralda " + "M" == M;
    } else {
      FraldaKey("G");
      assert "Fralda " + "G" == G;
    }
  }

  /**
   * The `for` loop of the route: one `true` per selected size, under its
   * renamed key, and whether anything was selected at all.
   */
  method CollectFlags(entries: Gifts) returns (updates: map<string, bool>, isUpdated: bool)
    ensures updates == Flags(entries)
    ensures updates.Keys == PresentKeys(entries) && forall k | k in updates :: updates[k]
    ensures isUpdated <==> Selected(entries) != {}
  {
    updates := map[];
    isUpdated := false;
    var i := 0;
    while i < |entries|
      invariant 0 <= i <= |entries|
      invariant updates == Flags(entries[..i])
      invariant isUpdated == (Selected(entries[..i]) != {})
    {
      var (size, selected) := entries[i];
      SelectedStep(entries, i);
      if selected {
        updates := updates[PresentKey(size) := true];
        isUpdated := true;
      }
      i := i + 1;
    }
    assert entries[..i] == entries;
  }

  /** The database of api/server.js: `estoque` and `reservas`. */
  class Backend {
    var estoque: map<string, int>
    var reservas: map<string, map<string, bool>>

    constructor (estoque: map<string, int>, reservas: map<string, map<string, bool>>)
      ensures this.estoque == estoque && this.reservas == reservas
    {
      this.estoque := estoque;
      this.reservas := reservas;
    }

    /** `GET /api/estoque`; `fault` says whether the store read fails. */
    method GetEstoque(fault: bool) returns (reply: Reply)
      ensures fault ==> reply == Error(500, EstoqueFailed)
      ensures !fault ==> reply == Stock(200, StoredOrDefault(estoque))
      ensures !fault && estoque == map[] ==> reply.data == MaxGifts
    {
      if fault {
        return Error(500, EstoqueFailed);
      }
      reply := Stock(200, if estoque != map[] then estoque else MaxGifts);
    }

    /**
     * `POST /api/reservar` with body `{ gifts, convidado }`; `fault` says
     * whether a store call (the stock read or the update) fails, in which
     * case nothing is written. The frame leaves `estoque` out: the route
     * cannot change the stock.
     */
    method Reservar(gifts: Option<Gifts>, convidado: Option<string>, fault: bool) returns (reply: Reply)
      modifies this`reservas
      ensures gifts.None? ==> reply == Error(400, MissingGifts) && reservas == old(reservas)
      ensures gifts.Some? && fault ==> reply == Error(500, ReserveFailed) && reservas == old(reservas)
      ensures gifts.Some? && !fault ==> reply == Message(200, Registered)
      ensures gifts.Some? && !fault && Selected(gifts.value) == {} ==> reservas == old(reservas)
      ensures gifts.Some? && !fault && Selected(gifts.value) != {} ==>
        var who := GuestKey(convidado);
        && reservas == old(reservas)[who := (if who in old(reservas) then old(reservas)[who] else map[]) + Flags(gifts.value)]
      ensures estoque == old(estoque)
    {
      if gifts.None? {
        return Error(400, MissingGifts);
      }
      if fault {
        return Error(500, ReserveFailed);
      }
      var updates, isUpdated := CollectFlags(gifts.value);
      if isUpdated {
        var who := GuestKey(convidado);
        reservas := reservas[who := (if who in reservas then reservas[who] else map[]) + updates];
      }
      reply := Message(200, Registered);
    }
  }
}
