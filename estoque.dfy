/**
 * api/estoque.js: the serverless handler that returns the stock, seeding the
 * `estoque` node with the default counts the first time it is read.
 */
module Estoque {
  import opened Wrappers
  import opened Http
  import opened Catalog

  datatype Reply =
    | Stock(status: int, data: map<string, int>)                 // `res.status(200).json(data)`
    | Error(status: int, error: string, details: Option<string>) // `{ error }` or `{ error, details }`

  const NotAllowed := "Método não permitido"
  const ReadFailed := "Falha ao buscar estoque"

  /** The database of api/estoque.js: only the `estoque` node. */
  class Store {
    var estoque: map<string, int>

    constructor (estoque: map<string, int>)
      ensures this.estoque == estoque
    {
      this.estoque := estoque;
    }

    /**
     * The handler, for a request with method `verb`. `fault` is the message
     * of the error the store raises, if it raises one (on the read, or on the
     * seeding write); nothing is written then.
     */
    method Handle(verb: Verb, fault: Option<string>) returns (reply: Reply)
      modifies this
      ensures verb != Get ==> reply == Error(405, NotAllowed, None) && estoque == old(estoque)
      ensures verb == Get && fault.Some? ==> reply == Error(500, ReadFailed, fault) && estoque == old(estoque)
      ensures verb == Get && fault.None? ==>
        reply == Stock(200, StoredOrDefault(old(estoque))) && estoque == StoredOrDefault(old(estoque))
      ensures old(estoque) != map[] ==> estoque == old(estoque)
    {
      if verb != Get {
        return Error(405, NotAllowed, None);
      }
      if fault.Some? {
        return Error(500, ReadFailed, fault);
      }
      var data: map<string, int>;
      if estoque != map[] {
        data := estoque;
      } else {
        data := MaxGifts;
        estoque := MaxGifts;
      }
      reply := Stock(200, data);
    }
  }

  /**
   * Seeding happens once: whatever the store held, after one successful read
   * the node exists, and a second read returns the same map without writing.
   */
  lemma SecondReadChangesNothing(stored: map<string, int>)
    ensures var seeded := StoredOrDefault(stored);
      && seeded != map[]
      && StoredOrDefault(seeded) == seeded
      && (stored == map[] ==> seeded == MaxGifts)
  {
  }
}
