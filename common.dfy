/** Option, the shape of a JavaScript value that may be `undefined` or `null`. */
module Wrappers {
  datatype Option<T> = None | Some(value: T)
}

/**
 * A JavaScript object whose values are read for their truthiness, such as a
 * `gifts` object (`{ "Fralda RN": true, "Fralda P": false, ... }`). The entries
 * are kept in the order `Object.entries` and `Object.keys` walk them, and an
 * object never holds the same key twice. For keys that do not look like array
 * indices, as the sizes' names do not, that order is insertion order.
 */
module JsObject {

  predicate DistinctKeys(e: seq<(string, bool)>) {
    forall i, j | 0 <= i < j < |e| :: e[i].0 != e[j].0
  }

  /** An object's entries, in insertion order. */
  type Gifts = e: seq<(string, bool)> | DistinctKeys(e)

  /** `Object.keys(o)` as a set. */
  function Keys(e: seq<(string, bool)>): set<string> {
    set i | 0 <= i < |e| :: e[i].0
  }

  /** The keys whose value is truthy. */
  function Selected(e: seq<(string, bool)>): set<string> {
    set i | 0 <= i < |e| && e[i].1 :: e[i].0
  }

  /** `!!o[k]`: a missing key reads as `undefined`, which is falsy. */
  predicate Truthy(e: Gifts, k: string) {
    k in Selected(e)
  }

  /** `Object.values(o).some(v => v)`. */
  predicate AnyTruthy(e: seq<(string, bool)>) {
    exists i | 0 <= i < |e| :: e[i].1
  }

  /** Walking one more entry adds that entry's key, when its value is truthy. */
  lemma SelectedStep(e: seq<(string, bool)>, n: nat)
    requires n < |e|
    ensures Selected(e[..n + 1]) == Selected(e[..n]) + (if e[n].1 then {e[n].0} else {})
    ensures Keys(e[..n + 1]) == Keys(e[..n]) + {e[n].0}
  {
    var a, b := e[..n], e[..n + 1];
    assert forall i | 0 <= i < n :: b[i] == a[i];
    assert b[n] == e[n];
  }

  /**
   * `{ ...o, [k]: v }`: an existing key keeps its place and takes the new
   * value, a new key goes last.
   */
  function Put(e: Gifts, k: string, v: bool): (r: Gifts)
    ensures Keys(r) == Keys(e) + {k}
    ensures Truthy(r, k) == v
    ensures forall k' | k' != k :: Truthy(r, k') == Truthy(e, k')
    ensures k in Keys(e) ==> |r| == |e| && forall i | 0 <= i < |e| :: r[i].0 == e[i].0
    ensures k !in Keys(e) ==> r == e + [(k, v)]
  {
    if k in Keys(e) then
      var r := seq(|e|, i requires 0 <= i < |e| => if e[i].0 == k then (k, v) else e[i]);
      assert forall i | 0 <= i < |r| :: r[i].0 == e[i].0;
      assert Keys(r) == Keys(e);
      var j :| 0 <= j < |e| && e[j].0 == k;
      assert r[j] == (k, v);
      assert v ==> k in Selected(r);
      assert forall k' | k' != k :: k' in Selected(r) <==> k' in Selected(e) by {
        forall k' | k' != k && k' in Selected(e) ensures k' in Selected(r) {
          var i :| 0 <= i < |e| && e[i].1 && e[i].0 == k';
          assert r[i] == e[i];
        }
      }
      r
    else
      var r := e + [(k, v)];
      assert r[|e|] == (k, v);
      assert forall i | 0 <= i < |e| :: r[i] == e[i];
      assert Selected(r) == Selected(e) + (if v then {k} else {});
      r
  }
}

/** The four gift sizes and the stock each of them starts with. */
module Catalog {
  import JsObject

  const RN := "Fralda RN"
  const P := "Fralda P"
  const M := "Fralda M"
  const G := "Fralda G"

  /** The sizes, in the order the client lists them. */
  const Sizes: seq<string> := [RN, P, M, G]

  /**
   * `MAX_GIFTS` of app.js, server.js and the client, and the `defaultData`
   * of api/estoque.js and api/server.js: the same literal everywhere.
   */
  const MaxGifts: map<string, int> := map[RN := 10, P := 20, M := 30, G := 30]

  /**
   * The fallback every reader applies to the stock node: what is stored when
   * the node exists (an empty map stands for a node that does not), the
   * defaults otherwise. `snapshot.exists() ? snapshot.val() : defaults` and
   * `snapshot.val() || MAX_GIFTS` both read this way.
   */
  function StoredOrDefault(stored: map<string, int>): (r: map<string, int>)
    ensures r != map[]
    ensures stored != map[] ==> r == stored
    ensures stored == map[] ==> r == MaxGifts
  {
    assert RN in MaxGifts;
    if stored != map[] then stored else MaxGifts
  }

  /** The sizes as an object with every flag off, the gifts of a new guest. */
  function NoGifts(): (r: JsObject.Gifts)
    ensures JsObject.Keys(r) == set k | k in Sizes
    ensures JsObject.Selected(r) == {}
  {
    var r := [(RN, false), (P, false), (M, false), (G, false)];
    assert JsObject.Keys(r) == {RN, P, M, G} by {
      assert r[0].0 == RN && r[1].0 == P && r[2].0 == M && r[3].0 == G;
    }
    r
  }
}

/** The HTTP request methods the handlers tell apart. */
module Http {
  /**
   * `Other` stands for any method besides the three named ones; no handler
   * reads which one it is, so it carries no name and cannot spell a named one.
   */
  datatype Verb = Get | Post | Options | Other
}

/** A guest, as the client keeps it and as the servers store it. */
module Guests {
  import opened Wrappers
  import opened JsObject

  /** A guest row of the client: every guest the client creates carries a `gifts` object. */
  datatype Guest = Guest(name: string, age: string, gifts: Gifts, mimo: string)

  /** The body of `POST /api/guests`, stored as is; `gifts` may be absent from it. */
  datatype GuestBody = GuestBody(name: string, age: string, gifts: Option<Gifts>, mimo: string)
}
