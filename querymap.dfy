/**
 * `QueryMap`: the query pairs grouped by key. Each key that occurs maps to the
 * number of its bare occurrences (`key` with no `=`) and the list of its
 * values in input order. A missing query gives the empty map.
 */
module QueryMaps {
  import opened Wrappers
  import opened Text
  import Raw

  /** The per-key entry: bare count and values. */
  datatype Entry = Entry(bare: nat, values: seq<Bytes>)

  datatype QueryMap = QueryMap(entries: map<Bytes, Entry>)

  /** Reference definitions, one key at a time. */

  /** The keys of the pairs. */
  function Keys(pairs: seq<Raw.QueryPair>): set<Bytes>
  {
    set i | 0 <= i < |pairs| :: pairs[i].0
  }

  /** How many pairs are `k` with no value. */
  function BareCount(pairs: seq<Raw.QueryPair>, k: Bytes): nat
  {
    if |pairs| == 0 then 0
    else
      var last := pairs[|pairs| - 1];
      BareCount(pairs[..|pairs| - 1], k) + if last.0 == k && last.1.None? then 1 else 0
  }

  /** The values given to `k`, in order. */
  function ValuesOf(pairs: seq<Raw.QueryPair>, k: Bytes): seq<Bytes>
  {
    if |pairs| == 0 then []
    else
      var last := pairs[|pairs| - 1];
      ValuesOf(pairs[..|pairs| - 1], k) + if last.0 == k && last.1.Some? then [last.1.value] else []
  }

  /** The map `from_query_iter` builds. */
  function Build(query: Option<seq<Raw.QueryPair>>): QueryMap
  {
    match query
    case None => QueryMap(map[])
    case Some(pairs) => QueryMap(map k | k in Keys(pairs) :: Entry(BareCount(pairs, k), ValuesOf(pairs, k)))
  }

  /**
   * `from_query_iter`: for each pair, find or insert the key's entry, then
   * bump its bare count or push its value.
   */
  method FromQueryIter(query: Option<seq<Raw.QueryPair>>) returns (m: QueryMap)
    ensures m == Build(query)
  {
    var entries: map<Bytes, Entry> := map[];
    if query.None? {
      return QueryMap(entries);
    }
    var pairs := query.value;
    for i := 0 to |pairs|
      invariant entries.Keys == Keys(pairs[..i])
      invariant forall k | k in entries :: entries[k] == Entry(BareCount(pairs[..i], k), ValuesOf(pairs[..i], k))
    {
      var (key, value) := pairs[i];
      var entry := if key in entries then entries[key] else Entry(0, []);
      match value {
        case None => entry := entry.(bare := entry.bare + 1);
        case Some(v) => entry := entry.(values := entry.values + [v]);
      }
      entries := entries[key := entry];
      Extend(pairs, i);
    }
    assert pairs[..|pairs|] == pairs;
    m := QueryMap(entries);
  }

  /** What adding pair `i` does to the reference definitions. */
  lemma Extend(pairs: seq<Raw.QueryPair>, i: nat)
    requires i < |pairs|
    ensures Keys(pairs[..i + 1]) == Keys(pairs[..i]) + {pairs[i].0}
    ensures forall k ::
              BareCount(pairs[..i + 1], k) ==
              BareCount(pairs[..i], k) + if k == pairs[i].0 && pairs[i].1.None? then 1 else 0
    ensures forall k ::
              ValuesOf(pairs[..i + 1], k) ==
              ValuesOf(pairs[..i], k) + if k == pairs[i].0 && pairs[i].1.Some? then [pairs[i].1.value] else []
    ensures forall k | k !in Keys(pairs[..i]) :: BareCount(pairs[..i], k) == 0 && ValuesOf(pairs[..i], k) == []
  {
    var p := pairs[..i + 1];
    assert p[..i] == pairs[..i];
    forall k | k !in Keys(pairs[..i])
      ensures BareCount(pairs[..i], k) == 0 && ValuesOf(pairs[..i], k) == []
    {
      Absent(pairs[..i], k);
    }
  }

  /** A key that never occurs has no bare count and no values. */
  lemma {:induction false} Absent(pairs: seq<Raw.QueryPair>, k: Bytes)
    requires k !in Keys(pairs)
    ensures BareCount(pairs, k) == 0 && ValuesOf(pairs, k) == []
  {
    if |pairs| > 0 {
      var init := pairs[..|pairs| - 1];
      assert Keys(init) <= Keys(pairs) by {
        forall x | x in Keys(init) ensures x in Keys(pairs) {
          var j :| 0 <= j < |init| && init[j].0 == x;
          assert pairs[j].0 == x;
        }
      }
      Absent(init, k);
      assert pairs[|pairs| - 1].0 in Keys(pairs);
    }
  }

  /** `get_single`: the value of `name` when it was given exactly one, whatever its bare count. */
  function GetSingle(m: QueryMap, name: Bytes): Option<Bytes>
  {
    if name in m.entries && |m.entries[name].values| == 1 then Some(m.entries[name].values[0])
    else None
  }

  /** `contains`: whether `name` occurs at all. */
  predicate Contains(m: QueryMap, name: Bytes)
  {
    name in m.entries
  }

  // ---------------------------------------------------------------------------
  // Properties
  // ---------------------------------------------------------------------------

  /** A missing query string gives the empty map. */
  lemma NoQueryIsEmpty(name: Bytes)
    ensures !Contains(Build(None), name) && GetSingle(Build(None), name) == None
  {
  }

  /** `contains(k)` holds exactly when some pair, bare or valued, has key `k`. */
  lemma ContainsIffOccurs(query: Option<seq<Raw.QueryPair>>, k: Bytes)
    ensures Contains(Build(query), k) <==>
      query.Some? && exists i | 0 <= i < |query.value| :: query.value[i].0 == k
  {
  }

  /** The entry of a key holds its bare count and its values in input order. */
  lemma EntryOf(pairs: seq<Raw.QueryPair>, k: Bytes)
    requires k in Keys(pairs)
    ensures Build(Some(pairs)).entries[k] == Entry(BareCount(pairs, k), ValuesOf(pairs, k))
  {
  }

  /**
   * `get_single(k)` is `Some(v)` exactly when `k` was given the one value `v`;
   * bare occurrences do not matter, and none or several values give `None`.
   */
  lemma GetSingleIff(query: Option<seq<Raw.QueryPair>>, k: Bytes, v: Bytes)
    ensures GetSingle(Build(query), k) == Some(v) <==> query.Some? && ValuesOf(query.value, k) == [v]
  {
    if query.Some? && k !in Keys(query.value) {
      Absent(query.value, k);
    }
  }

  /** Pairs with other keys, added anywhere after, change nothing about `k`. */
  lemma {:induction false} OtherKeysIgnored(pairs: seq<Raw.QueryPair>, extra: seq<Raw.QueryPair>, k: Bytes)
    requires forall i | 0 <= i < |extra| :: extra[i].0 != k
    ensures BareCount(pairs + extra, k) == BareCount(pairs, k)
    ensures ValuesOf(pairs + extra, k) == ValuesOf(pairs, k)
    ensures k in Keys(pairs + extra) <==> k in Keys(pairs)
  {
    if |extra| > 0 {
      var init := extra[..|extra| - 1];
      assert (pairs + extra)[..|pairs + extra| - 1] == pairs + init;
      OtherKeysIgnored(pairs, init, k);
      if k in Keys(pairs + extra) {
        var j :| 0 <= j < |pairs + extra| && (pairs + extra)[j].0 == k;
        assert j < |pairs|;
        assert pairs[j].0 == k;
      }
    } else {
      assert pairs + extra == pairs;
    }
  }

  /** So `contains` and `get_single` on `k` see only the pairs that name `k`. */
  lemma LookupIgnoresOtherKeys(pairs: seq<Raw.QueryPair>, extra: seq<Raw.QueryPair>, k: Bytes)
    requires forall i | 0 <= i < |extra| :: extra[i].0 != k
    ensures Contains(Build(Some(pairs + extra)), k) == Contains(Build(Some(pairs)), k)
    ensures GetSingle(Build(Some(pairs + extra)), k) == GetSingle(Build(Some(pairs)), k)
  {
    OtherKeysIgnored(pairs, extra, k);
  }

  /** A key given by exactly one pair is present, and its single value, if that pair has one, is that value. */
  lemma SingleOccurrence(pairs: seq<Raw.QueryPair>, j: nat)
    requires j < |pairs|
    requires forall i | 0 <= i < |pairs| && i != j :: pairs[i].0 != pairs[j].0
    ensures Contains(Build(Some(pairs)), pairs[j].0)
    ensures pairs[j].1.Some? ==> GetSingle(Build(Some(pairs)), pairs[j].0) == pairs[j].1
  {
    var k := pairs[j].0;
    var before := pairs[..j];
    var upto := pairs[..j + 1];
    var after := pairs[j + 1..];
    assert pairs == upto + after;
    assert upto[..j] == before;
    forall i | 0 <= i < |before| ensures before[i].0 != k {
      assert before[i] == pairs[i];
    }
    Absent(before, k);
    assert ValuesOf(upto, k) == if pairs[j].1.Some? then [pairs[j].1.value] else [];
    forall i | 0 <= i < |after| ensures after[i].0 != k {
      assert after[i] == pairs[j + 1 + i];
    }
    OtherKeysIgnored(upto, after, k);
    assert k in Keys(pairs) by {
      assert pairs[j].0 == k;
    }
    if pairs[j].1.Some? {
      GetSingleIff(Some(pairs), k, pairs[j].1.value);
    }
  }
}
