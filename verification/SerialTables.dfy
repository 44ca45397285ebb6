/** What the reader makes of the pairs of a table: each key holds the value that came last. */
module SerialTables {
  import Objects
  import opened Blobs
  import opened Seqs
  import opened Serial

  /** The pairs as they stand in the stream. */
  function RawPairs(bs: seq<Byte>, pos: nat, strs: seq<Text>, n: nat): (r: Res<seq<Entry>>)
    requires pos <= |bs|
    ensures r.Ok? ==> |r.value| == n
    decreases n
  {
    if n == 0 then Ok([], pos, strs)
    else
      var k :- Dec(bs, pos, strs);
      var x :- Dec(bs, k.pos, k.strs);
      var rest :- RawPairs(bs, x.pos, x.strs, n - 1);
      Ok([Entry(k.value, x.value)] + rest.value, rest.pos, rest.strs)
  }

  /** The value of the last pair with this key. */
  function LastOf(es: seq<Entry>, key: Value): (r: Objects.Option<Value>) {
    if es == [] then Objects.None
    else if LastOf(es[1..], key).Some? then LastOf(es[1..], key)
    else if es[0].key == key then Objects.Some(es[0].val) else Objects.None
  }

  /** What a table holds under a key. */
  function Held(es: seq<Entry>, key: Value): (r: Objects.Option<Value>) {
    if es == [] then Objects.None else if es[0].key == key then Objects.Some(es[0].val) else Held(es[1..], key)
  }

  function Keys(es: seq<Entry>): (ks: set<Value>) {
    if es == [] then {} else {es[0].key} + Keys(es[1..])
  }

  /** No primitive key twice. */
  predicate OneSlotEach(es: seq<Entry>) {
    es != [] ==> OneSlotEach(es[1..]) && (Primitive(es[0].key) ==> es[0].key !in Keys(es[1..]))
  }

  /** Storing sets its own key and no other. */
  lemma {:induction false} UpsertStores(table: seq<Entry>, key: Value, val: Value, k: Value)
    requires Primitive(k)
    ensures Held(Upsert(table, key, val), k) == if k == key then Objects.Some(val) else Held(table, k)
  {
    if table != [] {
      UpsertStores(table[1..], key, val, k);
    }
  }

  lemma {:induction false} UpsertKeys(table: seq<Entry>, key: Value, val: Value)
    ensures Keys(Upsert(table, key, val)) == Keys(table) + {key}
    ensures OneSlotEach(table) ==> OneSlotEach(Upsert(table, key, val))
  {
    if table != [] {
      UpsertKeys(table[1..], key, val);
    }
  }

  /** Reading a table succeeds where its pairs can be read, ends where they end, and leaves under every primitive key,
      once, the value of the last pair that had it. */
  lemma {:induction false} ReadTable(bs: seq<Byte>, pos: nat, strs: seq<Text>, n: nat, table: seq<Entry>, key: Value)
    requires pos <= |bs| && OneSlotEach(table) && Primitive(key)
    ensures var r, raw := DecPairs(bs, pos, strs, n, table), RawPairs(bs, pos, strs, n);
            && r.Ok? == raw.Ok?
            && (r.Ok? ==>
                  && r.pos == raw.pos && r.strs == raw.strs && OneSlotEach(r.value)
                  && Held(r.value, key) == if LastOf(raw.value, key).Some? then LastOf(raw.value, key)
                                           else Held(table, key))
    decreases n
  {
    hide Dec, OneSlotEach, Upsert;
    if n > 0 {
      var k := Dec(bs, pos, strs);
      if k.Ok? {
        var x := Dec(bs, k.pos, k.strs);
        if x.Ok? {
          UpsertKeys(table, k.value, x.value);
          UpsertStores(table, k.value, x.value, key);
          ReadTable(bs, x.pos, x.strs, n - 1, Upsert(table, k.value, x.value), key);
        }
      }
    }
  }
}
