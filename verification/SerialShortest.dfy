/** The writer chooses the shortest form the reader accepts. */
module SerialShortest {
  import opened Blobs
  import opened Seqs
  import opened Serial

  /** The type a first byte stands for: TP_NULL to TP_TABLE. */
  function TypeOf(v: Value): (t: nat)
    requires !v.Opaque?
  {
    match v
    case Null => 0
    case Bool(_) => 1
    case Int(_) => 2
    case Float(_) => 3
    case Str(_) => 4
    case Array(_) => 5
    case Table(_) => 6
  }

  /** What the reader asserts about a first byte (lines 472 and 477). */
  predicate Asserted(first: Byte) {
    (first / 16 == 0 ==> first % 16 == 1) && (first / 16 == 1 ==> first % 16 <= 1)
  }

  /** The first byte of every value has its type and keeps the reader's assertions. */
  lemma FirstByte(v: Value, strs: seq<Text>)
    requires !v.Opaque?
    ensures var bs := Enc(v, strs).0; |bs| > 0 && bs[0] / 16 == TypeOf(v) && Asserted(bs[0])
  {
    hide EncAll, EncPairs, LE;
  }

  // ---------- single values ----------

  /** The reader takes the type from the first byte. */
  lemma FirstByteRead(bs: seq<Byte>, pos: nat, strs: seq<Text>)
    requires pos <= |bs| && Dec(bs, pos, strs).Ok?
    ensures !Dec(bs, pos, strs).value.Opaque? && bs[pos] / 16 == TypeOf(Dec(bs, pos, strs).value)
  {
    hide DecAll, DecPairs;
  }

  lemma IntShortest(bs: seq<Byte>, pos: nat, strs: seq<Text>, i: Int64)
    requires pos <= |bs| && Dec(bs, pos, strs).Ok? && Dec(bs, pos, strs).value == Int(i)
    ensures |EncInt(i)| <= Dec(bs, pos, strs).pos - pos
  {
    hide DecAll, DecPairs, DecStr, DecFloat, LE;
    Widths();
    var v := bs[pos] % 16;
    FirstByteRead(bs, pos, strs);
    if 4 <= v <= 7 {
      var w := if v == 4 then 1 else if v == 5 then 2 else if v == 6 then 4 else 8;
      FromLEBound(bs[pos + 1..pos + 1 + w]);
    }
  }

  lemma FloatShortest(bs: seq<Byte>, pos: nat, strs: seq<Text>, f: Word32)
    requires pos <= |bs| && Dec(bs, pos, strs).Ok? && Dec(bs, pos, strs).value == Float(f)
    ensures |EncFloat(f)| <= Dec(bs, pos, strs).pos - pos
  {
    hide DecAll, DecPairs, DecStr, DecInt, LE;
    FirstByteRead(bs, pos, strs);
  }

  /** A string that was not written before takes no more bytes than any reading of it. */
  lemma StrShortest(bs: seq<Byte>, pos: nat, strs: seq<Text>, s: Text)
    requires pos <= |bs| && Dec(bs, pos, strs).Ok? && Dec(bs, pos, strs).value == Str(s) && s !in strs
    ensures |EncStr(s, strs).0| <= Dec(bs, pos, strs).pos - pos
  {
    hide DecAll, DecPairs, DecFloat, DecInt, LE;
    Widths();
    var v := bs[pos] % 16;
    FirstByteRead(bs, pos, strs);
    if 0 < v < 4 {
      var w := if v == 1 then 1 else if v == 2 then 2 else 4;
      FromLEBound(bs[pos + 1..pos + 1 + w]);
    }
  }

  /** A string that was written takes no more bytes than any reading that adds no string to the list. */
  lemma RefShortest(bs: seq<Byte>, pos: nat, strs: seq<Text>, s: Text)
    requires pos <= |bs| && Dec(bs, pos, strs).Ok? && Dec(bs, pos, strs).value == Str(s) && s in strs
    requires Dec(bs, pos, strs).strs == strs && Distinct(strs)
    ensures |EncStr(s, strs).0| <= Dec(bs, pos, strs).pos - pos
  {
    hide DecAll, DecPairs, DecFloat, DecInt, LE;
    Widths();
    var v := bs[pos] % 16;
    FirstByteRead(bs, pos, strs);
    if v >= 4 {
      var w := if v == 4 then 1 else if v == 5 then 2 else 4;
      FromLEBound(bs[pos + 1..pos + 1 + w]);
      var ix := FromLE(bs[pos + 1..pos + 1 + w]);
      assert strs[ix] == s && strs[IndexOf(strs, s)] == s;
    }
  }

  lemma SizeShortest(tag: Byte, bs: seq<Byte>, pos: nat, strs: seq<Text>, v: nat, m: nat)
    requires pos <= |bs| && DecSize(bs, pos, strs, v).Ok? && m <= DecSize(bs, pos, strs, v).value && tag + 2 < 256
    ensures |EncSize(tag, m)| <= 1 + DecSize(bs, pos, strs, v).pos - pos
  {
    hide LE;
    Widths();
    if v > 0 {
      var w := if v == 1 then 1 else 4;
      FromLEBound(bs[pos..pos + w]);
    }
  }

  // ---------- trees without strings ----------

  ghost predicate NoText(v: Value) {
    match v
    case Str(_) => false
    case Array(items) => forall x :: x in items ==> NoText(x)
    case Table(entries) => forall e :: e in entries ==> NoText(e.key) && NoText(e.val)
    case _ => true
  }

  /** Their bytes do not depend on the strings written before. */
  lemma {:induction false} TextFree(v: Value, strs: seq<Text>)
    requires NoText(v)
    ensures Enc(v, strs) == (Enc(v, []).0, strs)
    decreases v, 1
  {
    match v
    case Array(items) =>
      AllTextFree(items, strs);
      AllTextFree(items, []);
    case Table(entries) =>
      PairsTextFree(entries, strs);
      PairsTextFree(entries, []);
    case _ =>
  }

  /** The bytes a value without strings takes; 0 for the others. */
  ghost function Cost(v: Value): (n: nat) {
    if NoText(v) then |Enc(v, []).0| else 0
  }

  ghost function CostAll(vs: seq<Value>): (n: nat) {
    if vs == [] then 0 else Cost(vs[0]) + CostAll(vs[1..])
  }

  ghost function CostPairs(es: seq<Entry>): (n: nat) {
    if es == [] then 0 else Cost(es[0].key) + Cost(es[0].val) + CostPairs(es[1..])
  }

  lemma {:induction false} AllTextFree(vs: seq<Value>, strs: seq<Text>)
    requires forall x :: x in vs ==> NoText(x)
    ensures EncAll(vs, strs).1 == strs && EncAll(vs, strs).0 == EncAll(vs, []).0 && |EncAll(vs, []).0| == CostAll(vs)
    decreases vs, 0
  {
    if vs != [] {
      TextFree(vs[0], strs);
      TextFree(vs[0], []);
      AllTextFree(vs[1..], strs);
    }
  }

  lemma {:induction false} PairsTextFree(es: seq<Entry>, strs: seq<Text>)
    requires forall e :: e in es ==> NoText(e.key) && NoText(e.val)
    ensures EncPairs(es, strs).1 == strs && EncPairs(es, strs).0 == EncPairs(es, []).0
    ensures |EncPairs(es, []).0| == CostPairs(es)
    decreases es, 0
  {
    if es != [] {
      EntryTextFree(es[0], strs);
      EntryTextFree(es[0], []);
      PairsTextFree(es[1..], strs);
    }
  }

  lemma {:induction false} EntryTextFree(e: Entry, strs: seq<Text>)
    requires NoText(e.key) && NoText(e.val)
    ensures EncEntry(e, strs) == (EncEntry(e, []).0, strs) && |EncEntry(e, []).0| == Cost(e.key) + Cost(e.val)
    decreases e, 2
  {
    TextFree(e.key, strs);
    TextFree(e.key, []);
    TextFree(e.val, strs);
    TextFree(e.val, []);
  }

  /** No bytes that the reader takes for a tree without strings are fewer than the writer's. */
  lemma {:induction false} Shortest(bs: seq<Byte>, pos: nat, strs: seq<Text>)
    requires pos <= |bs| && Dec(bs, pos, strs).Ok?
    ensures Cost(Dec(bs, pos, strs).value) <= Dec(bs, pos, strs).pos - pos
    decreases |bs| - pos, 0
  {
    var x := Dec(bs, pos, strs);
    FirstByteRead(bs, pos, strs);
    match x.value
    case Int(i) => IntShortest(bs, pos, strs, i);
    case Float(f) => FloatShortest(bs, pos, strs, f);
    case Array(items) =>
      var n := DecSize(bs, pos + 1, strs, bs[pos] % 16);
      ShortestAll(bs, n.pos, strs, n.value);
      SizeShortest(0x50, bs, pos + 1, strs, bs[pos] % 16, |items|);
      if NoText(x.value) { AllTextFree(items, []); }
    case Table(entries) =>
      var n := DecSize(bs, pos + 1, strs, bs[pos] % 16);
      ShortestPairs(bs, n.pos, strs, n.value, []);
      SizeShortest(0x60, bs, pos + 1, strs, bs[pos] % 16, |entries|);
      if NoText(x.value) { PairsTextFree(entries, []); }
    case _ =>
  }

  lemma {:induction false} ShortestAll(bs: seq<Byte>, pos: nat, strs: seq<Text>, n: nat)
    requires pos <= |bs| && DecAll(bs, pos, strs, n).Ok?
    ensures CostAll(DecAll(bs, pos, strs, n).value) <= DecAll(bs, pos, strs, n).pos - pos
    decreases |bs| - pos, n + 1
  {
    hide Cost, Dec;
    if n > 0 {
      var x := Dec(bs, pos, strs);
      Shortest(bs, pos, strs);
      ShortestAll(bs, x.pos, x.strs, n - 1);
    }
  }

  lemma {:induction false} ShortestPairs(bs: seq<Byte>, pos: nat, strs: seq<Text>, n: nat, table: seq<Entry>)
    requires pos <= |bs| && DecPairs(bs, pos, strs, n, table).Ok?
    ensures var r := DecPairs(bs, pos, strs, n, table); CostPairs(r.value) <= CostPairs(table) + r.pos - pos
    decreases |bs| - pos, n + 1
  {
    hide Cost, Dec;
    if n > 0 {
      var k := Dec(bs, pos, strs);
      var x := Dec(bs, k.pos, k.strs);
      Shortest(bs, pos, strs);
      Shortest(bs, k.pos, k.strs);
      UpsertCost(table, k.value, x.value);
      ShortestPairs(bs, x.pos, x.strs, n - 1, Upsert(table, k.value, x.value));
    }
  }

  lemma {:induction false} UpsertCost(table: seq<Entry>, key: Value, val: Value)
    ensures CostPairs(Upsert(table, key, val)) <= CostPairs(table) + Cost(key) + Cost(val)
  {
    hide Cost;
    if table != [] {
      UpsertCost(table[1..], key, val);
    }
  }

  /** For every tree without strings, every stream that is read as that tree is at least as long as the written one. */
  lemma WrittenIsShortest(v: Value, bs: seq<Byte>, strs: seq<Text>, end: nat, left: seq<Text>)
    requires NoText(v) && Dec(bs, 0, strs) == Ok(v, end, left)
    ensures |Enc(v, strs).0| <= end <= |bs|
  {
    Shortest(bs, 0, strs);
    TextFree(v, strs);
  }
}
