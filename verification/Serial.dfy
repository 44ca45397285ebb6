/** The object serializer's byte format: what the writer produces for a value tree, what the reader
    makes of bytes, and that the two undo each other. */
module Serial {
  import opened Blobs
  import opened Seqs

  type Int64 = i: int | -0x8000_0000_0000_0000 <= i < 0x8000_0000_0000_0000
  type Word32 = w: int | 0 <= w < 0x1_0000_0000
  type Text = seq<Byte>

  /** A value tree; floats are IEEE single bit patterns, `Opaque` is any type the format has no tag for. */
  datatype Value =
    | Null
    | Bool(b: bool)
    | Int(i: Int64)
    | Float(bits: Word32)
    | Str(s: Text)
    | Array(items: seq<Value>)
    | Table(entries: seq<Entry>)
    | Opaque

  datatype Entry = Entry(key: Value, val: Value)

  const MAX_DEPTH: nat := 200
  const MAX_OBJECT_SIZE: nat := 80 * 1024 * 1024
  const START_MARKER: Byte := 0xEA
  const END_MARKER: Byte := 0xFA
  const TWO32: nat := 0x1_0000_0000
  const NEG_ZERO: Word32 := 0x8000_0000

  // ---------- the writer's bytes ----------

  function Unsign(i: int, w: nat): (u: int) {
    if i < 0 then i + Pow256(w) else i
  }

  function Sign(u: int, w: nat): (i: int) {
    if u >= Pow256(w) / 2 then u - Pow256(w) else u
  }

  function EncInt(i: Int64): (bs: seq<Byte>)
    ensures |bs| > 0
  {
    if -1 <= i <= 2 then [0x20 + i + 1]
    else if -0x80 <= i < 0x80 then [0x24] + LE(IntWord(i, 1), 1)
    else if -0x8000 <= i < 0x8000 then [0x25] + LE(IntWord(i, 2), 2)
    else if -0x8000_0000 <= i < 0x8000_0000 then [0x26] + LE(IntWord(i, 4), 4)
    else [0x27] + LE(IntWord(i, 8), 8)
  }

  /** The two's complement word the source hands to Write. */
  function IntWord(i: int, w: nat): (u: nat) {
    var u := Unsign(i, w);
    if u < 0 then 0 else u
  }

  /** The code of a float that has one: -1.0, -0.5, 0.0 (either sign), 0.5, 1.0, 2.0. */
  function FloatCode(bits: Word32): (c: int) {
    if bits == 0xBF80_0000 then 0
    else if bits == 0xBF00_0000 then 1
    else if bits == 0 || bits == NEG_ZERO then 2
    else if bits == 0x3F00_0000 then 3
    else if bits == 0x3F80_0000 then 4
    else if bits == 0x4000_0000 then 5
    else 6
  }

  function EncFloat(bits: Word32): (bs: seq<Byte>)
    ensures |bs| > 0
  {
    var c := FloatCode(bits);
    if 0 <= c < 6 then [0x30 + c] else [0x36] + LE(bits, 4)
  }

  function IndexOf(strs: seq<Text>, s: Text): (i: int)
    ensures -1 <= i < |strs|
    ensures i >= 0 ==> strs[i] == s
    ensures i == -1 <==> s !in strs
  {
    if strs == [] then -1
    else if strs[|strs| - 1] == s then |strs| - 1
    else IndexOf(strs[..|strs| - 1], s)
  }

  function EncStr(s: Text, strs: seq<Text>): (r: (seq<Byte>, seq<Text>))
    ensures |r.0| > 0 && strs <= r.1
  {
    if s == [] then ([0x40], strs)
    else
      var ix := IndexOf(strs, s);
      if ix == -1 then
        (if |s| <= 0xFF then [0x41] + LE(|s|, 1) + s
         else if |s| <= 0xFFFF then [0x42] + LE(|s|, 2) + s
         else [0x43] + LE(|s| % TWO32, 4) + s, strs + [s])
      else (EncIndex(ix % TWO32), strs)
  }

  /** A back reference; the counter behind it is 32 bits wide. */
  function EncIndex(ix: nat): (bs: seq<Byte>)
    ensures |bs| > 0
  {
    if ix <= 0xFF then [0x44] + LE(ix, 1)
    else if ix <= 0xFFFF then [0x45] + LE(ix, 2)
    else [0x46] + LE(ix, 4)
  }

  function EncSize(tag: Byte, n: nat): (bs: seq<Byte>)
    requires tag + 2 < 256
    ensures |bs| > 0
  {
    if n == 0 then [tag]
    else if n <= 0xFF then [tag + 1] + LE(n, 1)
    else [tag + 2] + LE(n % TWO32, 4)
  }

  /** The bytes of `v` after the strings `strs` were written, and the strings written by then. */
  function Enc(v: Value, strs: seq<Text>): (r: (seq<Byte>, seq<Text>))
    ensures strs <= r.1
    decreases v, 1
  {
    match v
    case Null => ([0x01], strs)
    case Bool(b) => ([if b then 0x11 else 0x10], strs)
    case Int(i) => (EncInt(i), strs)
    case Float(f) => (EncFloat(f), strs)
    case Str(s) => EncStr(s, strs)
    case Array(items) =>
      var (bs, strs') := EncAll(items, strs);
      (EncSize(0x50, |items|) + bs, strs')
    case Table(entries) =>
      var (bs, strs') := EncPairs(entries, strs);
      (EncSize(0x60, |entries|) + bs, strs')
    case Opaque => ([], strs)
  }

  function EncAll(vs: seq<Value>, strs: seq<Text>): (r: (seq<Byte>, seq<Text>))
    ensures strs <= r.1
    decreases vs, 0
  {
    if vs == [] then ([], strs)
    else
      var (b0, s0) := Enc(vs[0], strs);
      var (b1, s1) := EncAll(vs[1..], s0);
      (b0 + b1, s1)
  }

  function EncPairs(es: seq<Entry>, strs: seq<Text>): (r: (seq<Byte>, seq<Text>))
    ensures strs <= r.1
    decreases es, 0
  {
    if es == [] then ([], strs)
    else
      var (b0, s0) := EncEntry(es[0], strs);
      var (b1, s1) := EncPairs(es[1..], s0);
      (b0 + b1, s1)
  }

  function EncEntry(e: Entry, strs: seq<Text>): (r: (seq<Byte>, seq<Text>))
    ensures strs <= r.1
    decreases e, 2
  {
    var (b0, s0) := Enc(e.key, strs);
    var (b1, s1) := Enc(e.val, s0);
    (b0 + b1, s1)
  }

  /** What serializeObject accepts at nesting depth `depth`. */
  predicate Writable(v: Value, depth: nat)
    decreases v
  {
    match v
    case Array(items) => depth < MAX_DEPTH && forall x :: x in items ==> Writable(x, depth + 1)
    case Table(entries) =>
      depth < MAX_DEPTH && forall e :: e in entries ==> Writable(e.key, depth + 1) && Writable(e.val, depth + 1)
    case Opaque => false
    case _ => true
  }

  // ---------- the reader ----------

  datatype Res<T> = Bad | Ok(value: T, pos: nat, strs: seq<Text>) {
    predicate IsFailure() { Bad? }
    function PropagateFailure<U>(): (r: Res<U>) { Bad }
    function Extract(): (r: Res<T>) { this }
  }

  /** A successful read moves forward and stays inside the stream. */
  ghost predicate Moved<T>(r: Res<T>, bs: seq<Byte>, pos: nat) {
    r.Ok? ==> pos <= r.pos <= |bs|
  }

  /** A little-endian number of `w` bytes; -1 when the stream ends first. */
  function ReadNum(bs: seq<Byte>, pos: nat, w: nat): (n: int)
    requires pos <= |bs|
    ensures n >= 0 ==> pos + w <= |bs|
  {
    if pos + w <= |bs| then FromLE(bs[pos..pos + w]) else -1
  }

  function DecInt(bs: seq<Byte>, pos: nat, strs: seq<Text>, v: nat): (r: Res<Value>)
    requires pos <= |bs|
    ensures Moved(r, bs, pos)
  {
    if v <= 3 then Ok(Int(v - 1), pos, strs)
    else if v == 4 then DecIntOf(bs, pos, strs, 1)
    else if v == 5 then DecIntOf(bs, pos, strs, 2)
    else if v == 6 then DecIntOf(bs, pos, strs, 4)
    else if v == 7 then DecIntOf(bs, pos, strs, 8)
    else Bad
  }

  function DecIntOf(bs: seq<Byte>, pos: nat, strs: seq<Text>, w: nat): (r: Res<Value>)
    requires pos <= |bs| && w <= 8
    ensures Moved(r, bs, pos)
  {
    var n := ReadNum(bs, pos, w);
    if n < 0 then Bad
    else
      SignBound(bs[pos..pos + w]);
      Ok(Int(Sign(n, w)), pos + w, strs)
  }

  lemma SignBound(bs: seq<Byte>)
    requires |bs| <= 8
    ensures -0x8000_0000_0000_0000 <= Sign(FromLE(bs), |bs|) < 0x8000_0000_0000_0000
  {
    FromLEBound(bs);
    Pow256Bound(|bs|);
  }

  lemma Pow256Bound(w: nat)
    requires w <= 8
    ensures Pow256(w) <= 0x1_0000_0000_0000_0000
  {
    assert Pow256(4) == 0x1_0000_0000;
    if w == 8 { assert Pow256(8) == 256 * 256 * 256 * 256 * Pow256(4); }
    else if w == 7 { assert Pow256(7) == 256 * 256 * 256 * Pow256(4); }
    else if w == 6 { assert Pow256(6) == 256 * 256 * Pow256(4); }
    else if w == 5 { assert Pow256(5) == 256 * Pow256(4); }
  }

  function DecFloat(bs: seq<Byte>, pos: nat, strs: seq<Text>, v: nat): (r: Res<Value>)
    requires pos <= |bs|
    ensures Moved(r, bs, pos)
  {
    if v == 0 then Ok(Float(0xBF80_0000), pos, strs)
    else if v == 1 then Ok(Float(0xBF00_0000), pos, strs)
    else if v == 2 then Ok(Float(0), pos, strs)
    else if v == 3 then Ok(Float(0x3F00_0000), pos, strs)
    else if v == 4 then Ok(Float(0x3F80_0000), pos, strs)
    else if v == 5 then Ok(Float(0x4000_0000), pos, strs)
    else if v == 6 then
      var n := ReadNum(bs, pos, 4);
      if 0 <= n < TWO32 then Ok(Float(n), pos + 4, strs) else Bad
    else Bad
  }

  function DecStr(bs: seq<Byte>, pos: nat, strs: seq<Text>, v: nat): (r: Res<Value>)
    requires pos <= |bs|
    ensures Moved(r, bs, pos)
  {
    if v == 0 then Ok(Str([]), pos, strs)
    else if v < 4 then
      var w := if v == 1 then 1 else if v == 2 then 2 else 4;
      var len := ReadNum(bs, pos, w);
      if len < 0 || len >= MAX_OBJECT_SIZE || pos + w + len > |bs| then Bad
      else
        var s := bs[pos + w..pos + w + len];
        Ok(Str(s), pos + w + len, strs + [s])
    else if v <= 6 then
      var w := if v == 4 then 1 else if v == 5 then 2 else 4;
      var ix := ReadNum(bs, pos, w);
      if ix < 0 || ix >= |strs| then Bad else Ok(Str(strs[ix]), pos + w, strs)
    else Bad
  }

  function DecSize(bs: seq<Byte>, pos: nat, strs: seq<Text>, v: nat): (r: Res<nat>)
    requires pos <= |bs|
    ensures Moved(r, bs, pos) && (r.Ok? ==> r.strs == strs && r.value < MAX_OBJECT_SIZE)
  {
    if v == 0 then Ok(0, pos, strs)
    else if v == 1 || v == 2 then
      var w := if v == 1 then 1 else 4;
      var n := ReadNum(bs, pos, w);
      if n < 0 || n >= MAX_OBJECT_SIZE then Bad else Ok(n, pos + w, strs)
    else Bad
  }

  /** deserializeObject at `pos`, with the strings read so far. */
  function Dec(bs: seq<Byte>, pos: nat, strs: seq<Text>): (r: Res<Value>)
    requires pos <= |bs|
    ensures Moved(r, bs, pos) && (r.Ok? ==> pos < r.pos)
    decreases |bs| - pos, 0
  {
    if pos == |bs| then Bad
    else
      var tag, v, p := bs[pos] / 16, bs[pos] % 16, pos + 1;
      if tag == 0 then Ok(Null, p, strs)
      else if tag == 1 then Ok(Bool(v != 0), p, strs)
      else if tag == 2 then DecInt(bs, p, strs, v)
      else if tag == 3 then DecFloat(bs, p, strs, v)
      else if tag == 4 then DecStr(bs, p, strs, v)
      else if tag == 5 then
        var n :- DecSize(bs, p, strs, v);
        var r :- DecAll(bs, n.pos, strs, n.value);
        Ok(Array(r.value), r.pos, r.strs)
      else if tag == 6 then
        var n :- DecSize(bs, p, strs, v);
        var r :- DecPairs(bs, n.pos, strs, n.value, []);
        Ok(Table(r.value), r.pos, r.strs)
      else Bad
  }

  function DecAll(bs: seq<Byte>, pos: nat, strs: seq<Text>, n: nat): (r: Res<seq<Value>>)
    requires pos <= |bs|
    ensures Moved(r, bs, pos) && (r.Ok? ==> |r.value| == n)
    decreases |bs| - pos, n + 1
  {
    if n == 0 then Ok([], pos, strs)
    else
      var x :- Dec(bs, pos, strs);
      var xs :- DecAll(bs, x.pos, x.strs, n - 1);
      Ok([x.value] + xs.value, xs.pos, xs.strs)
  }

  /** Reads `n` pairs, each stored with NewSlot into the table built so far. */
  function DecPairs(bs: seq<Byte>, pos: nat, strs: seq<Text>, n: nat, table: seq<Entry>): (r: Res<seq<Entry>>)
    requires pos <= |bs|
    ensures Moved(r, bs, pos) && (r.Ok? ==> |r.value| <= |table| + n)
    decreases |bs| - pos, n + 1
  {
    if n == 0 then Ok(table, pos, strs)
    else
      var k :- Dec(bs, pos, strs);
      var x :- Dec(bs, k.pos, k.strs);
      DecPairs(bs, x.pos, x.strs, n - 1, Upsert(table, k.value, x.value))
  }

  /** NewSlot on a table listed in insertion order.  Two arrays or tables that were read are two objects, so only
      primitive keys can be the same key. */
  function Upsert(table: seq<Entry>, key: Value, val: Value): (r: seq<Entry>)
    ensures |table| <= |r| <= |table| + 1
  {
    if table == [] then [Entry(key, val)]
    else if table[0].key == key && Primitive(key) then [Entry(key, val)] + table[1..]
    else [table[0]] + Upsert(table[1..], key, val)
  }

  // ---------- which trees survive ----------

  /** A tree a program can hold: the keys of a table are primitive and pairwise different. */
  ghost predicate WellFormed(v: Value) {
    match v
    case Array(items) => forall x :: x in items ==> WellFormed(x)
    case Table(entries) =>
      && (forall e :: e in entries ==> WellFormed(e.key) && WellFormed(e.val) && Primitive(e.key))
      && DistinctKeys(entries)
    case Opaque => false
    case _ => true
  }

  predicate Primitive(v: Value) {
    v.Null? || v.Bool? || v.Int? || v.Float? || v.Str?
  }

  ghost predicate DistinctKeys(es: seq<Entry>) {
    forall i, j :: 0 <= i < j < |es| ==> es[i].key != es[j].key
  }

  /** Every string, array and table is below the reader's size limit. */
  ghost predicate Bounded(v: Value) {
    match v
    case Str(s) => |s| < MAX_OBJECT_SIZE
    case Array(items) => |items| < MAX_OBJECT_SIZE && forall x :: x in items ==> Bounded(x)
    case Table(entries) =>
      |entries| < MAX_OBJECT_SIZE && forall e :: e in entries ==> Bounded(e.key) && Bounded(e.val)
    case _ => true
  }

  ghost predicate NoNegZero(v: Value) {
    match v
    case Float(f) => f != NEG_ZERO
    case Array(items) => forall x :: x in items ==> NoNegZero(x)
    case Table(entries) => forall e :: e in entries ==> NoNegZero(e.key) && NoNegZero(e.val)
    case _ => true
  }

  /** Every repeated string is among the first 2 to the 32 different ones: numbers beyond that have wrapped around.
      `strs` are the strings written before. */
  ghost predicate InReach(v: Value, strs: seq<Text>)
    decreases v, 1
  {
    match v
    case Str(s) => s in strs && s != [] ==> IndexOf(strs, s) < TWO32
    case Array(items) => InReachAll(items, strs)
    case Table(entries) => InReachPairs(entries, strs)
    case _ => true
  }

  ghost predicate InReachAll(vs: seq<Value>, strs: seq<Text>)
    decreases vs, 0
  {
    vs != [] ==> InReach(vs[0], strs) && InReachAll(vs[1..], Enc(vs[0], strs).1)
  }

  ghost predicate InReachPairs(es: seq<Entry>, strs: seq<Text>)
    decreases es, 0
  {
    es != [] ==> InReachEntry(es[0], strs) && InReachPairs(es[1..], EncEntry(es[0], strs).1)
  }

  ghost predicate InReachEntry(e: Entry, strs: seq<Text>)
    decreases e, 2
  {
    InReach(e.key, strs) && InReach(e.val, Enc(e.key, strs).1)
  }

  /** The tree the reader gives back: negative zeros lose their sign, a reference whose number has wrapped around names
      an earlier string, and keys that thereby coincide merge. */
  ghost function Norm(v: Value, strs: seq<Text>): (r: Value)
    decreases v, 1
  {
    match v
    case Float(f) => if f == NEG_ZERO then Float(0) else v
    case Str(s) => Str(NormStr(s, strs))
    case Array(items) => Array(NormAll(items, strs))
    case Table(entries) => Table(NormInto([], entries, strs))
    case _ => v
  }

  ghost function NormStr(s: Text, strs: seq<Text>): (r: Text) {
    if s == [] || s !in strs then s else strs[IndexOf(strs, s) % TWO32]
  }

  ghost function NormAll(vs: seq<Value>, strs: seq<Text>): (r: seq<Value>)
    ensures |r| == |vs|
    decreases vs, 0
  {
    if vs == [] then [] else [Norm(vs[0], strs)] + NormAll(vs[1..], Enc(vs[0], strs).1)
  }

  ghost function NormInto(table: seq<Entry>, es: seq<Entry>, strs: seq<Text>): (r: seq<Entry>)
    decreases es, 0
  {
    if es == [] then table
    else
      var e := NormEntry(es[0], strs);
      NormInto(Upsert(table, e.key, e.val), es[1..], EncEntry(es[0], strs).1)
  }

  ghost function NormEntry(e: Entry, strs: seq<Text>): (r: Entry)
    decreases e, 2
  {
    Entry(Norm(e.key, strs), Norm(e.val, Enc(e.key, strs).1))
  }

  // ---------- reading back numbers, strings and sizes ----------

  /** `seg` stands in `bs` at `pos`. */
  ghost predicate At(bs: seq<Byte>, pos: nat, seg: seq<Byte>) {
    pos + |seg| <= |bs| && bs[pos..pos + |seg|] == seg
  }

  lemma AtSplit(bs: seq<Byte>, pos: nat, a: seq<Byte>, b: seq<Byte>)
    requires At(bs, pos, a + b)
    ensures At(bs, pos, a) && At(bs, pos + |a|, b)
  {
    assert (a + b)[..|a|] == a && (a + b)[|a|..] == b;
    assert bs[pos..pos + |a|] == bs[pos..pos + |a + b|][..|a|];
    assert bs[pos + |a|..pos + |a + b|] == bs[pos..pos + |a + b|][|a|..];
  }

  lemma ReadNumBack(bs: seq<Byte>, pos: nat, t: Byte, n: nat, w: nat)
    requires At(bs, pos, [t] + LE(n, w)) && n < Pow256(w)
    ensures pos < |bs| && bs[pos] == t && ReadNum(bs, pos + 1, w) == n && pos + 1 + w <= |bs|
  {
    AtSplit(bs, pos, [t], LE(n, w));
    assert bs[pos] == bs[pos..pos + 1][0];
    FromLEOfLE(n, w);
  }

  lemma Widths()
    ensures Pow256(1) == 0x100 && Pow256(2) == 0x1_0000 && Pow256(4) == 0x1_0000_0000
    ensures Pow256(8) == 0x1_0000_0000_0000_0000
  {
    assert Pow256(8) == 256 * 256 * 256 * 256 * Pow256(4);
  }

  lemma IntBack(i: Int64, bs: seq<Byte>, pos: nat, strs: seq<Text>)
    requires At(bs, pos, EncInt(i))
    ensures Dec(bs, pos, strs) == Ok(Int(i), pos + |EncInt(i)|, strs)
  {
    Widths();
    if -1 <= i <= 2 {
      assert bs[pos] == bs[pos..pos + 1][0];
    } else if -0x80 <= i < 0x80 {
      ReadNumBack(bs, pos, 0x24, IntWord(i, 1), 1);
    } else if -0x8000 <= i < 0x8000 {
      ReadNumBack(bs, pos, 0x25, IntWord(i, 2), 2);
    } else if -0x8000_0000 <= i < 0x8000_0000 {
      ReadNumBack(bs, pos, 0x26, IntWord(i, 4), 4);
    } else {
      ReadNumBack(bs, pos, 0x27, IntWord(i, 8), 8);
    }
  }

  lemma FloatBack(f: Word32, bs: seq<Byte>, pos: nat, strs: seq<Text>)
    requires At(bs, pos, EncFloat(f))
    ensures Dec(bs, pos, strs) == Ok(Norm(Float(f), strs), pos + |EncFloat(f)|, strs)
  {
    Widths();
    if FloatCode(f) < 6 {
      assert bs[pos] == bs[pos..pos + 1][0];
    } else {
      ReadNumBack(bs, pos, 0x36, f, 4);
    }
  }

  lemma StrTag(bs: seq<Byte>, pos: nat, strs: seq<Text>, v: nat)
    requires pos < |bs| && v < 16 && bs[pos] == 0x40 + v
    ensures Dec(bs, pos, strs) == DecStr(bs, pos + 1, strs, v)
  {
    assert bs[pos] / 16 == 4 && bs[pos] % 16 == v;
  }

  lemma NewStrBack(s: Text, bs: seq<Byte>, pos: nat, strs: seq<Text>, v: nat, w: nat)
    requires 1 <= v <= 3 && w == (if v == 1 then 1 else if v == 2 then 2 else 4)
    requires |s| < MAX_OBJECT_SIZE && |s| < Pow256(w) && At(bs, pos, [0x40 + v] + LE(|s|, w) + s)
    ensures Dec(bs, pos, strs) == Ok(Str(s), pos + 1 + w + |s|, strs + [s])
  {
    hide LE, FromLE, Pow256, Dec, ReadNum, At, DecStr;
    var head := [0x40 + v] + LE(|s|, w);
    AtSplit(bs, pos, head, s);
    assert |head| == 1 + w;
    ReadNumBack(bs, pos, 0x40 + v, |s|, w);
    StrTag(bs, pos, strs, v);
    NewStrRead(s, bs, pos + 1, strs, v, w);
  }

  lemma NewStrRead(s: Text, bs: seq<Byte>, p: nat, strs: seq<Text>, v: nat, w: nat)
    requires 1 <= v <= 3 && w == (if v == 1 then 1 else if v == 2 then 2 else 4)
    requires |s| < MAX_OBJECT_SIZE && p + w <= |bs| && ReadNum(bs, p, w) == |s| && At(bs, p + w, s)
    ensures DecStr(bs, p, strs, v) == Ok(Str(s), p + w + |s|, strs + [s])
  {
    hide FromLE, ReadNum;
  }

  lemma StrBack(s: Text, bs: seq<Byte>, pos: nat, strs: seq<Text>)
    requires |s| < MAX_OBJECT_SIZE && At(bs, pos, EncStr(s, strs).0)
    ensures Dec(bs, pos, strs) == Ok(Str(NormStr(s, strs)), pos + |EncStr(s, strs).0|, EncStr(s, strs).1)
  {
    Widths();
    hide LE, FromLE, Pow256, DecInt, DecFloat, DecSize, DecAll, DecPairs;
    var ix := if s in strs then IndexOf(strs, s) % TWO32 else -1;
    if s == [] {
      assert bs[pos] == bs[pos..pos + 1][0];
    } else if ix == -1 {
      if |s| <= 0xFF {
        NewStrBack(s, bs, pos, strs, 1, 1);
      } else if |s| <= 0xFFFF {
        NewStrBack(s, bs, pos, strs, 2, 2);
      } else {
        NewStrBack(s, bs, pos, strs, 3, 4);
      }
    } else if ix <= 0xFF {
      ReadNumBack(bs, pos, 0x44, ix, 1);
    } else if ix <= 0xFFFF {
      ReadNumBack(bs, pos, 0x45, ix, 2);
    } else {
      ReadNumBack(bs, pos, 0x46, ix, 4);
    }
  }

  lemma SizeBack(tag: Byte, n: nat, bs: seq<Byte>, pos: nat, strs: seq<Text>)
    requires (tag == 0x50 || tag == 0x60) && n < MAX_OBJECT_SIZE && At(bs, pos, EncSize(tag, n))
    ensures pos < |bs| && bs[pos] / 16 == tag / 16
    ensures DecSize(bs, pos + 1, strs, bs[pos] % 16) == Ok(n, pos + |EncSize(tag, n)|, strs)
  {
    Widths();
    if n == 0 {
      assert bs[pos] == bs[pos..pos + 1][0];
    } else if n <= 0xFF {
      ReadNumBack(bs, pos, tag + 1, n, 1);
    } else {
      ReadNumBack(bs, pos, tag + 2, n, 4);
    }
  }

  // ---------- reading back trees ----------

  ghost predicate NoOpaque(v: Value) {
    match v
    case Array(items) => forall x :: x in items ==> NoOpaque(x)
    case Table(entries) => forall e :: e in entries ==> NoOpaque(e.key) && NoOpaque(e.val)
    case Opaque => false
    case _ => true
  }

  /** The reader on the writer's bytes, wherever they stand and whatever follows: the normalized tree,
      exactly those bytes consumed, and the same string list as the writer's. */
  lemma {:induction false} DecBack(v: Value, bs: seq<Byte>, pos: nat, strs: seq<Text>)
    requires NoOpaque(v) && Bounded(v) && At(bs, pos, Enc(v, strs).0)
    ensures Dec(bs, pos, strs) == Ok(Norm(v, strs), pos + |Enc(v, strs).0|, Enc(v, strs).1)
    decreases v, 1
  {
    hide EncInt, EncFloat, EncStr, EncSize, DecInt, DecFloat, DecStr, DecSize, DecAll, DecPairs, EncAll, EncPairs;
    hide NormAll, NormInto, WellFormed, Writable;
    match v
    case Int(i) => IntBack(i, bs, pos, strs);
    case Float(f) => FloatBack(f, bs, pos, strs);
    case Str(s) => StrBack(s, bs, pos, strs);
    case Array(items) =>
      var body := EncAll(items, strs).0;
      AtSplit(bs, pos, EncSize(0x50, |items|), body);
      SizeBack(0x50, |items|, bs, pos, strs);
      DecAllBack(items, bs, pos + |EncSize(0x50, |items|)|, strs);
    case Table(entries) =>
      var body := EncPairs(entries, strs).0;
      AtSplit(bs, pos, EncSize(0x60, |entries|), body);
      SizeBack(0x60, |entries|, bs, pos, strs);
      DecPairsBack(entries, bs, pos + |EncSize(0x60, |entries|)|, strs, []);
    case Null => FirstByte(bs, pos);
    case Bool(_) => FirstByte(bs, pos);
    case Opaque =>
  }

  lemma FirstByte(bs: seq<Byte>, pos: nat)
    requires pos < |bs|
    ensures bs[pos..pos + 1] == [bs[pos]]
  {
  }

  lemma {:induction false} DecAllBack(vs: seq<Value>, bs: seq<Byte>, pos: nat, strs: seq<Text>)
    requires forall x :: x in vs ==> NoOpaque(x) && Bounded(x)
    requires At(bs, pos, EncAll(vs, strs).0)
    ensures DecAll(bs, pos, strs, |vs|) == Ok(NormAll(vs, strs), pos + |EncAll(vs, strs).0|, EncAll(vs, strs).1)
    decreases vs, 0
  {
    hide At, Dec, Enc, Norm, NoOpaque, Bounded, Moved;
    if vs != [] {
      var (b0, s0) := Enc(vs[0], strs);
      var b1 := EncAll(vs[1..], s0).0;
      AtSplit(bs, pos, b0, b1);
      DecBack(vs[0], bs, pos, strs);
      var p := pos + |b0|;
      DecAllBack(vs[1..], bs, p, s0);
      assert DecAll(bs, p, s0, |vs| - 1) == Ok(NormAll(vs[1..], s0), p + |b1|, EncAll(vs[1..], s0).1);
    }
  }

  lemma {:induction false} DecPairsBack(es: seq<Entry>, bs: seq<Byte>, pos: nat, strs: seq<Text>, table: seq<Entry>)
    requires forall e :: e in es ==> NoOpaque(e.key) && NoOpaque(e.val) && Bounded(e.key) && Bounded(e.val)
    requires At(bs, pos, EncPairs(es, strs).0)
    ensures DecPairs(bs, pos, strs, |es|, table) ==
            Ok(NormInto(table, es, strs), pos + |EncPairs(es, strs).0|, EncPairs(es, strs).1)
    decreases es, 0
  {
    hide At, Dec, Enc, Norm, Upsert, NoOpaque, Bounded, Moved;
    if es != [] {
      var (b0, s0) := EncEntry(es[0], strs);
      var b1 := EncPairs(es[1..], s0).0;
      AtSplit(bs, pos, b0, b1);
      DecEntryBack(es[0], bs, pos, strs);
      var e, p := NormEntry(es[0], strs), pos + |b0|;
      DecPairsBack(es[1..], bs, p, s0, Upsert(table, e.key, e.val));
      assert DecPairs(bs, pos, strs, |es|, table) == DecPairs(bs, p, s0, |es[1..]|, Upsert(table, e.key, e.val));
    }
  }

  lemma {:induction false} DecEntryBack(e: Entry, bs: seq<Byte>, pos: nat, strs: seq<Text>)
    requires NoOpaque(e.key) && NoOpaque(e.val) && Bounded(e.key) && Bounded(e.val)
    requires At(bs, pos, EncEntry(e, strs).0)
    ensures var (k, s) := Enc(e.key, strs);
            var (x, s') := Enc(e.val, s);
            && Dec(bs, pos, strs) == Ok(NormEntry(e, strs).key, pos + |k|, s)
            && Dec(bs, pos + |k|, s) == Ok(NormEntry(e, strs).val, pos + |k| + |x|, s')
    decreases e, 2
  {
    hide At, Dec, Enc, Norm, NoOpaque, Bounded;
    var (k, s) := Enc(e.key, strs);
    AtSplit(bs, pos, k, Enc(e.val, s).0);
    DecBack(e.key, bs, pos, strs);
    DecBack(e.val, bs, pos + |k|, s);
  }

  // ---------- what the reader can produce at all ----------

  ghost predicate AllShort(strs: seq<Text>) {
    forall s :: s in strs ==> |s| < MAX_OBJECT_SIZE
  }

  /** From any bytes, every tree read is within the size limits. */
  lemma {:induction false} DecIsBounded(bs: seq<Byte>, pos: nat, strs: seq<Text>)
    requires pos <= |bs| && AllShort(strs)
    ensures var r := Dec(bs, pos, strs); r.Ok? ==> Bounded(r.value) && AllShort(r.strs)
    decreases |bs| - pos, 0
  {
    if pos < |bs| && (bs[pos] / 16 == 5 || bs[pos] / 16 == 6) {
      var n := DecSize(bs, pos + 1, strs, bs[pos] % 16);
      if n.Ok? {
        if bs[pos] / 16 == 5 {
          DecAllIsBounded(bs, n.pos, strs, n.value);
        } else {
          DecPairsIsBounded(bs, n.pos, strs, n.value, []);
        }
      }
    }
  }

  lemma {:induction false} DecAllIsBounded(bs: seq<Byte>, pos: nat, strs: seq<Text>, n: nat)
    requires pos <= |bs| && AllShort(strs)
    ensures var r := DecAll(bs, pos, strs, n);
            r.Ok? ==> (forall x :: x in r.value ==> Bounded(x)) && AllShort(r.strs)
    decreases |bs| - pos, n + 1
  {
    hide Dec, Bounded, AllShort;
    if n > 0 {
      DecIsBounded(bs, pos, strs);
      var x := Dec(bs, pos, strs);
      if x.Ok? {
        DecAllIsBounded(bs, x.pos, x.strs, n - 1);
      }
    }
  }

  ghost predicate BoundedEntries(es: seq<Entry>) {
    forall e :: e in es ==> Bounded(e.key) && Bounded(e.val)
  }

  lemma {:induction false} UpsertBounded(table: seq<Entry>, key: Value, val: Value)
    requires BoundedEntries(table) && Bounded(key) && Bounded(val)
    ensures BoundedEntries(Upsert(table, key, val))
  {
    if table != [] {
      UpsertBounded(table[1..], key, val);
    }
  }

  lemma {:induction false} DecPairsIsBounded(bs: seq<Byte>, pos: nat, strs: seq<Text>, n: nat, table: seq<Entry>)
    requires pos <= |bs| && AllShort(strs) && BoundedEntries(table)
    ensures var r := DecPairs(bs, pos, strs, n, table); r.Ok? ==> BoundedEntries(r.value) && AllShort(r.strs)
    decreases |bs| - pos, n + 1
  {
    hide Dec, Bounded, BoundedEntries, AllShort, Upsert;
    if n > 0 {
      DecIsBounded(bs, pos, strs);
      var k := Dec(bs, pos, strs);
      if k.Ok? {
        DecIsBounded(bs, k.pos, k.strs);
        var x := Dec(bs, k.pos, k.strs);
        if x.Ok? {
          UpsertBounded(table, k.value, x.value);
          DecPairsIsBounded(bs, x.pos, x.strs, n - 1, Upsert(table, k.value, x.value));
        }
      }
    }
  }

  // ---------- exactly the trees that come back ----------

  /** The writer never writes a string twice. */
  lemma {:induction false} EncDistinct(v: Value, strs: seq<Text>)
    requires Distinct(strs)
    ensures Distinct(Enc(v, strs).1)
    decreases v, 1
  {
    hide EncSize, EncInt, EncFloat, EncAll, EncPairs;
    match v
    case Array(items) => EncAllDistinct(items, strs);
    case Table(entries) => EncPairsDistinct(entries, strs);
    case _ =>
  }

  lemma {:induction false} EncAllDistinct(vs: seq<Value>, strs: seq<Text>)
    requires Distinct(strs)
    ensures Distinct(EncAll(vs, strs).1)
    decreases vs, 0
  {
    hide Enc, Distinct;
    if vs != [] {
      EncDistinct(vs[0], strs);
      EncAllDistinct(vs[1..], Enc(vs[0], strs).1);
    }
  }

  lemma {:induction false} EncPairsDistinct(es: seq<Entry>, strs: seq<Text>)
    requires Distinct(strs)
    ensures Distinct(EncPairs(es, strs).1)
    decreases es, 0
  {
    hide EncEntry, Distinct;
    if es != [] {
      EncEntryDistinct(es[0], strs);
      EncPairsDistinct(es[1..], EncEntry(es[0], strs).1);
    }
  }

  lemma {:induction false} EncEntryDistinct(e: Entry, strs: seq<Text>)
    requires Distinct(strs)
    ensures Distinct(Enc(e.key, strs).1) && Distinct(EncEntry(e, strs).1)
    decreases e, 2
  {
    hide Enc, Distinct;
    EncDistinct(e.key, strs);
    EncDistinct(e.val, Enc(e.key, strs).1);
  }

  lemma {:induction false} UpsertNew(table: seq<Entry>, key: Value, val: Value)
    ensures (forall e :: e in table ==> e.key != key) ==> Upsert(table, key, val) == table + [Entry(key, val)]
    ensures |Upsert(table, key, val)| == |table| + 1 ==> Upsert(table, key, val) == table + [Entry(key, val)]
  {
    if table != [] {
      UpsertNew(table[1..], key, val);
    }
  }

  /** A table that ends with all its entries has them in order. */
  lemma {:induction false} NormIntoGrows(table: seq<Entry>, es: seq<Entry>, strs: seq<Text>)
    ensures var r := NormInto(table, es, strs);
            |r| <= |table| + |es| && (|r| == |table| + |es| ==> table <= r)
    decreases |es|
  {
    hide NormEntry, EncEntry, Upsert;
    if es != [] {
      var e := NormEntry(es[0], strs);
      UpsertNew(table, e.key, e.val);
      NormIntoGrows(Upsert(table, e.key, e.val), es[1..], EncEntry(es[0], strs).1);
    }
  }

  ghost predicate NoNegZeros(es: seq<Entry>) {
    forall e :: e in es ==> NoNegZero(e.key) && NoNegZero(e.val)
  }

  lemma NormStrExact(s: Text, strs: seq<Text>)
    requires Distinct(strs)
    ensures NormStr(s, strs) == s <==> InReach(Str(s), strs)
  {
  }

  /** A tree is its own normal form exactly if it has no negative zero and every repeated string is in reach. */
  lemma {:induction false} NormExact(v: Value, strs: seq<Text>)
    requires WellFormed(v) && Distinct(strs)
    ensures Norm(v, strs) == v <==> NoNegZero(v) && InReach(v, strs)
    decreases v, 1
  {
    hide Distinct, NormAll, NormInto, InReachAll, InReachPairs;
    match v
    case Str(s) => NormStrExact(s, strs);
    case Array(items) => NormAllExact(items, strs);
    case Table(entries) => NormIntoExact([], entries, strs);
    case _ =>
  }

  lemma {:induction false} NormAllExact(vs: seq<Value>, strs: seq<Text>)
    requires (forall x :: x in vs ==> WellFormed(x)) && Distinct(strs)
    ensures NormAll(vs, strs) == vs <==> (forall x :: x in vs ==> NoNegZero(x)) && InReachAll(vs, strs)
    decreases vs, 0
  {
    hide Distinct, Norm, InReach, NoNegZero, WellFormed, Enc;
    if vs != [] {
      NormExact(vs[0], strs);
      EncDistinct(vs[0], strs);
      NormAllExact(vs[1..], Enc(vs[0], strs).1);
      assert vs == [vs[0]] + vs[1..];
    }
  }

  lemma {:induction false} NormEntryExact(e: Entry, strs: seq<Text>)
    requires WellFormed(e.key) && WellFormed(e.val) && Distinct(strs)
    ensures NormEntry(e, strs) == e <==> NoNegZero(e.key) && NoNegZero(e.val) && InReachEntry(e, strs)
    decreases e, 2
  {
    hide Distinct, Norm, InReach, NoNegZero, WellFormed, Enc;
    EncEntryDistinct(e, strs);
    NormExact(e.key, strs);
    NormExact(e.val, Enc(e.key, strs).1);
  }

  lemma {:induction false} NormIntoExact(table: seq<Entry>, es: seq<Entry>, strs: seq<Text>)
    requires (forall e :: e in es ==> WellFormed(e.key) && WellFormed(e.val)) && Distinct(strs)
    requires DistinctKeys(table + es)
    ensures NormInto(table, es, strs) == table + es <==> NoNegZeros(es) && InReachPairs(es, strs)
    decreases es, 0
  {
    hide Distinct, NormEntry, InReachEntry, NoNegZero, WellFormed, EncEntry, Upsert;
    if es != [] {
      var e, s', t := NormEntry(es[0], strs), EncEntry(es[0], strs).1, table + [es[0]];
      NormEntryExact(es[0], strs);
      EncEntryDistinct(es[0], strs);
      UpsertNew(table, e.key, e.val);
      NormIntoGrows(Upsert(table, e.key, e.val), es[1..], s');
      FirstIsNew(table, es);
      assert t + es[1..] == table + es && es == [es[0]] + es[1..];
      NormIntoExact(t, es[1..], s');
      if NormInto(table, es, strs) == table + es {
        assert (table + es)[|table|] == es[0] && Upsert(table, e.key, e.val)[|table|] == e;
      }
    }
  }

  lemma FirstIsNew(table: seq<Entry>, es: seq<Entry>)
    requires es != [] && DistinctKeys(table + es)
    ensures forall e :: e in table ==> e.key != es[0].key
  {
    forall e | e in table ensures e.key != es[0].key {
      var i :| 0 <= i < |table| && table[i] == e;
      assert (table + es)[i] == e && (table + es)[|table|] == es[0];
    }
  }

  /** With at most 2 to the 32 different strings everything is in reach. */
  lemma {:induction false} FewStrings(v: Value, strs: seq<Text>)
    requires |Enc(v, strs).1| <= TWO32
    ensures InReach(v, strs)
    decreases v, 1
  {
    hide EncSize, EncInt, EncFloat, EncAll, EncPairs, InReachAll, InReachPairs;
    match v
    case Array(items) => FewStringsAll(items, strs);
    case Table(entries) => FewStringsPairs(entries, strs);
    case _ =>
  }

  lemma {:induction false} FewStringsAll(vs: seq<Value>, strs: seq<Text>)
    requires |EncAll(vs, strs).1| <= TWO32
    ensures InReachAll(vs, strs)
    decreases vs, 0
  {
    hide Enc, InReach;
    if vs != [] {
      FewStrings(vs[0], strs);
      FewStringsAll(vs[1..], Enc(vs[0], strs).1);
    }
  }

  lemma {:induction false} FewStringsPairs(es: seq<Entry>, strs: seq<Text>)
    requires |EncPairs(es, strs).1| <= TWO32
    ensures InReachPairs(es, strs)
    decreases es, 0
  {
    hide EncEntry, InReachEntry;
    if es != [] {
      FewStringsEntry(es[0], strs);
      FewStringsPairs(es[1..], EncEntry(es[0], strs).1);
    }
  }

  lemma {:induction false} FewStringsEntry(e: Entry, strs: seq<Text>)
    requires |EncEntry(e, strs).1| <= TWO32
    ensures InReachEntry(e, strs)
    decreases e, 2
  {
    hide Enc, InReach;
    FewStrings(e.key, strs);
    FewStrings(e.val, Enc(e.key, strs).1);
  }

  lemma {:induction false} WellFormedNoOpaque(v: Value)
    requires WellFormed(v)
    ensures NoOpaque(v)
  {
    match v
    case Array(items) => forall x | x in items { WellFormedNoOpaque(x); }
    case Table(entries) =>
      forall e | e in entries ensures NoOpaque(e.key) && NoOpaque(e.val) {
        WellFormedNoOpaque(e.key);
        WellFormedNoOpaque(e.val);
      }
    case _ =>
  }

  // ---------- whole streams ----------

  function Stream(v: Value): (bs: seq<Byte>) {
    [START_MARKER] + Enc(v, []).0 + [END_MARKER]
  }

  /** deserialize: marker, object, marker; the value and where reading stopped. */
  function Load(bs: seq<Byte>, pos: nat): (r: Res<Value>)
    requires pos <= |bs|
  {
    if pos == |bs| || bs[pos] != START_MARKER then Bad
    else
      var r :- Dec(bs, pos + 1, []);
      if r.pos == |bs| || bs[r.pos] != END_MARKER then Bad else Ok(r.value, r.pos + 1, r.strs)
  }

  /** Any tree within the size limits comes back normalized, whatever stands around its bytes. */
  lemma LoadBack(v: Value, bs: seq<Byte>, pos: nat)
    requires NoOpaque(v) && Bounded(v) && At(bs, pos, Stream(v))
    ensures Load(bs, pos) == Ok(Norm(v, []), pos + |Stream(v)|, Enc(v, []).1)
  {
    hide Dec, Enc, Norm, NoOpaque, Bounded;
    var body := Enc(v, []).0;
    AtSplit(bs, pos, [START_MARKER] + body, [END_MARKER]);
    AtSplit(bs, pos, [START_MARKER], body);
    assert bs[pos] == bs[pos..pos + 1][0];
    DecBack(v, bs, pos + 1, []);
    var e := pos + 1 + |body|;
    assert bs[e] == bs[e..e + 1][0];
  }

  /** What a tree must be to survive: every string, array and table below 80 MiB, no negative zero, and no reference to
      a string beyond the reach of a 32-bit number. */
  ghost predicate Survives(v: Value) {
    Bounded(v) && NoNegZero(v) && InReach(v, [])
  }

  /** The round trip, exactly: the tree read back is the tree written if and only if it survives. */
  lemma RoundTrip(v: Value, bs: seq<Byte>, pos: nat)
    requires WellFormed(v) && At(bs, pos, Stream(v))
    ensures Load(bs, pos).Ok? && Load(bs, pos).value == v <==> Survives(v)
    ensures Survives(v) ==> Load(bs, pos) == Ok(v, pos + |Stream(v)|, Enc(v, []).1)
  {
    hide Dec, Enc, Norm, NoOpaque, Bounded, NoNegZero, InReach, WellFormed;
    WellFormedNoOpaque(v);
    NormExact(v, []);
    if Bounded(v) {
      LoadBack(v, bs, pos);
    } else if bs[pos] == START_MARKER {
      DecIsBounded(bs, pos + 1, []);
    }
  }
}
