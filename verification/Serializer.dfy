/** SQStreamSerializer: the recursive methods that drive the byte stream, the string table and the
    string list, against the format functions of Serial. */
module Serializers {
  import opened Blobs
  import opened Serial

  class Serializer {
    const stream: Blob
    /** The writer's string -> index table and its 32-bit counter. */
    var stringTable: map<Text, nat>
    var stringCounter: nat
    /** The reader's list of strings. */
    var stringList: seq<Text>
    var depth: nat

    /** The strings written so far, in order. */
    ghost var written: seq<Text>

    ghost predicate Valid()
      reads this, stream
    {
      && stream.Valid()
      && stringCounter == |written| % TWO32
      && (forall s :: s in stringTable <==> s in written)
      && (forall s :: s in stringTable ==> stringTable[s] == IndexOf(written, s) % TWO32)
    }

    constructor (stream: Blob)
      requires stream.Valid()
      ensures Valid() && this.stream == stream && depth == 0 && written == [] && stringList == []
    {
      this.stream := stream;
      stringTable, stringCounter, stringList, depth, written := map[], 0, [], 0, [];
    }

    // ---------- writing ----------

    /** The stream has moved on by `bs` since it held `was` with the cursor at `at`. */
    ghost predicate Emitted(was: seq<Byte>, at: nat, bs: seq<Byte>)
      requires stream.Valid()
      reads this, stream, stream.buf
    {
      at <= |was| && stream.ptr == at + |bs| && stream.Contents() == Overwrite(was, at, bs)
    }

    method Emit(bs: seq<Byte>, ghost was: seq<Byte>, ghost at: nat, ghost sofar: seq<Byte>)
      requires Valid() && Emitted(was, at, sofar)
      modifies stream, stream.buf
      ensures Valid() && (stream.buf == old(stream.buf) || fresh(stream.buf))
      ensures Emitted(was, at, sofar + bs)
    {
      OverwriteTwice(was, at, sofar, bs);
      stream.Write(bs);
    }

    /** Emissions compose. */
    lemma EmittedThen(was: seq<Byte>, at: nat, sofar: seq<Byte>, c: seq<Byte>, p: nat, bs: seq<Byte>)
      requires stream.Valid() && at <= |was| && p == at + |sofar| && c == Overwrite(was, at, sofar)
      requires Emitted(c, p, bs)
      ensures Emitted(was, at, sofar + bs)
    {
      OverwriteTwice(was, at, sofar, bs);
    }

    method SerializeString(s: Text)
      requires Valid()
      modifies this, stream, stream.buf
      ensures Valid() && (stream.buf == old(stream.buf) || fresh(stream.buf)) && depth == old(depth)
      ensures written == EncStr(s, old(written)).1
      ensures Emitted(old(stream.Contents()), old(stream.ptr), EncStr(s, old(written)).0)
    {
      hide LE, IndexOf, Overwrite;
      if |s| == 0 {
        stream.Write([0x40]);
      } else if s !in stringTable {
        var bs := if |s| <= 0xFF then [0x41] + LE(|s|, 1) + s
                  else if |s| <= 0xFFFF then [0x42] + LE(|s|, 2) + s
                  else [0x43] + LE(|s| % TWO32, 4) + s;
        assert bs == EncStr(s, written).0;
        stream.Write(bs);
        Remember(s);
      } else {
        var index := stringTable[s];
        var bs := if index <= 0xFF then [0x44] + LE(index, 1)
                  else if index <= 0xFFFF then [0x45] + LE(index, 2)
                  else [0x46] + LE(index, 4);
        assert bs == EncStr(s, written).0;
        stream.Write(bs);
      }
    }

    /** A new string gets the next number, in 32 bits. */
    method Remember(s: Text)
      requires Valid() && s !in stringTable
      modifies `stringTable, `stringCounter, `written
      ensures Valid() && written == old(written) + [s]
    {
      IndexOfSnoc(written, s);
      stringTable := stringTable[s := stringCounter];
      stringCounter := (stringCounter + 1) % TWO32;
      written := written + [s];
    }

    method SerializeObject(v: Value) returns (ok: bool)
      requires Valid()
      modifies this, stream, stream.buf
      ensures Valid() && (stream.buf == old(stream.buf) || fresh(stream.buf))
      ensures ok == Writable(v, old(depth))
      ensures ok ==> depth == old(depth) && written == Enc(v, old(written)).1
      ensures ok ==> Emitted(old(stream.Contents()), old(stream.ptr), Enc(v, old(written)).0)
      decreases v, 1
    {
      ok := true;
      match v {
        case Null => stream.Write([0x01]);
        case Bool(b) => stream.Write([if b then 0x11 else 0x10]);
        case Int(i) => stream.Write(EncInt(i));
        case Float(f) => stream.Write(EncFloat(f));
        case Str(s) => SerializeString(s);
        case Array(items) => ok := SerializeArray(items);
        case Table(entries) => ok := SerializeTable(entries);
        case Opaque => ok := false;
      }
    }

    method SerializeArray(items: seq<Value>) returns (ok: bool)
      requires Valid()
      modifies this, stream, stream.buf
      ensures Valid() && (stream.buf == old(stream.buf) || fresh(stream.buf))
      ensures ok == Writable(Array(items), old(depth))
      ensures ok ==> depth == old(depth) && written == Enc(Array(items), old(written)).1
      ensures ok ==> Emitted(old(stream.Contents()), old(stream.ptr), Enc(Array(items), old(written)).0)
      decreases items, 0
    {
      hide Overwrite, EncSize, IndexOf, EncEntry, EncAll, EncPairs, EncStr, EncInt, EncFloat;
      EncNone(written);
      ghost var was, at, head := stream.Contents(), stream.ptr, EncSize(0x50, |items|);
      depth := depth + 1;
      if depth > MAX_DEPTH {
        return false;
      }
      stream.Write(EncSize(0x50, |items|));
      assert head + [] == head;
      var i := 0;
      while i < |items|
        invariant 0 <= i <= |items| && Valid() && (stream.buf == old(stream.buf) || fresh(stream.buf))
        invariant depth == old(depth) + 1 && (forall x :: x in items[..i] ==> Writable(x, depth))
        invariant written == EncAll(items[..i], old(written)).1
        invariant Emitted(was, at, head + EncAll(items[..i], old(written)).0)
      {
        ghost var c, p, w, sofar := stream.Contents(), stream.ptr, written, head + EncAll(items[..i], old(written)).0;
        assert items[i] in items;
        ok := SerializeObject(items[i]);
        if !ok {
          return false;
        }
        EncAllSnoc(items[..i], items[i], old(written));
        assert items[..i + 1] == items[..i] + [items[i]];
        EmittedThen(was, at, sofar, c, p, Enc(items[i], w).0);
        assert head + EncAll(items[..i + 1], old(written)).0 == sofar + Enc(items[i], w).0;
        i := i + 1;
      }
      assert items[..i] == items;
      depth := depth - 1;
      ok := true;
    }

    method SerializeTable(entries: seq<Entry>) returns (ok: bool)
      requires Valid()
      modifies this, stream, stream.buf
      ensures Valid() && (stream.buf == old(stream.buf) || fresh(stream.buf))
      ensures ok == Writable(Table(entries), old(depth))
      ensures ok ==> depth == old(depth) && written == Enc(Table(entries), old(written)).1
      ensures ok ==> Emitted(old(stream.Contents()), old(stream.ptr), Enc(Table(entries), old(written)).0)
      decreases entries, 0
    {
      hide Overwrite, EncSize, IndexOf, EncEntry, EncAll, EncPairs, EncStr, EncInt, EncFloat;
      EncNone(written);
      ghost var was, at, head := stream.Contents(), stream.ptr, EncSize(0x60, |entries|);
      depth := depth + 1;
      if depth > MAX_DEPTH {
        return false;
      }
      stream.Write(EncSize(0x60, |entries|));
      assert head + [] == head;
      var i := 0;
      while i < |entries|
        invariant 0 <= i <= |entries| && Valid() && (stream.buf == old(stream.buf) || fresh(stream.buf))
        invariant depth == old(depth) + 1
        invariant forall e :: e in entries[..i] ==> Writable(e.key, depth) && Writable(e.val, depth)
        invariant written == EncPairs(entries[..i], old(written)).1
        invariant Emitted(was, at, head + EncPairs(entries[..i], old(written)).0)
      {
        ghost var c, p, w := stream.Contents(), stream.ptr, written;
        ghost var sofar := head + EncPairs(entries[..i], old(written)).0;
        assert entries[i] in entries;
        ok := SerializeEntry(entries[i]);
        if !ok {
          return false;
        }
        EncPairsSnoc(entries[..i], entries[i], old(written));
        assert entries[..i + 1] == entries[..i] + [entries[i]];
        EmittedThen(was, at, sofar, c, p, EncEntry(entries[i], w).0);
        assert head + EncPairs(entries[..i + 1], old(written)).0 == sofar + EncEntry(entries[i], w).0;
        i := i + 1;
      }
      assert entries[..i] == entries;
      depth := depth - 1;
      ok := true;
    }

    method SerializeEntry(e: Entry) returns (ok: bool)
      requires Valid()
      modifies this, stream, stream.buf
      ensures Valid() && (stream.buf == old(stream.buf) || fresh(stream.buf))
      ensures ok == (Writable(e.key, old(depth)) && Writable(e.val, old(depth)))
      ensures ok ==> depth == old(depth) && written == EncEntry(e, old(written)).1
      ensures ok ==> Emitted(old(stream.Contents()), old(stream.ptr), EncEntry(e, old(written)).0)
      decreases e, 2
    {
      ghost var w0 := written;
      ok := SerializeObject(e.key);
      if !ok {
        return false;
      }
      ghost var w1 := written;
      ok := SerializeObject(e.val);
      OverwriteTwice(old(stream.Contents()), old(stream.ptr), Enc(e.key, w0).0, Enc(e.val, w1).0);
    }

    /** serialize: the two markers around the object. */
    method Serialize(v: Value) returns (ok: bool)
      requires Valid() && written == [] && depth == 0
      modifies this, stream, stream.buf
      ensures Valid() && ok == Writable(v, 0)
      ensures ok ==> Emitted(old(stream.Contents()), old(stream.ptr), Stream(v))
    {
      ghost var was, at := stream.Contents(), stream.ptr;
      stream.Write([START_MARKER]);
      ghost var c, p := stream.Contents(), stream.ptr;
      ok := SerializeObject(v);
      if ok {
        OverwriteTwice(was, at, [START_MARKER], Enc(v, []).0);
        Emit([END_MARKER], was, at, [START_MARKER] + Enc(v, []).0);
      }
    }

    // ---------- reading ----------

    /** Reads a little-endian number; -1 at the end of data. */
    method ReadNumber(w: nat) returns (n: int)
      requires stream.Valid()
      modifies stream`ptr
      ensures stream.Valid() && n == ReadNum(stream.Contents(), old(stream.ptr), w)
      ensures n >= 0 ==> stream.ptr == old(stream.ptr) + w
      ensures stream.ptr >= old(stream.ptr)
    {
      var bs := stream.Read(w);
      n := if |bs| == w then FromLE(bs) else -1;
    }

    /** The outcome of a read agrees with the format function's. */
    ghost predicate Agrees<T>(ok: bool, value: T, r: Res<T>)
      reads this, stream
    {
      && ok == r.Ok?
      && (ok ==> value == r.value && stream.ptr == r.pos && stringList == r.strs)
    }

    method DeserializeInt(v: nat) returns (ok: bool, value: Value)
      requires stream.Valid()
      modifies stream`ptr
      ensures stream.Valid() && stream.ptr >= old(stream.ptr)
      ensures Agrees(ok, value, DecInt(stream.Contents(), old(stream.ptr), stringList, v))
    {
      if v <= 3 {
        return true, Int(v - 1);
      }
      if v > 7 {
        return false, Null;
      }
      var w := if v == 4 then 1 else if v == 5 then 2 else if v == 6 then 4 else 8;
      ghost var p := stream.ptr;
      var n := ReadNumber(w);
      if n < 0 {
        return false, Null;
      }
      SignBound(stream.Contents()[p..p + w]);
      return true, Int(Sign(n, w));
    }

    method DeserializeFloat(v: nat) returns (ok: bool, value: Value)
      requires stream.Valid()
      modifies stream`ptr
      ensures stream.Valid() && stream.ptr >= old(stream.ptr)
      ensures Agrees(ok, value, DecFloat(stream.Contents(), old(stream.ptr), stringList, v))
    {
      if v <= 5 {
        var f: Word32 := [0xBF80_0000, 0xBF00_0000, 0, 0x3F00_0000, 0x3F80_0000, 0x4000_0000][v];
        return true, Float(f);
      }
      if v != 6 {
        return false, Null;
      }
      ghost var p := stream.ptr;
      var n := ReadNumber(4);
      if n < 0 {
        return false, Null;
      }
      FromLEBound(stream.Contents()[p..p + 4]);
      Widths();
      return true, Float(n);
    }

    method DeserializeString(v: nat) returns (ok: bool, value: Value)
      requires stream.Valid()
      modifies `stringList, stream`ptr
      ensures stream.Valid() && stream.ptr >= old(stream.ptr)
      ensures Agrees(ok, value, DecStr(stream.Contents(), old(stream.ptr), old(stringList), v))
    {
      if v == 0 {
        return true, Str([]);
      }
      if v < 4 {
        var len := ReadNumber(if v == 1 then 1 else if v == 2 then 2 else 4);
        if len < 0 || len >= MAX_OBJECT_SIZE {
          return false, Null;
        }
        var s := stream.Read(len);
        if |s| != len {
          return false, Null;
        }
        stringList := stringList + [s];
        return true, Str(s);
      }
      if v > 6 {
        return false, Null;
      }
      var index := ReadNumber(if v == 4 then 1 else if v == 5 then 2 else 4);
      if index < 0 || index >= |stringList| {
        return false, Null;
      }
      return true, Str(stringList[index]);
    }

    method DeserializeSize(v: nat) returns (ok: bool, size: nat)
      requires stream.Valid()
      modifies stream`ptr
      ensures stream.Valid() && stream.ptr >= old(stream.ptr)
      ensures Agrees(ok, size, DecSize(stream.Contents(), old(stream.ptr), stringList, v))
    {
      if v == 0 {
        return true, 0;
      }
      if v > 2 {
        return false, 0;
      }
      var n := ReadNumber(if v == 1 then 1 else 4);
      if n < 0 || n >= MAX_OBJECT_SIZE {
        return false, 0;
      }
      return true, n;
    }

    method DeserializeObject() returns (ok: bool, value: Value)
      requires stream.Valid()
      modifies `stringList, stream`ptr
      ensures stream.Valid() && stream.ptr >= old(stream.ptr)
      ensures Agrees(ok, value, Dec(stream.Contents(), old(stream.ptr), old(stringList)))
      decreases stream.size - stream.ptr, 0
    {
      var t := stream.Read(1);
      if |t| != 1 {
        return false, Null;
      }
      var tag, v := t[0] / 16, t[0] % 16;
      if tag == 0 {
        return true, Null;
      } else if tag == 1 {
        return true, Bool(v != 0);
      } else if tag == 2 {
        ok, value := DeserializeInt(v);
      } else if tag == 3 {
        ok, value := DeserializeFloat(v);
      } else if tag == 4 {
        ok, value := DeserializeString(v);
      } else if tag == 5 {
        var size;
        ok, size := DeserializeSize(v);
        if !ok {
          return false, Null;
        }
        var items;
        ok, items := DeserializeItems(size);
        value := Array(items);
      } else if tag == 6 {
        var size;
        ok, size := DeserializeSize(v);
        if !ok {
          return false, Null;
        }
        var entries;
        ok, entries := DeserializeEntries(size);
        value := Table(entries);
      } else {
        return false, Null;
      }
    }

    method DeserializeItems(size: nat) returns (ok: bool, items: seq<Value>)
      requires stream.Valid()
      modifies `stringList, stream`ptr
      ensures stream.Valid() && stream.ptr >= old(stream.ptr)
      ensures Agrees(ok, items, DecAll(stream.Contents(), old(stream.ptr), old(stringList), size))
      decreases stream.size - stream.ptr, size + 1
    {
      hide Dec, FromLE;
      items := [];
      var i := 0;
      ghost var all := DecAll(stream.Contents(), stream.ptr, stringList, size);
      assert all.Ok? ==> [] + all.value == all.value;
      while i < size
        invariant 0 <= i <= size && stream.Valid() && stream.ptr >= old(stream.ptr)
        invariant i > 0 ==> stream.ptr > old(stream.ptr)
        invariant all == Prepend(items, DecAll(stream.Contents(), stream.ptr, stringList, size - i))
      {
        var x;
        ok, x := DeserializeObject();
        if !ok {
          return;
        }
        ghost var r := DecAll(stream.Contents(), stream.ptr, stringList, size - i - 1);
        assert r.Ok? ==> items + ([x] + r.value) == items + [x] + r.value;
        items := items + [x];
        i := i + 1;
      }
      assert items + [] == items;
      ok := true;
    }

    method DeserializeEntries(size: nat) returns (ok: bool, entries: seq<Entry>)
      requires stream.Valid()
      modifies `stringList, stream`ptr
      ensures stream.Valid() && stream.ptr >= old(stream.ptr)
      ensures Agrees(ok, entries, DecPairs(stream.Contents(), old(stream.ptr), old(stringList), size, []))
      decreases stream.size - stream.ptr, size + 1
    {
      hide Dec, FromLE, Upsert;
      entries := [];
      var i := 0;
      ghost var all := DecPairs(stream.Contents(), stream.ptr, stringList, size, []);
      while i < size
        invariant 0 <= i <= size && stream.Valid() && stream.ptr >= old(stream.ptr)
        invariant i > 0 ==> stream.ptr > old(stream.ptr)
        invariant all == DecPairs(stream.Contents(), stream.ptr, stringList, size - i, entries)
      {
        var k, x;
        ok, k := DeserializeObject();
        if !ok {
          return;
        }
        ok, x := DeserializeObject();
        if !ok {
          return;
        }
        entries := Upsert(entries, k, x);
        i := i + 1;
      }
      ok := true;
    }

    /** deserialize: the two markers around the object. */
    method Deserialize() returns (ok: bool, value: Value)
      requires stream.Valid() && stringList == []
      modifies `stringList, stream`ptr
      ensures stream.Valid()
      ensures Agrees(ok, value, Load(stream.Contents(), old(stream.ptr)))
    {
      var m := stream.Read(1);
      if |m| != 1 || m[0] != START_MARKER {
        return false, Null;
      }
      ok, value := DeserializeObject();
      if !ok {
        return;
      }
      m := stream.Read(1);
      ok := |m| == 1 && m[0] == END_MARKER;
    }
  }

  ghost function Prepend(xs: seq<Value>, r: Res<seq<Value>>): (r': Res<seq<Value>>) {
    if r.Ok? then Ok(xs + r.value, r.pos, r.strs) else Bad
  }

  lemma EncNone(strs: seq<Text>)
    ensures EncAll([], strs) == ([], strs) && EncPairs([], strs) == ([], strs)
  {
  }

  lemma IndexOfSnoc(strs: seq<Text>, s: Text)
    ensures IndexOf(strs + [s], s) == |strs|
    ensures forall t :: t != s ==> IndexOf(strs + [s], t) == IndexOf(strs, t)
  {
    assert (strs + [s])[..|strs|] == strs;
  }

  lemma {:induction false} EncAllSnoc(vs: seq<Value>, x: Value, strs: seq<Text>)
    ensures var (b, s) := EncAll(vs, strs);
            EncAll(vs + [x], strs) == (b + Enc(x, s).0, Enc(x, s).1)
  {
    if vs == [] {
      assert [] + [x] == [x] && [x][1..] == [];
      assert Enc(x, strs).0 + [] == [] + Enc(x, strs).0;
    } else {
      assert (vs + [x])[1..] == vs[1..] + [x];
      var (b0, s0) := Enc(vs[0], strs);
      EncAllSnoc(vs[1..], x, s0);
      var (b1, s1) := EncAll(vs[1..], s0);
      assert b0 + (b1 + Enc(x, s1).0) == b0 + b1 + Enc(x, s1).0;
    }
  }

  lemma {:induction false} EncPairsSnoc(es: seq<Entry>, e: Entry, strs: seq<Text>)
    ensures var (b, s) := EncPairs(es, strs);
            EncPairs(es + [e], strs) == (b + EncEntry(e, s).0, EncEntry(e, s).1)
  {
    if es == [] {
      assert [] + [e] == [e] && [e][1..] == [];
      assert EncEntry(e, strs).0 + [] == [] + EncEntry(e, strs).0;
    } else {
      assert (es + [e])[1..] == es[1..] + [e];
      var (b0, s0) := EncEntry(es[0], strs);
      EncPairsSnoc(es[1..], e, s0);
      var (b1, s1) := EncPairs(es[1..], s0);
      assert b0 + (b1 + EncEntry(e, s1).0) == b0 + b1 + EncEntry(e, s1).0;
    }
  }

  /** Write a tree, go back to where it starts, read: the same tree comes back, the cursor stands behind it
      and both sides know the same strings, exactly under the round-trip condition. */
  method WriteThenRead(stream: Blob, v: Value) returns (wrote: bool, read: bool, value: Value)
    requires stream.Valid() && WellFormed(v)
    modifies stream, stream.buf
    ensures stream.Valid() && wrote == Writable(v, 0)
    ensures wrote ==> (read && value == v && stream.ptr == old(stream.ptr) + |Stream(v)| <==> Survives(v))
  {
    var at := stream.ptr;
    ghost var was := stream.Contents();
    var writer := new Serializer(stream);
    wrote := writer.Serialize(v);
    read, value := false, Null;
    if wrote {
      ghost var bs := stream.Contents();
      OverwriteAt(was, at, Stream(v));
      var _ := stream.Seek(at, FromStart);
      var reader := new Serializer(stream);
      read, value := reader.Deserialize();
      RoundTrip(v, bs, at);
    }
  }

  lemma OverwriteAt(was: seq<Byte>, at: nat, bs: seq<Byte>)
    requires at <= |was|
    ensures At(Overwrite(was, at, bs), at, bs)
  {
  }
}
