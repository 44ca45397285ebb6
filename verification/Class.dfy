/** SQClass: members packed as a kind and an index into three vectors, and the inline caches that remember a
    packed index per locked class. */
module Classes {
  import opened Objects

  // ---------- packed member indices ----------

  const MEMBER_BITS := 0x40_0000
  const MEMBER_MAX_COUNT := MEMBER_BITS - 1
  const CLASS_BITS := 0x100_0000_0000

  datatype Kind = Field | Method | Native

  function Tag(k: Kind): (t: nat)
    ensures 1 <= t <= 3
  {
    match k case Field => 1 case Method => 2 case Native => 3
  }

  /** MEMBER_TYPE_x | i */
  function Pack(k: Kind, i: nat): (x: nat) {
    Tag(k) * MEMBER_BITS + i
  }

  predicate HasKind(x: nat, k: Kind) {
    x / MEMBER_BITS % 4 == Tag(k)
  }

  function IndexOf(x: nat): (i: nat)
    ensures i < MEMBER_BITS
  {
    x % MEMBER_BITS
  }

  /** Kind and index are recovered, a packed index is never zero, and it fits 24 bits. */
  lemma Unpack(k: Kind, i: nat)
    requires i < MEMBER_BITS
    ensures IndexOf(Pack(k, i)) == i && 0 < Pack(k, i) < 4 * MEMBER_BITS
    ensures forall k' :: HasKind(Pack(k, i), k') <==> k' == k
  {
  }

  lemma OneKind()
    ensures forall x, k, k' :: HasKind(x, k) && HasKind(x, k') ==> k == k'
  {
  }

  // ---------- hint words ----------

  function MakeHint(member: nat, classId: nat): (h: nat) {
    member * CLASS_BITS + classId
  }

  function HintClass(h: nat): (c: nat) {
    h % CLASS_BITS
  }

  function HintMember(h: nat): (m: nat) {
    h / CLASS_BITS
  }

  /** Both halves are recovered from the word, and the word fits 64 bits. */
  lemma HintBack(member: nat, classId: nat)
    requires classId < CLASS_BITS && member < 4 * MEMBER_BITS
    ensures HintClass(MakeHint(member, classId)) == classId && HintMember(MakeHint(member, classId)) == member
    ensures MakeHint(member, classId) < 0x1_0000_0000_0000_0000
  {
  }

  // ---------- members and slots ----------

  /** A slot of one of the three vectors. */
  predicate IsSlot(x: nat, fields: nat, methods: nat, natives: nat) {
    || Pack(Field, 0) <= x < Pack(Field, 0) + fields
    || Pack(Method, 0) <= x < Pack(Method, 0) + methods
    || Pack(Native, 0) <= x < Pack(Native, 0) + natives
  }

  /** `owner` is the inverse of `members`: every key has its own slot, and every slot its key, except the
      method slots in `orphans`. */
  ghost predicate Bijective(members: map<Obj, nat>, owner: map<nat, Obj>, orphans: set<nat>,
                            fields: nat, methods: nat, natives: nat)
  {
    && (forall k :: k in members ==> members[k] in owner && owner[members[k]] == k)
    && (forall x :: x in owner ==> owner[x] in members && members[owner[x]] == x)
    && (forall x :: x in owner <==> IsSlot(x, fields, methods, natives) && x !in orphans)
    && (forall x :: x in orphans ==> Pack(Method, 0) <= x < Pack(Method, 0) + methods)
    && fields + methods + natives == |members| + |orphans| && |orphans| <= fields
    && |members| <= MEMBER_MAX_COUNT
  }

  /** All vectors stay short enough for the 22 index bits. */
  lemma SlotsFit(members: map<Obj, nat>, owner: map<nat, Obj>, orphans: set<nat>, fields: nat, methods: nat,
                 natives: nat)
    requires Bijective(members, owner, orphans, fields, methods, natives)
    ensures fields + natives <= |members| && methods + natives <= |members| <= MEMBER_MAX_COUNT
  {
    OrphansBound(orphans, Pack(Method, 0), methods);
  }

  lemma {:induction false} OrphansBound(orphans: set<nat>, from: nat, n: nat)
    requires forall x :: x in orphans ==> from <= x < from + n
    ensures |orphans| <= n
  {
    if n == 0 {
      assert orphans == {};
    } else {
      var rest := orphans - {from + n - 1};
      OrphansBound(rest, from, n - 1);
    }
  }

  /** Adding a new key with the next slot of one vector. */
  lemma AddMember(members: map<Obj, nat>, owner: map<nat, Obj>, orphans: set<nat>, fields: nat, methods: nat,
                  natives: nat, key: Obj, kind: Kind)
    requires Bijective(members, owner, orphans, fields, methods, natives)
    requires key !in members && |members| < MEMBER_MAX_COUNT
    ensures var x := Pack(kind, if kind.Field? then fields else if kind.Method? then methods else natives);
            Bijective(members[key := x], owner[x := key], orphans,
                      fields + (if kind.Field? then 1 else 0), methods + (if kind.Method? then 1 else 0),
                      natives + (if kind.Native? then 1 else 0))
  {
    SlotsFit(members, owner, orphans, fields, methods, natives);
    NextSlot(fields, methods, natives, kind);
    hide IsSlot;
  }

  /** The slots of the vectors when one of them has grown by one. */
  lemma NextSlot(fields: nat, methods: nat, natives: nat, kind: Kind)
    requires fields < MEMBER_BITS && methods < MEMBER_BITS && natives < MEMBER_BITS
    ensures var x := Pack(kind, if kind.Field? then fields else if kind.Method? then methods else natives);
            && !IsSlot(x, fields, methods, natives)
            && forall y :: IsSlot(y, fields + (if kind.Field? then 1 else 0), methods + (if kind.Method? then 1 else 0),
                                  natives + (if kind.Native? then 1 else 0))
                           <==> y == x || IsSlot(y, fields, methods, natives)
  {
  }

  /** Turning a method name into a field: its method slot is left without a key. */
  lemma MethodToField(members: map<Obj, nat>, owner: map<nat, Obj>, orphans: set<nat>, fields: nat, methods: nat,
                      natives: nat, key: Obj)
    requires Bijective(members, owner, orphans, fields, methods, natives)
    requires key in members && HasKind(members[key], Method) && |members| < MEMBER_MAX_COUNT
    ensures var x, was := Pack(Field, fields), members[key];
            Bijective(members[key := x], (owner - {was})[x := key], orphans + {was}, fields + 1, methods, natives)
  {
    SlotsFit(members, owner, orphans, fields, methods, natives);
    NextSlot(fields, methods, natives, Field);
  }

  // ---------- classes ----------

  /** A member value; a closure remembers the class it was cloned for (0: none). */
  datatype Val = Plain(v: Obj) | Closure(f: nat, base: nat) | NativeClosure(f: nat)

  datatype NativeField = NativeField(offset: nat, kind: nat)

  /** Byte sizes of float32, float64, int32, int64 and bool. */
  const TYPE_SIZES: seq<nat> := [4, 8, 4, 8, 1]

  /** What a cached index depends on. */
  datatype View = View(members: map<Obj, nat>, fields: nat, locked: bool)

  /** What any operation may do to a class: a locked one stays locked, keeps every index and the number of
      instance fields, and gains methods only. */
  ghost predicate Evolves(v: View, w: View) {
    v.locked ==>
      && w.locked && w.fields == v.fields
      && (forall k :: k in v.members ==> k in w.members && w.members[k] == v.members[k])
      && (forall k :: k in w.members && k !in v.members ==> HasKind(w.members[k], Method))
  }

  lemma EvolvesIf(v: View, w: View)
    requires v == w || !v.locked
    ensures Evolves(v, w)
  {
  }

  class Class {
    /** currentHint(): the class's identity in hint words. */
    const id: nat
    const base: Class?
    ghost const height: nat

    var members: map<Obj, nat>
    var defaults: seq<Val>
    var methods: seq<Val>
    var natives: seq<NativeField>
    var metamethods: map<nat, Val>
    var constructorIdx: int
    var udsize: int
    var lockedTypeId: nat

    ghost var owner: map<nat, Obj>
    ghost var orphans: set<nat>

    ghost predicate Valid()
      reads this
    {
      && 0 < id < CLASS_BITS && (lockedTypeId == 0 || lockedTypeId == id)
      && Bijective(members, owner, orphans, |defaults|, |methods|, |natives|)
      && -1 <= constructorIdx < |methods|
      && (base != null ==> base.height < height)
    }

    ghost function Now(): (v: View)
      reads this
    {
      View(members, |defaults|, lockedTypeId != 0)
    }

    /** SQClass::Get. */
    function Get(key: Obj): (r: Option<Val>)
      requires Valid()
      reads this
    {
      if key in members then
        var x := members[key];
        SlotInRange(members, owner, orphans, |defaults|, |methods|, |natives|, key);
        if HasKind(x, Field) then Some(defaults[IndexOf(x)])
        else if HasKind(x, Native) then Some(Plain(Null))
        else Some(methods[IndexOf(x)])
      else None
    }

    constructor (id: nat, base: Class?)
      requires 0 < id < CLASS_BITS && (base != null ==> base.Valid())
      ensures Valid() && this.id == id && this.base == base && lockedTypeId == 0
      ensures base == null ==> members == map[]
      ensures base != null ==> members == base.members && forall k :: Get(k) == base.Get(k)
      ensures base != null ==> constructorIdx == base.constructorIdx && orphans == base.orphans
      ensures base != null ==> metamethods == base.metamethods && udsize == base.udsize && natives == base.natives
      ensures base == null ==> constructorIdx == -1 && metamethods == map[] && udsize == 0
      ensures base != null ==> base.height < height
    {
      this.id, this.base := id, base;
      height := if base == null then 0 else base.height + 1;
      udsize, constructorIdx, lockedTypeId := 0, -1, 0;
      members, defaults, methods, natives, metamethods, owner, orphans := map[], [], [], [], map[], map[], {};
      if base != null {
        constructorIdx, udsize := base.constructorIdx, base.udsize;
        defaults, methods, natives, metamethods := base.defaults, base.methods, base.natives, base.metamethods;
        members, owner, orphans := base.members, base.owner, base.orphans;
      }
    }

    /** What Lock answers: the base classes come first, and `hook` is what each class's own lock hook answers. */
    ghost function WillLock(chain: set<Class>, hook: nat -> bool): (ok: bool)
      requires this in chain && Rooted(chain)
      reads chain
      decreases height
    {
      lockedTypeId != 0 || ((base == null || base.WillLock(chain, hook)) && hook(id))
    }

    /** Lock, bottom up along the base classes: a class whose base fails stays as it is, one whose own hook fails is
        locked all the same.  No index changes. */
    method Lock(ghost chain: set<Class>, hook: nat -> bool) returns (ok: bool)
      requires this in chain && Rooted(chain)
      modifies chain`lockedTypeId
      ensures Rooted(chain) && forall c :: c in chain ==> Evolves(old(c.Now()), c.Now()) && c.members == old(c.members)
      ensures ok == old(WillLock(chain, hook))
      ensures lockedTypeId == if old(lockedTypeId != 0 || base == null || base.WillLock(chain, hook)) then id else 0
      ensures forall c :: c in chain && old(c.lockedTypeId) != 0 ==> c.lockedTypeId == old(c.lockedTypeId)
      ensures forall c :: c in chain && c.height > height ==> c.lockedTypeId == old(c.lockedTypeId)
      decreases height
    {
      hide Bijective, HasKind;
      if lockedTypeId != 0 {
        return true;
      }
      if base != null {
        ok := base.Lock(chain, hook);
        if !ok {
          return;
        }
      }
      ok := hook(id);
      lockedTypeId := id;
    }

    /** A locked class takes methods and statics only, a native field is never replaced, and only an existing field is
        exempt from the member limit. */
    predicate Accepts(key: Obj, val: Val, bstatic: bool)
      reads this
    {
      && (lockedTypeId != 0 ==> IsStatic(val, bstatic))
      && (IsField(members, key)
          || (!(key in members && HasKind(members[key], Native)) && |members| < MEMBER_MAX_COUNT))
    }

    /** `b` is the id of a class that this one derives from. */
    ghost predicate Above(b: nat)
      decreases height
    {
      base != null && base.height < height && (base.id == b || base.Above(b))
    }

    /** Every closure among the members is bound to a class further up, or to one of `given`. */
    ghost predicate Upward(given: set<nat>)
      requires Valid()
      reads this
    {
      forall k :: UpwardAt(k, given)
    }

    ghost predicate UpwardAt(k: Obj, given: set<nat>)
      requires Valid()
      reads this
    {
      Get(k).Some? && Get(k).value.Closure? ==> Get(k).value.base in given || Above(Get(k).value.base)
    }

    /** What a derived class finds at first is bound as it was in its base class. */
    lemma Inherits(given: set<nat>)
      requires Valid() && base != null && base.Valid() && base.Upward(given) && forall k :: Get(k) == base.Get(k)
      ensures Upward(given)
    {
      hide Bijective, Class.Get;
      forall k ensures UpwardAt(k, given) {
        assert base.UpwardAt(k, given);
      }
    }

    method NewSlot(key: Obj, val: Val, bstatic: bool, metaIdx: Obj -> int, ctorKey: Obj) returns (ok: bool)
      requires Valid()
      modifies `members, `defaults, `methods, `metamethods, `constructorIdx, `owner, `orphans
      ensures Valid() && Evolves(old(Now()), Now())
      ensures ok == old(Accepts(key, val, bstatic))
      ensures !ok || (IsMeta(val, metaIdx, key) && !IsField(old(members), key)) ==> forall k :: Get(k) == old(Get(k))
      ensures ok && !(IsMeta(val, metaIdx, key) && !IsField(old(members), key)) ==>
                && (val.Closure? && base != null && !IsField(old(members), key) ==>
                      Get(key) == Some(Closure(val.f, base.id)))
                && (!val.Closure? || base == null || IsField(old(members), key) ==> Get(key) == Some(val))
                && forall k :: k != key ==> Get(k) == old(Get(k))
      ensures ok && !IsField(old(members), key) && !(val.Closure? && metaIdx(key) >= 0)
                && !(val.NativeClosure? && metaIdx(key) >= 0) ==>
                && key in members
                && HasKind(members[key], if val.Closure? || val.NativeClosure? || bstatic then Method else Field)
      ensures metamethods ==
                if ok && IsMeta(val, metaIdx, key) && !IsField(old(members), key)
                then old(metamethods)[metaIdx(key) := val] else old(metamethods)
      ensures constructorIdx ==
                if ok && IsStatic(val, bstatic) && !IsMeta(val, metaIdx, key) && key !in old(members) && key == ctorKey
                then |old(methods)| else old(constructorIdx)
      ensures orphans == old(orphans) <==>
                !(ok && !IsStatic(val, bstatic) && key in old(members) && HasKind(old(members)[key], Method))
    {
      hide Bijective, IsSlot, HasKind, IndexOf, Pack, Class.Get, Evolves;
      EvolvesIf(Now(), Now());
      var static_ := val.Closure? || val.NativeClosure? || bstatic;
      if lockedTypeId != 0 && !static_ {
        return false;
      }
      if key in members {
        KindOf(members, owner, orphans, |defaults|, |methods|, |natives|, key);
        var x := members[key];
        if HasKind(x, Field) {
          OverrideField(key, val);
          return true;
        }
        if HasKind(x, Native) {
          return false;
        }
      }
      if |members| >= MEMBER_MAX_COUNT {
        return false;
      }
      if static_ {
        PutStatic(key, val, metaIdx, ctorKey);
        return true;
      }
      PutField(key, val);
      EvolvesIf(old(Now()), Now());
      ok := true;
    }

    /** Lines 98 to 124: a metamethod is no member, and in a derived class a closure is cloned for the base class. */
    method PutStatic(key: Obj, val: Val, metaIdx: Obj -> int, ctorKey: Obj)
      requires Valid() && |members| < MEMBER_MAX_COUNT && (key in members ==> HasKind(members[key], Method))
      modifies `members, `methods, `metamethods, `constructorIdx, `owner
      ensures Valid() && Evolves(old(Now()), Now())
      ensures IsMeta(val, metaIdx, key) ==> members == old(members) && forall k :: Get(k) == old(Get(k))
      ensures !IsMeta(val, metaIdx, key) ==>
                && Get(key) == Some(if val.Closure? && base != null then Closure(val.f, base.id) else val)
                && key in members && HasKind(members[key], Method)
                && forall k :: k != key ==> Get(k) == old(Get(k))
      ensures metamethods ==
                if IsMeta(val, metaIdx, key) then old(metamethods)[metaIdx(key) := val] else old(metamethods)
      ensures constructorIdx ==
                if !IsMeta(val, metaIdx, key) && key !in old(members) && key == ctorKey
                then |old(methods)| else old(constructorIdx)
    {
      hide Bijective, IsSlot, HasKind, IndexOf, Pack, Class.Get, Evolves;
      EvolvesIf(Now(), Now());
      if !val.Plain? && metaIdx(key) >= 0 {
        PutMeta(metaIdx(key), val);
      } else {
        var theval := val;
        if base != null && val.Closure? {
          theval := Closure(val.f, base.id);
        }
        PutMethod(key, theval, ctorKey);
      }
    }

    /** Line 101. */
    method PutMeta(i: nat, val: Val)
      requires Valid()
      modifies `metamethods
      ensures Valid() && metamethods == old(metamethods)[i := val] && forall k :: Get(k) == old(Get(k))
    {
      hide Bijective, HasKind, IndexOf, Pack;
      metamethods := metamethods[i := val];
    }

    /** A field's default value is replaced (line 88). */
    method OverrideField(key: Obj, val: Val)
      requires Valid() && IsField(members, key)
      modifies `defaults
      ensures Valid() && |defaults| == |old(defaults)|
      ensures Get(key) == Some(val) && forall k :: k != key ==> Get(k) == old(Get(k))
    {
      hide Bijective, IsSlot, HasKind, IndexOf, Pack;
      OneKind();
      SlotInRange(members, owner, orphans, |defaults|, |methods|, |natives|, key);
      OthersElsewhere(members, owner, orphans, |defaults|, |methods|, |natives|, key);
      AllInRange(members, owner, orphans, |defaults|, |methods|, |natives|);
      defaults := defaults[IndexOf(members[key]) := val];
    }

    /** Lines 110 to 122. */
    method PutMethod(key: Obj, val: Val, ctorKey: Obj)
      requires Valid() && |members| < MEMBER_MAX_COUNT && (key in members ==> HasKind(members[key], Method))
      modifies `members, `methods, `constructorIdx, `owner
      ensures Valid() && Evolves(old(Now()), Now())
      ensures Get(key) == Some(val) && forall k :: k != key ==> Get(k) == old(Get(k))
      ensures key in members && HasKind(members[key], Method)
      ensures constructorIdx == if key !in old(members) && key == ctorKey then |old(methods)| else old(constructorIdx)
    {
      hide Bijective, IsSlot, HasKind, IndexOf, Pack;
      OneKind();
      SlotsFit(members, owner, orphans, |defaults|, |methods|, |natives|);
      if key !in members {
        if key == ctorKey {
          constructorIdx := |methods|;
        }
        AddMember(members, owner, orphans, |defaults|, |methods|, |natives|, key, Method);
        Unpack(Method, |methods|);
        AllInRange(members, owner, orphans, |defaults|, |methods|, |natives|);
        owner := owner[Pack(Method, |methods|) := key];
        members := members[key := Pack(Method, |methods|)];
        methods := methods + [val];
      } else {
        SlotInRange(members, owner, orphans, |defaults|, |methods|, |natives|, key);
        OthersElsewhere(members, owner, orphans, |defaults|, |methods|, |natives|, key);
        AllInRange(members, owner, orphans, |defaults|, |methods|, |natives|);
        methods := methods[IndexOf(members[key]) := val];
      }
    }

    /** Lines 126 to 129: a new field, or a method name redefined as a field. */
    method PutField(key: Obj, val: Val)
      requires Valid() && lockedTypeId == 0 && |members| < MEMBER_MAX_COUNT
      requires key in members ==> HasKind(members[key], Method)
      modifies `members, `defaults, `owner, `orphans
      ensures Valid()
      ensures Get(key) == Some(val) && forall k :: k != key ==> Get(k) == old(Get(k))
      ensures key in members && HasKind(members[key], Field)
      ensures orphans == if key in old(members) then old(orphans) + {old(members)[key]} else old(orphans)
      ensures key in old(members) ==> old(members)[key] !in old(orphans)
    {
      hide Bijective, IsSlot, HasKind, IndexOf, Pack;
      OneKind();
      var x := Pack(Field, |defaults|);
      NotOrphan(members, owner, orphans, |defaults|, |methods|, |natives|);
      SlotsFit(members, owner, orphans, |defaults|, |methods|, |natives|);
      Unpack(Field, |defaults|);
      AllInRange(members, owner, orphans, |defaults|, |methods|, |natives|);
      if key in members {
        MethodToField(members, owner, orphans, |defaults|, |methods|, |natives|, key);
        owner := (owner - {members[key]})[x := key];
        orphans := orphans + {members[key]};
      } else {
        AddMember(members, owner, orphans, |defaults|, |methods|, |natives|, key, Field);
        owner := owner[x := key];
      }
      members := members[key := x];
      defaults := defaults + [val];
    }

    method RegisterNativeField(key: Obj, offset: nat, kind: nat) returns (ok: bool)
      requires Valid()
      modifies `members, `natives, `owner
      ensures Valid() && Evolves(old(Now()), Now()) && orphans == old(orphans)
      ensures ok == (lockedTypeId == 0 && udsize > 0 && kind < 5 && offset + TYPE_SIZES[kind] <= udsize
                     && old(|members|) < MEMBER_MAX_COUNT && key !in old(members))
      ensures !ok ==> members == old(members) && natives == old(natives)
      ensures ok ==> members == old(members)[key := Pack(Native, old(|natives|))]
      ensures ok ==> natives == old(natives) + [NativeField(offset, kind)]
      ensures forall k :: Get(k) == if ok && k == key then Some(Plain(Null)) else old(Get(k))
    {
      hide Bijective, IsSlot, HasKind, IndexOf, Pack;
      if lockedTypeId != 0 || udsize <= 0 {
        return false;
      }
      if kind > 4 || offset + TYPE_SIZES[kind] > udsize {
        return false;
      }
      if |members| >= MEMBER_MAX_COUNT || key in members {
        return false;
      }
      PutNative(key, NativeField(offset, kind));
      ok := true;
    }

    /** Lines 204 and 205. */
    method PutNative(key: Obj, desc: NativeField)
      requires Valid() && key !in members && |members| < MEMBER_MAX_COUNT
      modifies `members, `natives, `owner
      ensures Valid() && members == old(members)[key := Pack(Native, old(|natives|))]
      ensures natives == old(natives) + [desc]
      ensures forall k :: Get(k) == if k == key then Some(Plain(Null)) else old(Get(k))
    {
      hide Bijective, IsSlot, HasKind, IndexOf, Pack;
      OneKind();
      SlotsFit(members, owner, orphans, |defaults|, |methods|, |natives|);
      Unpack(Native, |natives|);
      AllInRange(members, owner, orphans, |defaults|, |methods|, |natives|);
      AddMember(members, owner, orphans, |defaults|, |methods|, |natives|, key, Native);
      owner := owner[Pack(Native, |natives|) := key];
      members := members[key := Pack(Native, |natives|)];
      natives := natives + [desc];
    }
  }

  /** A set of valid classes that holds the base of each. */
  ghost predicate Rooted(chain: set<Class>)
    reads chain
  {
    forall c :: c in chain ==> c.Valid() && (c.base != null ==> c.base in chain && c.base.height < c.height)
  }

  predicate IsStatic(val: Val, bstatic: bool) {
    !val.Plain? || bstatic
  }

  predicate IsField(members: map<Obj, nat>, key: Obj) {
    key in members && HasKind(members[key], Field)
  }

  predicate IsMeta(val: Val, metaIdx: Obj -> int, key: Obj) {
    !val.Plain? && metaIdx(key) >= 0
  }

  lemma SlotInRange(members: map<Obj, nat>, owner: map<nat, Obj>, orphans: set<nat>, fields: nat, methods: nat,
                    natives: nat, key: Obj)
    requires Bijective(members, owner, orphans, fields, methods, natives) && key in members
    ensures var x := members[key];
            || (HasKind(x, Field) && IndexOf(x) < fields && x == Pack(Field, IndexOf(x)))
            || (HasKind(x, Method) && IndexOf(x) < methods && x == Pack(Method, IndexOf(x)))
            || (HasKind(x, Native) && IndexOf(x) < natives && x == Pack(Native, IndexOf(x)))
  {
    SlotsFit(members, owner, orphans, fields, methods, natives);
    assert members[key] in owner;
  }

  lemma KindOf(members: map<Obj, nat>, owner: map<nat, Obj>, orphans: set<nat>, fields: nat, methods: nat,
               natives: nat, key: Obj)
    requires Bijective(members, owner, orphans, fields, methods, natives) && key in members
    ensures var x := members[key];
            && (HasKind(x, Field) || HasKind(x, Method) || HasKind(x, Native))
            && !(HasKind(x, Field) && HasKind(x, Method))
            && !(HasKind(x, Field) && HasKind(x, Native)) && !(HasKind(x, Method) && HasKind(x, Native))
  {
    hide Bijective;
    SlotInRange(members, owner, orphans, fields, methods, natives, key);
  }

  lemma NotOrphan(members: map<Obj, nat>, owner: map<nat, Obj>, orphans: set<nat>, fields: nat, methods: nat,
                  natives: nat)
    requires Bijective(members, owner, orphans, fields, methods, natives)
    ensures forall k :: k in members ==> members[k] !in orphans
  {
  }

  lemma AllInRange(members: map<Obj, nat>, owner: map<nat, Obj>, orphans: set<nat>, fields: nat, methods: nat,
                   natives: nat)
    requires Bijective(members, owner, orphans, fields, methods, natives)
    ensures forall k :: k in members ==>
              var x := members[k];
              || (HasKind(x, Field) && IndexOf(x) < fields)
              || (HasKind(x, Method) && IndexOf(x) < methods)
              || (HasKind(x, Native) && IndexOf(x) < natives)
  {
    forall k | k in members
      ensures var x := members[k];
              || (HasKind(x, Field) && IndexOf(x) < fields)
              || (HasKind(x, Method) && IndexOf(x) < methods)
              || (HasKind(x, Native) && IndexOf(x) < natives)
    {
      SlotInRange(members, owner, orphans, fields, methods, natives, k);
    }
  }

  /** No other key of the same kind has this key's index. */
  lemma OthersElsewhere(members: map<Obj, nat>, owner: map<nat, Obj>, orphans: set<nat>, fields: nat, methods: nat,
                        natives: nat, key: Obj)
    requires Bijective(members, owner, orphans, fields, methods, natives) && key in members
    ensures forall k, kind :: k in members && k != key && HasKind(members[k], kind) && HasKind(members[key], kind) ==>
              IndexOf(members[k]) != IndexOf(members[key])
  {
    forall k, kind | k in members && k != key && HasKind(members[k], kind) && HasKind(members[key], kind)
      ensures IndexOf(members[k]) != IndexOf(members[key])
    {
      SlotInRange(members, owner, orphans, fields, methods, natives, k);
      SlotInRange(members, owner, orphans, fields, methods, natives, key);
    }
  }

  // ---------- inline caches ----------

  /** What a load finds without a cache: 0 sends it to the fallback. */
  function LoadIndex(members: map<Obj, nat>, key: Obj): (x: nat) {
    if key in members then members[key] else 0
  }

  /** What a store finds: methods are not assignable. */
  function StoreIndex(members: map<Obj, nat>, key: Obj): (x: nat) {
    if key in members && (HasKind(members[key], Field) || HasKind(members[key], Native)) then members[key] else 0
  }

  /** Packed indices are never zero and fit 24 bits. */
  lemma WellPacked(c: Class)
    requires c.Valid()
    ensures forall k :: k in c.members ==> 0 < c.members[k] < 4 * MEMBER_BITS
  {
    hide HasKind, Bijective;
    forall k | k in c.members ensures 0 < c.members[k] < 4 * MEMBER_BITS {
      SlotInRange(c.members, c.owner, c.orphans, |c.defaults|, |c.methods|, |c.natives|, k);
    }
  }

  /** One literal get or set instruction: its key and its hint word, in a program whose classes come and change. */
  class Instruction {
    const key: Obj
    const load: bool
    var hint: nat
    var classes: seq<Class>
    /** The word was left by this instruction's instance path, not by its table path. */
    ghost var own: bool
    /** The classes to which closures were bound already when they were stored as they came. */
    ghost var given: set<nat>

    ghost function All(): (cs: set<Class>)
      reads this
    {
      set c | c in classes
    }

    /** What a lookup without the cache finds. */
    function Fresh(c: Class): (x: nat)
      reads this, c
    {
      if load then LoadIndex(c.members, key) else StoreIndex(c.members, key)
    }

    predicate Hit(c: Class)
      reads this, c
    {
      c.lockedTypeId != 0 && HintClass(hint) == c.lockedTypeId
    }

    /** A word of its own names no class, or a locked class of the program with the index found there now; on the load
        path a remembered absence may be out of date. */
    ghost predicate OwnWord()
      reads this, All()
    {
      && (HintClass(hint) == 0 || exists c :: c in classes && c.id == HintClass(hint))
      && (forall c :: c in classes && c.id == HintClass(hint) ==>
            c.lockedTypeId == c.id && (HintMember(hint) == Fresh(c) || (load && HintMember(hint) == 0)))
    }

    ghost predicate Valid()
      reads this, All()
    {
      && Rooted(All())
      && (forall c, d :: c in classes && d in classes && c.id == d.id ==> c == d)
      && (own ==> OwnWord())
      && (forall c :: c in classes ==> c.Upward(given))
    }

    constructor (key: Obj, load: bool)
      ensures Valid() && this.key == key && this.load == load && classes == [] && own && given == {}
    {
      this.key, this.load := key, load;
      hint, classes, own, given := 0, [], true, {};
    }

    /** A class comes to life, with an id no other class has. */
    method Create(id: nat, base: Class?) returns (c: Class)
      requires Valid() && 0 < id < CLASS_BITS && (forall d :: d in classes ==> d.id != id)
      requires base != null ==> base in classes
      modifies `classes
      ensures Valid() && classes == old(classes) + [c] && fresh(c) && c.Valid() && c.id == id && c.base == base
      ensures c.lockedTypeId == 0 && c.members == if base == null then map[] else base.members
      ensures base != null ==> forall k :: c.Get(k) == base.Get(k)
    {
      hide Bijective, HasKind;
      c := new Class(id, base);
      if base != null {
        c.Inherits(given);
      }
      classes := classes + [c];
    }

    method Lock(c: Class, hook: nat -> bool) returns (ok: bool)
      requires Valid() && c in classes
      modifies All()
      ensures Valid() && ok == old(c.WillLock(All(), hook)) && (ok ==> c.lockedTypeId == c.id)
      ensures forall d :: d in classes ==> d.members == old(d.members)
    {
      hide Bijective, HasKind;
      ok := c.Lock(All(), hook);
      forall d | d in classes ensures d.Valid() {
        assert d in All();
      }
      SameUpward();
      StaysValid();
    }

    twostate lemma SameUpward()
      requires old(Valid()) && unchanged(this) && forall c :: c in classes ==> c.Valid()
      requires forall c :: c in classes ==> unchanged(c`members, c`defaults, c`methods)
      ensures forall c :: c in classes ==> c.Upward(given)
    {
      hide Bijective, HasKind, IndexOf;
      forall c, k | c in classes ensures c.UpwardAt(k, given) {
        assert old(c.UpwardAt(k, given));
      }
    }

    /** Whatever closures a program stores, those in a derived class are bound to its base class; so along every run
        each closure found in a class is bound further up, or came bound and was stored as it came. */
    method Define(c: Class, name: Obj, val: Val, bstatic: bool, metaIdx: Obj -> int, ctorKey: Obj) returns (ok: bool)
      requires Valid() && c in classes
      modifies c, `given
      ensures Valid() && c.Valid() && ok == old(c.Accepts(name, val, bstatic))
      ensures ok && !IsMeta(val, metaIdx, name) ==> name in c.members
      ensures given == if val.Closure? && (c.base == null || IsField(old(c.members), name))
                       then old(given) + {val.base} else old(given)
      ensures ok && !IsMeta(val, metaIdx, name) && !IsField(old(c.members), name) && c.base != null && val.Closure? ==>
                c.Get(name) == Some(Closure(val.f, c.base.id))
    {
      hide Bijective, HasKind, IndexOf;
      assert c in All();
      ok := c.NewSlot(name, val, bstatic, metaIdx, ctorKey);
      if val.Closure? && (c.base == null || old(IsField(c.members, name))) {
        given := given + {val.base};
      }
      forall d, k | d in classes ensures d.UpwardAt(k, given) {
        assert d in All() && old(d.UpwardAt(k, given));
      }
      StaysValid();
    }

    method DefineNative(c: Class, name: Obj, offset: nat, kind: nat) returns (ok: bool)
      requires Valid() && c in classes
      modifies c
      ensures Valid() && c.members ==
                if ok then old(c.members)[name := Pack(Native, old(|c.natives|))] else old(c.members)
    {
      hide Bijective, HasKind, IndexOf;
      ok := c.RegisterNativeField(name, offset, kind);
      forall d, k | d in classes ensures d.UpwardAt(k, given) {
        assert d in All() && old(d.UpwardAt(k, given));
      }
      StaysValid();
    }

    /** Whatever changes the classes, here or through other instructions, as long as each of them only evolves. */
    twostate lemma StaysValid()
      requires old(Valid()) && unchanged(`hint, `own, `classes) && Rooted(All())
      requires forall c :: c in classes ==> c.Upward(given)
      requires forall c :: c in classes ==> Evolves(old(c.Now()), c.Now())
      ensures Valid()
    {
      hide Bijective, HasKind;
      if own {
        forall c | c in classes && c.id == HintClass(hint)
          ensures c.lockedTypeId == c.id && (HintMember(hint) == Fresh(c) || (load && HintMember(hint) == 0))
        {
          assert c in All();
          Kept(c, old(c.Now()));
        }
      }
    }

    /** A class further up is another class of the program. */
    lemma {:induction false} AboveIsBefore(c: Class, b: nat) returns (d: Class)
      requires Valid() && c in classes && c.Above(b)
      ensures d in classes && d.id == b && d.height < c.height
      decreases c.height
    {
      hide Bijective, HasKind;
      assert c in All();
      d := c.base;
      if d.id != b {
        d := AboveIsBefore(d, b);
      }
    }

    /** If no closure came bound, none that a class finds is bound to that class or to one derived from it. */
    lemma BoundUpward(c: Class, k: Obj, d: Class)
      requires Valid() && c in classes && given <= {0} && c.Get(k).Some? && c.Get(k).value.Closure?
      requires d in classes && d.id == c.Get(k).value.base
      ensures d.height < c.height && d != c
    {
      hide Bijective, HasKind, Class.Get;
      assert c in All() && d in All() && c.UpwardAt(k, given);
      var above := AboveIsBefore(c, d.id);
    }

    /** The index found for a locked class stays what it was, up to a method that was absent. */
    lemma Kept(c: Class, was: View)
      requires Evolves(was, c.Now())
      ensures was.locked ==> StoreIndex(c.members, key) == StoreIndex(was.members, key)
      ensures was.locked && key in was.members ==> LoadIndex(c.members, key) == LoadIndex(was.members, key)
    {
      OneKind();
    }

    /** The table path of the same instruction leaves a word of any bits. */
    method TablePath(word: nat)
      requires Valid()
      modifies `hint, `own
      ensures Valid() && hint == word && !own
    {
      hint, own := word, false;
    }

    /** The instance path (lines 1230 to 1247 and 1323 to 1336 of sqvm.cpp).  Unless a word of the table path happens to
        name the locked class, a store uses the index a fresh lookup finds, and a load does so exactly when the cache
        missed, or remembers a nonzero index, or the member is still absent. */
    method Use(c: Class) returns (index: nat)
      requires Valid() && c in classes
      modifies `hint, `own
      ensures Valid() && own == (old(own) || !old(Hit(c)))
      ensures !load && own ==> index == Fresh(c)
      ensures load && own ==> (index == Fresh(c) <==> !old(Hit(c)) || HintMember(old(hint)) != 0 || key !in c.members)
      ensures !own ==> index == HintMember(old(hint)) && HintClass(old(hint)) == c.id
      ensures own && c.lockedTypeId != 0 ==> Hit(c) && HintMember(hint) == index
    {
      hide Bijective, HasKind, HintClass, HintMember, MakeHint;
      WellPacked(c);
      if c.lockedTypeId != 0 && HintClass(hint) == c.lockedTypeId {
        index := HintMember(hint);
      } else {
        index := if key in c.members then c.members[key] else 0;
        if !load && key in c.members && !HasKind(index, Field) && !HasKind(index, Native) {
          index := 0;
        }
        HintBack(index, c.lockedTypeId);
        hint := MakeHint(index, c.lockedTypeId);
        own := true;
        forall d | d in classes && d.id == HintClass(hint) ensures d == c {
          assert d in All() && c in All();
        }
        assert c in All();
      }
    }
  }

  /** A remembered absence does go stale: the class is locked, a load misses, a method of that name is added. */
  method StaleAbsence(key: Obj, f: nat) returns (index: nat, found: nat)
    ensures index == 0 && found != 0
  {
    hide Bijective, HasKind, HintClass, HintMember, Evolves, Rooted;
    var i := new Instruction(key, true);
    var c := i.Create(1, null);
    var locked := i.Lock(c, _ => true);
    index := i.Use(c);
    var defined := i.Define(c, key, Closure(f, 0), false, _ => -1, Null);
    index := i.Use(c);
    WellPacked(c);
    found := i.Fresh(c);
  }

  /** A method that is inherited keeps the class it was bound to where it was defined. */
  method InheritedMethod(key: Obj, f: nat, a: nat, b: nat, c: nat) returns (found: Option<Val>)
    requires 0 < a < CLASS_BITS && 0 < b < CLASS_BITS && 0 < c < CLASS_BITS && a != b && b != c && a != c
    ensures found == Some(Closure(f, a))
  {
    hide Bijective, HasKind, IndexOf, HintClass, HintMember, Evolves, Rooted;
    var i := new Instruction(key, true);
    var top := i.Create(a, null);
    var mid := i.Create(b, top);
    var defined := i.Define(mid, key, Closure(f, 0), false, _ => -1, Null);
    var low := i.Create(c, mid);
    found := low.Get(key);
  }

  /** A field index that a store finds is inside the values of an instance made when the class was locked. */
  lemma FieldIndexFits(c: Class, key: Obj)
    requires c.Valid() && IsField(c.members, key)
    ensures IndexOf(StoreIndex(c.members, key)) < c.Now().fields
  {
    SlotInRange(c.members, c.owner, c.orphans, |c.defaults|, |c.methods|, |c.natives|, key);
    OneKind();
  }

  /** A class whose members are a bijection onto all slots can lose that: a method name redefined as a field
      leaves a method slot without a key. */
  lemma RedefinitionOrphans(members: map<Obj, nat>, owner: map<nat, Obj>, fields: nat, methods: nat, natives: nat,
                            key: Obj)
    requires Bijective(members, owner, {}, fields, methods, natives) && key in members && HasKind(members[key], Method)
    requires |members| < MEMBER_MAX_COUNT
    ensures IsSlot(members[key], fields + 1, methods, natives)
    ensures var members' := members[key := Pack(Field, fields)];
            forall k :: k in members' ==> members'[k] != members[key]
  {
    MethodToField(members, owner, {}, fields, methods, natives, key);
  }
}
