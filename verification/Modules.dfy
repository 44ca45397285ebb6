/** SqModules: recursive require with cycle detection, imports, and reloading. */
module ModuleLoader {
  import opened Objects
  import opened Seqs

  type Name = string

  /** An import line: the module's name and whether its bindings can be merged. */
  datatype Import = Import(name: Name, merges: bool)

  /** A script's body: what it requires may depend on how its earlier calls went, and it may catch a failure.  It ends
      by returning a value or by throwing. */
  datatype Body = Finish(returned: Option<nat>) | Call(name: Name, mustExist: bool, ifDone: Body, ifThrown: Body)

  /** What a source file does when it is compiled and run. */
  datatype Script = Script(parses: bool, imports: seq<Import>, compiles: bool, body: Body)

  /** A loaded file, with the value its script returned; storage tables are numbered in order of creation. */
  datatype Module = Module(fn: Name, exports: nat, storage: nat)

  /** The host's side: native modules, file name resolution from the running script, beforeImportModuleCb, and where
      a require() may look (getSearchTargets). */
  datatype Host = Host(natives: set<Name>, resolve: (Name, Option<Name>) -> Name, permitted: Name -> bool,
                       searchNative: Name -> bool, searchScript: Name -> bool)

  const NATIVE_LIST: Name := "quirrel.native_modules"

  /** What sqRequire answers before it gets to requireModule, if it does not get there. */
  function Early(host: Host, name: Name, mustExist: bool): (r: Option<bool>) {
    if name == NATIVE_LIST then Some(true)
    else if !host.permitted(name) then Some(false)
    else if host.searchNative(name) && name in host.natives then Some(true)
    else if !host.searchScript(name) then Some(!mustExist)
    else None
  }

  ghost predicate OneEach(ms: seq<Module>) {
    forall i, j :: 0 <= i < j < |ms| ==> ms[i].fn != ms[j].fn
  }

  ghost predicate Apart(ms: seq<Module>, running: seq<Name>) {
    forall m :: m in ms ==> m.fn !in running
  }

  ghost predicate Below(ms: seq<Module>, tables: nat) {
    forall m :: m in ms ==> m.storage < tables
  }

  /** No two modules share their state storage. */
  ghost predicate Separate(ms: seq<Module>) {
    forall i, j :: 0 <= i < j < |ms| ==> ms[i].storage != ms[j].storage
  }

  ghost predicate Unshared(ms: seq<Module>, storage: nat) {
    forall m :: m in ms ==> m.storage != storage
  }

  /** A module has its file's storage of the previous generation, or one that generation did not have. */
  ghost predicate Linked(ms: seq<Module>, prev: seq<Module>) {
    forall m :: m in ms ==> LinkedTo(m.fn, m.storage, prev)
  }

  ghost predicate LinkedTo(fn: Name, storage: nat, prev: seq<Module>) {
    var p := Find(prev, fn);
    if p.Some? then storage == p.value.storage else Unshared(prev, storage)
  }

  /** The values the body may return. */
  ghost function Returns(body: Body): (vs: set<nat>) {
    match body
    case Finish(returned) => if returned.Some? then {returned.value} else {}
    case Call(_, _, ifDone, ifThrown) => Returns(ifDone) + Returns(ifThrown)
  }

  /** An unguarded script that returns at all returns one value. */
  lemma {:induction false} OneValue(body: Body, v: nat, w: nat)
    requires Unguarded(body) && v in Returns(body) && w in Returns(body)
    ensures v == w
  {
    if body.Call? {
      OneValue(body.ifDone, v, w);
    }
  }

  /** What every module exports is a value its own script returns. */
  ghost predicate Exported(ms: seq<Module>, files: map<Name, Script>) {
    forall m :: m in ms ==> m.fn in files && m.exports in Returns(files[m.fn].body)
  }

  /** findModule. */
  function Find(ms: seq<Module>, fn: Name): (m: Option<Module>)
    ensures m.Some? ==> m.value in ms && m.value.fn == fn
    ensures m.None? ==> forall x :: x in ms ==> x.fn != fn
  {
    if ms == [] then None else if ms[0].fn == fn then Some(ms[0]) else Find(ms[1..], fn)
  }

  function Top(running: seq<Name>): (t: Option<Name>) {
    if running == [] then None else Some(running[|running| - 1])
  }

  /** State storage comes from the previous generation where it had the file, and is new otherwise. */
  ghost predicate StorageKept(ms: seq<Module>, from: nat, prev: seq<Module>, tables: nat) {
    forall i :: from <= i < |ms| ==> StorageOf(ms[i], prev, tables)
  }

  ghost predicate StorageOf(m: Module, prev: seq<Module>, tables: nat) {
    var p := Find(prev, m.fn);
    if p.Some? then m.storage == p.value.storage else m.storage >= tables
  }

  /** The import lines of file fn are served by native or by loaded modules. */
  ghost predicate Served(imports: seq<Import>, fn: Name, host: Host, ms: seq<Module>) {
    forall k :: 0 <= k < |imports| ==> ServedLine(imports[k], fn, host, ms)
  }

  ghost predicate ServedLine(line: Import, fn: Name, host: Host, ms: seq<Module>) {
    && host.permitted(line.name) && line.merges
    && (line.name in host.natives || Find(ms, host.resolve(line.name, Some(fn))).Some?)
  }

  /** Modules are listed in an order where everything a file imports comes before it. */
  ghost predicate Ordered(ms: seq<Module>, files: map<Name, Script>, host: Host) {
    forall i :: 0 <= i < |ms| ==> OrderedAt(ms[i].fn, ms[..i], files, host)
  }

  ghost predicate OrderedAt(fn: Name, before: seq<Module>, files: map<Name, Script>, host: Host) {
    && fn in files && files[fn].parses && files[fn].compiles
    && Served(files[fn].imports, fn, host, before)
    && CallsServed(files[fn].body, fn, files, host, before)
  }

  /** Every require() up to the first guarded one is served, and the script ends normally if there is none. */
  ghost predicate CallsServed(body: Body, fn: Name, files: map<Name, Script>, host: Host, ms: seq<Module>) {
    match body
    case Finish(returned) => returned.Some?
    case Call(name, mustExist, ifDone, ifThrown) =>
      ifThrown == Finish(None) ==>
        && CallServed(name, mustExist, fn, files, host, ms)
        && CallsServed(ifDone, fn, files, host, ms)
  }

  ghost predicate CallServed(name: Name, mustExist: bool, fn: Name, files: map<Name, Script>, host: Host,
                             ms: seq<Module>) {
    var early, to := Early(host, name, mustExist), host.resolve(name, Some(fn));
    if early.Some? then early.value else Find(ms, to).Some? || (to !in files && !mustExist)
  }

  /** No script guards a require(): the files form a plain dependency graph. */
  ghost predicate Plain(files: map<Name, Script>) {
    forall f :: f in files ==> Unguarded(files[f].body)
  }

  ghost predicate Unguarded(body: Body) {
    body.Call? ==> body.ifThrown == Finish(None) && Unguarded(body.ifDone)
  }

  /** Plain files, and the running scripts are among them. */
  ghost predicate Regular(files: map<Name, Script>, run: seq<Name>) {
    Plain(files) && forall f :: f in run ==> f in files
  }

  ghost function Waiting(files: map<Name, Script>, run: seq<Name>): (s: set<Name>) {
    files.Keys - set f | f in run
  }

  /** What a require() ought to answer when the scripts of run are being executed, whatever is loaded. */
  ghost predicate Succeeds(name: Name, mustExist: bool, run: seq<Name>, files: map<Name, Script>, host: Host)
    decreases Waiting(files, run), 1, Finish(None)
  {
    var fn := host.resolve(name, Top(run));
    && fn !in run && host.permitted(name)
    && if fn in files then Good(fn, run, files, host) else !mustExist
  }

  ghost predicate Good(fn: Name, run: seq<Name>, files: map<Name, Script>, host: Host)
    requires fn in files && fn !in run
    decreases Waiting(files, run), 0, Finish(None)
  {
    assert fn in Waiting(files, run) && fn !in Waiting(files, run + [fn]);
    && files[fn].parses && files[fn].compiles
    && LinesGood(files[fn].imports, run + [fn], files, host)
    && RunGood(files[fn].body, run + [fn], files, host)
  }

  ghost predicate LinesGood(imports: seq<Import>, run: seq<Name>, files: map<Name, Script>, host: Host)
    decreases Waiting(files, run), 3, Finish(None)
  {
    forall k :: 0 <= k < |imports| ==> LineGood(imports[k], run, files, host)
  }

  ghost predicate LineGood(line: Import, run: seq<Name>, files: map<Name, Script>, host: Host)
    decreases Waiting(files, run), 2, Finish(None)
  {
    && host.permitted(line.name) && line.merges
    && (line.name in host.natives || Succeeds(line.name, true, run, files, host))
  }

  ghost predicate CallGood(name: Name, mustExist: bool, run: seq<Name>, files: map<Name, Script>, host: Host)
    decreases Waiting(files, run), 2, Finish(None)
  {
    var early := Early(host, name, mustExist);
    if early.Some? then early.value else Succeeds(name, mustExist, run, files, host)
  }

  ghost predicate RunGood(body: Body, run: seq<Name>, files: map<Name, Script>, host: Host)
    decreases Waiting(files, run), 3, body
  {
    match body
    case Finish(returned) => returned.Some?
    case Call(name, mustExist, ifDone, ifThrown) =>
      if CallGood(name, mustExist, run, files, host) then RunGood(ifDone, run, files, host)
      else RunGood(ifThrown, run, files, host)
  }

  /** A file of a well ordered list would load under any running scripts that are not in the list up to it. */
  lemma {:induction false} OrderedIsGood(ms: seq<Module>, i: nat, run: seq<Name>, files: map<Name, Script>, host: Host)
    requires Ordered(ms, files, host) && OneEach(ms) && Regular(files, run) && i < |ms|
    requires forall j :: 0 <= j <= i ==> ms[j].fn !in run
    ensures ms[i].fn in files && Good(ms[i].fn, run, files, host)
    decreases i, 2
  {
    hide Served, CallsServed, LineGood, RunGood;
    var fn := ms[i].fn;
    assert OrderedAt(fn, ms[..i], files, host);
    forall k | 0 <= k < |files[fn].imports| ensures LineGood(files[fn].imports[k], run + [fn], files, host) {
      LineIsGood(ms, i, run, files, host, k);
    }
    CallsAreGood(ms, i, run, files, host, files[fn].body);
  }

  lemma {:induction false} LineIsGood(ms: seq<Module>, i: nat, run: seq<Name>, files: map<Name, Script>, host: Host,
                                      k: nat)
    requires Ordered(ms, files, host) && OneEach(ms) && Regular(files, run) && i < |ms|
    requires forall j :: 0 <= j <= i ==> ms[j].fn !in run
    requires OrderedAt(ms[i].fn, ms[..i], files, host) && k < |files[ms[i].fn].imports|
    ensures LineGood(files[ms[i].fn].imports[k], run + [ms[i].fn], files, host)
    decreases i, 1
  {
    hide Ordered, CallsServed, Good, Plain;
    var fn := ms[i].fn;
    var line := files[fn].imports[k];
    assert ServedLine(line, fn, host, ms[..i]);
    var to := host.resolve(line.name, Some(fn));
    if line.name !in host.natives {
      FoundIsGood(ms, i, run, files, host, to);
    }
  }

  lemma {:induction false} CallsAreGood(ms: seq<Module>, i: nat, run: seq<Name>, files: map<Name, Script>, host: Host,
                                        body: Body)
    requires Ordered(ms, files, host) && OneEach(ms) && Regular(files, run) && i < |ms|
    requires forall j :: 0 <= j <= i ==> ms[j].fn !in run
    requires Unguarded(body) && CallsServed(body, ms[i].fn, files, host, ms[..i])
    ensures RunGood(body, run + [ms[i].fn], files, host)
    decreases i, 1, body
  {
    hide Ordered, Good, Plain;
    var fn := ms[i].fn;
    OrderedFile(ms, i, files, host);
    if body.Call? {
      var to := host.resolve(body.name, Some(fn));
      if Early(host, body.name, body.mustExist).None? && Find(ms[..i], to).Some? {
        FoundIsGood(ms, i, run, files, host, to);
      }
      assert CallGood(body.name, body.mustExist, run + [fn], files, host);
      CallsAreGood(ms, i, run, files, host, body.ifDone);
    }
  }

  lemma {:induction false} FoundIsGood(ms: seq<Module>, i: nat, run: seq<Name>, files: map<Name, Script>, host: Host,
                                       to: Name)
    requires Ordered(ms, files, host) && OneEach(ms) && Regular(files, run) && i < |ms|
    requires forall j :: 0 <= j <= i ==> ms[j].fn !in run
    requires Find(ms[..i], to).Some?
    ensures to !in run + [ms[i].fn] && to in files && Good(to, run + [ms[i].fn], files, host)
    decreases i, 0
  {
    hide Ordered, Good, Plain;
    var m := Find(ms[..i], to).value;
    var j :| 0 <= j < i && ms[..i][j] == m;
    assert ms[i].fn in files by { OrderedFile(ms, i, files, host); }
    OrderedIsGood(ms, j, run + [ms[i].fn], files, host);
  }

  lemma LoadedIsGood(ms: seq<Module>, fn: Name, run: seq<Name>, files: map<Name, Script>, host: Host)
    requires Ordered(ms, files, host) && OneEach(ms) && Find(ms, fn).Some? && Apart(ms, run)
    ensures fn in files && fn !in run
    ensures Regular(files, run) ==> Good(fn, run, files, host)
  {
    hide Good, Ordered;
    var i :| 0 <= i < |ms| && ms[i] == Find(ms, fn).value;
    OrderedFile(ms, i, files, host);
    if Regular(files, run) {
      OrderedIsGood(ms, i, run, files, host);
    }
  }

  lemma OrderedFile(ms: seq<Module>, i: nat, files: map<Name, Script>, host: Host)
    requires Ordered(ms, files, host) && i < |ms|
    ensures ms[i].fn in files
  {
    assert OrderedAt(ms[i].fn, ms[..i], files, host);
  }

  lemma {:induction false} FindGrows(ms: seq<Module>, more: seq<Module>, fn: Name)
    requires ms <= more && Find(ms, fn).Some?
    ensures Find(more, fn) == Find(ms, fn)
  {
    if ms[0].fn != fn {
      assert more[1..][..|ms| - 1] == ms[1..];
      FindGrows(ms[1..], more[1..], fn);
    }
  }

  lemma {:induction false} FindLast(ms: seq<Module>, m: Module)
    requires Find(ms, m.fn).None?
    ensures Find(ms + [m], m.fn) == Some(m)
  {
    if ms != [] {
      assert (ms + [m])[1..] == ms[1..] + [m];
      FindLast(ms[1..], m);
    }
  }

  lemma ServedGrows(imports: seq<Import>, fn: Name, host: Host, ms: seq<Module>, more: seq<Module>)
    requires ms <= more && Served(imports, fn, host, ms)
    ensures Served(imports, fn, host, more)
  {
    forall k | 0 <= k < |imports| ensures ServedLine(imports[k], fn, host, more) {
      assert ServedLine(imports[k], fn, host, ms);
      var to := host.resolve(imports[k].name, Some(fn));
      if Find(ms, to).Some? {
        FindGrows(ms, more, to);
      }
    }
  }

  lemma CallServedGrows(name: Name, mustExist: bool, fn: Name, files: map<Name, Script>, host: Host, ms: seq<Module>)
    requires CallServed(name, mustExist, fn, files, host, ms)
    ensures forall more :: ms <= more ==> CallServed(name, mustExist, fn, files, host, more)
  {
    forall more | ms <= more ensures CallServed(name, mustExist, fn, files, host, more) {
      var to := host.resolve(name, Some(fn));
      if Find(ms, to).Some? {
        FindGrows(ms, more, to);
      }
    }
  }

  lemma OrderedPush(ms: seq<Module>, m: Module, files: map<Name, Script>, host: Host)
    requires Ordered(ms, files, host) && OrderedAt(m.fn, ms, files, host)
    ensures Ordered(ms + [m], files, host)
  {
    forall i | 0 <= i < |ms + [m]| ensures OrderedAt((ms + [m])[i].fn, (ms + [m])[..i], files, host) {
      if i < |ms| {
        assert (ms + [m])[..i] == ms[..i];
        assert OrderedAt(ms[i].fn, ms[..i], files, host);
      } else {
        assert (ms + [m])[..i] == ms;
      }
    }
  }

  /** Storage bookkeeping of two consecutive stretches of loading. */
  lemma StorageThen(a: seq<Module>, b: seq<Module>, c: seq<Module>, prev: seq<Module>, t: nat, u: nat)
    requires a <= b <= c && t <= u
    requires StorageKept(b, |a|, prev, t) && StorageKept(c, |b|, prev, u)
    ensures StorageKept(c, |a|, prev, t)
  {
    forall i | |a| <= i < |c| ensures StorageOf(c[i], prev, t) {
      if i < |b| {
        assert c[i] == b[i];
        assert StorageOf(b[i], prev, t);
      } else {
        assert StorageOf(c[i], prev, u);
      }
    }
  }

  /** File a needs file b: by an import line, or by a require() in front of the first guarded one. */
  ghost predicate Needs(a: Name, b: Name, files: map<Name, Script>, host: Host) {
    && a in files && b in files
    && ((exists k :: 0 <= k < |files[a].imports| && ImportsBy(files[a].imports[k], a, b, host))
        || Requires(files[a].body, a, b, host))
  }

  ghost predicate ImportsBy(line: Import, a: Name, b: Name, host: Host) {
    line.name !in host.natives && host.resolve(line.name, Some(a)) == b
  }

  ghost predicate Requires(body: Body, a: Name, b: Name, host: Host) {
    && body.Call? && body.ifThrown == Finish(None)
    && ((Early(host, body.name, body.mustExist).None? && host.resolve(body.name, Some(a)) == b)
        || Requires(body.ifDone, a, b, host))
  }

  /** What a loaded file needs is loaded before it. */
  lemma NeededIsBefore(a: Name, b: Name, before: seq<Module>, files: map<Name, Script>, host: Host)
    requires OrderedAt(a, before, files, host) && Needs(a, b, files, host)
    ensures Find(before, b).Some?
  {
    if Requires(files[a].body, a, b, host) {
      RequiredIsBefore(files[a].body, a, b, before, files, host);
    } else {
      var line: Import :| line in files[a].imports && ImportsBy(line, a, b, host);
      assert ServedLine(line, a, host, before);
    }
  }

  lemma {:induction false} RequiredIsBefore(body: Body, a: Name, b: Name, before: seq<Module>, files: map<Name, Script>,
                                            host: Host)
    requires CallsServed(body, a, files, host, before) && Requires(body, a, b, host) && b in files
    ensures Find(before, b).Some?
  {
    if !(Early(host, body.name, body.mustExist).None? && host.resolve(body.name, Some(a)) == b) {
      RequiredIsBefore(body.ifDone, a, b, before, files, host);
    }
  }

  /** Following what files need goes strictly backwards in a well ordered list. */
  lemma {:induction false} PathGoesBack(ms: seq<Module>, files: map<Name, Script>, host: Host, path: seq<Name>, i: nat)
    returns (j: nat)
    requires Ordered(ms, files, host) && i < |ms| && |path| >= 1 && ms[i].fn == path[0]
    requires forall k :: 0 <= k < |path| - 1 ==> Needs(path[k], path[k + 1], files, host)
    ensures j <= i && (|path| > 1 ==> j < i) && ms[j].fn == path[|path| - 1]
    decreases path
  {
    hide Needs;
    if |path| == 1 {
      return i;
    }
    assert Needs(path[0], path[1], files, host);
    assert OrderedAt(path[0], ms[..i], files, host);
    NeededIsBefore(path[0], path[1], ms[..i], files, host);
    var next :| 0 <= next < i && ms[..i][next] == Find(ms[..i], path[1]).value;
    forall k | 0 <= k < |path[1..]| - 1 ensures Needs(path[1..][k], path[1..][k + 1], files, host) {
      assert Needs(path[k + 1], path[k + 2], files, host);
    }
    j := PathGoesBack(ms, files, host, path[1..], next);
  }

  /** An order in which fn and all it needs can be loaded one after the other. */
  ghost predicate Schedule(ms: seq<Module>, fn: Name, files: map<Name, Script>, host: Host) {
    Ordered(ms, files, host) && OneEach(ms) && Find(ms, fn).Some?
  }

  /** A file on or in front of a cycle of imports and require() calls has no schedule. */
  lemma CycleHasNoSchedule(ms: seq<Module>, fn: Name, files: map<Name, Script>, host: Host, path: seq<Name>, at: nat)
    requires |path| >= 2 && path[0] == fn && at < |path| - 1 && path[at] == path[|path| - 1]
    requires forall k :: 0 <= k < |path| - 1 ==> Needs(path[k], path[k + 1], files, host)
    ensures !Schedule(ms, fn, files, host)
  {
    if Schedule(ms, fn, files, host) {
      var i :| 0 <= i < |ms| && ms[i] == Find(ms, fn).value;
      var enter := PathGoesBack(ms, files, host, path[..at + 1], i);
      forall k | 0 <= k < |path[at..]| - 1 ensures Needs(path[at..][k], path[at..][k + 1], files, host) {
        assert Needs(path[at + k], path[at + k + 1], files, host);
      }
      var again := PathGoesBack(ms, files, host, path[at..], enter);
      assert false;
    }
  }

  class SqModules {
    const host: Host
    var files: map<Name, Script>
    var modules: seq<Module>
    var prevModules: seq<Module>
    var running: seq<Name>
    var tables: nat

    ghost predicate Valid()
      reads this
    {
      && Distinct(running) && OneEach(modules) && Apart(modules, running)
      && Below(modules, tables) && Below(prevModules, tables)
      && Ordered(modules, files, host) && Exported(modules, files)
      && Separate(modules) && Separate(prevModules) && OneEach(prevModules) && Linked(modules, prevModules)
    }

    constructor (host: Host, files: map<Name, Script>)
      ensures Valid() && this.host == host && this.files == files
      ensures modules == [] && prevModules == [] && running == []
    {
      this.host, this.files := host, files;
      modules, prevModules, running, tables := [], [], [], 0;
    }

    /** Files that are not being loaded at the moment. */
    ghost function Idle(): (s: set<Name>)
      reads this
    {
      files.Keys - set f | f in running
    }

    /** What every part of a load keeps: the stack of running scripts is as it was, loaded modules only get more,
        none of them a running one, each with the right storage. */
    ghost predicate Kept(run: seq<Name>, mods: seq<Module>, tabs: nat)
      reads this
    {
      && Valid()
      && running == run && tables >= tabs
      && mods <= modules
      && StorageKept(modules, |mods|, prevModules, tabs)
    }

    /** checkCircularReferences. */
    method CheckCircular(fn: Name) returns (ok: bool)
      ensures ok <==> fn !in running
    {
      var i := 0;
      while i < |running|
        invariant 0 <= i <= |running| && fn !in running[..i]
      {
        if running[i] == fn {
          return false;
        }
        i := i + 1;
      }
      return true;
    }

    /** requireModule: a running file is refused, a loaded one is answered from the list, a missing one is an error
        only where it must exist; a success with an existing file leaves it loaded. */
    method Require(requested: Name, mustExist: bool) returns (ok: bool, exports: Option<nat>)
      requires Valid()
      modifies `modules, `running, `tables
      ensures Kept(old(running), old(modules), old(tables))
      ensures var fn := host.resolve(requested, Top(running));
              if fn in running || !host.permitted(requested) then !ok && modules == old(modules)
              else if Find(old(modules), fn).Some? then
                ok && modules == old(modules) && exports == Some(Find(modules, fn).value.exports)
              else if fn !in files then ok == !mustExist && exports == None && modules == old(modules)
              else (ok <==> Find(modules, fn).Some?) && (ok ==> exports == Some(Find(modules, fn).value.exports))
      ensures var fn := host.resolve(requested, Top(running));
              exports.Some? ==> ok && fn in files && exports.value in Returns(files[fn].body)
      ensures Regular(files, running) ==> (ok <==> Succeeds(requested, mustExist, running, files, host))
      decreases Idle(), 3
    {
      hide Distinct, OneEach, Apart, Below, Ordered, Good, Plain, StorageKept, StorageOf, Separate, Linked, Returns;
      StorageNone(modules, prevModules, tables);
      var fn := host.resolve(requested, Top(running));
      ok := CheckCircular(fn);
      exports := None;
      if !ok {
        return;
      }
      if !host.permitted(requested) {
        return false, None;
      }
      var found := Find(modules, fn);
      if found.Some? {
        LoadedIsGood(modules, fn, running, files, host);
        return true, Some(found.value.exports);
      }
      if fn !in files {
        return !mustExist, None;
      }
      ok, exports := Load(fn);
    }

    /** setupStateStorage. */
    method SetupStateStorage(fn: Name) returns (storage: nat)
      requires Valid()
      modifies `tables
      ensures Valid() && storage < tables && tables >= old(tables)
      ensures forall exports :: StorageOf(Module(fn, exports, storage), prevModules, old(tables))
      ensures LinkedTo(fn, storage, prevModules) && (Find(modules, fn).None? ==> Unshared(modules, storage))
    {
      hide Distinct, OneEach, Apart, Ordered, Exported, Separate;
      var i := 0;
      while i < |prevModules|
        invariant 0 <= i <= |prevModules|
        invariant Find(prevModules, fn) == Find(prevModules[i..], fn)
      {
        if prevModules[i].fn == fn {
          storage := prevModules[i].storage;
          if Find(modules, fn).None? {
            OldIsUnshared(modules, prevModules, fn, storage);
          }
          return;
        }
        i := i + 1;
      }
      storage := tables;
      tables := tables + 1;
    }

    /** The rest of requireModule for a file that exists, is not loaded and is not running. */
    method Load(fn: Name) returns (ok: bool, exports: Option<nat>)
      requires Valid() && fn in files && fn !in running && Find(modules, fn).None?
      modifies `modules, `running, `tables
      ensures Kept(old(running), old(modules), old(tables))
      ensures ok == exports.Some? == Find(modules, fn).Some?
      ensures ok ==> exports == Some(Find(modules, fn).value.exports) && exports.value in Returns(files[fn].body)
      ensures Regular(files, running) ==> (ok <==> Good(fn, running, files, host))
      decreases Idle(), 2
    {
      hide Regular, LinesGood, RunGood, CallsServed, Below, Distinct, OneEach, Apart, Ordered, StorageKept, Served;
      hide StorageOf, Exported, Separate, Linked, LinkedTo, Unshared, Returns;
      var script := files[fn];
      var storage := SetupStateStorage(fn);
      exports := None;
      ok := script.parses;
      StorageNone(modules, prevModules, old(tables));
      if ok {
        ghost var start := tables;
        ok := ImportModules(fn, script.imports);
        StillUnshared(old(modules), modules, prevModules, fn, storage, start);
        StorageThen(old(modules), old(modules), modules, prevModules, old(tables), start);
      }
      if !ok || !script.compiles {
        ok := false;
        return;
      }
      ghost var imported, start := modules, tables;
      ok, exports := Run(fn, storage, old(tables));
      StorageThen(old(modules), imported, modules, prevModules, old(tables), old(tables));
    }

    /** Running a compiled file and listing it as loaded. */
    method Run(fn: Name, storage: nat, ghost start: nat) returns (ok: bool, exports: Option<nat>)
      requires Valid() && fn in files && fn !in running && Find(modules, fn).None?
      requires files[fn].parses && files[fn].compiles && Served(files[fn].imports, fn, host, modules)
      requires start <= tables && storage < tables
      requires forall e :: StorageOf(Module(fn, e, storage), prevModules, start)
      requires LinkedTo(fn, storage, prevModules) && Unshared(modules, storage)
      modifies `modules, `running, `tables
      ensures Kept(old(running), old(modules), start)
      ensures ok == exports.Some? == Find(modules, fn).Some?
      ensures ok ==> exports == Some(Find(modules, fn).value.exports) && exports.value in Returns(files[fn].body)
      ensures Regular(files, running) ==> (ok <==> RunGood(files[fn].body, running + [fn], files, host))
      decreases Idle(), 1
    {
      hide Plain, RunGood, CallsServed, Distinct, OneEach, Apart, Ordered, StorageKept, Served, StorageOf, Below;
      hide Exported, Separate, Linked, LinkedTo, Unshared, Returns;
      Enter(running, modules, fn, files.Keys);
      running := running + [fn];
      exports := RunCalls(fn, files[fn].body);
      ok := exports.Some?;
      StorageNone(old(modules), prevModules, start);
      StorageThen(old(modules), old(modules), modules, prevModules, start, old(tables));
      Leave(old(running), modules, fn);
      StillUnshared(old(modules), modules, prevModules, fn, storage, old(tables));
      ServedGrows(files[fn].imports, fn, host, old(modules), modules);
      EndRun(fn, exports, storage, old(running), old(modules), start);
    }

    /** The script has returned or thrown: what it returned is the module's exports. */
    method EndRun(fn: Name, value: Option<nat>, storage: nat, ghost run: seq<Name>, ghost mods: seq<Module>,
                  ghost start: nat)
      requires Valid() && running == run + [fn] && mods <= modules && start <= tables && storage < tables
      requires fn in files && files[fn].parses && files[fn].compiles && Served(files[fn].imports, fn, host, modules)
      requires StorageKept(modules, |mods|, prevModules, start)
      requires forall e :: StorageOf(Module(fn, e, storage), prevModules, start)
      requires LinkedTo(fn, storage, prevModules) && Unshared(modules, storage)
      requires value.Some? ==>
                 && CallsServed(files[fn].body, fn, files, host, modules)
                 && value.value in Returns(files[fn].body)
      modifies `modules, `running
      ensures Kept(run, mods, start) && value.Some? == Find(modules, fn).Some?
      ensures value.Some? ==> Find(modules, fn).value.exports == value.value
    {
      hide Plain, CallsServed, Distinct, OneEach, Apart, Ordered, StorageKept, Served, StorageOf, Below;
      hide Exported, Separate, Linked, LinkedTo, Unshared, Returns;
      hide Find, OrderedAt;
      Leave(run, modules, fn);
      if value.Some? {
        var m := Module(fn, value.value, storage);
        assert StorageOf(m, prevModules, start);
        IsOrderedAt(fn, modules, files, host);
        Listed(run, mods, modules, m, prevModules, start, tables, files, host);
        modules := modules + [m];
      }
      running := running[..|running| - 1];
      assert running == run;
    }

    /** importModules: the importing file counts as running while its imports are loaded; success leaves every line
        served. */
    method ImportModules(fn: Name, imports: seq<Import>) returns (ok: bool)
      requires Valid() && fn in files && fn !in running && Find(modules, fn).None?
      modifies `modules, `running, `tables
      ensures Kept(old(running), old(modules), old(tables)) && Find(modules, fn).None?
      ensures ok ==> Served(imports, fn, host, modules)
      ensures Regular(files, running) ==> (ok <==> LinesGood(imports, running + [fn], files, host))
      decreases Idle(), 1
    {
      hide Plain, LineGood, Distinct, OneEach, Apart, Below, Ordered, StorageKept, ServedLine, StorageOf;
      hide Exported, Separate, Linked, Returns;
      StorageNone(modules, prevModules, tables);
      if |imports| == 0 {
        return true;
      }
      Enter(running, modules, fn, files.Keys);
      running := running + [fn];
      ok := true;
      var i := 0;
      while i < |imports| && ok
        invariant 0 <= i <= |imports|
        invariant Kept(old(running) + [fn], old(modules), old(tables))
        invariant ok ==> Served(imports[..i], fn, host, modules)
        invariant Regular(files, old(running)) ==> (ok <==> LinesGood(imports[..i], running, files, host))
      {
        ghost var before, start := modules, tables;
        assert imports[..i + 1] == imports[..i] + [imports[i]];
        ok := ImportLine(fn, imports[i]);
        StorageThen(old(modules), before, modules, prevModules, old(tables), start);
        if ok {
          ServedGrows(imports[..i], fn, host, before, modules);
        }
        i := i + 1;
      }
      assert ok ==> imports[..i] == imports;
      Leave(old(running), modules, fn);
      running := running[..|running| - 1];
      assert running == old(running);
    }

    /** One import line of the file on top of the stack. */
    method ImportLine(ghost fn: Name, line: Import) returns (ok: bool)
      requires Valid() && Top(running) == Some(fn)
      modifies `modules, `running, `tables
      ensures Kept(old(running), old(modules), old(tables))
      ensures ok ==> ServedLine(line, fn, host, modules)
      ensures Regular(files, running) ==> (ok <==> LineGood(line, running, files, host))
      decreases Idle(), 4
    {
      hide Regular, Succeeds, Distinct, OneEach, Apart, Below, Ordered, StorageKept, StorageOf;
      hide Exported, Separate, Linked, Returns;
      StorageNone(modules, prevModules, tables);
      if !host.permitted(line.name) {
        return false;
      }
      if line.name !in host.natives {
        var exports;
        ok, exports := Require(line.name, true);
        if !ok {
          return;
        }
      }
      ok := line.merges;
    }

    /** sqRequire, a script's own require() or require_optional(): native modules come first, if the host lets it look
        there. */
    method ScriptRequire(ghost fn: Name, name: Name, mustExist: bool) returns (ok: bool)
      requires Valid() && Top(running) == Some(fn)
      modifies `modules, `running, `tables
      ensures Kept(old(running), old(modules), old(tables))
      ensures ok ==> CallServed(name, mustExist, fn, files, host, modules)
      ensures Regular(files, running) ==> (ok <==> CallGood(name, mustExist, running, files, host))
      ensures Early(host, name, mustExist).Some? ==>
                ok == Early(host, name, mustExist).value && modules == old(modules)
      decreases Idle(), 4
    {
      hide Regular, Succeeds, Distinct, OneEach, Apart, Below, Ordered, StorageKept, StorageOf;
      hide Exported, Separate, Linked, Returns;
      StorageNone(modules, prevModules, tables);
      if name == NATIVE_LIST {
        return true;
      }
      if !host.permitted(name) {
        return false;
      }
      if host.searchNative(name) && name in host.natives {
        return true;
      }
      if !host.searchScript(name) {
        return !mustExist;
      }
      var exports;
      ok, exports := Require(name, mustExist);
    }

    /** The require() calls of the script on top of the stack. */
    method RunCalls(ghost fn: Name, script: Body) returns (value: Option<nat>)
      requires Valid() && Top(running) == Some(fn)
      modifies `modules, `running, `tables
      ensures Kept(old(running), old(modules), old(tables))
      ensures value.Some? ==> CallsServed(script, fn, files, host, modules) && value.value in Returns(script)
      ensures Regular(files, running) ==> (value.Some? <==> RunGood(script, running, files, host))
      decreases Idle(), 5
    {
      hide Distinct, OneEach, Apart, Below, Ordered, StorageKept, StorageOf, Regular, CallGood, CallServed, Exported;
      hide Separate, Linked;
      StorageNone(modules, prevModules, tables);
      var body := script;
      while body.Call?
        invariant Kept(old(running), old(modules), old(tables))
        invariant forall more :: modules <= more && CallsServed(body, fn, files, host, more) ==>
                                   CallsServed(script, fn, files, host, more)
        invariant Regular(files, running) ==>
                    RunGood(body, running, files, host) == RunGood(script, running, files, host)
        invariant Returns(body) <= Returns(script)
        decreases body
      {
        ghost var before, start := modules, tables;
        var done := ScriptRequire(fn, body.name, body.mustExist);
        StorageThen(old(modules), before, modules, prevModules, old(tables), start);
        if done {
          CallServedGrows(body.name, body.mustExist, fn, files, host, modules);
        }
        body := if done then body.ifDone else body.ifThrown;
      }
      value := body.returned;
    }

    /** requireModule called by the host: without guarded calls, it succeeds exactly when the file has a schedule. */
    method RequireFromHost(requested: Name) returns (ok: bool, exports: Option<nat>)
      requires Valid() && running == []
      modifies `modules, `running, `tables
      ensures Kept([], old(modules), old(tables))
      ensures var fn := host.resolve(requested, None);
              Plain(files) ==> (ok <==> host.permitted(requested) && exists ms :: Schedule(ms, fn, files, host))
    {
      hide Distinct, Apart, Below, Plain, StorageKept, StorageOf, Ordered, OneEach, Good;
      hide Exported, Separate, Linked, Returns;
      ghost var fn := host.resolve(requested, None);
      ok, exports := Require(requested, true);
      if ok {
        assert Schedule(modules, fn, files, host);
      } else if ms :| Schedule(ms, fn, files, host) {
        NoneRunning(ms);
        LoadedIsGood(ms, fn, [], files, host);
      }
    }

    /** reloadAll, the files being what they are by then: the new generation is built from nothing, every file of it
        that was loaded before keeps its state storage, and success means that every old file is loaded again.  Without
        guarded calls it succeeds exactly when each of them would load, and each that would is loaded. */
    method ReloadAll(newFiles: map<Name, Script>) returns (ok: bool)
      requires Valid() && prevModules == []
      modifies this
      ensures Valid() && files == newFiles && running == old(running) && prevModules == []
      ensures forall m :: m in modules ==> StorageOf(m, old(modules), old(tables))
      ensures ok ==> Reloaded(old(modules), running, host, modules)
      ensures Regular(newFiles, running) ==>
                && (ok <==> forall m :: m in old(modules) ==> Succeeds(m.fn, true, running, newFiles, host))
                && Regained(old(modules), running, newFiles, host, modules)
    {
      hide Distinct, OneEach, Apart, Below, Ordered, StorageKept, StorageOf, Reloaded, Succeeds, Regular, Regained;
      hide Exported, Separate, Linked, Returns;
      prevModules, modules, files := modules, [], newFiles;
      ok := true;
      NothingLoaded(files, host, running, tables);
      ReloadedStep([], old(modules)[..0], running, host, modules);
      NoneRegained(running, newFiles, host, modules);
      var i := 0;
      StorageNone(modules, prevModules, tables);
      while i < |prevModules|
        invariant 0 <= i <= |prevModules|
        invariant prevModules == old(modules) && files == newFiles
        invariant Kept(old(running), [], old(tables))
        invariant ok ==> Reloaded(old(modules)[..i], running, host, modules)
        invariant Regular(newFiles, running) ==>
                    && (ok <==> forall m :: m in old(modules)[..i] ==> Succeeds(m.fn, true, running, newFiles, host))
                    && Regained(old(modules)[..i], running, newFiles, host, modules)
      {
        ghost var before, start := modules, tables;
        assert old(modules)[..i + 1] == old(modules)[..i] + [prevModules[i]];
        var done, _ := Require(prevModules[i].fn, true);
        StorageThen([], before, modules, prevModules, old(tables), start);
        if !done {
          ok := false;
        }
        if ok {
          ReloadedGrows(old(modules)[..i], running, host, before, modules);
          ReloadedStep(old(modules)[..i], old(modules)[..i + 1], running, host, modules);
        }
        if Regular(newFiles, running) {
          RegainedStep(old(modules)[..i], prevModules[i], running, newFiles, host, before, modules);
        }
        i := i + 1;
      }
      assert old(modules)[..i] == old(modules);
      StorageAll(modules, prevModules, old(tables));
      NothingLoaded(files, host, running, tables);
      prevModules := [];
    }
  }

  ghost predicate Reloaded(olds: seq<Module>, running: seq<Name>, host: Host, ms: seq<Module>) {
    forall m :: m in olds ==> host.permitted(m.fn) && Find(ms, host.resolve(m.fn, Top(running))).Some?
  }

  /** Every old module whose file would load now is loaded. */
  ghost predicate Regained(olds: seq<Module>, running: seq<Name>, files: map<Name, Script>, host: Host,
                           ms: seq<Module>) {
    forall m :: m in olds && Succeeds(m.fn, true, running, files, host) ==>
                  Find(ms, host.resolve(m.fn, Top(running))).Some?
  }

  lemma NoneRegained(running: seq<Name>, files: map<Name, Script>, host: Host, ms: seq<Module>)
    ensures Regained([], running, files, host, ms)
  {
  }

  lemma RegainedStep(olds: seq<Module>, m: Module, running: seq<Name>, files: map<Name, Script>, host: Host,
                     ms: seq<Module>, more: seq<Module>)
    requires Regained(olds, running, files, host, ms) && ms <= more
    requires Succeeds(m.fn, true, running, files, host) ==> Find(more, host.resolve(m.fn, Top(running))).Some?
    ensures Regained(olds + [m], running, files, host, more)
  {
    hide Succeeds;
    forall x | x in olds && Succeeds(x.fn, true, running, files, host)
      ensures Find(more, host.resolve(x.fn, Top(running))).Some?
    {
      FindGrows(ms, more, host.resolve(x.fn, Top(running)));
    }
  }

  lemma ReloadedGrows(olds: seq<Module>, running: seq<Name>, host: Host, ms: seq<Module>, more: seq<Module>)
    requires ms <= more && Reloaded(olds, running, host, ms)
    ensures Reloaded(olds, running, host, more)
  {
    forall m | m in olds ensures Find(more, host.resolve(m.fn, Top(running))).Some? {
      FindGrows(ms, more, host.resolve(m.fn, Top(running)));
    }
  }

  lemma ReloadedStep(olds: seq<Module>, next: seq<Module>, running: seq<Name>, host: Host, ms: seq<Module>)
    requires next == [] ||
             (Reloaded(olds, running, host, ms) && |next| == |olds| + 1 && olds <= next
              && (var m := next[|olds|]; host.permitted(m.fn) && Find(ms, host.resolve(m.fn, Top(running))).Some?))
    ensures Reloaded(next, running, host, ms)
  {
    assert next != [] ==> next == olds + [next[|olds|]];
  }

  lemma NothingLoaded(files: map<Name, Script>, host: Host, running: seq<Name>, tables: nat)
    ensures Ordered([], files, host) && OneEach([]) && Apart([], running) && Below([], tables)
    ensures Exported([], files) && Separate([]) && forall ms :: Linked([], ms) && Linked(ms, [])
  {
  }

  /** The previous generation's storage of a file that is not loaded yet. */
  lemma OldIsUnshared(ms: seq<Module>, prev: seq<Module>, fn: Name, storage: nat)
    requires Linked(ms, prev) && Separate(prev) && OneEach(prev) && Find(ms, fn).None?
    requires Find(prev, fn).Some? && storage == Find(prev, fn).value.storage
    ensures Unshared(ms, storage)
  {
    forall m | m in ms ensures m.storage != storage {
      assert LinkedTo(m.fn, m.storage, prev);
    }
  }

  /** Files loaded later do not take a storage that was given out. */
  lemma StillUnshared(before: seq<Module>, ms: seq<Module>, prev: seq<Module>, fn: Name, storage: nat, tables: nat)
    requires before <= ms && Unshared(before, storage) && StorageKept(ms, |before|, prev, tables)
    requires storage < tables && LinkedTo(fn, storage, prev) && Find(ms, fn).None? && Separate(prev) && OneEach(prev)
    ensures Unshared(ms, storage)
  {
    forall m | m in ms ensures m.storage != storage {
      var i :| 0 <= i < |ms| && ms[i] == m;
      if i < |before| {
        assert m == before[i];
      } else {
        assert StorageOf(ms[i], prev, tables);
      }
    }
  }

  lemma Exports(ms: seq<Module>, m: Module, files: map<Name, Script>, prev: seq<Module>)
    requires Exported(ms, files) && Separate(ms) && Linked(ms, prev) && Unshared(ms, m.storage)
    requires m.fn in files && m.exports in Returns(files[m.fn].body) && LinkedTo(m.fn, m.storage, prev)
    ensures Exported(ms + [m], files) && Separate(ms + [m]) && Linked(ms + [m], prev)
  {
    hide Returns, LinkedTo;
  }

  lemma NoneRunning(ms: seq<Module>)
    ensures Apart(ms, [])
  {
  }

  lemma StorageAll(ms: seq<Module>, prev: seq<Module>, tables: nat)
    requires StorageKept(ms, 0, prev, tables)
    ensures forall m :: m in ms ==> StorageOf(m, prev, tables)
  {
    hide StorageOf;
  }

  lemma StorageNone(ms: seq<Module>, prev: seq<Module>, tables: nat)
    ensures StorageKept(ms, |ms|, prev, tables)
  {
  }

  lemma Enter(running: seq<Name>, ms: seq<Module>, fn: Name, keys: set<Name>)
    requires Distinct(running) && Apart(ms, running) && fn !in running && Find(ms, fn).None? && fn in keys
    ensures Distinct(running + [fn]) && Apart(ms, running + [fn])
    ensures keys - (set f | f in running + [fn]) < keys - (set f | f in running)
  {
    assert fn in keys - (set f | f in running);
  }

  lemma Leave(running: seq<Name>, ms: seq<Module>, fn: Name)
    requires Distinct(running + [fn]) && Apart(ms, running + [fn])
    ensures Distinct(running) && Apart(ms, running) && Find(ms, fn).None?
  {
    forall i, j | 0 <= i < j < |running| ensures running[i] != running[j] {
      assert running[i] == (running + [fn])[i] && running[j] == (running + [fn])[j];
    }
    assert (running + [fn])[|running|] == fn;
    assert forall f :: f in running ==> f in running + [fn];
  }

  lemma NotBelow(running: seq<Name>, fn: Name)
    requires Distinct(running + [fn])
    ensures fn !in running
  {
    assert (running + [fn])[|running|] == fn;
    assert forall i :: 0 <= i < |running| ==> (running + [fn])[i] == running[i];
  }

  lemma IsOrderedAt(fn: Name, before: seq<Module>, files: map<Name, Script>, host: Host)
    requires fn in files && files[fn].parses && files[fn].compiles && Served(files[fn].imports, fn, host, before)
    requires CallsServed(files[fn].body, fn, files, host, before)
    ensures OrderedAt(fn, before, files, host)
  {
  }

  /** Everything a new module has to fulfil. */
  lemma Listed(run: seq<Name>, start: seq<Module>, ms: seq<Module>, m: Module, prev: seq<Module>, t: nat, tables: nat,
               files: map<Name, Script>, host: Host)
    requires Distinct(run + [m.fn]) && OneEach(ms) && Find(ms, m.fn).None? && Apart(ms, run) && start <= ms
    requires StorageKept(ms, |start|, prev, t) && StorageOf(m, prev, t)
    requires Below(ms, tables) && Below(prev, tables) && m.storage < tables
    requires Ordered(ms, files, host) && OrderedAt(m.fn, ms, files, host)
    requires Exported(ms, files) && Separate(ms) && Linked(ms, prev) && Unshared(ms, m.storage)
    requires m.fn in files && m.exports in Returns(files[m.fn].body) && LinkedTo(m.fn, m.storage, prev)
    ensures OneEach(ms + [m]) && Apart(ms + [m], run) && StorageKept(ms + [m], |start|, prev, t)
    ensures Below(ms + [m], tables) && Ordered(ms + [m], files, host)
    ensures Exported(ms + [m], files) && Separate(ms + [m]) && Linked(ms + [m], prev)
    ensures Find(ms + [m], m.fn) == Some(m)
  {
    hide Distinct, OneEach, Apart, Ordered, OrderedAt, StorageKept, StorageOf, Below, Exported, Separate, Linked;
    hide LinkedTo, Unshared, Returns, Find;
    NotBelow(run, m.fn);
    OrderedPush(ms, m, files, host);
    Pushed(run, start, ms, m, prev, t);
    BelowPush(ms, m, prev, tables, tables);
    Exports(ms, m, files, prev);
    FindLast(ms, m);
  }

  lemma BelowPush(ms: seq<Module>, m: Module, prev: seq<Module>, t: nat, u: nat)
    requires Below(ms, t) && Below(prev, t) && t <= u && m.storage < u
    ensures Below(ms + [m], u) && Below(prev, u)
  {
  }

  lemma Pushed(running: seq<Name>, start: seq<Module>, ms: seq<Module>, m: Module, prev: seq<Module>, tables: nat)
    requires OneEach(ms) && Find(ms, m.fn).None? && Apart(ms, running) && m.fn !in running && start <= ms
    requires StorageKept(ms, |start|, prev, tables) && StorageOf(m, prev, tables)
    ensures OneEach(ms + [m]) && Apart(ms + [m], running) && StorageKept(ms + [m], |start|, prev, tables)
  {
    hide StorageOf;
  }
}
