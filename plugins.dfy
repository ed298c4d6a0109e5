/**
  The plugin registry: which script files become plugins, the names derived from a
  file name, the checks a plugin module must pass, the host and name tables, the
  options word handed to a plugin's parse(), and initPlugins, which fills the
  fixed-size plugin array in directory-listing order.

  A Python module is given by the attributes it defines (`Modules` maps the name of
  every importable module to its attributes); importing it and reading an attribute
  are lookups in that map.
*/
module Plugins {
  import opened Wrappers
  import opened PyObjects
  import opened QtStrings

  /** The length of the static plugin array. */
  const ArraySize: nat := 128

  /** Files that load a plugin: plugin_*.py. */
  predicate IsPluginFile(f: string) {
    StartsWith(f, "plugin_") && EndsWith(f, ".py")
  }

  /** Files named in the inventory message: plugin_*.py and res_*.py. */
  predicate IsListed(f: string) {
    (StartsWith(f, "plugin_") || StartsWith(f, "res_")) && EndsWith(f, ".py")
  }

  /** filename.section('.', 0, 0): the module to import. */
  function ModuleName(filename: string): string {
    SectionFirst(filename, ".")
  }

  /** moduleName.section('_', 1): the name the plugin is known by. */
  function PluginName(moduleName: string): string {
    SectionRest(moduleName, "_")
  }

  /** For a plugin file plugin_<n>.py whose <n> has no dot, the module is plugin_<n> and the plugin <n>. */
  lemma {:induction false} NamesOfPluginFile(n: string)
    requires '.' !in n
    ensures ModuleName("plugin_" + n + ".py") == "plugin_" + n
    ensures PluginName("plugin_" + n) == n
  {
    var m := "plugin_" + n;
    assert '.' !in m by {
      forall k | 0 <= k < |m| ensures m[k] != '.' {
        if k >= 7 { assert m[k] == n[k - 7]; }
      }
    }
    assert "plugin_" + n + ".py" == m + ['.'] + "py";
    SectionOfJoin(m, '.', "py");
    assert m == "plugin" + ['_'] + n;
    SectionOfJoin("plugin", '_', n);
  }

  /** The module of a plugin_ file still starts with plugin_: no dot occurs in that prefix. */
  lemma ModuleKeepsPrefix(f: string)
    requires StartsWith(f, "plugin_")
    ensures StartsWith(ModuleName(f), "plugin_")
  {
    forall j: nat | j < 7 ensures !OccursAt(f, ".", j) {
      assert f[j..j + 1][0] == f[j] == "plugin_"[j];
    }
    var r := ModuleName(f);
    if IndexOf(f, ".").Some? {
      assert IndexOf(f, ".").value >= 7;
    }
    assert |r| >= 7;
    assert r[..7] == f[..7];
  }

  /** The modules initPlugins imports, in list order: one per plugin file. */
  function PluginModules(files: seq<string>): seq<string> {
    if files == [] then []
    else if IsPluginFile(files[0]) then [ModuleName(files[0])] + PluginModules(files[1..])
    else PluginModules(files[1..])
  }

  /** Each module imported comes from a plugin file and keeps its plugin_ prefix. */
  lemma {:induction false} PluginModulesArePlugins(files: seq<string>)
    ensures |PluginModules(files)| <= |files|
    ensures forall m :: m in PluginModules(files) ==> StartsWith(m, "plugin_")
  {
    if files != [] {
      PluginModulesArePlugins(files[1..]);
      if IsPluginFile(files[0]) {
        ModuleKeepsPrefix(files[0]);
      }
    }
  }

  /** Loading the concatenated listing loads the first directory's plugins, then the second's. */
  lemma {:induction false} PluginModulesAppend(a: seq<string>, b: seq<string>)
    ensures PluginModules(a + b) == PluginModules(a) + PluginModules(b)
  {
    if a != [] {
      assert (a + b)[0] == a[0];
      assert (a + b)[1..] == a[1..] + b;
      PluginModulesAppend(a[1..], b);
    } else {
      assert a + b == b;
    }
  }

  /** Every file of a listing made only of plugin files yields one module. */
  lemma {:induction false} AllPluginFilesLoad(files: seq<string>)
    requires forall k :: 0 <= k < |files| ==> IsPluginFile(files[k])
    ensures |PluginModules(files)| == |files|
    ensures forall k :: 0 <= k < |files| ==> PluginModules(files)[k] == ModuleName(files[k])
  {
    if files != [] {
      AllPluginFilesLoad(files[1..]);
      assert forall k :: 1 <= k < |files| ==> files[1..][k - 1] == files[k];
    }
  }

  /** A res_ file is listed but never loads a plugin. */
  lemma ResourceFilesDoNotLoad(f: string)
    requires StartsWith(f, "res_") && EndsWith(f, ".py")
    ensures IsListed(f) && !IsPluginFile(f)
    ensures PluginModules([f]) == []
  {
    assert f[0] == 'r';
  }

  /** The lines of the inventory message for one directory listing: each listed file, then a newline and indentation. */
  function Inventory(files: seq<string>): string {
    if files == [] then ""
    else Inventory(files[..|files| - 1]) + (if IsListed(files[|files| - 1]) then files[|files| - 1] + "\n    " else "")
  }

  lemma {:induction false} InventoryAppend(a: seq<string>, b: seq<string>)
    ensures Inventory(a + b) == Inventory(a) + Inventory(b)
    decreases |b|
  {
    if b == [] {
      assert a + b == a;
    } else {
      var n := |b| - 1;
      assert (a + b)[..|a + b| - 1] == a + b[..n];
      assert (a + b)[|a + b| - 1] == b[n];
      InventoryAppend(a, b[..n]);
    }
  }

  /** A single listed file appears as one indented line; any other file not at all. */
  lemma InventoryOfOne(f: string)
    ensures Inventory([f]) == if IsListed(f) then f + "\n    " else ""
  {
    assert [f][..0] == [];
  }

  /** plugins_msg on a non-Windows system. */
  function PluginsMessage(systemFiles: seq<string>, userFiles: seq<string>): string {
    "System plugins:\n    " + Inventory(systemFiles) + "\nPlugins installed by user:\n    " + Inventory(userFiles)
  }

  // ---------------------------------------------------------------------------
  // Plugin modules

  type Modules = map<string, map<string, PyValue>>

  /** Why a plugin load ends the program (exit(-1) / exit(EXIT_FAILURE) in the source). */
  datatype Fatal =
    | ImportFailed(moduleName: string)
    | MissingParse(moduleName: string)
    | MissingSearch(moduleName: string)
    | HostsNotTuple(moduleName: string)
    | TooManyPlugins

  /** What constructing a Plugin reads from its module. */
  datatype PluginSpec = PluginSpec(
    moduleName: string,
    name: string,
    parseFunc: PyValue,
    searchFunc: PyValue,
    searchAlbumFunc: Option<PyValue>,
    hosts: seq<string>)

  /** The table key for one item of the hosts tuple: the string's buffer read as a C string, so it ends at
      the first NUL; a non-string converts to a null char pointer, the empty key. */
  function HostKey(v: PyValue): string {
    if v.PyStr? then CString(v.s) else ""
  }

  /** The table keys of the hosts tuple, item by item. */
  function HostKeys(items: seq<PyValue>): (r: seq<string>)
  {
    seq(|items|, k requires 0 <= k < |items| => HostKey(items[k]))
  }

  /** Plugin::Plugin up to registration: import, then parse, search, search_album and hosts, in that order. */
  function LoadModule(moduleName: string, modules: Modules): Result<PluginSpec, Fatal> {
    if moduleName !in modules then Failure(ImportFailed(moduleName))
    else
      var attrs := modules[moduleName];
      if "parse" !in attrs then Failure(MissingParse(moduleName))
      else if "search" !in attrs then Failure(MissingSearch(moduleName))
      else if "hosts" in attrs && !attrs["hosts"].PyTuple? then Failure(HostsNotTuple(moduleName))
      else Success(PluginSpec(
        moduleName,
        PluginName(moduleName),
        attrs["parse"],
        attrs["search"],
        if "search_album" in attrs then Some(attrs["search_album"]) else None,
        if "hosts" in attrs then HostKeys(attrs["hosts"].elems) else []))
  }

  /** The fatal cases are exactly a missing module, parse or search, or a hosts value that is not a tuple;
      a missing search_album or hosts is tolerated, and the first check that fails names the error. */
  lemma LoadModuleOutcome(moduleName: string, modules: Modules)
    ensures var r := LoadModule(moduleName, modules);
      && (r.Failure? <==>
           || moduleName !in modules
           || "parse" !in modules[moduleName]
           || "search" !in modules[moduleName]
           || ("hosts" in modules[moduleName] && !modules[moduleName]["hosts"].PyTuple?))
      && (moduleName !in modules ==> r == Failure(ImportFailed(moduleName)))
      && (r.Success? ==>
           var attrs := modules[moduleName];
           && r.value.moduleName == moduleName
           && r.value.name == PluginName(moduleName)
           && r.value.parseFunc == attrs["parse"]
           && r.value.searchFunc == attrs["search"]
           && (r.value.searchAlbumFunc.None? <==> "search_album" !in attrs)
           && ("hosts" !in attrs ==> r.value.hosts == [])
           && ("hosts" in attrs ==>
                 && |r.value.hosts| == |attrs["hosts"].elems|
                 && forall k :: 0 <= k < |r.value.hosts| ==> r.value.hosts[k] == HostKey(attrs["hosts"].elems[k])))
  {

  }

  /** A host "a", NUL, "b" is registered under "a". */
  lemma HostEndsAtNul(moduleName: string, modules: Modules)
    requires moduleName in modules
    requires "parse" in modules[moduleName] && "search" in modules[moduleName]
    requires "hosts" in modules[moduleName]
    requires modules[moduleName]["hosts"] == PyTuple([PyStr(['a', '\0', 'b'])])
    ensures LoadModule(moduleName, modules).Success?
    ensures LoadModule(moduleName, modules).value.hosts == ["a"]
  {
    var c := CString(['a', '\0', 'b']);
    assert c == "a";
  }

  /** Loading the given modules in order into `room` free slots: the first failure ends it. */
  function LoadAll(mods: seq<string>, modules: Modules, room: nat): Result<seq<PluginSpec>, Fatal> {
    if mods == [] then Success([])
    else if room == 0 then Failure(TooManyPlugins)
    else match LoadModule(mods[0], modules)
      case Failure(e) => Failure(e)
      case Success(spec) => Prepend([spec], LoadAll(mods[1..], modules, room - 1))
  }

  /** Successful loads of the rest, preceded by those already made. */
  function Prepend(done: seq<PluginSpec>, rest: Result<seq<PluginSpec>, Fatal>): Result<seq<PluginSpec>, Fatal> {
    match rest
    case Success(s) => Success(done + s)
    case Failure(e) => Failure(e)
  }

  /** Loading succeeds exactly when every module fits and loads, and then yields each module's plugin in order. */
  lemma {:induction false} LoadAllOutcome(mods: seq<string>, modules: Modules, room: nat)
    ensures var r := LoadAll(mods, modules, room);
      && (r.Success? <==> |mods| <= room && forall k :: 0 <= k < |mods| ==> LoadModule(mods[k], modules).Success?)
      && (r.Success? ==> |r.value| == |mods| && forall k :: 0 <= k < |mods| ==> LoadModule(mods[k], modules) == Success(r.value[k]))
  {
    if mods != [] && room > 0 {
      LoadAllOutcome(mods[1..], modules, room - 1);
      assert forall k :: 1 <= k < |mods| ==> mods[k] == mods[1..][k - 1];
      if LoadModule(mods[0], modules).Success? && LoadAll(mods[1..], modules, room - 1).Success? {
        var r := LoadAll(mods, modules, room);
        assert r.value[1..] == LoadAll(mods[1..], modules, room - 1).value;
      }
    }
  }

  /** A module defining only parse and search loads: search_album and hosts may be missing. */
  lemma MinimalModuleLoads(moduleName: string, parse: PyValue, search: PyValue)
    ensures var load := LoadModule(moduleName, map[moduleName := map["parse" := parse, "search" := search]]);
      && load.Success?
      && load.value.searchAlbumFunc == None
      && load.value.hosts == []
  {
    var attrs := map["parse" := parse, "search" := search];
    assert "hosts" !in attrs && "search_album" !in attrs;
  }

  /** More loadable modules than free slots: the load is refused before any slot past the end is written. */
  lemma {:induction false} LoadAllRefusesOverflow(mods: seq<string>, modules: Modules, room: nat)
    requires |mods| > room
    requires forall k :: 0 <= k < |mods| ==> LoadModule(mods[k], modules).Success?
    ensures LoadAll(mods, modules, room) == Failure(TooManyPlugins)
  {
    if room > 0 {
      assert LoadModule(mods[0], modules).Success?;
      assert forall k :: 0 <= k < |mods[1..]| ==> mods[1..][k] == mods[k + 1];
      LoadAllRefusesOverflow(mods[1..], modules, room - 1);
    }
  }

  // ---------------------------------------------------------------------------
  // The loop as written: no bound on the array

  /** The slots the loop as written stores into, from n_plugins = n on: one per module that loads,
      up to the first fatal one, never compared with the length of the array. */
  function SlotsAsWritten(mods: seq<string>, modules: Modules, n: nat): seq<nat> {
    if mods == [] then []
    else match LoadModule(mods[0], modules)
      case Failure(_) => []
      case Success(_) => [n] + SlotsAsWritten(mods[1..], modules, n + 1)
  }

  /** When every module loads, the k-th one is stored at n + k, however many there are. */
  lemma {:induction false} SlotsAsWrittenAllLoad(mods: seq<string>, modules: Modules, n: nat)
    requires forall k :: 0 <= k < |mods| ==> LoadModule(mods[k], modules).Success?
    ensures |SlotsAsWritten(mods, modules, n)| == |mods|
    ensures forall k :: 0 <= k < |mods| ==> SlotsAsWritten(mods, modules, n)[k] == n + k
  {
    if mods != [] {
      assert LoadModule(mods[0], modules).Success?;
      assert forall k :: 0 <= k < |mods[1..]| ==> mods[1..][k] == mods[k + 1];
      SlotsAsWrittenAllLoad(mods[1..], modules, n + 1);
    }
  }

  /** A plugin directory holding plugin_0.py to plugin_128.py, each defining parse and search: the
      129 file names are distinct, the loop as written stores the last plugin at index 128 of the
      128-slot array, and the bounded load refuses the listing. */
  lemma OverflowExample()
    ensures var files := NumberedFiles(ArraySize + 1);
      var modules := NumberedModules(ArraySize + 1);
      var slots := SlotsAsWritten(PluginModules(files), modules, 0);
      && (forall i, j :: 0 <= i < j < |files| ==> files[i] != files[j])
      && |slots| == ArraySize + 1
      && slots[ArraySize] == ArraySize
      && LoadAll(PluginModules(files), modules, ArraySize) == Failure(TooManyPlugins)
  {
    NumberedOverflow(ArraySize + 1);
  }

  /** Any n > 128 distinct numbered plugin files: the loop as written stores plugin k at index k, up
      to n - 1, while the bounded load refuses the listing. */
  lemma NumberedOverflow(n: nat)
    requires n > ArraySize
    ensures var files := NumberedFiles(n);
      var modules := NumberedModules(n);
      var slots := SlotsAsWritten(PluginModules(files), modules, 0);
      && (forall i, j :: 0 <= i < j < |files| ==> files[i] != files[j])
      && |slots| == n
      && (forall k :: 0 <= k < n ==> slots[k] == k)
      && LoadAll(PluginModules(files), modules, ArraySize) == Failure(TooManyPlugins)
  {
    var mods := PluginModules(NumberedFiles(n));
    NumberedFilesAreDistinct(n);
    NumberedModulesAllLoad(n);
    SlotsAsWrittenAllLoad(mods, NumberedModules(n), 0);
    LoadAllRefusesOverflow(mods, NumberedModules(n), ArraySize);
  }

  lemma NumberedFilesAreDistinct(n: nat)
    ensures var files := NumberedFiles(n);
      forall i, j :: 0 <= i < j < |files| ==> files[i] != files[j]
  {
    var files := NumberedFiles(n);
    forall i, j | 0 <= i < j < |files| ensures files[i] != files[j] {
      if files[i] == files[j] {
        NumberedFilesDistinct(i, j);
      }
    }
  }

  /** Every numbered file is a plugin file, and its module loads. */
  lemma NumberedModulesAllLoad(n: nat)
    ensures var mods := PluginModules(NumberedFiles(n));
      && |mods| == n
      && forall k :: 0 <= k < |mods| ==> LoadModule(mods[k], NumberedModules(n)).Success?
  {
    var files := NumberedFiles(n);
    forall k | 0 <= k < |files| ensures IsPluginFile(files[k]) && ModuleName(files[k]) == NumberedModule(k) {
      NumberedFileNames(k);
    }
    AllPluginFilesLoad(files);
    var mods := PluginModules(files);
    forall k | 0 <= k < |mods| ensures LoadModule(mods[k], NumberedModules(n)).Success? {
      NumberedModuleLoads(n, k);
    }
  }

  /** The listing plugin_0.py, ..., plugin_<n-1>.py. */
  function NumberedFiles(n: nat): (files: seq<string>)
    ensures |files| == n && forall k :: 0 <= k < n ==> files[k] == NumberedFile(k)
  {
    seq(n, (k: nat) => NumberedFile(k))
  }

  /** plugin_<k>.py, one of a run of distinct plugin files. */
  function NumberedFile(k: nat): string {
    "plugin_" + NatToString(k) + ".py"
  }

  function NumberedModule(k: nat): string {
    "plugin_" + NatToString(k)
  }

  /** plugin_0 to plugin_<n-1>, each defining parse and search and nothing else. */
  function NumberedModules(n: nat): Modules {
    if n == 0 then map[]
    else NumberedModules(n - 1)[NumberedModule(n - 1) := map["parse" := PyNoneValue, "search" := PyNoneValue]]
  }

  /** plugin_<k>.py is a plugin file whose module is plugin_<k>. */
  lemma NumberedFileNames(k: nat)
    ensures IsPluginFile(NumberedFile(k))
    ensures ModuleName(NumberedFile(k)) == NumberedModule(k)
  {
    var d := NatToString(k);
    assert '.' !in d;
    NamesOfPluginFile(d);
    var f := NumberedFile(k);
    assert f[..7] == "plugin_";
    assert f[|f| - 3..] == ".py";
  }

  /** Different numbers give different file names. */
  lemma NumberedFilesDistinct(i: nat, j: nat)
    requires NumberedFile(i) == NumberedFile(j)
    ensures i == j
  {
    var f := NumberedFile(i);
    assert f[7..|f| - 3] == NatToString(i);
    assert NumberedFile(j)[7..|f| - 3] == NatToString(j);
    DigitsOfNat(i);
    DigitsOfNat(j);
  }

  /** Each of plugin_0 to plugin_<n-1> is importable and loads. */
  lemma {:induction false} NumberedModuleLoads(n: nat, k: nat)
    requires k < n
    ensures NumberedModule(k) in NumberedModules(n)
    ensures LoadModule(NumberedModule(k), NumberedModules(n)).Success?
    decreases n
  {
    var attrs := map["parse" := PyNoneValue, "search" := PyNoneValue];
    assert "hosts" !in attrs;
    if NumberedModule(k) != NumberedModule(n - 1) {
      NumberedModuleLoads(n - 1, k);
    }
  }

  // ---------------------------------------------------------------------------
  // Options passed to parse()

  /** Settings::quality; Normal stands for every setting other than SUPER and HIGH. */
  datatype Quality = Normal | High | Super

  // The flag values of plugins.h, which is not part of this model: three distinct bits.
  const OptQlHigh: bv32 := 1
  const OptQlSuper: bv32 := 2
  const OptDownload: bv32 := 4

  /** The options word of Plugin::parse: the quality flag, with OPT_DOWNLOAD or-ed in for a download. */
  function Options(quality: Quality, isDown: bool): (r: bv32)
    ensures (r & OptQlSuper != 0) <==> quality == Super
    ensures (r & OptQlHigh != 0) <==> quality == High
    ensures (r & OptDownload != 0) <==> isDown
    ensures r & !(OptQlHigh | OptQlSuper | OptDownload) == 0
  {
    var options: bv32 := if quality == Super then OptQlSuper else if quality == High then OptQlHigh else 0;
    if isDown then options | OptDownload else options
  }

  /** A call of call_py_func_vsi(func, text, number). */
  datatype PyCall = PyCall(func: PyValue, text: string, number: int)

  // ---------------------------------------------------------------------------
  // Plugins

  /** A constructed plugin: its module, its name and the functions it read. Nothing in a plugin
      changes after construction, so a plugin is a value. */
  datatype Plugin = Plugin(
    pyModule: string,
    name: string,
    parseFunc: PyValue,
    searchFunc: PyValue,
    searchAlbumFunc: Option<PyValue>)
  {
    /** Plugin::parse: the plugin's parse() with the url and the options word. */
    function Parse(url: string, isDown: bool, quality: Quality): (call: PyCall)
      ensures call.func == parseFunc && call.text == url
      ensures call.number == Options(quality, isDown) as int
    {
      PyCall(parseFunc, url, Options(quality, isDown) as int)
    }

    /** Plugin::search: the plugin's search() with the keyword and the page. */
    function Search(keyword: string, page: int): PyCall {
      PyCall(searchFunc, keyword, page)
    }

    /** Plugin::searchAlbum; Q_ASSERT(searchAlbumFunc): only a plugin that defines search_album may be asked for albums. */
    function SearchAlbum(keyword: string, page: int): PyCall
      requires searchAlbumFunc.Some?
    {
      PyCall(searchAlbumFunc.value, keyword, page)
    }
  }

  /** The plugin constructed from what its module provided. */
  function PluginOf(spec: PluginSpec): Plugin {
    Plugin(spec.moduleName, spec.name, spec.parseFunc, spec.searchFunc, spec.searchAlbumFunc)
  }

  // ---------------------------------------------------------------------------
  // The host and name tables

  /** A table entry: a plugin, or None for a null pointer. */
  type Table = map<string, Option<Plugin>>

  /** The hosts loop of the constructor: host2plugin[h] = this for each host in turn. */
  function RegisterHosts(table: Table, hosts: seq<string>, p: Plugin): Table
    decreases |hosts|
  {
    if hosts == [] then table else RegisterHosts(table[hosts[0] := Some(p)], hosts[1..], p)
  }

  /** Every host of the tuple maps to the plugin; every other entry is kept. */
  lemma {:induction false} RegisterHostsEffect(table: Table, hosts: seq<string>, p: Plugin, h: string)
    ensures var r := RegisterHosts(table, hosts, p);
      && (h in r <==> h in table || h in hosts)
      && (h in hosts ==> r[h] == Some(p))
      && (h in table && h !in hosts ==> r[h] == table[h])
    decreases |hosts|
  {
    if hosts != [] {
      RegisterHostsEffect(table[hosts[0] := Some(p)], hosts[1..], p, h);
      assert h in hosts <==> h == hosts[0] || h in hosts[1..];
    }
  }

  /** host2plugin after the plugins of the given specifications were constructed, in order. */
  function HostTable(table: Table, specs: seq<PluginSpec>): Table {
    if specs == [] then table
    else
      var last := specs[|specs| - 1];
      RegisterHosts(HostTable(table, specs[..|specs| - 1]), last.hosts, PluginOf(last))
  }

  /** name2plugin after the plugins of the given specifications were constructed, in order. */
  function NameTable(table: Table, specs: seq<PluginSpec>): Table {
    if specs == [] then table
    else
      var last := specs[|specs| - 1];
      NameTable(table, specs[..|specs| - 1])[last.name := Some(PluginOf(last))]
  }

  /** The index of the last specification declaring host `h`. */
  function LastWithHost(specs: seq<PluginSpec>, h: string): (r: Option<nat>)
    ensures r.Some? ==> r.value < |specs| && h in specs[r.value].hosts
    ensures r.Some? ==> forall j :: r.value < j < |specs| ==> h !in specs[j].hosts
    ensures r.None? ==> forall j :: 0 <= j < |specs| ==> h !in specs[j].hosts
  {
    if specs == [] then None
    else if h in specs[|specs| - 1].hosts then Some(|specs| - 1)
    else LastWithHost(specs[..|specs| - 1], h)
  }

  /** The index of the last specification named `name`. */
  function LastWithName(specs: seq<PluginSpec>, name: string): (r: Option<nat>)
    ensures r.Some? ==> r.value < |specs| && specs[r.value].name == name
    ensures r.Some? ==> forall j :: r.value < j < |specs| ==> specs[j].name != name
    ensures r.None? ==> forall j :: 0 <= j < |specs| ==> specs[j].name != name
  {
    if specs == [] then None
    else if specs[|specs| - 1].name == name then Some(|specs| - 1)
    else LastWithName(specs[..|specs| - 1], name)
  }

  /** Last write wins: a host maps to the last plugin declaring it; an undeclared host keeps its old entry. */
  lemma {:induction false} HostTableLastWins(table: Table, specs: seq<PluginSpec>, h: string)
    ensures match LastWithHost(specs, h)
      case Some(k) => h in HostTable(table, specs) && HostTable(table, specs)[h] == Some(PluginOf(specs[k]))
      case None => (h in HostTable(table, specs) <==> h in table)
                   && (h in table ==> HostTable(table, specs)[h] == table[h])
  {
    if specs != [] {
      var init := specs[..|specs| - 1];
      var last := specs[|specs| - 1];
      HostTableLastWins(table, init, h);
      RegisterHostsEffect(HostTable(table, init), last.hosts, PluginOf(last), h);
      if h !in last.hosts {
        assert LastWithHost(specs, h) == LastWithHost(init, h);
      }
    }
  }

  /** Last write wins for names too. */
  lemma {:induction false} NameTableLastWins(table: Table, specs: seq<PluginSpec>, name: string)
    ensures match LastWithName(specs, name)
      case Some(k) => name in NameTable(table, specs) && NameTable(table, specs)[name] == Some(PluginOf(specs[k]))
      case None => (name in NameTable(table, specs) <==> name in table)
                   && (name in table ==> NameTable(table, specs)[name] == table[name])
  {
    if specs != [] {
      var init := specs[..|specs| - 1];
      NameTableLastWins(table, init, name);
      if specs[|specs| - 1].name != name {
        assert LastWithName(specs, name) == LastWithName(init, name);
      }
    }
  }

  /** The value operator[] returns: the stored entry, or a null pointer for a key never stored. */
  function Resolve(table: Table, key: string): (r: Option<Plugin>)
    ensures key !in table ==> r == None
  {
    if key in table then table[key] else None
  }

  /** operator[] stores a null entry for a missing key and changes nothing else. */
  function AfterLookup(table: Table, key: string): (r: Table)
    ensures key in r && Resolve(r, key) == Resolve(table, key)
    ensures forall k :: k in table ==> k in r && r[k] == table[k]
    ensures forall k :: k in r ==> k in table || k == key
  {
    if key in table then table else table[key := None]
  }

  /** The entries operator[] leaves behind for the keys looked up while absent. */
  function Nulls(probed: set<string>): Table {
    map k | k in probed :: None
  }

  /** Looking up one more absent key adds its null entry. */
  lemma NullsAdd(probed: set<string>, key: string)
    ensures Nulls(probed + {key}) == Nulls(probed)[key := None]
  {
  }

  /** A null entry stored before a hosts tuple none of whose hosts is that key commutes with registering it. */
  lemma {:induction false} RegisterHostsNull(table: Table, hosts: seq<string>, p: Plugin, key: string)
    requires key !in hosts
    ensures RegisterHosts(table[key := None], hosts, p) == RegisterHosts(table, hosts, p)[key := None]
    decreases |hosts|
  {
    if hosts != [] {
      assert table[key := None][hosts[0] := Some(p)] == table[hosts[0] := Some(p)][key := None];
      RegisterHostsNull(table[hosts[0] := Some(p)], hosts[1..], p, key);
    }
  }

  /** The null entry of a host no plugin declares survives every registration. */
  lemma {:induction false} HostTableNull(table: Table, specs: seq<PluginSpec>, key: string)
    requires key !in HostTable(table, specs)
    ensures HostTable(table[key := None], specs) == HostTable(table, specs)[key := None]
  {
    if specs != [] {
      var init := specs[..|specs| - 1];
      var last := specs[|specs| - 1];
      RegisterHostsEffect(HostTable(table, init), last.hosts, PluginOf(last), key);
      HostTableNull(table, init, key);
      RegisterHostsNull(HostTable(table, init), last.hosts, PluginOf(last), key);
    }
  }

  /** The null entry of a name no plugin is called survives every registration. */
  lemma {:induction false} NameTableNull(table: Table, specs: seq<PluginSpec>, key: string)
    requires key !in NameTable(table, specs)
    ensures NameTable(table[key := None], specs) == NameTable(table, specs)[key := None]
  {
    if specs != [] {
      var init := specs[..|specs| - 1];
      var last := specs[|specs| - 1];
      NameTableNull(table, init, key);
      assert NameTable(table[key := None], init)[last.name := Some(PluginOf(last))]
          == NameTable(table, init)[last.name := Some(PluginOf(last))][key := None];
    }
  }

  /** The plugin a host lookup finds: the last one constructed whose hosts tuple names it, or null. */
  lemma HostLookupFindsLast(probed: set<string>, specs: seq<PluginSpec>, host: string)
    ensures Resolve(HostTable(Nulls(probed), specs), host) == match LastWithHost(specs, host)
      case Some(k) => Some(PluginOf(specs[k]))
      case None => None
  {
    HostTableLastWins(Nulls(probed), specs, host);
  }

  /** The plugin a name lookup finds: the last one constructed under that name, or null. */
  lemma NameLookupFindsLast(probed: set<string>, specs: seq<PluginSpec>, name: string)
    ensures Resolve(NameTable(Nulls(probed), specs), name) == match LastWithName(specs, name)
      case Some(k) => Some(PluginOf(specs[k]))
      case None => None
  {
    NameTableLastWins(Nulls(probed), specs, name);
  }

  // ---------------------------------------------------------------------------
  // The registry

  /** The plugin array, the two tables and plugins_msg. */
  class Registry {
    var host2plugin: Table
    var name2plugin: Table
    const slots: array<Option<Plugin>>
    var nPlugins: nat
    var pluginsMsg: string
    ghost var registrations: seq<PluginSpec>  // what every plugin constructed so far read from its module, in order
    ghost var hostProbes: set<string>         // the hosts looked up while absent from host2plugin
    ghost var nameProbes: set<string>         // the names looked up while absent from name2plugin

    /** The array holds the constructed plugins in order, and each table is what registering them
        one after the other makes of the null entries earlier lookups left behind. */
    ghost predicate Valid()
      reads this, slots
    {
      && slots.Length == ArraySize
      && nPlugins == |registrations| <= ArraySize
      && (forall k :: 0 <= k < nPlugins ==> slots[k] == Some(PluginOf(registrations[k])))
      && host2plugin == HostTable(Nulls(hostProbes), registrations)
      && name2plugin == NameTable(Nulls(nameProbes), registrations)
    }

    constructor ()
      ensures Valid() && fresh(slots)
      ensures host2plugin == map[] && name2plugin == map[] && nPlugins == 0 && pluginsMsg == ""
      ensures registrations == [] && hostProbes == {} && nameProbes == {}
    {
      host2plugin := map[];
      name2plugin := map[];
      slots := new Option<Plugin>[ArraySize](_ => None);
      nPlugins := 0;
      pluginsMsg := "";
      registrations := [];
      hostProbes := {};
      nameProbes := {};
    }

    /** getPluginByHost: host2plugin[host], which stores a null entry for a host not yet present. */
    method GetPluginByHost(host: string) returns (p: Option<Plugin>)
      requires Valid()
      modifies this`host2plugin, this`hostProbes
      ensures Valid()
      ensures p == Resolve(old(host2plugin), host)
      ensures host2plugin == AfterLookup(old(host2plugin), host)
    {
      if host !in host2plugin {
        HostTableNull(Nulls(hostProbes), registrations, host);
        NullsAdd(hostProbes, host);
        host2plugin := host2plugin[host := None];
        hostProbes := hostProbes + {host};
      }
      p := host2plugin[host];
    }

    /** getPluginByName: name2plugin[name], likewise. */
    method GetPluginByName(name: string) returns (p: Option<Plugin>)
      requires Valid()
      modifies this`name2plugin, this`nameProbes
      ensures Valid()
      ensures p == Resolve(old(name2plugin), name)
      ensures name2plugin == AfterLookup(old(name2plugin), name)
    {
      if name !in name2plugin {
        NameTableNull(Nulls(nameProbes), registrations, name);
        NullsAdd(nameProbes, name);
        name2plugin := name2plugin[name := None];
        nameProbes := nameProbes + {name};
      }
      p := name2plugin[name];
    }

    /** new Plugin(moduleName): the checks of LoadModule, then hosts registered in tuple order, then the name. */
    method NewPlugin(moduleName: string, modules: Modules) returns (r: Result<Plugin, Fatal>)
      modifies this`host2plugin, this`name2plugin
      ensures var load := LoadModule(moduleName, modules);
        && (r.Failure? <==> load.Failure?)
        && (r.Failure? ==> r.error == load.error && unchanged(this))
        && (r.Success? ==>
             && r.value == PluginOf(load.value)
             && host2plugin == RegisterHosts(old(host2plugin), load.value.hosts, r.value)
             && name2plugin == old(name2plugin)[load.value.name := Some(r.value)])
    {
      var load := LoadModule(moduleName, modules);
      if load.Failure? {
        return Failure(load.error);
      }
      var spec := load.value;
      var p := PluginOf(spec);
      var hosts := spec.hosts;
      var i := 0;
      while i < |hosts|
        invariant 0 <= i <= |hosts|
        invariant RegisterHosts(host2plugin, hosts[i..], p) == RegisterHosts(old(host2plugin), hosts, p)
        invariant name2plugin == old(name2plugin)
      {
        assert hosts[i..][1..] == hosts[i + 1..];
        host2plugin := host2plugin[hosts[i] := Some(p)];
        i := i + 1;
      }
      assert hosts[i..] == [];
      name2plugin := name2plugin[spec.name := Some(p)];
      return Success(p);
    }

    /** array[n_plugins] = new Plugin(...); n_plugins++, with the bound checked first. */
    method AddPlugin(moduleName: string, modules: Modules) returns (r: Outcome<Fatal>)
      requires Valid()
      modifies this`host2plugin, this`name2plugin, this`registrations, this`nPlugins, slots
      ensures Valid()
      ensures var load := LoadModule(moduleName, modules);
        && (r.Pass? <==> old(nPlugins) < ArraySize && load.Success?)
        && (r.Fail? ==> r.error == if old(nPlugins) == ArraySize then TooManyPlugins else load.error)
        && (r.Fail? ==> registrations == old(registrations) && nPlugins == old(nPlugins))
        && (r.Pass? ==> registrations == old(registrations) + [load.value] && nPlugins == old(nPlugins) + 1)
    {
      if nPlugins == ArraySize {
        return Fail(TooManyPlugins);
      }
      ghost var specs := registrations;
      var p := NewPlugin(moduleName, modules);
      if p.Failure? {
        return Fail(p.error);
      }
      ghost var spec := LoadModule(moduleName, modules).value;
      Store(p.value, spec);
      return Pass;
    }

    /** array[n_plugins++] = the plugin just constructed, whose hosts and name are already registered. */
    method Store(p: Plugin, ghost spec: PluginSpec)
      requires p == PluginOf(spec)
      requires slots.Length == ArraySize && nPlugins == |registrations| < ArraySize
      requires forall k :: 0 <= k < nPlugins ==> slots[k] == Some(PluginOf(registrations[k]))
      requires host2plugin == RegisterHosts(HostTable(Nulls(hostProbes), registrations), spec.hosts, p)
      requires name2plugin == NameTable(Nulls(nameProbes), registrations)[spec.name := Some(p)]
      modifies this`registrations, this`nPlugins, slots
      ensures Valid()
      ensures registrations == old(registrations) + [spec] && nPlugins == old(nPlugins) + 1
    {
      assert (registrations + [spec])[..|registrations|] == registrations;
      slots[nPlugins] := Some(p);
      nPlugins := nPlugins + 1;
      registrations := registrations + [spec];
    }

    /** The next slot filled from one module, ahead of the loads that follow it. */
    method FillSlot(filename: string, modules: Modules, ghost all: Result<seq<PluginSpec>, Fatal>,
                    ghost r0: seq<PluginSpec>, ghost specs: seq<PluginSpec>, ghost rest: Result<seq<PluginSpec>, Fatal>)
      returns (r: Outcome<Fatal>, ghost specs': seq<PluginSpec>)
      requires Valid()
      requires nPlugins == ArraySize ==> all == Failure(TooManyPlugins)
      requires nPlugins < ArraySize ==> all == Prepend(specs, Take(ModuleName(filename), modules, rest))
      requires registrations == r0 + specs
      modifies this`host2plugin, this`name2plugin, this`registrations, this`nPlugins, slots
      ensures Valid()
      ensures r.Fail? ==> all == Failure(r.error)
      ensures r.Pass? ==> all == Prepend(specs', rest) && nPlugins == old(nPlugins) + 1
      ensures registrations == r0 + specs'
    {
      ghost var load := LoadModule(ModuleName(filename), modules);
      specs' := specs;
      r := AddPlugin(ModuleName(filename), modules);
      if r.Pass? {
        PrependTwice(specs, load.value, rest);
        AppendAssociates(r0, specs, load.value);
        specs' := specs + [load.value];
      }
    }

    /** One pass of the takeFirst loop: a plugin file's module is loaded into the next slot, any other file is skipped. */
    method TakeFirst(files: seq<string>, i: nat, modules: Modules, ghost all: Result<seq<PluginSpec>, Fatal>,
                     ghost r0: seq<PluginSpec>, ghost loaded: seq<PluginSpec>)
      returns (r: Outcome<Fatal>, ghost loaded': seq<PluginSpec>)
      requires Valid()
      requires i < |files|
      requires all == Prepend(loaded, LoadFrom(files, i, modules, ArraySize - nPlugins))
      requires registrations == r0 + loaded
      modifies this`host2plugin, this`name2plugin, this`registrations, this`nPlugins, slots
      ensures Valid()
      ensures r.Fail? ==> all == Failure(r.error)
      ensures r.Pass? ==> all == Prepend(loaded', LoadFrom(files, i + 1, modules, ArraySize - nPlugins))
      ensures registrations == r0 + loaded'
    {
      ghost var room := ArraySize - nPlugins;
      if IsPluginFile(files[i]) {
        ghost var rest := if room == 0 then Success([]) else LoadFrom(files, i + 1, modules, room - 1);
        LoadFromTake(files, i, modules, room);
        r, loaded' := FillSlot(files[i], modules, all, r0, loaded, rest);
      } else {
        LoadFromSkip(files, i, modules, room);
        r, loaded' := Pass, loaded;
      }
    }

    /** initPlugins: the inventory message, then every plugin file of the system listing followed by the user listing,
        loaded in order into the free slots of the array; a fatal load ends it. */
    method InitPlugins(systemFiles: seq<string>, userFiles: seq<string>, modules: Modules)
      returns (r: Outcome<Fatal>, ghost loaded: seq<PluginSpec>)
      requires Valid()
      modifies this, slots
      ensures Valid()
      ensures pluginsMsg == PluginsMessage(systemFiles, userFiles)
      ensures registrations == old(registrations) + loaded
      ensures hostProbes == old(hostProbes) && nameProbes == old(nameProbes)
      ensures var load := LoadAll(PluginModules(systemFiles + userFiles), modules, ArraySize - old(nPlugins));
        && (r.Pass? <==> load.Success?)
        && (r.Fail? ==> r.error == load.error)
        && (r.Pass? ==> loaded == load.value)
    {
      var msg := InventoryMessage(systemFiles, userFiles);
      pluginsMsg := msg;
      r, loaded := LoadFiles(systemFiles + userFiles, modules);
    }

    /** The takeFirst loop of initPlugins over the concatenated listing. */
    method LoadFiles(files: seq<string>, modules: Modules) returns (r: Outcome<Fatal>, ghost loaded: seq<PluginSpec>)
      requires Valid()
      modifies this`host2plugin, this`name2plugin, this`registrations, this`nPlugins, slots
      ensures Valid()
      ensures registrations == old(registrations) + loaded
      ensures var load := LoadAll(PluginModules(files), modules, ArraySize - old(nPlugins));
        && (r.Pass? <==> load.Success?)
        && (r.Fail? ==> r.error == load.error)
        && (r.Pass? ==> loaded == load.value)
    {
      ghost var r0 := registrations;
      ghost var all := LoadAll(PluginModules(files), modules, ArraySize - nPlugins);
      LoadFromIsLoadAll(files, 0, modules, ArraySize - nPlugins);
      assert files[0..] == files;
      loaded := [];
      assert Prepend(loaded, all) == all by {
        if all.Success? { assert [] + all.value == all.value; }
      }
      assert registrations == r0 + loaded;
      var i := 0;
      r := Pass;
      while i < |files| && r.Pass?
        invariant 0 <= i <= |files|
        invariant Valid()
        invariant r.Pass? ==> all == Prepend(loaded, LoadFrom(files, i, modules, ArraySize - nPlugins))
        invariant r.Fail? ==> all == Failure(r.error)
        invariant registrations == r0 + loaded
      {
        r, loaded := TakeFirst(files, i, modules, all, r0, loaded);
        i := i + 1;
      }
      if r.Pass? {
        assert all == Success(loaded) by {
          assert loaded + [] == loaded;
        }
      }
    }
  }

  /** The inventory message: the system listing, then the user listing, each under its heading. */
  method InventoryMessage(systemFiles: seq<string>, userFiles: seq<string>) returns (msg: string)
    ensures msg == PluginsMessage(systemFiles, userFiles)
  {
    msg := AppendListing("System plugins:\n    ", systemFiles);
    msg := AppendListing(msg + "\nPlugins installed by user:\n    ", userFiles);
  }

  /** The loop over one directory listing: each listed file, followed by a newline and indentation. */
  method AppendListing(head: string, files: seq<string>) returns (msg: string)
    ensures msg == head + Inventory(files)
  {
    msg := head;
    var i := 0;
    while i < |files|
      invariant 0 <= i <= |files|
      invariant msg == head + Inventory(files[..i])
    {
      assert files[..i + 1][..i] == files[..i];
      if IsListed(files[i]) {
        msg := msg + (files[i] + "\n    ");
      }
      i := i + 1;
    }
    assert files[..i] == files;
  }

  /** The loads the takeFirst loop makes from position i of the listing on, into `room` free slots. */
  function LoadFrom(files: seq<string>, i: nat, modules: Modules, room: nat): Result<seq<PluginSpec>, Fatal>
    requires i <= |files|
    decreases |files| - i
  {
    if i == |files| then Success([])
    else if !IsPluginFile(files[i]) then LoadFrom(files, i + 1, modules, room)
    else if room == 0 then Failure(TooManyPlugins)
    else Take(ModuleName(files[i]), modules, LoadFrom(files, i + 1, modules, room - 1))
  }

  /** A file that is not a plugin file imports nothing. */
  lemma LoadFromSkip(files: seq<string>, i: nat, modules: Modules, room: nat)
    requires i < |files| && !IsPluginFile(files[i])
    ensures LoadFrom(files, i, modules, room) == LoadFrom(files, i + 1, modules, room)
  {
  }

  /** A plugin file takes a slot: refused when none is free, and otherwise its module's load comes first. */
  lemma LoadFromTake(files: seq<string>, i: nat, modules: Modules, room: nat)
    requires i < |files| && IsPluginFile(files[i])
    ensures LoadFrom(files, i, modules, room) ==
      if room == 0 then Failure(TooManyPlugins) else Take(ModuleName(files[i]), modules, LoadFrom(files, i + 1, modules, room - 1))
  {
  }

  /** The loop's loads are those of the imported modules of the rest of the listing. */
  lemma {:induction false} LoadFromIsLoadAll(files: seq<string>, i: nat, modules: Modules, room: nat)
    requires i <= |files|
    ensures LoadFrom(files, i, modules, room) == LoadAll(PluginModules(files[i..]), modules, room)
    decreases |files| - i
  {
    if i < |files| {
      assert files[i..][0] == files[i];
      assert files[i..][1..] == files[i + 1..];
      if IsPluginFile(files[i]) {
        if room > 0 {
          LoadFromIsLoadAll(files, i + 1, modules, room - 1);
        }
      } else {
        LoadFromIsLoadAll(files, i + 1, modules, room);
      }
    } else {
      assert files[i..] == [];
    }
  }

  lemma AppendAssociates(a: seq<PluginSpec>, b: seq<PluginSpec>, x: PluginSpec)
    ensures a + b + [x] == a + (b + [x])
  {
  }

  /** The load of one module ahead of the loads that follow it. */
  function Take(moduleName: string, modules: Modules, rest: Result<seq<PluginSpec>, Fatal>): Result<seq<PluginSpec>, Fatal> {
    match LoadModule(moduleName, modules)
    case Failure(e) => Failure(e)
    case Success(spec) => Prepend([spec], rest)
  }

  /** Prepending in two steps is prepending once. */
  lemma PrependTwice(done: seq<PluginSpec>, spec: PluginSpec, rest: Result<seq<PluginSpec>, Fatal>)
    ensures Prepend(done, Prepend([spec], rest)) == Prepend(done + [spec], rest)
  {
    if rest.Success? {
      assert done + ([spec] + rest.value) == done + [spec] + rest.value;
    }
  }
}
